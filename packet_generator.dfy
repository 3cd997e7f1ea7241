/**
 * The synthetic traffic source (utils/packetGenerator.ts). Every `Math.random()` the
 * source calls is a pre-drawn roll in [0, 1) handed in by the caller, and `Date.now()`
 * is the parameter `now`; what remains is deterministic.
 */
module PacketGenerator {
  import opened Radix
  import opened Types

  /** A value `Math.random()` can return. */
  predicate IsRoll(r: real) {
    0.0 <= r < 1.0
  }

  /** `Math.floor(roll * w)` for a roll: an index in [0, w). */
  lemma FloorOfScaledRoll(roll: real, w: int)
    requires IsRoll(roll) && w >= 1
    ensures 0 <= (roll * w as real).Floor < w
  {
    assert 0.0 <= roll * w as real < w as real;
  }

  /** getRandomInt: the roll scaled to the max - min + 1 integers of the range, rounded
      down, and shifted to start at min. */
  function RandomInt(roll: real, min: int, max: int): (n: int)
    requires IsRoll(roll) && min <= max
    ensures min <= n <= max
  {
    FloorOfScaledRoll(roll, max - min + 1);
    (roll * (max - min + 1) as real).Floor + min
  }

  /** Every integer of [min, max] is drawn by some roll: the range is not narrower than
      asked for. */
  lemma RandomIntCoversRange(min: int, max: int, v: int)
    requires min <= v <= max
    ensures exists roll :: IsRoll(roll) && RandomInt(roll, min, max) == v
  {
    var w := (max - min + 1) as real;
    var roll := (v - min) as real / w;
    assert roll * w == (v - min) as real;
    assert IsRoll(roll);
    assert RandomInt(roll, min, max) == v;
  }

  /** `${n}`: the decimal text of a non-negative integer. */
  function Decimal(n: nat): string {
    ToRadix(n, 10)
  }

  /** Four octet values; `Text()` is their dotted form. */
  datatype Quad = Quad(a: nat, b: nat, c: nat, d: nat) {
    function Text(): string {
      Decimal(a) + "." + Decimal(b) + "." + Decimal(c) + "." + Decimal(d)
    }

    predicate IsOctets() {
      a <= 255 && b <= 255 && c <= 255 && d <= 255
    }

    /** The private-looking pool: 192.168.1.h or 10.x.0.h, with h never 0 or 255. */
    predicate InPrivatePool() {
      && ((a == 192 && b == 168 && c == 1) || (a == 10 && b <= 255 && c == 0))
      && 1 <= d <= 254
    }

    /** The public-looking pool: first octet 1..200, host octet never 0 or 255. */
    predicate InPublicPool() {
      1 <= a <= 200 && b <= 255 && c <= 255 && 1 <= d <= 254
    }
  }

  /** The rolls `generateIp` consumes; `secondOctetRoll` is used only on the 10.x branch. */
  datatype PrivateIpDraw = PrivateIpDraw(prefixRoll: real, secondOctetRoll: real, hostRoll: real)

  /** The four rolls `generatePublicIp` consumes, one per octet. */
  datatype PublicIpDraw = PublicIpDraw(firstRoll: real, secondRoll: real, thirdRoll: real, fourthRoll: real)

  predicate ValidPrivateDraw(d: PrivateIpDraw) {
    IsRoll(d.prefixRoll) && IsRoll(d.secondOctetRoll) && IsRoll(d.hostRoll)
  }

  predicate ValidPublicDraw(d: PublicIpDraw) {
    IsRoll(d.firstRoll) && IsRoll(d.secondRoll) && IsRoll(d.thirdRoll) && IsRoll(d.fourthRoll)
  }

  function GenerateIp(d: PrivateIpDraw): string
    requires ValidPrivateDraw(d)
  {
    var prefix :=
      if d.prefixRoll > 0.5 then "192.168.1"
      else "10." + Decimal(RandomInt(d.secondOctetRoll, 0, 255)) + ".0";
    prefix + "." + Decimal(RandomInt(d.hostRoll, 1, 254))
  }

  function GeneratePublicIp(d: PublicIpDraw): string
    requires ValidPublicDraw(d)
  {
    Decimal(RandomInt(d.firstRoll, 1, 200)) + "." + Decimal(RandomInt(d.secondRoll, 0, 255)) + "." +
    Decimal(RandomInt(d.thirdRoll, 0, 255)) + "." + Decimal(RandomInt(d.fourthRoll, 1, 254))
  }

  /** generateIp yields "192.168.1.h" when its first roll exceeds 0.5 and "10.x.0.h" otherwise,
      with x in [0, 255] and h in [1, 254]. */
  lemma GenerateIpShape(d: PrivateIpDraw)
    requires ValidPrivateDraw(d)
    ensures exists q: Quad :: q.InPrivatePool() && q.IsOctets() && GenerateIp(d) == q.Text()
    ensures d.prefixRoll > 0.5 ==> GenerateIp(d) == Quad(192, 168, 1, RandomInt(d.hostRoll, 1, 254)).Text()
    ensures d.prefixRoll <= 0.5 ==>
      GenerateIp(d) == Quad(10, RandomInt(d.secondOctetRoll, 0, 255), 0, RandomInt(d.hostRoll, 1, 254)).Text()
  {
    var h := RandomInt(d.hostRoll, 1, 254);
    var x := RandomInt(d.secondOctetRoll, 0, 255);
    assert Decimal(192) == "192" by {
      assert ToRadix(1, 10) == "1";
      assert ToRadix(19, 10) == "19";
    }
    assert Decimal(168) == "168" by {
      assert ToRadix(1, 10) == "1";
      assert ToRadix(16, 10) == "16";
    }
    assert Decimal(1) == "1" && Decimal(10) == "10" && Decimal(0) == "0";
    var q := if d.prefixRoll > 0.5 then Quad(192, 168, 1, h) else Quad(10, x, 0, h);
    assert GenerateIp(d) == q.Text();
  }

  /** generatePublicIp yields "a.b.c.d" with a in [1, 200], b and c in [0, 255], d in [1, 254]. */
  lemma GeneratePublicIpShape(d: PublicIpDraw)
    requires ValidPublicDraw(d)
    ensures exists q: Quad :: q.InPublicPool() && q.IsOctets() && GeneratePublicIp(d) == q.Text()
  {
    var q := Quad(RandomInt(d.firstRoll, 1, 200), RandomInt(d.secondRoll, 0, 255),
                  RandomInt(d.thirdRoll, 0, 255), RandomInt(d.fourthRoll, 1, 254));
    assert GeneratePublicIp(d) == q.Text();
  }

  /** The digits generatePayload draws from: upper-case hexadecimal. */
  const PayloadDigits: string := "0123456789ABCDEF"

  /** The payload digit a roll picks: the roll scaled to the sixteen digits, rounded down. */
  function PayloadChar(roll: real): char
    requires IsRoll(roll)
  {
    FloorOfScaledRoll(roll, |PayloadDigits|);
    PayloadDigits[(roll * |PayloadDigits| as real).Floor]
  }

  predicate AllRolls(rolls: seq<real>) {
    forall i :: 0 <= i < |rolls| ==> IsRoll(rolls[i])
  }

  /** The payload text for `length` bytes: character i comes from roll i. */
  function PayloadOf(length: nat, rolls: seq<real>): string
    requires 2 * length <= |rolls| && AllRolls(rolls)
  {
    seq(2 * length, i requires 0 <= i < 2 * length => PayloadChar(rolls[i]))
  }

  /** Every payload character is an upper-case hexadecimal digit, so the payload is a digit
      string of the radix the decoder reads. */
  lemma PayloadOfDigits(length: nat, rolls: seq<real>)
    requires 2 * length <= |rolls| && AllRolls(rolls)
    ensures |PayloadOf(length, rolls)| == 2 * length
    ensures forall i :: 0 <= i < 2 * length ==> PayloadOf(length, rolls)[i] in PayloadDigits
    ensures AllDigits(PayloadOf(length, rolls), 16)
  {
    var p := PayloadOf(length, rolls);
    forall i | 0 <= i < 2 * length
      ensures p[i] in PayloadDigits && IsDigit(p[i], 16)
    {
      FloorOfScaledRoll(rolls[i], |PayloadDigits|);
      var k := (rolls[i] * |PayloadDigits| as real).Floor;
      assert p[i] == PayloadDigits[k];
    }
  }

  /** generatePayload: appends 2 * length drawn digits one at a time. */
  method GeneratePayload(length: nat, rolls: seq<real>) returns (result: string)
    requires 2 * length <= |rolls| && AllRolls(rolls)
    ensures result == PayloadOf(length, rolls)
  {
    result := "";
    var i := 0;
    while i < length * 2
      invariant 0 <= i <= 2 * length
      invariant |result| == i
      invariant forall j :: 0 <= j < i ==> result[j] == PayloadChar(rolls[j])
    {
      result := result + [PayloadChar(rolls[i])];
      i := i + 1;
    }
  }

  /** All the rolls one call of generatePacket consumes. */
  datatype Draws = Draws(
    incomingRoll: real,
    protocolRoll: real,
    sourcePortRoll: real,
    lengthRoll: real,
    privateIp: PrivateIpDraw,
    publicIp: PublicIpDraw,
    payloadRolls: seq<real>)

  const MinLength := 40
  const MaxLength := 1500
  /** Captured payload bytes are capped at this many, whatever the declared length. */
  const PayloadCap := 256

  predicate ValidDraws(d: Draws) {
    && IsRoll(d.incomingRoll) && IsRoll(d.protocolRoll)
    && IsRoll(d.sourcePortRoll) && IsRoll(d.lengthRoll)
    && ValidPrivateDraw(d.privateIp) && ValidPublicDraw(d.publicIp)
    && AllRolls(d.payloadRolls)
    && 2 * Min(RandomInt(d.lengthRoll, MinLength, MaxLength), PayloadCap) <= |d.payloadRolls|
  }

  /** The destination port each protocol typically uses. */
  function DefaultPort(p: Protocol): int {
    match p
    case HTTP => 80
    case TLS => 443
    case UDP => 53
    case ICMP => 0
    case TCP => 80
  }

  /** The protocol choice of generatePacket and the destination port it sets with it. */
  function ChooseProtocol(roll: real): (Protocol, int) {
    if roll < 0.3 then (HTTP, 80)
    else if roll < 0.5 then (TLS, 443)
    else if roll < 0.7 then (UDP, 53)
    else if roll < 0.8 then (ICMP, 0)
    else (TCP, 80)
  }

  /** Each protocol is chosen by exactly one band of rolls, and the destination port set with
      it is that protocol's typical port. */
  lemma ProtocolBands(roll: real)
    requires IsRoll(roll)
    ensures ChooseProtocol(roll).0 == HTTP <==> roll < 0.3
    ensures ChooseProtocol(roll).0 == TLS <==> 0.3 <= roll < 0.5
    ensures ChooseProtocol(roll).0 == UDP <==> 0.5 <= roll < 0.7
    ensures ChooseProtocol(roll).0 == ICMP <==> 0.7 <= roll < 0.8
    ensures ChooseProtocol(roll).0 == TCP <==> 0.8 <= roll
    ensures ChooseProtocol(roll).1 == DefaultPort(ChooseProtocol(roll).0)
  {
  }

  /** The packet generatePacket returns for id `id`, time `now` and rolls `d`. */
  function PacketFor(id: int, now: int, d: Draws): Packet
    requires ValidDraws(d)
  {
    var isIncoming := d.incomingRoll > 0.4;
    var (protocol, serverPort) := ChooseProtocol(d.protocolRoll);
    var clientPort := RandomInt(d.sourcePortRoll, 1024, 65535);
    var length := RandomInt(d.lengthRoll, MinLength, MaxLength);
    Packet(
      id, now,
      if isIncoming then GeneratePublicIp(d.publicIp) else GenerateIp(d.privateIp),
      if isIncoming then serverPort else clientPort,
      if isIncoming then GenerateIp(d.privateIp) else GeneratePublicIp(d.publicIp),
      if isIncoming then clientPort else serverPort,
      protocol, length,
      PayloadOf(Min(length, PayloadCap), d.payloadRolls))
  }

  /** What every generated packet satisfies. */
  predicate WellFormed(p: Packet) {
    && 0 <= p.sourcePort <= 65535 && 0 <= p.destPort <= 65535
    && MinLength <= p.length <= MaxLength
    && |p.payload| == 2 * Min(p.length, PayloadCap)
    && AllDigits(p.payload, 16)
  }

  /** Bounds of a generated packet: length in [40, 1500], payload of exactly
      2 * min(length, 256) hexadecimal digits (so even, at most 512 and at most 2 * length),
      both ports in [0, 65535]. */
  lemma PacketForWellFormed(id: int, now: int, d: Draws)
    requires ValidDraws(d)
    ensures WellFormed(PacketFor(id, now, d))
    ensures |PacketFor(id, now, d).payload| % 2 == 0
    ensures |PacketFor(id, now, d).payload| <= 2 * PayloadCap
    ensures |PacketFor(id, now, d).payload| <= 2 * PacketFor(id, now, d).length
  {
    var p := PacketFor(id, now, d);
    PayloadOfDigits(Min(p.length, PayloadCap), d.payloadRolls);
    ProtocolBands(d.protocolRoll);
  }

  /** Both addresses of a generated packet are dotted quads of octets, one from the private
      pool and one from the public pool. */
  lemma PacketForAddresses(id: int, now: int, d: Draws)
    requires ValidDraws(d)
    ensures exists q: Quad :: q.IsOctets() && PacketFor(id, now, d).sourceIp == q.Text()
    ensures exists q: Quad :: q.IsOctets() && PacketFor(id, now, d).destIp == q.Text()
    ensures var p := PacketFor(id, now, d);
      exists q: Quad :: (q.InPrivatePool() && q.IsOctets()
        && (if d.incomingRoll > 0.4 then p.destIp else p.sourceIp) == q.Text())
    ensures var p := PacketFor(id, now, d);
      exists q: Quad :: (q.InPublicPool() && q.IsOctets()
        && (if d.incomingRoll > 0.4 then p.sourceIp else p.destIp) == q.Text())
  {
    var p := PacketFor(id, now, d);
    GenerateIpShape(d.privateIp);
    GeneratePublicIpShape(d.publicIp);
    var priv: Quad :| priv.InPrivatePool() && priv.IsOctets() && GenerateIp(d.privateIp) == priv.Text();
    var pub: Quad :| pub.InPublicPool() && pub.IsOctets() && GeneratePublicIp(d.publicIp) == pub.Text();
    if d.incomingRoll > 0.4 {
      assert p.sourceIp == pub.Text() && p.destIp == priv.Text();
    } else {
      assert p.sourceIp == priv.Text() && p.destIp == pub.Text();
    }
  }

  /** Direction: for incoming traffic (incoming roll above 0.4) the server port is on the
      source side and the public address is the source; otherwise both are on the
      destination side. The client port, drawn in [1024, 65535], is on the other side, so
      the two ports are exchanged exactly for incoming traffic. */
  lemma PacketForDirection(id: int, now: int, d: Draws)
    requires ValidDraws(d)
    ensures var p := PacketFor(id, now, d);
      && p.id == id && p.timestamp == now
      && p.protocol == ChooseProtocol(d.protocolRoll).0
      && (d.incomingRoll > 0.4 ==>
            && p.sourcePort == DefaultPort(p.protocol)
            && p.destPort == RandomInt(d.sourcePortRoll, 1024, 65535) && 1024 <= p.destPort <= 65535
            && p.sourceIp == GeneratePublicIp(d.publicIp) && p.destIp == GenerateIp(d.privateIp))
      && (d.incomingRoll <= 0.4 ==>
            && p.destPort == DefaultPort(p.protocol)
            && p.sourcePort == RandomInt(d.sourcePortRoll, 1024, 65535) && 1024 <= p.sourcePort <= 65535
            && p.sourceIp == GenerateIp(d.privateIp) && p.destIp == GeneratePublicIp(d.publicIp))
  {
    ProtocolBands(d.protocolRoll);
  }

  /** The module-level `packetCounter` and the `generatePacket` that advances it. */
  class Generator {
    var counter: nat

    /** The counter starts at 0, so the first packet gets id 1. */
    constructor ()
      ensures counter == 0
    {
      counter := 0;
    }

    /** generatePacket: increments the counter first and uses the new value as the id. */
    method Generate(d: Draws, now: int) returns (p: Packet)
      requires ValidDraws(d)
      modifies this
      ensures counter == old(counter) + 1
      ensures p == PacketFor(counter, now, d)
    {
      counter := counter + 1;
      var isIncoming := d.incomingRoll > 0.4;
      var protoRoll := d.protocolRoll;
      var protocol := TCP;
      var sPort := RandomInt(d.sourcePortRoll, 1024, 65535);
      var dPort := 80;
      if protoRoll < 0.3 {
        protocol := HTTP;
        dPort := 80;
      } else if protoRoll < 0.5 {
        protocol := TLS;
        dPort := 443;
      } else if protoRoll < 0.7 {
        protocol := UDP;
        dPort := 53;
      } else if protoRoll < 0.8 {
        protocol := ICMP;
        dPort := 0;
      }
      if isIncoming {
        var temp := sPort;
        sPort := dPort;
        dPort := temp;
      }
      var length := RandomInt(d.lengthRoll, MinLength, MaxLength);
      var sourceIp := if isIncoming then GeneratePublicIp(d.publicIp) else GenerateIp(d.privateIp);
      var destIp := if isIncoming then GenerateIp(d.privateIp) else GeneratePublicIp(d.publicIp);
      var payload := GeneratePayload(Min(length, PayloadCap), d.payloadRolls);
      p := Packet(counter, now, sourceIp, sPort, destIp, dPort, protocol, length, payload);
    }
  }
}
