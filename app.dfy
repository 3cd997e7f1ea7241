/**
 * The capture session of the front end (App.tsx): a bounded window of the packets the
 * capture timer has generated, whether capture runs, the selected packet, the auto-scroll
 * flag and the analysis text. A timer firing is the `Tick` event; the external analysis
 * service is an opaque string result handed to `FinishAnalysis`.
 */
module App {
  import opened Types
  import opened PacketGenerator
  import HexViewer

  /** The window keeps at most this many packets. */
  const MaxPackets := 1000

  /** The text shown while an analysis is pending. */
  const AnalysisPending := "正在分析数据包结构及载荷熵值..."

  /** The last n elements of s (all of s when it is shorter). */
  function Last<T>(s: seq<T>, n: nat): (r: seq<T>)
    ensures |r| == Min(|s|, n)
    ensures r == s[|s| - |r|..]
  {
    if |s| <= n then s else s[|s| - n..]
  }

  /** The `setPackets` updater of the capture timer: append, then keep the last 1000. */
  function AppendBounded(prev: seq<Packet>, p: Packet): (updated: seq<Packet>)
    ensures |updated| == Min(|prev| + 1, MaxPackets)
    ensures updated == (prev + [p])[|prev| + 1 - |updated|..]
    ensures updated[|updated| - 1] == p
  {
    var all := prev + [p];
    if |all| > MaxPackets then all[|all| - MaxPackets..] else all
  }

  /** Below the bound nothing is dropped; at the bound exactly the oldest packet is. */
  lemma AppendBoundedCases(prev: seq<Packet>, p: Packet)
    requires |prev| <= MaxPackets
    ensures |prev| < MaxPackets ==> AppendBounded(prev, p) == prev + [p]
    ensures |prev| == MaxPackets ==> AppendBounded(prev, p) == prev[1..] + [p]
  {
    if |prev| == MaxPackets {
      assert (prev + [p])[1..] == prev[1..] + [p];
    }
  }

  /** One updater step on the window of everything appended so far gives the window of
      everything appended including the new packet. */
  lemma WindowStep(all: seq<Packet>, p: Packet)
    ensures AppendBounded(Last(all, MaxPackets), p) == Last(all + [p], MaxPackets)
  {
    var w := Last(all, MaxPackets);
    var all' := all + [p];
    if |all| >= MaxPackets {
      assert w + [p] == all'[|all'| - MaxPackets - 1..];
    }
  }

  /** The packets list after the updater has run once for every packet of ps, from []. */
  function Replay(ps: seq<Packet>): seq<Packet> {
    if ps == [] then [] else AppendBounded(Replay(ps[..|ps| - 1]), ps[|ps| - 1])
  }

  /** Over any run of ticks, the list holds exactly the most recent min(total, 1000) packets,
      in the order they were appended. */
  lemma {:induction false} ReplayIsWindow(ps: seq<Packet>)
    ensures Replay(ps) == Last(ps, MaxPackets)
    decreases |ps|
  {
    if ps != [] {
      var init, x := ps[..|ps| - 1], ps[|ps| - 1];
      assert init + [x] == ps;
      ReplayIsWindow(init);
      WindowStep(init, x);
    }
  }

  /** Ids of s are consecutive and end at `last`. */
  predicate ConsecutiveIds(s: seq<Packet>, last: int) {
    forall i :: 0 <= i < |s| ==> s[i].id == last - |s| + 1 + i
  }

  /** Appending a packet whose id is one more keeps ids consecutive. */
  lemma ConsecutiveSnoc(s: seq<Packet>, last: int, p: Packet)
    requires ConsecutiveIds(s, last) && p.id == last + 1
    ensures ConsecutiveIds(s + [p], last + 1)
  {
    var t := s + [p];
    forall i | 0 <= i < |t| ensures t[i].id == last + 1 - |t| + 1 + i {
      if i < |s| { assert t[i] == s[i]; }
    }
  }

  /** A window of consecutive ids is consecutive and ends at the same id. */
  lemma LastKeepsIds(s: seq<Packet>, n: nat, last: int)
    requires ConsecutiveIds(s, last)
    ensures ConsecutiveIds(Last(s, n), last)
  {
    var r := Last(s, n);
    forall i | 0 <= i < |r| ensures r[i].id == last - |r| + 1 + i {
      assert r[i] == s[|s| - |r| + i];
    }
  }

  /** Every packet in s is well formed. */
  predicate AllWellFormed(s: seq<Packet>) {
    forall i :: 0 <= i < |s| ==> WellFormed(s[i])
  }

  /** The step of the capture timer keeps the session's invariant on the appended packets. */
  lemma AppendKeepsWindow(appended: seq<Packet>, packets: seq<Packet>, counter: int, p: Packet)
    requires packets == Last(appended, MaxPackets)
    requires ConsecutiveIds(appended, counter) && AllWellFormed(appended)
    requires p.id == counter + 1 && WellFormed(p)
    ensures AppendBounded(packets, p) == Last(appended + [p], MaxPackets)
    ensures ConsecutiveIds(appended + [p], counter + 1) && AllWellFormed(appended + [p])
  {
    WindowStep(appended, p);
    ConsecutiveSnoc(appended, counter, p);
    var t := appended + [p];
    forall i | 0 <= i < |t| ensures WellFormed(t[i]) {
      if i < |appended| { assert t[i] == appended[i]; }
    }
  }

  /** Every packet the list shows carries an even-length hexadecimal payload, which is what
      the hex viewer decodes when the packet is selected. */
  lemma ListedPayloadsDecode(appended: seq<Packet>)
    requires AllWellFormed(appended)
    ensures forall k :: 0 <= k < |Last(appended, MaxPackets)| ==>
      var q := Last(appended, MaxPackets)[k];
      HexViewer.IsHexString(q.payload) && |q.payload| % 2 == 0
  {
    var r := Last(appended, MaxPackets);
    forall k | 0 <= k < |r|
      ensures HexViewer.IsHexString(r[k].payload) && |r[k].payload| % 2 == 0
    {
      assert r[k] == appended[|appended| - |r| + k];
    }
  }

  class CaptureSession {
    /** The packet generator with its module-level counter. */
    const generator: Generator
    var packets: seq<Packet>
    var isCapturing: bool
    var selectedPacket: Option<Packet>
    var aiAnalysis: string
    var isAnalyzing: bool
    var autoScroll: bool
    /** How many capture timers are scheduled. */
    var activeIntervals: nat
    /** Every packet appended since the list was last cleared, oldest first. */
    ghost var appended: seq<Packet>

    /** The list is the window of what was appended, one timer runs exactly while capturing,
        and the appended packets are well formed with consecutive ids up to the counter. */
    ghost predicate Valid()
      reads this, generator
    {
      && packets == Last(appended, MaxPackets)
      && activeIntervals == (if isCapturing then 1 else 0)
      && ConsecutiveIds(appended, generator.counter)
      && AllWellFormed(appended)
    }

    /** The state the component mounts with. */
    constructor (gen: Generator)
      ensures Valid()
      ensures generator == gen
      ensures packets == [] && !isCapturing && selectedPacket == None
      ensures aiAnalysis == "" && !isAnalyzing && autoScroll
      ensures activeIntervals == 0
    {
      generator := gen;
      packets := [];
      isCapturing := false;
      selectedPacket := None;
      aiAnalysis := "";
      isAnalyzing := false;
      autoScroll := true;
      activeIntervals := 0;
      appended := [];
    }

    /** What the list component is told about auto-scrolling: it follows new packets only
        while capture runs, never after the user has turned auto-scroll off, and otherwise
        always. */
    function ListAutoScroll(): (follow: bool)
      reads this
      ensures !isCapturing ==> !follow
      ensures !autoScroll ==> !follow
      ensures isCapturing && autoScroll ==> follow
    {
      autoScroll && isCapturing
    }

    /** One firing of the capture timer, which exists only while capturing: generate a
        packet and run the updater. Nothing else changes; a packet that falls out of the
        window stays selected. */
    method Tick(d: Draws, now: int)
      requires Valid() && ValidDraws(d)
      modifies this, generator
      ensures Valid()
      ensures old(activeIntervals) == 0 ==>
        packets == old(packets) && generator.counter == old(generator.counter)
      ensures old(activeIntervals) > 0 ==>
        && generator.counter == old(generator.counter) + 1
        && packets == AppendBounded(old(packets), PacketFor(generator.counter, now, d))
      ensures isCapturing == old(isCapturing) && selectedPacket == old(selectedPacket)
      ensures aiAnalysis == old(aiAnalysis) && isAnalyzing == old(isAnalyzing)
      ensures autoScroll == old(autoScroll) && activeIntervals == old(activeIntervals)
    {
      if activeIntervals > 0 {
        var newPacket := generator.Generate(d, now);
        PacketForWellFormed(generator.counter, now, d);
        AppendKeepsWindow(appended, packets, old(generator.counter), newPacket);
        packets := AppendBounded(packets, newPacket);
        appended := appended + [newPacket];
      }
    }

    /** toggleCapture, followed by the effect on `isCapturing`: the cleanup clears the
        previous timer, and a new one is scheduled when capture is now on. */
    method Toggle()
      requires Valid()
      modifies this
      ensures Valid()
      ensures isCapturing == !old(isCapturing)
      ensures activeIntervals <= 1
      ensures packets == old(packets) && appended == old(appended)
      ensures selectedPacket == old(selectedPacket)
      ensures aiAnalysis == old(aiAnalysis) && isAnalyzing == old(isAnalyzing)
      ensures autoScroll == old(autoScroll)
    {
      isCapturing := !isCapturing;
      if activeIntervals > 0 {
        activeIntervals := activeIntervals - 1;
      }
      if isCapturing {
        activeIntervals := activeIntervals + 1;
      }
    }

    /** clearPackets, followed by the effect on `selectedPacket`, which resets the analysis
        when the selection was not already empty. */
    method Clear()
      requires Valid()
      modifies this
      ensures Valid()
      ensures packets == [] && selectedPacket == None
      ensures aiAnalysis == if old(selectedPacket) != None then "" else old(aiAnalysis)
      ensures isCapturing == old(isCapturing) && autoScroll == old(autoScroll)
      ensures isAnalyzing == old(isAnalyzing) && activeIntervals == old(activeIntervals)
    {
      if selectedPacket != None {
        aiAnalysis := "";
      }
      packets := [];
      appended := [];
      selectedPacket := None;
    }

    /** onSelect from the packet list, followed by the effect on `selectedPacket`. */
    method Select(p: Packet)
      requires Valid()
      modifies this
      ensures Valid()
      ensures selectedPacket == Some(p) && !autoScroll && !ListAutoScroll()
      ensures aiAnalysis == if old(selectedPacket) != Some(p) then "" else old(aiAnalysis)
      ensures packets == old(packets) && appended == old(appended)
      ensures isCapturing == old(isCapturing) && isAnalyzing == old(isAnalyzing)
      ensures activeIntervals == old(activeIntervals)
    {
      if selectedPacket != Some(p) {
        aiAnalysis := "";
      }
      selectedPacket := Some(p);
      autoScroll := false;
    }

    /** The "resume auto-scroll" button. */
    method ResumeAutoScroll()
      requires Valid()
      modifies this
      ensures Valid()
      ensures autoScroll && ListAutoScroll() == isCapturing
      ensures packets == old(packets) && appended == old(appended)
      ensures isCapturing == old(isCapturing) && selectedPacket == old(selectedPacket)
      ensures aiAnalysis == old(aiAnalysis) && isAnalyzing == old(isAnalyzing)
      ensures activeIntervals == old(activeIntervals)
    {
      autoScroll := true;
    }

    /** The synchronous part of handleAnalyze: nothing without a selection, otherwise the
        pending flag and the pending text. */
    method StartAnalysis()
      requires Valid()
      modifies this
      ensures Valid()
      ensures old(selectedPacket) == None ==>
        aiAnalysis == old(aiAnalysis) && isAnalyzing == old(isAnalyzing)
      ensures old(selectedPacket) != None ==> aiAnalysis == AnalysisPending && isAnalyzing
      ensures packets == old(packets) && appended == old(appended)
      ensures isCapturing == old(isCapturing) && selectedPacket == old(selectedPacket)
      ensures autoScroll == old(autoScroll) && activeIntervals == old(activeIntervals)
    {
      if selectedPacket == None {
        return;
      }
      isAnalyzing := true;
      aiAnalysis := AnalysisPending;
    }

    /** The continuation of handleAnalyze once the service answers: the answer is shown
        whatever has been selected in the meantime. */
    method FinishAnalysis(result: string)
      requires Valid()
      modifies this
      ensures Valid()
      ensures aiAnalysis == result && !isAnalyzing
      ensures packets == old(packets) && appended == old(appended)
      ensures isCapturing == old(isCapturing) && selectedPacket == old(selectedPacket)
      ensures autoScroll == old(autoScroll) && activeIntervals == old(activeIntervals)
    {
      aiAnalysis := result;
      isAnalyzing := false;
    }
  }
}
