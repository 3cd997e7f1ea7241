/**
 * The payload decoder of the hex viewer (components/HexViewer.tsx): the payload text, two
 * hexadecimal digits per byte, is cut into rows of 16 bytes, and each row gets an offset,
 * its raw digits, an ASCII column and a binary column. The bytes of a chunk are the
 * matches of `/.{1,2}/g`: pairs of digits, the last one a single digit when the chunk has
 * odd length.
 */
module HexViewer {
  import opened Radix
  import opened Types

  /** Sixteen bytes, thirty-two hexadecimal digits, per row. */
  const RowChars := 32

  datatype Row = Row(offset: string, hex: string, ascii: string, binary: string)

  /** What the viewer can decode: a string of hexadecimal digits (either letter case). */
  predicate IsHexString(s: string) {
    AllDigits(s, 16)
  }

  /** s.match(/.{1,2}/g), with no match read as the empty list. */
  function Pairs(s: string): (ps: seq<string>)
    ensures |ps| == (|s| + 1) / 2
    ensures forall j :: 0 <= j < |ps| ==> 1 <= |ps[j]| <= 2
    decreases |s|
  {
    if s == [] then []
    else if |s| <= 2 then [s]
    else [s[..2]] + Pairs(s[2..])
  }

  /** parts.join(''). */
  function Concat(parts: seq<string>): string {
    if parts == [] then "" else parts[0] + Concat(parts[1..])
  }

  /** parts.join(sep). */
  function Join(parts: seq<string>, sep: string): string {
    if parts == [] then ""
    else if |parts| == 1 then parts[0]
    else parts[0] + sep + Join(parts[1..], sep)
  }

  /** The ASCII column character for a byte value: itself if printable (32..126), else '.'. */
  function AsciiChar(code: nat): char {
    if 32 <= code <= 126 then code as char else '.'
  }

  predicate AllHex(parts: seq<string>) {
    forall j :: 0 <= j < |parts| ==> IsHexString(parts[j])
  }

  /** bytes.map(byte => printable ? char : '.').join(''): one character per byte. */
  function AsciiOf(bytes: seq<string>): (r: string)
    requires AllHex(bytes)
    ensures |r| == |bytes|
  {
    if bytes == [] then ""
    else [AsciiChar(ValueOf(bytes[0], 16))] + AsciiOf(bytes[1..])
  }

  /** The binary group of a byte: its value in binary digits, padded on the left with '0' to
      eight characters. */
  function BinaryByte(byte: string): string
    requires IsHexString(byte)
  {
    PadStart(ToRadix(ValueOf(byte, 16), 2), 8, '0')
  }

  /** The binary groups of a list of bytes: one group per byte, in order. */
  function BinaryGroups(bytes: seq<string>): (groups: seq<string>)
    requires AllHex(bytes)
    ensures |groups| == |bytes|
  {
    if bytes == [] then [] else [BinaryByte(bytes[0])] + BinaryGroups(bytes[1..])
  }

  /** The 32 digits of the payload starting at digit i, both ends clamped to the payload's
      length as `substring` clamps them. */
  function Chunk(data: string, i: nat): string {
    data[Min(i, |data|)..Min(i + RowChars, |data|)]
  }

  /** The offset column for the chunk starting at digit i: the byte offset i / 2 in
      lower-case hexadecimal, padded on the left with '0' to eight characters. */
  function OffsetText(i: nat): string {
    PadStart(ToRadix(i / 2, 16), 8, '0')
  }

  /** The ASCII column of a chunk: one character per byte of it. */
  function AsciiColumn(chunk: string): string
    requires IsHexString(chunk)
  {
    PairsOfHex(chunk);
    AsciiOf(Pairs(chunk))
  }

  /** The binary column of a chunk: the bytes' binary groups joined by single spaces. */
  function BinaryColumn(chunk: string): string
    requires IsHexString(chunk)
  {
    PairsOfHex(chunk);
    Join(BinaryGroups(Pairs(chunk)), " ")
  }

  /** The row the loop pushes for the chunk starting at digit `i`. */
  function MakeRow(data: string, i: nat): Row
    requires IsHexString(data)
  {
    var chunk := Chunk(data, i);
    SliceOfHex(data, Min(i, |data|), Min(i + RowChars, |data|));
    Row(OffsetText(i), chunk, AsciiColumn(chunk), BinaryColumn(chunk))
  }

  function RowMaker(data: string): nat -> Row
    requires IsHexString(data)
  {
    (i: nat) => MakeRow(data, i)
  }

  /** [f(32m), f(32(m + 1)), ...] for every start below n: the starts of
      `for (i = 32m; i < n; i += 32)`. */
  function Strided<T>(n: nat, m: nat, f: nat -> T): seq<T>
    decreases n - RowChars * m
  {
    if RowChars * m >= n then [] else [f(RowChars * m)] + Strided(n, m + 1, f)
  }

  /** The number of passes of `for (i = 0; i < n; i += 32)`. */
  function RowCount(n: nat): nat {
    (n + RowChars - 1) / RowChars
  }

  /** The rows of a payload: one per chunk, at starts 0, 32, 64, ... */
  function Rows(data: string): seq<Row>
    requires IsHexString(data)
  {
    Strided(|data|, 0, RowMaker(data))
  }

  /** The `rows` memo: a loop stepping 32 digits at a time and pushing one row per step. */
  method ComputeRows(data: string) returns (rows: seq<Row>)
    requires IsHexString(data)
    ensures rows == Rows(data)
  {
    rows := [];
    var i := 0;
    RowsStart(data);
    while i < |data|
      invariant i == RowChars * |rows|
      invariant rows + Strided(|data|, |rows|, RowMaker(data)) == Rows(data)
      decreases |data| - i
    {
      RowsStep(data, rows);
      rows := rows + [MakeRow(data, i)];
      i := i + RowChars;
    }
    RowsEnd(data, rows);
  }

  /** The display form of a row's digits: its bytes separated by single spaces. */
  function SpacedHex(hex: string): string {
    Join(Pairs(hex), " ")
  }

  /** The viewer shows "no payload" exactly for the empty payload. */
  predicate ShowsNoPayload(data: string) {
    |data| == 0
  }

  /** The characters of a string other than spaces, in order. */
  function RemoveSpaces(s: string): string {
    if s == [] then [] else (if s[0] == ' ' then [] else [s[0]]) + RemoveSpaces(s[1..])
  }

  // ----- Sequences in general -----

  lemma AppendAssoc<T>(a: seq<T>, b: seq<T>, c: seq<T>)
    ensures (a + b) + c == a + (b + c)
  {
  }

  lemma EmptyAppend<T>(s: seq<T>)
    ensures [] + s == s
  {
  }

  lemma AppendEmpty<T>(s: seq<T>)
    ensures s + [] == s
  {
  }

  lemma SliceOfAppend<T>(x: seq<T>, y: seq<T>, a: nat, b: nat)
    requires |x| <= a <= b <= |x| + |y|
    ensures (x + y)[a..b] == y[a - |x|..b - |x|]
  {
  }

  lemma IndexOfAppend<T>(x: seq<T>, y: seq<T>, a: nat)
    requires |x| <= a < |x| + |y|
    ensures (x + y)[a] == y[a - |x|]
  {
  }

  lemma ConsAt<T>(x: T, rest: seq<T>, k: nat)
    requires k <= |rest|
    ensures ([x] + rest)[k] == if k == 0 then x else rest[k - 1]
  {
  }

  lemma StridedStep<T>(n: nat, m: nat, f: nat -> T)
    requires RowChars * m < n
    ensures Strided(n, m, f) == [f(RowChars * m)] + Strided(n, m + 1, f)
  {
  }

  lemma {:induction false} StridedLength<T>(n: nat, m: nat, f: nat -> T)
    ensures |Strided(n, m, f)| == if m <= RowCount(n) then RowCount(n) - m else 0
    decreases n - RowChars * m
  {
    if RowChars * m < n {
      StridedLength(n, m + 1, f);
    }
  }

  lemma {:induction false} StridedAt<T>(n: nat, m: nat, f: nat -> T, k: nat)
    requires k < |Strided(n, m, f)|
    ensures RowChars * (m + k) < n
    ensures Strided(n, m, f)[k] == f(RowChars * (m + k))
    decreases k
  {
    StridedLength(n, m, f);
    StridedStep(n, m, f);
    ConsAt(f(RowChars * m), Strided(n, m + 1, f), k);
    if k > 0 {
      StridedAt(n, m + 1, f, k - 1);
    }
  }

  // ----- The loop of `ComputeRows` -----

  lemma RowsStart(data: string)
    requires IsHexString(data)
    ensures [] + Strided(|data|, 0, RowMaker(data)) == Rows(data)
  {
    EmptyAppend(Strided(|data|, 0, RowMaker(data)));
  }

  lemma RowsStep(data: string, rows: seq<Row>)
    requires IsHexString(data) && RowChars * |rows| < |data|
    requires rows + Strided(|data|, |rows|, RowMaker(data)) == Rows(data)
    ensures (rows + [MakeRow(data, RowChars * |rows|)]) + Strided(|data|, |rows| + 1, RowMaker(data))
      == Rows(data)
  {
    var f := RowMaker(data);
    StridedStep(|data|, |rows|, f);
    assert f(RowChars * |rows|) == MakeRow(data, RowChars * |rows|);
    AppendAssoc(rows, [MakeRow(data, RowChars * |rows|)], Strided(|data|, |rows| + 1, f));
  }

  lemma RowsEnd(data: string, rows: seq<Row>)
    requires IsHexString(data) && RowChars * |rows| >= |data|
    requires rows + Strided(|data|, |rows|, RowMaker(data)) == Rows(data)
    ensures rows == Rows(data)
  {
    AppendEmpty(rows);
  }

  // ----- Lemmas about the pieces -----

  lemma SliceOfHex(data: string, i: nat, j: nat)
    requires IsHexString(data) && i <= j <= |data|
    ensures IsHexString(data[i..j])
  {
    assert forall k :: 0 <= k < j - i ==> data[i..j][k] == data[i + k];
  }

  lemma SliceOfSlice(s: string, a: nat, b: nat, c: nat, d: nat)
    requires a <= b <= |s| && c <= d <= b - a
    ensures s[a..b][c..d] == s[a + c..a + d]
  {
    var t := s[a..b][c..d];
    assert |t| == d - c;
    forall k | 0 <= k < d - c ensures t[k] == s[a + c..a + d][k] {
      assert t[k] == s[a..b][c + k] == s[a + c + k];
    }
  }

  /** Byte j of a chunk is its digits 2j and 2j + 1 (only 2j for a final odd digit). */
  lemma {:induction false} PairsAt(s: string, j: nat)
    requires j < |Pairs(s)|
    ensures Pairs(s)[j] == s[2 * j..Min(2 * j + 2, |s|)]
    decreases |s|
  {
    if |s| > 2 && j > 0 {
      PairsAt(s[2..], j - 1);
      assert s[2..][2 * (j - 1)..Min(2 * (j - 1) + 2, |s| - 2)] == s[2 * j..Min(2 * j + 2, |s|)];
    }
  }

  lemma PairsOfHex(s: string)
    requires IsHexString(s)
    ensures AllHex(Pairs(s))
  {
    var ps := Pairs(s);
    forall j | 0 <= j < |ps| ensures IsHexString(ps[j]) {
      PairsAt(s, j);
      SliceOfHex(s, 2 * j, Min(2 * j + 2, |s|));
    }
  }

  lemma {:induction false} AsciiOfAt(bytes: seq<string>, j: nat)
    requires AllHex(bytes) && j < |bytes|
    ensures AsciiOf(bytes)[j] == AsciiChar(ValueOf(bytes[j], 16))
    decreases |bytes|
  {
    if j > 0 {
      AsciiOfAt(bytes[1..], j - 1);
    }
  }

  lemma {:induction false} BinaryGroupsAt(bytes: seq<string>, j: nat)
    requires AllHex(bytes) && j < |bytes|
    ensures BinaryGroups(bytes)[j] == BinaryByte(bytes[j])
    decreases |bytes|
  {
    if j > 0 {
      BinaryGroupsAt(bytes[1..], j - 1);
    }
  }

  /** Splitting into bytes loses nothing: joining the bytes back gives the chunk. */
  lemma {:induction false} ConcatPairs(s: string)
    ensures Concat(Pairs(s)) == s
    decreases |s|
  {
    if |s| > 2 {
      ConcatPairs(s[2..]);
      assert Pairs(s)[1..] == Pairs(s[2..]);
      assert s == s[..2] + s[2..];
    }
  }

  lemma {:induction false} ConcatSnoc(parts: seq<string>, last: string)
    ensures Concat(parts + [last]) == Concat(parts) + last
    decreases |parts|
  {
    if parts != [] {
      assert (parts + [last])[1..] == parts[1..] + [last];
      ConcatSnoc(parts[1..], last);
    }
  }

  lemma {:induction false} RemoveSpacesAppend(a: string, b: string)
    ensures RemoveSpaces(a + b) == RemoveSpaces(a) + RemoveSpaces(b)
    decreases |a|
  {
    if a == [] {
      assert a + b == b;
    } else {
      assert (a + b)[0] == a[0];
      assert (a + b)[1..] == a[1..] + b;
      RemoveSpacesAppend(a[1..], b);
    }
  }

  lemma {:induction false} RemoveSpacesOfHex(s: string)
    requires IsHexString(s)
    ensures RemoveSpaces(s) == s
    decreases |s|
  {
    if s != [] {
      SliceOfHex(s, 1, |s|);
      RemoveSpacesOfHex(s[1..]);
    }
  }

  /** Dropping the separators of a space-joined list gives the plain concatenation. */
  lemma {:induction false} RemoveSpacesJoin(parts: seq<string>)
    requires AllHex(parts)
    ensures RemoveSpaces(Join(parts, " ")) == Concat(parts)
    decreases |parts|
  {
    if |parts| == 1 {
      RemoveSpacesOfHex(parts[0]);
      assert Concat(parts) == parts[0] + Concat([]);
    } else if |parts| > 1 {
      var rest := parts[1..];
      RemoveSpacesJoin(rest);
      RemoveSpacesOfHex(parts[0]);
      RemoveSpacesAppend(parts[0] + " ", Join(rest, " "));
      RemoveSpacesAppend(parts[0], " ");
    }
  }

  /** j * w written as repeated addition, which keeps the layout proofs linear. */
  function Times(j: nat, w: nat): nat {
    if j == 0 then 0 else w + Times(j - 1, w)
  }

  lemma {:induction false} TimesIsProduct(j: nat, w: nat)
    ensures Times(j, w) == j * w
  {
    if j > 0 { TimesIsProduct(j - 1, w); }
  }

  lemma {:induction false} TimesMonotone(a: nat, b: nat, w: nat)
    requires a <= b
    ensures Times(a, w) <= Times(b, w)
    decreases b
  {
    if a < b { TimesMonotone(a, b - 1, w); }
  }

  lemma {:induction false} JoinLength(parts: seq<string>, sep: char, L: nat)
    requires |parts| >= 1
    requires forall k :: 0 <= k < |parts| ==> |parts[k]| == L
    ensures |Join(parts, [sep])| == Times(|parts|, L + 1) - 1
    decreases |parts|
  {
    if |parts| > 1 {
      JoinLength(parts[1..], sep, L);
    }
  }

  /** Part j of `parts.join(sep)`, every part L characters and sep one character, occupies
      [j(L+1), j(L+1)+L). */
  lemma {:induction false} JoinPart(parts: seq<string>, sep: char, L: nat, j: nat)
    requires j < |parts|
    requires forall k :: 0 <= k < |parts| ==> |parts[k]| == L
    ensures |Join(parts, [sep])| == Times(|parts|, L + 1) - 1
    ensures Times(j, L + 1) + L + 1 <= Times(|parts|, L + 1)
    ensures Join(parts, [sep])[Times(j, L + 1)..Times(j, L + 1) + L] == parts[j]
    decreases |parts|
  {
    JoinLength(parts, sep, L);
    TimesMonotone(j + 1, |parts|, L + 1);
    if j > 0 {
      var t := Join(parts[1..], [sep]);
      JoinPart(parts[1..], sep, L, j - 1);
      var head := parts[0] + [sep];
      assert Join(parts, [sep]) == head + t;
      var b := Times(j - 1, L + 1);
      SliceOfAppend(head, t, L + 1 + b, L + 1 + b + L);
    }
  }

  /** ... and the separator follows every part but the last, at j(L+1)+L. */
  lemma {:induction false} JoinSep(parts: seq<string>, sep: char, L: nat, j: nat)
    requires j + 1 < |parts|
    requires forall k :: 0 <= k < |parts| ==> |parts[k]| == L
    ensures |Join(parts, [sep])| == Times(|parts|, L + 1) - 1
    ensures Times(j, L + 1) + L + 1 < Times(|parts|, L + 1)
    ensures Join(parts, [sep])[Times(j, L + 1) + L] == sep
    decreases |parts|
  {
    JoinLength(parts, sep, L);
    TimesMonotone(j + 2, |parts|, L + 1);
    var t := Join(parts[1..], [sep]);
    var head := parts[0] + [sep];
    assert Join(parts, [sep]) == head + t;
    if j > 0 {
      JoinSep(parts[1..], sep, L, j - 1);
      var b := Times(j - 1, L + 1);
      IndexOfAppend(head, t, L + 1 + b + L);
    }
  }

  /** The layout of `parts.join(sep)` when every part has L characters and sep is one
      character: part j occupies [j(L+1), j(L+1)+L) and the separator follows it. */
  lemma JoinLayout(parts: seq<string>, sep: char, L: nat, j: nat)
    requires |parts| >= 1
    requires forall k :: 0 <= k < |parts| ==> |parts[k]| == L
    ensures |Join(parts, [sep])| == Times(|parts|, L + 1) - 1
    ensures j < |parts| ==> Times(j, L + 1) + L + 1 <= Times(|parts|, L + 1)
    ensures j < |parts| ==> Join(parts, [sep])[Times(j, L + 1)..Times(j, L + 1) + L] == parts[j]
    ensures j + 1 < |parts| ==> Times(j, L + 1) + L + 1 < Times(|parts|, L + 1)
    ensures j + 1 < |parts| ==> Join(parts, [sep])[Times(j, L + 1) + L] == sep
  {
    JoinLength(parts, sep, L);
    if j < |parts| {
      JoinPart(parts, sep, L, j);
    }
    if j + 1 < |parts| {
      JoinSep(parts, sep, L, j);
    }
  }

  /** A byte (one or two hexadecimal digits) is below 256, so its binary form before padding
      has at most 8 digits. */
  lemma ByteBelow256(byte: string)
    requires IsHexString(byte) && 1 <= |byte| <= 2
    ensures ValueOf(byte, 16) < 256
  {
    ValueOfBound(byte, 16);
    assert Pow(16, 1) == 16;
    assert Pow(16, 2) == 16 * Pow(16, 1);
  }

  lemma PowTwoEight()
    ensures Pow(2, 8) == 256
  {
    assert Pow(2, 1) == 2;
    assert Pow(2, 2) == 2 * Pow(2, 1);
    assert Pow(2, 3) == 2 * Pow(2, 2);
    assert Pow(2, 4) == 2 * Pow(2, 3);
    assert Pow(2, 5) == 2 * Pow(2, 4);
    assert Pow(2, 6) == 2 * Pow(2, 5);
    assert Pow(2, 7) == 2 * Pow(2, 6);
    assert Pow(2, 8) == 2 * Pow(2, 7);
  }

  /** A value below 256 has an eight-digit padded binary form. */
  lemma BinaryFormLength(v: nat)
    requires v < 256
    ensures |PadStart(ToRadix(v, 2), 8, '0')| == 8
  {
    PowTwoEight();
    PaddedLength(v, 2, 8);
  }

  lemma BinaryDigits(b: string)
    requires |b| == 8 && AllDigits(b, 2)
    ensures forall c :: 0 <= c < 8 ==> b[c] == '0' || b[c] == '1'
  {
    forall c | 0 <= c < 8 ensures b[c] == '0' || b[c] == '1' {
      assert IsDigit(b[c], 2);
    }
  }

  /** A binary group is eight '0'/'1' characters whose binary value is the byte's value. */
  lemma BinaryByteRoundTrip(byte: string)
    requires IsHexString(byte) && 1 <= |byte| <= 2
    ensures |BinaryByte(byte)| == 8
    ensures forall c :: 0 <= c < 8 ==> BinaryByte(byte)[c] == '0' || BinaryByte(byte)[c] == '1'
    ensures AllDigits(BinaryByte(byte), 2)
    ensures ValueOf(BinaryByte(byte), 2) == ValueOf(byte, 16)
  {
    var v := ValueOf(byte, 16);
    ByteBelow256(byte);
    BinaryFormLength(v);
    PaddedValue(v, 2, 8);
    BinaryDigits(BinaryByte(byte));
  }

  // ----- The columns of one chunk -----

  /** The ASCII column has one character per byte; the character for a byte of value
      32..126 is that character and '.' for any other value. */
  lemma AsciiColumnAt(chunk: string, j: nat)
    requires IsHexString(chunk)
    ensures |AsciiColumn(chunk)| == |Pairs(chunk)| == (|chunk| + 1) / 2
    ensures AllHex(Pairs(chunk))
    ensures j < |AsciiColumn(chunk)| ==>
      var code := ValueOf(Pairs(chunk)[j], 16);
      && (32 <= code <= 126 ==> AsciiColumn(chunk)[j] == code as char)
      && (code < 32 || code > 126 ==> AsciiColumn(chunk)[j] == '.')
  {
    PairsOfHex(chunk);
    if j < |Pairs(chunk)| {
      AsciiOfAt(Pairs(chunk), j);
    }
  }

  /** Every byte of a chunk has an eight-character binary group of the same value. */
  lemma GroupsOfChunk(chunk: string, c: nat)
    requires IsHexString(chunk) && c < |Pairs(chunk)|
    ensures AllHex(Pairs(chunk))
    ensures |BinaryGroups(Pairs(chunk))[c]| == 8
    ensures AllDigits(BinaryGroups(Pairs(chunk))[c], 2)
    ensures ValueOf(BinaryGroups(Pairs(chunk))[c], 2) == ValueOf(Pairs(chunk)[c], 16)
  {
    PairsOfHex(chunk);
    BinaryGroupsAt(Pairs(chunk), c);
    BinaryByteRoundTrip(Pairs(chunk)[c]);
  }

  /** Eight-character groups joined by single spaces: group j at 9j, a space at 9j + 8. */
  lemma GroupsLayout(groups: seq<string>, j: nat)
    requires |groups| >= 1
    requires forall c :: 0 <= c < |groups| ==> |groups[c]| == 8
    ensures |Join(groups, " ")| == 9 * |groups| - 1
    ensures j < |groups| ==> Join(groups, " ")[9 * j..9 * j + 8] == groups[j]
    ensures j + 1 < |groups| ==> Join(groups, " ")[9 * j + 8] == ' '
  {
    JoinLayout(groups, ' ', 8, j);
    TimesIsProduct(|groups|, 9);
    TimesIsProduct(j, 9);
  }

  /** The binary column is one group of eight '0'/'1' per byte, equal in value to the byte,
      with single spaces between groups: 9n - 1 characters for n bytes. */
  lemma BinaryColumnAt(chunk: string, j: nat)
    requires IsHexString(chunk) && |chunk| >= 1
    ensures AllHex(Pairs(chunk))
    ensures var n := |Pairs(chunk)|;
      && n >= 1
      && |BinaryColumn(chunk)| == 9 * n - 1
      && (j < n ==>
            && AllDigits(BinaryColumn(chunk)[9 * j..9 * j + 8], 2)
            && ValueOf(BinaryColumn(chunk)[9 * j..9 * j + 8], 2) == ValueOf(Pairs(chunk)[j], 16))
      && (j + 1 < n ==> BinaryColumn(chunk)[9 * j + 8] == ' ')
  {
    PairsOfHex(chunk);
    var groups := BinaryGroups(Pairs(chunk));
    forall c | 0 <= c < |groups| ensures |groups[c]| == 8 {
      GroupsOfChunk(chunk, c);
    }
    GroupsLayout(groups, j);
    if j < |groups| {
      GroupsOfChunk(chunk, j);
    }
  }

  /** Dropping the spaces of the display form gives back the row's digits, for any chunk. */
  lemma SpacedHexRoundTrip(hex: string)
    requires IsHexString(hex)
    ensures RemoveSpaces(SpacedHex(hex)) == hex
  {
    PairsOfHex(hex);
    RemoveSpacesJoin(Pairs(hex));
    ConcatPairs(hex);
  }

  /** An even-length string splits into pairs only. */
  lemma EvenPairs(hex: string)
    requires |hex| % 2 == 0
    ensures |Pairs(hex)| == |hex| / 2
    ensures forall c :: 0 <= c < |Pairs(hex)| ==> |Pairs(hex)[c]| == 2
  {
    forall c | 0 <= c < |Pairs(hex)| ensures |Pairs(hex)[c]| == 2 {
      PairsAt(hex, c);
    }
  }

  /** The displayed digits of an even-length chunk of 2n digits: n pairs in order, single
      spaces between them, 3n - 1 characters; dropping the spaces gives the chunk back. */
  lemma SpacedHexLayout(hex: string, j: nat)
    requires IsHexString(hex) && |hex| >= 2 && |hex| % 2 == 0
    ensures RemoveSpaces(SpacedHex(hex)) == hex
    ensures |SpacedHex(hex)| == 3 * (|hex| / 2) - 1
    ensures j < |hex| / 2 ==> SpacedHex(hex)[3 * j..3 * j + 2] == hex[2 * j..2 * j + 2]
    ensures j + 1 < |hex| / 2 ==> SpacedHex(hex)[3 * j + 2] == ' '
  {
    var bytes := Pairs(hex);
    SpacedHexRoundTrip(hex);
    EvenPairs(hex);
    JoinLayout(bytes, ' ', 2, j);
    TimesIsProduct(|bytes|, 3);
    TimesIsProduct(j, 3);
    if j < |bytes| {
      PairsAt(hex, j);
    }
  }

  /** Byte "00" shows as '.' and "00000000". */
  lemma ZeroByteExample()
    ensures AsciiChar(ValueOf("00", 16)) == '.' && BinaryByte("00") == "00000000"
  {
    assert ValueOf("00", 16) == 0 by {
      assert "00"[..1] == "0";
      assert "0"[..0] == "";
    }
    assert ToRadix(0, 2) == "0";
    assert Repeat('0', 7) == "0000000";
  }

  /** Byte "41" shows as 'A' and "01000001". */
  lemma LetterByteExample()
    ensures AsciiChar(ValueOf("41", 16)) == 'A' && BinaryByte("41") == "01000001"
  {
    assert ValueOf("41", 16) == 65 by {
      assert "41"[..1] == "4";
      assert "4"[..0] == "";
    }
    BinaryOf65();
    assert Repeat('0', 1) == "0";
  }

  lemma BinaryOf65()
    ensures ToRadix(65, 2) == "1000001"
  {
    assert ToRadix(1, 2) == "1";
    assert ToRadix(2, 2) == "10";
    assert ToRadix(4, 2) == "100";
    assert ToRadix(8, 2) == "1000";
    assert ToRadix(16, 2) == "10000";
    assert ToRadix(32, 2) == "100000";
  }

  // ----- What the decoder promises about the rows -----

  /** There are ceil(n / 32) rows for n digits. */
  lemma RowsLength(data: string)
    requires IsHexString(data)
    ensures |Rows(data)| == RowCount(|data|)
  {
    StridedLength(|data|, 0, RowMaker(data));
  }

  /** Row k is the row built for the chunk at digit 32k, inside the payload. */
  lemma RowIs(data: string, k: nat)
    requires IsHexString(data) && k < |Rows(data)|
    ensures RowChars * k < |data|
    ensures Rows(data)[k] == MakeRow(data, RowChars * k)
  {
    StridedAt(|data|, 0, RowMaker(data), k);
  }

  lemma MakeRowHex(data: string, i: nat)
    requires IsHexString(data) && i < |data|
    ensures MakeRow(data, i).hex == data[i..Min(i + RowChars, |data|)]
    ensures IsHexString(MakeRow(data, i).hex) && 1 <= |MakeRow(data, i).hex| <= RowChars
  {
    assert MakeRow(data, i).hex == Chunk(data, i);
    SliceOfHex(data, i, Min(i + RowChars, |data|));
  }

  lemma MakeRowOffset(data: string, i: nat)
    requires IsHexString(data)
    ensures MakeRow(data, i).offset == OffsetText(i)
  {
  }

  lemma MakeRowColumns(data: string, i: nat)
    requires IsHexString(data)
    ensures IsHexString(MakeRow(data, i).hex)
    ensures MakeRow(data, i).ascii == AsciiColumn(MakeRow(data, i).hex)
    ensures MakeRow(data, i).binary == BinaryColumn(MakeRow(data, i).hex)
  {
  }

  /** The digits of row k are the payload's digits from 32k up to 32k + 32. */
  lemma RowHex(data: string, k: nat)
    requires IsHexString(data) && k < |Rows(data)|
    ensures RowChars * k < |data|
    ensures Rows(data)[k].hex == data[RowChars * k..Min(RowChars * k + RowChars, |data|)]
    ensures IsHexString(Rows(data)[k].hex) && 1 <= |Rows(data)[k].hex| <= RowChars
  {
    RowIs(data, k);
    MakeRowHex(data, RowChars * k);
  }

  /** Row k is built from the chunk at digit 32k: its columns are that chunk's columns. */
  lemma RowFields(data: string, k: nat)
    requires IsHexString(data) && k < |Rows(data)|
    ensures RowChars * k < |data|
    ensures Rows(data)[k].hex == data[RowChars * k..Min(RowChars * k + RowChars, |data|)]
    ensures IsHexString(Rows(data)[k].hex) && 1 <= |Rows(data)[k].hex| <= RowChars
    ensures Rows(data)[k].offset == OffsetText(RowChars * k)
    ensures Rows(data)[k].ascii == AsciiColumn(Rows(data)[k].hex)
    ensures Rows(data)[k].binary == BinaryColumn(Rows(data)[k].hex)
  {
    RowHex(data, k);
    RowIs(data, k);
    MakeRowOffset(data, RowChars * k);
    MakeRowColumns(data, RowChars * k);
  }

  /** ceil: enough rows to hold every digit, and no row more than needed. */
  lemma RowCountIsCeiling(n: nat)
    ensures RowCount(n) * RowChars >= n
    ensures RowCount(n) > 0 ==> (RowCount(n) - 1) * RowChars < n
    ensures RowCount(n) == 0 <==> n == 0
  {
  }

  /** An empty payload gives no rows and the "no payload" notice; any other payload gives
      rows and no notice. */
  lemma NoPayloadIffNoRows(data: string)
    requires IsHexString(data)
    ensures ShowsNoPayload(data) <==> |Rows(data)| == 0
  {
    RowsLength(data);
  }

  function HexColumn(rows: seq<Row>): seq<string> {
    seq(|rows|, k requires 0 <= k < |rows| => rows[k].hex)
  }

  /** `hexes` holds the consecutive 32-digit slices of `data`. */
  predicate IsChunking(data: string, hexes: seq<string>) {
    forall k :: 0 <= k < |hexes| ==>
      RowChars * k < |data| && hexes[k] == data[RowChars * k..Min(RowChars * k + RowChars, |data|)]
  }

  lemma {:induction false} ChunksPrefix(data: string, hexes: seq<string>, m: nat)
    requires IsChunking(data, hexes) && m <= |hexes|
    ensures Concat(hexes[..m]) == data[..Min(RowChars * m, |data|)]
    decreases m
  {
    if m == 0 {
      assert hexes[..0] == [];
    } else {
      ChunksPrefix(data, hexes, m - 1);
      assert hexes[..m] == hexes[..m - 1] + [hexes[m - 1]];
      ConcatSnoc(hexes[..m - 1], hexes[m - 1]);
      var i := RowChars * (m - 1);
      assert hexes[m - 1] == data[i..Min(i + RowChars, |data|)];
      assert data[..i] + data[i..Min(i + RowChars, |data|)] == data[..Min(RowChars * m, |data|)];
    }
  }

  lemma HexColumnIsChunking(data: string)
    requires IsHexString(data)
    ensures IsChunking(data, HexColumn(Rows(data)))
  {
    var hexes := HexColumn(Rows(data));
    forall k | 0 <= k < |hexes|
      ensures RowChars * k < |data| && hexes[k] == data[RowChars * k..Min(RowChars * k + RowChars, |data|)]
    {
      RowFields(data, k);
    }
  }

  /** The rows' chunks are consecutive and do not overlap: concatenated in order they give
      back the payload, every row but the last holds 32 digits and the last between 1 and
      32. */
  lemma RowsCoverPayload(data: string)
    requires IsHexString(data)
    ensures |HexColumn(Rows(data))| == RowCount(|data|)
    ensures Concat(HexColumn(Rows(data))) == data
    ensures forall k :: 0 <= k < |HexColumn(Rows(data))| - 1 ==> |HexColumn(Rows(data))[k]| == RowChars
    ensures |HexColumn(Rows(data))| > 0 ==>
      1 <= |HexColumn(Rows(data))[|HexColumn(Rows(data))| - 1]| <= RowChars
  {
    RowsLength(data);
    HexColumnIsChunking(data);
    ChunkingCovers(data, HexColumn(Rows(data)));
  }

  lemma ChunkingCovers(data: string, hexes: seq<string>)
    requires IsChunking(data, hexes) && |hexes| == RowCount(|data|)
    ensures Concat(hexes) == data
    ensures forall k :: 0 <= k < |hexes| - 1 ==> |hexes[k]| == RowChars
    ensures |hexes| > 0 ==> 1 <= |hexes[|hexes| - 1]| <= RowChars
  {
    ChunksPrefix(data, hexes, |hexes|);
    assert hexes[..|hexes|] == hexes;
  }

  lemma OffsetTextFacts(i: nat)
    ensures forall c :: 0 <= c < |OffsetText(i)| ==> OffsetText(i)[c] in DigitChars
    ensures AllDigits(OffsetText(i), 16)
    ensures ValueOf(OffsetText(i), 16) == i / 2
    ensures i / 2 < Pow(16, 8) ==> |OffsetText(i)| == 8
  {
    PaddedValue(i / 2, 16, 8);
    PaddedDigitChars(i / 2, 16, 8);
    if i / 2 < Pow(16, 8) {
      PaddedLength(i / 2, 16, 8);
    }
  }

  /** Row k's offset is the byte offset 16k: lower-case hexadecimal digits that read back as
      16k, exactly eight of them while 16k fits (any payload this program makes does). */
  lemma RowOffset(data: string, k: nat)
    requires IsHexString(data) && k < |Rows(data)|
    ensures forall c :: 0 <= c < |Rows(data)[k].offset| ==> Rows(data)[k].offset[c] in DigitChars
    ensures AllDigits(Rows(data)[k].offset, 16)
    ensures ValueOf(Rows(data)[k].offset, 16) == 16 * k
    ensures 16 * k < Pow(16, 8) ==> |Rows(data)[k].offset| == 8
  {
    RowFields(data, k);
    OffsetTextFacts(RowChars * k);
  }

  /** A byte of row k, located in the payload itself: digits 32k + 2j and 32k + 2j + 1. */
  lemma RowByte(data: string, k: nat, j: nat)
    requires IsHexString(data) && k < |Rows(data)|
    requires j < |Pairs(Rows(data)[k].hex)|
    ensures RowChars * k + 2 * j < |data|
    ensures Pairs(Rows(data)[k].hex)[j] ==
      data[RowChars * k + 2 * j..Min(RowChars * k + 2 * j + 2, |data|)]
  {
    var i, hex := RowChars * k, Rows(data)[k].hex;
    assert i < |data| && hex == data[i..Min(i + RowChars, |data|)] by {
      RowHex(data, k);
    }
    assert i + 2 * j < |data| && Pairs(hex)[j] == data[i + 2 * j..Min(i + 2 * j + 2, |data|)] by {
      ChunkByte(data, i, hex, j);
    }
  }

  lemma ChunkByte(data: string, i: nat, hex: string, j: nat)
    requires i < |data| && hex == data[i..Min(i + RowChars, |data|)]
    requires j < |Pairs(hex)|
    ensures i + 2 * j < |data|
    ensures Pairs(hex)[j] == data[i + 2 * j..Min(i + 2 * j + 2, |data|)]
  {
    PairsAt(hex, j);
    SliceOfSlice(data, i, Min(i + RowChars, |data|), 2 * j, Min(2 * j + 2, |hex|));
  }

  /** A 17-byte payload has two rows; the second holds the one remaining byte at offset
      "00000010". */
  lemma SeventeenBytes(data: string)
    requires IsHexString(data) && |data| == 34
    ensures |Rows(data)| == 2
    ensures Rows(data)[0].offset == "00000000" && |Rows(data)[0].hex| == RowChars
    ensures Rows(data)[1].offset == "00000010" && Rows(data)[1].hex == data[RowChars..]
  {
    RowsLength(data);
    RowFields(data, 0);
    RowFields(data, 1);
    FirstOffsets();
  }

  lemma FirstOffsets()
    ensures OffsetText(0) == "00000000"
    ensures OffsetText(RowChars) == "00000010"
  {
    assert ToRadix(0, 16) == "0";
    assert Repeat('0', 7) == "0000000";
    assert ToRadix(1, 16) == "1";
    assert ToRadix(16, 16) == "10";
    assert Repeat('0', 6) == "000000";
  }
}
