/**
 * Digit strings as JavaScript produces and reads them: `Number.prototype.toString(radix)`
 * for a non-negative integer, `parseInt(s, radix)` for a string of valid digits, and
 * `String.prototype.padStart(width, fill)`. The packet generator, the payload decoder and
 * the address formatting all go through these three.
 */
module Radix {

  /** The digits `toString(radix)` emits, in order of value; letters are lower-case. */
  const DigitChars: string := "0123456789abcdef"

  predicate ValidRadix(radix: int) {
    2 <= radix <= 16
  }

  function DigitChar(d: nat): char
    requires d < 16
  {
    DigitChars[d]
  }

  /** The value `parseInt` gives a digit character (either letter case); 16 for a non-digit. */
  function DigitValue(c: char): nat {
    if '0' <= c <= '9' then (c - '0') as nat
    else if 'a' <= c <= 'f' then (c - 'a') as nat + 10
    else if 'A' <= c <= 'F' then (c - 'A') as nat + 10
    else 16
  }

  predicate IsDigit(c: char, radix: int) {
    DigitValue(c) < radix
  }

  predicate AllDigits(s: string, radix: int) {
    forall i :: 0 <= i < |s| ==> IsDigit(s[i], radix)
  }

  function Pow(b: nat, k: nat): (p: nat)
    ensures b >= 1 ==> p >= 1
  {
    if k == 0 then 1 else b * Pow(b, k - 1)
  }

  /** `n.toString(radix)`: the digits of `n`, most significant first. */
  function ToRadix(n: nat, radix: nat): (s: string)
    requires ValidRadix(radix)
    ensures |s| >= 1
    decreases n
  {
    if n < radix then [DigitChar(n)]
    else ToRadix(n / radix, radix) + [DigitChar(n % radix)]
  }

  /** `parseInt(s, radix)` for a string made only of digits of that radix (the decoder only
      reads non-empty ones). */
  function ValueOf(s: string, radix: nat): nat
    requires AllDigits(s, radix)
  {
    if s == [] then 0
    else ValueOf(s[..|s| - 1], radix) * radix + DigitValue(s[|s| - 1])
  }

  /** `s.padStart(width, fill)`: never shortens `s`; pads on the left up to `width`. */
  function PadStart(s: string, width: nat, fill: char): (r: string)
    ensures |r| == if |s| >= width then |s| else width
    ensures r[|r| - |s|..] == s
    ensures forall i :: 0 <= i < |r| - |s| ==> r[i] == fill
  {
    if |s| >= width then s else Repeat(fill, width - |s|) + s
  }

  function Repeat(c: char, n: nat): (r: string)
    ensures |r| == n
    ensures forall i :: 0 <= i < n ==> r[i] == c
  {
    if n == 0 then [] else [c] + Repeat(c, n - 1)
  }

  lemma DigitRoundTrip(d: nat)
    requires d < 16
    ensures DigitValue(DigitChar(d)) == d
  {
  }

  /** `toString(radix)` writes only lower-case digits of the radix and no leading zero. */
  lemma {:induction false} ToRadixDigits(n: nat, radix: nat)
    requires ValidRadix(radix)
    ensures AllDigits(ToRadix(n, radix), radix)
    ensures forall i :: 0 <= i < |ToRadix(n, radix)| ==> ToRadix(n, radix)[i] in DigitChars
    ensures ToRadix(n, radix)[0] == '0' ==> n == 0 && ToRadix(n, radix) == "0"
    decreases n
  {
    var s := ToRadix(n, radix);
    if n < radix {
      DigitRoundTrip(n);
    } else {
      DivModFacts(n, radix);
      DigitRoundTrip(n % radix);
      ToRadixDigits(n / radix, radix);
      var t := ToRadix(n / radix, radix);
      assert s == t + [DigitChar(n % radix)];
      assert s[0] == t[0];
      forall i | 0 <= i < |s| ensures IsDigit(s[i], radix) && s[i] in DigitChars {
        if i < |t| { assert s[i] == t[i]; }
      }
    }
  }

  /** Reading back what `toString(radix)` wrote gives the number again. */
  lemma {:induction false} ValueOfToRadix(n: nat, radix: nat)
    requires ValidRadix(radix)
    ensures AllDigits(ToRadix(n, radix), radix)
    ensures ValueOf(ToRadix(n, radix), radix) == n
    decreases n
  {
    var s := ToRadix(n, radix);
    ToRadixDigits(n, radix);
    if n < radix {
      DigitRoundTrip(n);
    } else {
      DivModFacts(n, radix);
      DigitRoundTrip(n % radix);
      ValueOfToRadix(n / radix, radix);
      assert s[..|s| - 1] == ToRadix(n / radix, radix);
    }
  }

  /** `toString(radix)` is one-to-one, so two numbers with the same digits are equal. */
  lemma ToRadixInjective(m: nat, n: nat, radix: nat)
    requires ValidRadix(radix)
    requires ToRadix(m, radix) == ToRadix(n, radix)
    ensures m == n
  {
    ValueOfToRadix(m, radix);
    ValueOfToRadix(n, radix);
  }

  /** A number below radix^k needs at most k digits. */
  lemma {:induction false} ToRadixLength(n: nat, radix: nat, k: nat)
    requires ValidRadix(radix) && 1 <= k
    requires n < Pow(radix, k)
    ensures |ToRadix(n, radix)| <= k
    decreases k
  {
    assert Pow(radix, 1) == radix;
    if n >= radix {
      DivBelowPow(n, radix, k);
      ToRadixLength(n / radix, radix, k - 1);
    }
  }

  lemma DivBelowPow(n: nat, radix: nat, k: nat)
    requires ValidRadix(radix) && 1 <= k && radix <= n
    requires n < Pow(radix, k)
    ensures n / radix < Pow(radix, k - 1)
  {
    var q := Pow(radix, k - 1);
    assert Pow(radix, k) == radix * q;
    DivModFacts(n, radix);
    LessFromProduct(n / radix, q, radix);
  }

  lemma DivModFacts(n: nat, radix: nat)
    requires ValidRadix(radix) && n >= radix
    ensures 0 < n / radix < n
    ensures n % radix < radix
    ensures n == (n / radix) * radix + n % radix
  {
  }

  lemma LessFromProduct(d: nat, q: nat, r: nat)
    requires r > 0 && d * r < q * r
    ensures d < q
  {
  }

  lemma ProductStep(v: nat, q: nat, r: nat, c: nat)
    requires v < q && c < r
    ensures v * r + c < q * r
  {
    var e := q - v;
    assert q * r == v * r + e * r;
    assert e * r >= r by {
      assert e * r == (e - 1) * r + r;
    }
  }

  /** A digit string of length k reads as a number below radix^k. */
  lemma {:induction false} ValueOfBound(s: string, radix: nat)
    requires ValidRadix(radix) && AllDigits(s, radix)
    ensures ValueOf(s, radix) < Pow(radix, |s|)
    decreases |s|
  {
    if s != [] {
      var init := s[..|s| - 1];
      ValueOfBound(init, radix);
      ProductStep(ValueOf(init, radix), Pow(radix, |init|), radix, DigitValue(s[|s| - 1]));
    }
  }

  /** Leading zeros, as `padStart(width, '0')` adds them, do not change the value. */
  lemma {:induction false} ValueOfLeadingZeros(z: nat, s: string, radix: nat)
    requires ValidRadix(radix) && AllDigits(s, radix)
    ensures AllDigits(Repeat('0', z) + s, radix)
    ensures ValueOf(Repeat('0', z) + s, radix) == ValueOf(s, radix)
    decreases |s|
  {
    var t := Repeat('0', z) + s;
    assert AllDigits(t, radix) by {
      forall i | 0 <= i < |t| ensures IsDigit(t[i], radix) {
        if i >= z { assert t[i] == s[i - z]; }
      }
    }
    if s == [] {
      assert t == Repeat('0', z);
      ZerosValue(z, radix);
    } else {
      var init := s[..|s| - 1];
      assert t[..|t| - 1] == Repeat('0', z) + init;
      ValueOfLeadingZeros(z, init, radix);
    }
  }

  lemma {:induction false} ZerosValue(z: nat, radix: nat)
    requires ValidRadix(radix)
    ensures AllDigits(Repeat('0', z), radix)
    ensures ValueOf(Repeat('0', z), radix) == 0
    decreases z
  {
    if z > 0 {
      var t := Repeat('0', z);
      assert t[..z - 1] == Repeat('0', z - 1);
      ZerosValue(z - 1, radix);
    }
  }

  /** `n.toString(radix).padStart(width, '0')` reads back as `n` whatever the width. */
  lemma PaddedValue(n: nat, radix: nat, width: nat)
    requires ValidRadix(radix)
    ensures AllDigits(PadStart(ToRadix(n, radix), width, '0'), radix)
    ensures ValueOf(PadStart(ToRadix(n, radix), width, '0'), radix) == n
  {
    var s := ToRadix(n, radix);
    ValueOfToRadix(n, radix);
    if |s| < width {
      ValueOfLeadingZeros(width - |s|, s, radix);
    }
  }

  /** ... is written in lower-case digits only ... */
  lemma PaddedDigitChars(n: nat, radix: nat, width: nat)
    requires ValidRadix(radix)
    ensures forall i :: 0 <= i < |PadStart(ToRadix(n, radix), width, '0')| ==>
      PadStart(ToRadix(n, radix), width, '0')[i] in DigitChars
  {
    var s := ToRadix(n, radix);
    var r := PadStart(s, width, '0');
    ToRadixDigits(n, radix);
    forall i | 0 <= i < |r| ensures r[i] in DigitChars {
      if i >= |r| - |s| {
        assert r[i] == r[|r| - |s|..][i - (|r| - |s|)];
      } else {
        assert r[i] == '0' == DigitChars[0];
      }
    }
  }

  /** ... and has exactly `width` digits whenever `n` fits in that many. */
  lemma PaddedLength(n: nat, radix: nat, width: nat)
    requires ValidRadix(radix) && 1 <= width && n < Pow(radix, width)
    ensures |PadStart(ToRadix(n, radix), width, '0')| == width
  {
    ToRadixLength(n, radix, width);
  }
}
