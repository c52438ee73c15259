/**
 * `formatFileSize(bytes)`, the same in both handlers, over integers.
 *
 * The source picks `i = floor(log(bytes) / log(1024))`, renders
 * `bytes / 1024^i` with `toFixed(2)`, reads that back with `parseFloat`
 * and prints it followed by ' ' and `sizes[i]`. For a whole number of bytes
 * the quotient is exact in binary floating point, so the model computes
 * it in hundredths: `toFixed(2)` picks the nearest number of hundredths
 * (the larger one on a tie) and printing the re-read number drops trailing
 * zeros after the point.
 */
module FileSize {
  import opened Common

  function Pow1024(i: nat): (p: nat)
    ensures p >= 1
  {
    if i == 0 then 1 else 1024 * Pow1024(i - 1)
  }

  lemma {:induction false} Pow1024Monotone(a: nat, b: nat)
    requires a <= b
    ensures Pow1024(a) <= Pow1024(b)
    decreases b
  {
    if a < b {
      Pow1024Monotone(a, b - 1);
    }
  }

  /** `Math.floor(Math.log(bytes) / Math.log(1024))`, exactly. */
  function UnitIndex(bytes: nat): (i: nat)
    requires bytes > 0
    ensures Pow1024(i) <= bytes < Pow1024(i + 1)
    decreases bytes
  {
    if bytes < 1024 then 0
    else
      var j := UnitIndex(bytes / 1024);
      assert Pow1024(j + 1) == 1024 * Pow1024(j);
      assert Pow1024(j + 2) == 1024 * Pow1024(j + 1);
      assert 1024 * (bytes / 1024) <= bytes < 1024 * (bytes / 1024 + 1);
      1 + j
  }

  /** Only one unit index fits the size: it is the largest `i` with `1024^i <= bytes`. */
  lemma UnitIndexUnique(bytes: nat, i: nat)
    requires Pow1024(i) <= bytes < Pow1024(i + 1)
    ensures bytes > 0 && i == UnitIndex(bytes)
  {
    var k := UnitIndex(bytes);
    if i < k {
      Pow1024Monotone(i + 1, k);
    } else if k < i {
      Pow1024Monotone(k + 1, i);
    }
  }

  /**
   * `n` is what `toFixed(2)` makes of `a / (100 * p)` when counted in
   * hundredths: `n * p` is within half of `p` of `a`, and on a tie `n` is
   * the larger candidate.
   */
  predicate RoundsTo(a: int, p: int, n: int)
  {
    -p <= 2 * (a - n * p) < p
  }

  lemma RoundHalfUp(a: int, p: int)
    requires p > 0
    ensures RoundsTo(a, p, (2 * a + p) / (2 * p))
  {
    var d, x := 2 * p, 2 * a + p;
    var q, r := x / d, x % d;
    assert x == d * q + r;
    assert d * q == 2 * (q * p);
  }

  lemma MulAtLeast(k: int, p: int)
    requires k >= 1 && p > 0
    ensures k * p >= p
  {
  }

  lemma DivNonneg(x: int, d: int)
    requires x >= 0 && d > 0
    ensures x / d >= 0
  {
    var q, r := x / d, x % d;
    assert x == d * q + r;
    if q < 0 {
      MulAtLeast(-q, d);
      assert false;
    }
  }

  lemma MulLe(a: int, b: int, p: int)
    requires a <= b && p > 0
    ensures a * p <= b * p
  {
  }

  /** The rounding rule leaves one candidate. */
  lemma RoundsToUnique(a: int, p: int, m: int, n: int)
    requires p > 0 && RoundsTo(a, p, m) && RoundsTo(a, p, n)
    ensures m == n
  {
    if m != n {
      var lo, hi := if m < n then m else n, if m < n then n else m;
      MulAtLeast(hi - lo, p);
    }
  }

  /** `(bytes / 1024^i).toFixed(2)` as a whole number of hundredths. */
  function Hundredths(bytes: nat, i: nat): (n: nat)
    ensures RoundsTo(100 * bytes, Pow1024(i), n)
  {
    var p := Pow1024(i);
    RoundHalfUp(100 * bytes, p);
    DivNonneg(200 * bytes + p, 2 * p);
    (200 * bytes + p) / (2 * p)
  }

  /** For the unit the source picks, the rendered number lies in [1, 1024]. */
  lemma HundredthsRange(bytes: nat)
    requires bytes > 0
    ensures 100 <= Hundredths(bytes, UnitIndex(bytes)) <= 102400
  {
    var i := UnitIndex(bytes);
    var p, n := Pow1024(i), Hundredths(bytes, i);
    assert Pow1024(i + 1) == 1024 * p;
    if n < 100 {
      MulLe(n, 99, p);
    }
    if n > 102400 {
      MulLe(102401, n, p);
    }
  }

  function Digit(d: nat): char
    requires d < 10
  {
    ('0' as int + d) as char
  }

  predicate IsDigit(c: char)
  {
    '0' <= c <= '9'
  }

  lemma DigitRoundTrip(d: nat)
    requires d < 10
    ensures IsDigit(Digit(d)) && DigitValue(Digit(d)) == d
  {
  }

  predicate AllDigits(s: string)
  {
    forall k :: 0 <= k < |s| ==> IsDigit(s[k])
  }

  function DigitValue(c: char): nat
    requires IsDigit(c)
  {
    (c as int - '0' as int) as nat
  }

  /** A whole number printed in decimal, without leading zeros. */
  function NatText(n: nat): (s: string)
    ensures |s| >= 1 && AllDigits(s)
    ensures |s| > 1 ==> s[0] != '0'
  {
    if n < 10 then [Digit(n)] else NatText(n / 10) + [Digit(n % 10)]
  }

  /** The number a string of decimal digits denotes. */
  function NatValue(s: string): nat
    requires AllDigits(s)
  {
    if s == [] then 0 else 10 * NatValue(s[..|s| - 1]) + DigitValue(s[|s| - 1])
  }

  lemma {:induction false} NatTextRoundTrip(n: nat)
    ensures NatValue(NatText(n)) == n
  {
    var s := NatText(n);
    if n >= 10 {
      NatTextRoundTrip(n / 10);
      assert s[..|s| - 1] == NatText(n / 10);
    }
    assert DigitValue(Digit(n % 10)) == n % 10;
  }

  /**
   * The printed fraction with tenths digit `d1` and hundredths digit `d2`:
   * nothing, `.d1` or `.d1d2`, never with a trailing zero.
   */
  function FracText(d1: nat, d2: nat): string
    requires d1 < 10 && d2 < 10
  {
    if d2 != 0 then ['.', Digit(d1), Digit(d2)]
    else if d1 != 0 then ['.', Digit(d1)]
    else []
  }

  /**
   * How JavaScript prints the number `n / 100`: the whole part, then the
   * fraction with trailing zeros dropped (no point when nothing is left).
   */
  function DecimalText(n: nat): (s: string)
    ensures |s| >= |NatText(n / 100)| && s[..|NatText(n / 100)|] == NatText(n / 100)
    ensures '.' in s <==> n % 100 != 0
    ensures n % 100 != 0 ==> |s| >= 3 && s[|s| - 1] != '0'
  {
    var w, f := NatText(n / 100), n % 100;
    assert f == 10 * (f / 10) + f % 10;
    assert forall k :: 0 <= k < |w| ==> w[k] != '.';
    w + FracText(f / 10, f % 10)
  }

  /**
   * Reads a number of hundredths back from text of the form
   * `digits`, `digits.d` or `digits.dd`.
   */
  function ReadHundredths(s: string): Option<nat>
  {
    if |s| >= 4 && s[|s| - 3] == '.' then
      var w, d1, d2 := s[..|s| - 3], s[|s| - 2], s[|s| - 1];
      if AllDigits(w) && IsDigit(d1) && IsDigit(d2)
      then Some(100 * NatValue(w) + 10 * DigitValue(d1) + DigitValue(d2)) else None
    else if |s| >= 3 && s[|s| - 2] == '.' then
      var w, d1 := s[..|s| - 2], s[|s| - 1];
      if AllDigits(w) && IsDigit(d1)
      then Some(100 * NatValue(w) + 10 * DigitValue(d1)) else None
    else if |s| >= 1 && AllDigits(s) then
      Some(100 * NatValue(s))
    else None
  }

  lemma ReadWhole(s: string)
    requires |s| >= 1 && AllDigits(s)
    ensures ReadHundredths(s) == Some(100 * NatValue(s))
  {
    if |s| >= 4 { assert IsDigit(s[|s| - 3]); }
    if |s| >= 3 { assert IsDigit(s[|s| - 2]); }
  }

  lemma ReadOneDecimal(s: string)
    requires |s| >= 3 && s[|s| - 2] == '.' && s[|s| - 3] != '.'
    requires AllDigits(s[..|s| - 2]) && IsDigit(s[|s| - 1])
    ensures ReadHundredths(s) == Some(100 * NatValue(s[..|s| - 2]) + 10 * DigitValue(s[|s| - 1]))
  {
  }

  lemma ReadTwoDecimals(s: string)
    requires |s| >= 4 && s[|s| - 3] == '.'
    requires AllDigits(s[..|s| - 3]) && IsDigit(s[|s| - 2]) && IsDigit(s[|s| - 1])
    ensures ReadHundredths(s) == Some(100 * NatValue(s[..|s| - 3]) + 10 * DigitValue(s[|s| - 2]) + DigitValue(s[|s| - 1]))
  {
  }

  lemma ReadTenths(w: string, d: nat)
    requires |w| >= 1 && AllDigits(w) && d < 10
    ensures ReadHundredths(w + ['.', Digit(d)]) == Some(100 * NatValue(w) + 10 * d)
  {
    var s := w + ['.', Digit(d)];
    assert s[..|s| - 2] == w;
    assert s[|s| - 3] == w[|w| - 1];
    assert IsDigit(w[|w| - 1]);
    DigitRoundTrip(d);
    ReadOneDecimal(s);
  }

  lemma CentsLayout(w: string, d1: nat, d2: nat)
    requires AllDigits(w) && d1 < 10 && d2 < 10
    ensures var s := w + ['.', Digit(d1), Digit(d2)];
      && |s| == |w| + 3 && s[..|s| - 3] == w && s[|s| - 3] == '.'
      && s[|s| - 2] == Digit(d1) && s[|s| - 1] == Digit(d2)
  {
    var s := w + ['.', Digit(d1), Digit(d2)];
    assert s[..|s| - 3] == w;
  }

  lemma ReadCents(w: string, d1: nat, d2: nat)
    requires |w| >= 1 && AllDigits(w) && d1 < 10 && d2 < 10
    ensures ReadHundredths(w + ['.', Digit(d1), Digit(d2)]) == Some(100 * NatValue(w) + 10 * d1 + d2)
  {
    var s := w + ['.', Digit(d1), Digit(d2)];
    CentsLayout(w, d1, d2);
    DigitRoundTrip(d1);
    DigitRoundTrip(d2);
    ReadTwoDecimals(s);
  }

  /** Digits followed by a printed fraction read back as the digits' value and that fraction. */
  lemma ReadFraction(w: string, d1: nat, d2: nat)
    requires |w| >= 1 && AllDigits(w) && d1 < 10 && d2 < 10
    ensures ReadHundredths(w + FracText(d1, d2)) == Some(100 * NatValue(w) + 10 * d1 + d2)
  {
    if d2 != 0 {
      ReadCents(w, d1, d2);
    } else if d1 != 0 {
      ReadTenths(w, d1);
    } else {
      assert w + FracText(d1, d2) == w;
      ReadWhole(w);
    }
  }

  /** Reading the printed text back gives the number of hundredths it was printed from. */
  lemma DecimalTextRoundTrip(n: nat)
    ensures ReadHundredths(DecimalText(n)) == Some(n)
  {
    var f := n % 100;
    assert n == 100 * (n / 100) + 10 * (f / 10) + f % 10;
    NatTextRoundTrip(n / 100);
    ReadFraction(NatText(n / 100), f / 10, f % 10);
  }

  /** `sizes[i]`; past `'GB'` the array read yields `undefined`. */
  function UnitName(i: nat): string
  {
    if i == 0 then "Bytes"
    else if i == 1 then "KB"
    else if i == 2 then "MB"
    else if i == 3 then "GB"
    else "undefined"
  }

  /** `formatFileSize(bytes)`. */
  function FormatFileSize(bytes: nat): string
  {
    if bytes == 0 then "0 Bytes"
    else
      var i := UnitIndex(bytes);
      DecimalText(Hundredths(bytes, i)) + " " + UnitName(i)
  }

  /**
   * What the rendering means: for a non-zero size, the unit is the one
   * whose power of 1024 fits the size, and the number is the size in that
   * unit rounded to hundredths, ties upward.
   */
  lemma FormatFileSizeMeaning(bytes: nat, i: nat, n: nat)
    requires Pow1024(i) <= bytes < Pow1024(i + 1)
    requires RoundsTo(100 * bytes, Pow1024(i), n)
    ensures FormatFileSize(bytes) == DecimalText(n) + " " + UnitName(i)
  {
    UnitIndexUnique(bytes, i);
    RoundsToUnique(100 * bytes, Pow1024(i), n, Hundredths(bytes, i));
  }

  /** A size of at least `1024^k` gets a unit index of at least `k`. */
  lemma UnitIndexAtLeast(bytes: nat, k: nat)
    requires bytes >= Pow1024(k)
    ensures UnitIndex(bytes) >= k
  {
    var i := UnitIndex(bytes);
    if i < k {
      Pow1024Monotone(i + 1, k);
    }
  }

  /** Sizes of a terabyte or more print the unit `undefined`. */
  lemma FormatFileSizeBeyondGB(bytes: nat)
    requires bytes >= Pow1024(4)
    ensures var s := FormatFileSize(bytes);
      |s| >= 10 && s[|s| - 10..] == " undefined"
  {
    var i := UnitIndex(bytes);
    UnitIndexAtLeast(bytes, 4);
    var t := DecimalText(Hundredths(bytes, i));
    assert UnitName(i) == "undefined";
    EndsWith(t + " ", "undefined");
  }

  lemma EndsWith(t: string, u: string)
    ensures (t + u)[|t + u| - |u|..] == u
  {
  }

  lemma PrintedExamples()
    ensures DecimalText(100) == "1" && DecimalText(150) == "1.5" && DecimalText(200) == "2"
  {
    assert Digit(1) == '1' && Digit(2) == '2' && Digit(5) == '5';
  }

  lemma ExampleBytes()
    ensures FormatFileSize(0) == "0 Bytes"
    ensures FormatFileSize(1) == "1 Bytes"
  {
    PrintedExamples();
    FormatFileSizeMeaning(1, 0, 100);
  }

  lemma ExampleKB(bytes: nat, n: nat)
    requires 1024 <= bytes < 1048576 && RoundsTo(100 * bytes, 1024, n)
    ensures FormatFileSize(bytes) == DecimalText(n) + " KB"
  {
    assert Pow1024(1) == 1024;
    FormatFileSizeMeaning(bytes, 1, n);
  }

  lemma ExampleOneKB()
    ensures FormatFileSize(1024) == "1 KB"
  {
    PrintedExamples();
    ExampleKB(1024, 100);
  }

  lemma ExampleOneAndAHalfKB()
    ensures FormatFileSize(1536) == "1.5 KB"
  {
    PrintedExamples();
    ExampleKB(1536, 150);
  }

  lemma ExampleTwoKB()
    ensures FormatFileSize(2048) == "2 KB"
  {
    PrintedExamples();
    ExampleKB(2048, 200);
  }

  lemma ExampleOneMB()
    ensures FormatFileSize(1048576) == "1 MB"
  {
    assert Pow1024(2) == 1048576;
    assert Pow1024(3) == 1073741824;
    PrintedExamples();
    FormatFileSizeMeaning(1048576, 2, 100);
  }
}
