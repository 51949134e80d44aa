/** Decimal text of unsigned integers: Rust's `Display` for `u32`, the
    zero-padding of `format!("{val:0width$}")`, and reading such text back. */
module Decimal {
  import opened StringOrder

  function Pow10(k: nat): (r: nat)
    ensures r >= 1
  {
    if k == 0 then 1 else 10 * Pow10(k - 1)
  }

  lemma {:induction false} Pow10Monotone(j: nat, k: nat)
    requires j <= k
    ensures Pow10(j) <= Pow10(k)
    decreases k
  {
    if j < k {
      Pow10Monotone(j, k - 1);
    }
  }

  predicate IsDigit(c: char) {
    '0' <= c <= '9'
  }

  predicate IsDecimal(s: string) {
    forall i :: 0 <= i < |s| ==> IsDigit(s[i])
  }

  function DigitValue(c: char): (d: nat)
    requires IsDigit(c)
    ensures d < 10
  {
    c as int - '0' as int
  }

  function DigitChar(d: nat): (c: char)
    requires d < 10
    ensures IsDigit(c) && DigitValue(c) == d
  {
    (d + '0' as int) as char
  }

  /** Digit characters are ordered like the digits they stand for. */
  lemma DigitCharOrder(a: nat, b: nat)
    requires a < 10 && b < 10
    ensures CompareChar(DigitChar(a), DigitChar(b)) == CompareNat(a, b)
  {
  }

  /** The value of a string of decimal digits, most significant first;
      leading zeros add nothing. */
  function Parse(s: string): (v: nat)
    requires IsDecimal(s)
    ensures v < Pow10(|s|)
  {
    if |s| == 0 then 0
    else 10 * Parse(s[..|s| - 1]) + DigitValue(s[|s| - 1])
  }

  /** The shortest decimal text of `v`, as `Display` writes it: "0" for zero,
      otherwise no leading zero. */
  function Digits(v: nat): (s: string)
    ensures 1 <= |s| && IsDecimal(s)
    ensures Parse(s) == v
    ensures 1 < |s| ==> s[0] != '0'
    ensures v < Pow10(|s|)
    ensures 1 < |s| ==> Pow10(|s| - 1) <= v
    decreases v
  {
    if v < 10 then [DigitChar(v)]
    else
      var front := Digits(v / 10);
      var s := front + [DigitChar(v % 10)];
      assert s[..|s| - 1] == front;
      s
  }

  /** The last `k` decimal digits of `v`: a reference definition of the
      fixed-width encoding. */
  function Fixed(v: nat, k: nat): (s: string)
    ensures |s| == k && IsDecimal(s)
  {
    if k == 0 then [] else Fixed(v / 10, k - 1) + [DigitChar(v % 10)]
  }

  function Zeros(k: nat): (s: string)
    ensures |s| == k && IsDecimal(s)
  {
    seq(k, _ => '0')
  }

  function Max(a: nat, b: nat): nat {
    if a < b then b else a
  }

  /** `format!("{v:0width$}")`: the decimal text of `v`, left-padded with
      '0' to `width` characters and never truncated. */
  function Pad(v: nat, width: nat): (s: string)
    ensures IsDecimal(s) && width <= |s|
  {
    var ds := Digits(v);
    if |ds| < width then Zeros(width - |ds|) + ds else ds
  }

  /** Padding agrees with the fixed-width encoding at the wider of the
      requested width and the value's own length. */
  lemma PadIsFixed(v: nat, width: nat)
    ensures Pad(v, width) == Fixed(v, Max(width, |Digits(v)|))
  {
    DigitsAreFixed(v);
    PadFixedText(v, Digits(v), width);
  }

  /** The padding step on any text that is the value's encoding at its own
      length. */
  lemma PadFixedText(v: nat, ds: string, width: nat)
    requires ds == Fixed(v, |ds|) && v < Pow10(|ds|)
    ensures (if |ds| < width then Zeros(width - |ds|) + ds else ds) == Fixed(v, Max(width, |ds|))
  {
    var k := |ds|;
    if k < width {
      FixedZeros(v, k, width - k);
      assert k + (width - k) == width == Max(width, k);
    } else {
      assert Max(width, k) == k;
    }
  }

  lemma DropLastDigit(v: nat, p: nat)
    requires v < 10 * p
    ensures v / 10 < p && v == 10 * (v / 10) + v % 10
  {
  }

  /** Reading `k` digits back gives the value when it has at most `k` digits. */
  lemma {:induction false} FixedRoundTrip(v: nat, k: nat)
    requires v < Pow10(k)
    ensures Parse(Fixed(v, k)) == v
  {
    if k > 0 {
      var s := Fixed(v, k);
      var front := Fixed(v / 10, k - 1);
      assert s == front + [DigitChar(v % 10)];
      assert s[..|s| - 1] == front && s[|s| - 1] == DigitChar(v % 10);
      DropLastDigit(v, Pow10(k - 1));
      FixedRoundTrip(v / 10, k - 1);
    }
  }

  lemma {:induction false} FixedOfZero(m: nat)
    ensures Fixed(0, m) == Zeros(m)
  {
    if m > 0 {
      FixedOfZero(m - 1);
      assert Zeros(m - 1) + ['0'] == Zeros(m);
    }
  }

  /** Widening a fixed-width encoding only adds leading zeros. */
  lemma {:induction false} FixedZeros(v: nat, j: nat, m: nat)
    requires v < Pow10(j)
    ensures Fixed(v, j + m) == Zeros(m) + Fixed(v, j)
  {
    if j == 0 {
      FixedOfZero(m);
    } else {
      FixedZeros(v / 10, j - 1, m);
      assert Fixed(v, j + m) == Fixed(v / 10, j - 1 + m) + [DigitChar(v % 10)];
    }
  }

  /** The shortest text is the fixed-width encoding at its own length. */
  lemma {:induction false} DigitsAreFixed(v: nat)
    ensures Digits(v) == Fixed(v, |Digits(v)|)
    decreases v
  {
    if v >= 10 {
      DigitsAreFixed(v / 10);
    }
  }

  /** The padded text reads back as the value, for every width. */
  lemma PadRoundTrip(v: nat, width: nat)
    ensures Parse(Pad(v, width)) == v
  {
    PadIsFixed(v, width);
    Pow10Monotone(|Digits(v)|, Max(width, |Digits(v)|));
    FixedRoundTrip(v, Max(width, |Digits(v)|));
  }

  /** The padded text is exactly `width` characters long iff the width is
      positive and the value has at most `width` digits. With width 0 the
      value 0 still prints as "0". */
  lemma PadLength(v: nat, width: nat)
    ensures |Pad(v, width)| == width <==> 1 <= width && v < Pow10(width)
    ensures width == 0 ==> |Pad(v, width)| == |Digits(v)|
  {
    PadIsFixed(v, width);
    var n := |Digits(v)|;
    if width < n && 1 <= width {
      Pow10Monotone(width, n - 1);
    }
    if n <= width {
      Pow10Monotone(n, width);
    }
  }

  /** Distinct values never share a padded text. */
  lemma PadInjective(x: nat, y: nat, width: nat)
    requires Pad(x, width) == Pad(y, width)
    ensures x == y
  {
    PadRoundTrip(x, width);
    PadRoundTrip(y, width);
  }

  /** Numeric comparison of naturals, as `Ord` for `u32`. */
  function CompareNat(a: nat, b: nat): Ordering {
    if a < b then Less else if a == b then Equal else Greater
  }

  /** Numbers compare by their leading digits first, then by the last. */
  lemma NatCompareByDigit(x: nat, y: nat)
    ensures CompareNat(x, y) == CompareNat(x / 10, y / 10).Then(CompareNat(x % 10, y % 10))
  {
  }

  /** At a fixed width, string order is numeric order. */
  lemma {:induction false} FixedCompare(x: nat, y: nat, k: nat)
    requires x < Pow10(k) && y < Pow10(k)
    ensures Compare(Fixed(x, k), Fixed(y, k)) == CompareNat(x, y)
  {
    if k > 0 {
      FixedCompare(x / 10, y / 10, k - 1);
      CompareSnoc(Fixed(x / 10, k - 1), Fixed(y / 10, k - 1), DigitChar(x % 10), DigitChar(y % 10));
      DigitCharOrder(x % 10, y % 10);
      NatCompareByDigit(x, y);
    }
  }

  /** Two values below 10^width, padded to `width`, compare as strings the
      way they compare as numbers. */
  lemma PadCompare(x: nat, y: nat, width: nat)
    requires x < Pow10(width) && y < Pow10(width)
    ensures Compare(Pad(x, width), Pad(y, width)) == CompareNat(x, y)
  {
    if width == 0 {
      assert x == 0 && y == 0;
      CompareEqual(Pad(x, width), Pad(y, width));
    } else {
      PadLength(x, width);
      PadLength(y, width);
      PadIsFixed(x, width);
      PadIsFixed(y, width);
      assert Pad(x, width) == Fixed(x, width);
      assert Pad(y, width) == Fixed(y, width);
      FixedCompare(x, y, width);
    }
  }
}
