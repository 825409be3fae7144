/** Decimal digit strings as Rust's formatting and parsing produce and
    read them: `Display` of an unsigned integer, the zero-padding format
    `{:0>w}`, and `str::parse` of a string of ASCII digits. */
module Decimal {

  predicate IsDigit(c: char) {
    '0' <= c <= '9'
  }

  predicate AllDigits(s: string) {
    forall i :: 0 <= i < |s| ==> IsDigit(s[i])
  }

  function DigitChar(d: nat): (c: char)
    requires d < 10
    ensures IsDigit(c)
  {
    ('0' as int + d) as char
  }

  function DigitValue(c: char): (d: nat)
    requires IsDigit(c)
    ensures d < 10
  {
    c as int - '0' as int
  }

  function Pow10(n: nat): (p: nat)
    ensures p >= 1
  {
    if n == 0 then 1 else 10 * Pow10(n - 1)
  }

  /** The value of a string of decimal digits, most significant first. */
  function ParseDecimal(s: string): (v: nat)
    requires AllDigits(s)
    ensures v < Pow10(|s|)
  {
    if |s| == 0 then 0
    else ParseDecimal(s[..|s| - 1]) * 10 + DigitValue(s[|s| - 1])
  }

  /** `n.to_string()`: the shortest decimal rendering of `n`. */
  function ToDecimal(n: nat): (s: string)
    ensures |s| >= 1 && AllDigits(s)
    ensures |s| > 1 ==> s[0] != '0'
    ensures ParseDecimal(s) == n
  {
    if n < 10 then [DigitChar(n)]
    else
      var s := ToDecimal(n / 10) + [DigitChar(n % 10)];
      assert s[..|s| - 1] == ToDecimal(n / 10);
      s
  }

  /** `format!("{:0>width}", s)`: `s` padded on the left with zeros. */
  function PadZero(s: string, width: nat): (r: string)
    ensures |r| == if |s| >= width then |s| else width
    ensures r[|r| - |s|..] == s
    ensures forall i :: 0 <= i < |r| - |s| ==> r[i] == '0'
    decreases width - |s|
  {
    if |s| >= width then s
    else
      var t := ['0'] + s;
      var r := PadZero(t, width);
      assert r[|r| - |s|..] == r[|r| - |t|..][1..] == t[1..] == s;
      assert r[|r| - |t|] == t[0] == '0';
      r
  }

  lemma {:induction false} LeadingZero(s: string)
    requires AllDigits(s)
    ensures AllDigits(['0'] + s) && ParseDecimal(['0'] + s) == ParseDecimal(s)
  {
    if |s| > 0 {
      var t := ['0'] + s;
      assert t[..|t| - 1] == ['0'] + s[..|s| - 1];
      LeadingZero(s[..|s| - 1]);
    }
  }

  /** Zero padding keeps a digit string's value. */
  lemma {:induction false} PadZeroValue(s: string, width: nat)
    requires AllDigits(s)
    ensures AllDigits(PadZero(s, width))
    ensures ParseDecimal(PadZero(s, width)) == ParseDecimal(s)
    decreases width - |s|
  {
    if |s| < width {
      LeadingZero(s);
      PadZeroValue(['0'] + s, width);
    }
  }

  /** A number below `10^w` needs at most `w` digits. */
  lemma {:induction false} DecimalWidth(n: nat, w: nat)
    requires w >= 1 && n < Pow10(w)
    ensures |ToDecimal(n)| <= w
  {
    if n >= 10 {
      assert Pow10(1) == 10;
      assert w >= 2;
      DecimalWidth(n / 10, w - 1);
    }
  }

  /** Rendering `n` padded to `w` digits gives exactly `w` digits that
      read back as `n`, whenever `n` fits in `w` digits. */
  lemma PaddedRoundTrip(n: nat, w: nat)
    requires w >= 1 && n < Pow10(w)
    ensures |PadZero(ToDecimal(n), w)| == w
    ensures AllDigits(PadZero(ToDecimal(n), w))
    ensures ParseDecimal(PadZero(ToDecimal(n), w)) == n
  {
    DecimalWidth(n, w);
    PadZeroValue(ToDecimal(n), w);
  }
}
