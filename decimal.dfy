/**
 * Decimal text as the .NET formatting routines produce it for the two
 * fixed-point types: `n.ToString()` for a non-negative integer, the "D<w>"
 * format (left-padded with zeros to width w), and `TrimEnd('0')`.
 * `DigitsValue` reads a digit string back, so every formatting function
 * here has an inverse to be checked against.
 */
module Decimal {

  function Pow10(k: nat): (r: nat)
    ensures r >= 1
  {
    if k == 0 then 1 else 10 * Pow10(k - 1)
  }

  predicate IsDigit(c: char) {
    '0' <= c <= '9'
  }

  predicate AllDigits(s: string) {
    forall i :: 0 <= i < |s| ==> IsDigit(s[i])
  }

  function DigitChar(d: nat): (c: char)
    requires d < 10
    ensures IsDigit(c) && c as int - '0' as int == d
  {
    ('0' as int + d) as char
  }

  /** The number a digit string denotes, most significant digit first. */
  function DigitsValue(s: string): nat
    requires AllDigits(s)
  {
    if s == [] then 0
    else 10 * DigitsValue(s[..|s| - 1]) + (s[|s| - 1] as int - '0' as int)
  }

  /** `n.ToString()` for a non-negative integer: no sign, no leading zeros. */
  function NatToString(n: nat): (s: string)
    ensures |s| >= 1 && AllDigits(s)
    ensures |s| > 1 ==> s[0] != '0'
  {
    if n < 10 then [DigitChar(n)] else NatToString(n / 10) + [DigitChar(n % 10)]
  }

  lemma {:induction false} NatToStringValue(n: nat)
    ensures DigitsValue(NatToString(n)) == n
  {
    var s := NatToString(n);
    if n >= 10 {
      NatToStringValue(n / 10);
      assert s[..|s| - 1] == NatToString(n / 10);
    }
  }

  lemma {:induction false} NatToStringLength(n: nat, k: nat)
    requires n < Pow10(k)
    ensures |NatToString(n)| <= if k == 0 then 1 else k
  {
    if n >= 10 {
      NatToStringLength(n / 10, k - 1);
    }
  }

  function Zeros(k: nat): (s: string)
    ensures |s| == k && AllDigits(s)
    ensures forall i :: 0 <= i < k ==> s[i] == '0'
  {
    if k == 0 then [] else Zeros(k - 1) + ['0']
  }

  /** The "D<width>" format of a non-negative integer. */
  function PadDigits(n: nat, width: nat): (s: string)
    ensures AllDigits(s)
    ensures |s| == if |NatToString(n)| < width then width else |NatToString(n)|
  {
    var d := NatToString(n);
    if |d| < width then Zeros(width - |d|) + d else d
  }

  lemma {:induction false} LeadingZerosValue(k: nat, s: string)
    requires AllDigits(s)
    ensures DigitsValue(Zeros(k) + s) == DigitsValue(s)
  {
    if s == [] {
      assert Zeros(k) + s == Zeros(k);
      ZerosValue(k);
    } else {
      var t := Zeros(k) + s;
      assert t[..|t| - 1] == Zeros(k) + s[..|s| - 1];
      LeadingZerosValue(k, s[..|s| - 1]);
    }
  }

  lemma {:induction false} ZerosValue(k: nat)
    ensures DigitsValue(Zeros(k)) == 0
  {
    if k > 0 {
      assert Zeros(k)[..k - 1] == Zeros(k - 1);
      ZerosValue(k - 1);
    }
  }

  lemma PadDigitsValue(n: nat, width: nat)
    ensures DigitsValue(PadDigits(n, width)) == n
  {
    NatToStringValue(n);
    var d := NatToString(n);
    if |d| < width {
      LeadingZerosValue(width - |d|, d);
    }
  }

  /** `s.TrimEnd('0')`. */
  function TrimEndZeros(s: string): (t: string)
    ensures |t| <= |s| && t == s[..|t|]
    ensures t == [] || t[|t| - 1] != '0'
    ensures forall i :: |t| <= i < |s| ==> s[i] == '0'
  {
    if s == [] || s[|s| - 1] != '0' then s else TrimEndZeros(s[..|s| - 1])
  }

  lemma {:induction false} AppendDigitsValue(s: string, t: string)
    requires AllDigits(s) && AllDigits(t)
    ensures AllDigits(s + t)
    ensures DigitsValue(s + t) == DigitsValue(s) * Pow10(|t|) + DigitsValue(t)
  {
    if t != [] {
      var u := s + t;
      var t' := t[..|t| - 1];
      var last := t[|t| - 1] as int - '0' as int;
      assert u[..|u| - 1] == s + t';
      AppendDigitsValue(s, t');
      var a, b := DigitsValue(s), DigitsValue(t');
      assert DigitsValue(u) == 10 * DigitsValue(s + t') + last;
      assert DigitsValue(t) == 10 * b + last;
      ScaleStep(a, Pow10(|t'|), b, last);
    } else {
      assert s + t == s;
    }
  }

  lemma ScaleStep(a: int, p: int, b: int, c: int)
    ensures 10 * (a * p + b) + c == a * (10 * p) + (10 * b + c)
  {
  }

  /**
   * Trimming trailing zeros from a digit string divides its value by a
   * power of ten: the trimmed digits, scaled back, give the original value.
   */
  lemma TrimEndZerosValue(s: string)
    requires AllDigits(s)
    ensures AllDigits(TrimEndZeros(s))
    ensures DigitsValue(TrimEndZeros(s)) * Pow10(|s| - |TrimEndZeros(s)|) == DigitsValue(s)
  {
    var t := TrimEndZeros(s);
    var z := s[|t|..];
    assert s == t + z;
    assert z == Zeros(|s| - |t|);
    ZerosValue(|z|);
    AppendDigitsValue(t, z);
  }

  /** A fraction text ("" or "." and digits) is well formed for `places` decimal places. */
  predicate FractionForm(text: string, places: nat) {
    text == [] || (text[0] == '.' && AllDigits(text[1..]) && |text| - 1 <= places)
  }

  /** What a fraction text denotes, in units of 10^-places. */
  function FractionUnits(text: string, places: nat): nat
    requires FractionForm(text, places)
  {
    if text == [] then 0 else DigitsValue(text[1..]) * Pow10(places - (|text| - 1))
  }
}
