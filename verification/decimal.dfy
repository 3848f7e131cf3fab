/** Decimal text of non-negative integers: Python's `str(n)` and its inverse
    for canonical digit strings (no sign, no leading zero). */
module Decimal {
  import opened Results

  predicate IsDigit(c: char) {
    '0' <= c <= '9'
  }

  predicate AllDigits(s: string) {
    forall i :: 0 <= i < |s| ==> IsDigit(s[i])
  }

  /** A non-empty digit string with no superfluous leading zero. */
  predicate IsCanonical(s: string) {
    |s| > 0 && AllDigits(s) && (s[0] == '0' ==> |s| == 1)
  }

  function DigitValue(c: char): nat
    requires IsDigit(c)
  {
    c as int - '0' as int
  }

  function DigitChar(d: nat): (c: char)
    requires d < 10
    ensures IsDigit(c) && DigitValue(c) == d
  {
    ('0' as int + d) as char
  }

  /** The value of a digit string, most significant digit first. */
  function DigitsValue(s: string): nat
    requires AllDigits(s)
  {
    if |s| == 0 then 0 else DigitsValue(s[..|s| - 1]) * 10 + DigitValue(s[|s| - 1])
  }

  /** `str(n)`: a canonical digit string whose value is `n`. */
  function NatToString(n: nat): (s: string)
    ensures IsCanonical(s)
    ensures DigitsValue(s) == n
  {
    if n < 10 then [DigitChar(n)]
    else
      var p := NatToString(n / 10);
      var s := p + [DigitChar(n % 10)];
      assert s[..|s| - 1] == p;
      assert p[0] == '0' ==> |p| == 1 && DigitsValue(p) == DigitsValue(p[..0]) * 10 + DigitValue(p[0]);
      s
  }

  /** Reads a canonical digit string; anything else is `None`. */
  function ParseNat(s: string): (r: Option<nat>)
    ensures r.Some? <==> IsCanonical(s)
    ensures r.Some? ==> NatToString(r.value) == s
  {
    if IsCanonical(s) then
      CanonicalRoundTrip(s);
      Some(DigitsValue(s))
    else None
  }

  /** `ParseNat` undoes `str`. */
  lemma ParseNatToString(n: nat)
    ensures ParseNat(NatToString(n)) == Some(n)
  {
  }

  /** A canonical digit string is the text of its own value. */
  lemma {:induction false} CanonicalRoundTrip(s: string)
    requires IsCanonical(s)
    ensures NatToString(DigitsValue(s)) == s
    decreases |s|
  {
    if |s| > 1 {
      var p := s[..|s| - 1];
      var c := s[|s| - 1];
      LeadingNonZeroPositive(p);
      CanonicalRoundTrip(p);
      var n := DigitsValue(s);
      assert n == DigitsValue(p) * 10 + DigitValue(c);
      assert n / 10 == DigitsValue(p) && n % 10 == DigitValue(c);
      assert DigitChar(DigitValue(c)) == c;
      assert s == p + [c];
    } else {
      assert DigitsValue(s) == DigitsValue(s[..0]) * 10 + DigitValue(s[0]);
      assert DigitChar(DigitValue(s[0])) == s[0];
    }
  }

  lemma {:induction false} LeadingNonZeroPositive(s: string)
    requires |s| > 0 && AllDigits(s) && s[0] != '0'
    ensures DigitsValue(s) > 0
    decreases |s|
  {
    if |s| > 1 {
      LeadingNonZeroPositive(s[..|s| - 1]);
    }
  }

  /** Decimal text never contains a character that is not a digit, such as
      the separators `.` and `_`. */
  lemma NoNonDigit(n: nat, c: char)
    requires !IsDigit(c)
    ensures c !in NatToString(n)
  {
  }

  /** Different numbers have different decimal texts. */
  lemma NatToStringInjective(m: nat, n: nat)
    ensures NatToString(m) == NatToString(n) <==> m == n
  {
  }
}
