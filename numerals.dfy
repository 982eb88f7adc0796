/** The numeric conversion `float(text)` that the readers and the grid apply
    to each token. Only the plain decimal part of Python's grammar is
    modelled: an optional sign, then digits with at most one decimal point
    and at least one digit ("12", "-3.5", "+.25", "7."). The value is the
    exact rational the numeral denotes; rounding to a double is not modelled. */
module Numerals {
  import opened Wrappers
  import opened Text

  predicate IsDigit(c: char) {
    '0' <= c <= '9'
  }

  predicate AllDigits(s: string) {
    forall k :: 0 <= k < |s| ==> IsDigit(s[k])
  }

  /** The natural number written by the decimal digits `s`. */
  function DigitsValue(s: string): nat
    requires AllDigits(s)
  {
    if s == [] then 0
    else DigitsValue(s[..|s| - 1]) * 10 + (s[|s| - 1] as int - '0' as int)
  }

  function Pow10(n: nat): (p: nat)
    ensures p >= 1
  {
    if n == 0 then 1 else 10 * Pow10(n - 1)
  }

  /** Length of the run of digits that `s` starts with. */
  function DigitRun(s: string): (n: nat)
    ensures n <= |s| && AllDigits(s[..n])
    ensures n < |s| ==> !IsDigit(s[n])
  {
    if s == [] || !IsDigit(s[0]) then 0 else 1 + DigitRun(s[1..])
  }

  /** An unsigned decimal numeral: digits, optionally a point and more
      digits, with at least one digit overall. */
  function ParseUnsigned(s: string): (r: Option<real>)
    ensures r.Some? ==> s != [] && forall k :: 0 <= k < |s| ==> IsDigit(s[k]) || s[k] == '.'
    ensures r.Some? ==> r.value >= 0.0
  {
    var w := DigitRun(s);
    if w == |s| then
      if w == 0 then None else Some(DigitsValue(s) as real)
    else if s[w] != '.' then None
    else
      var f := s[w + 1..];
      if !AllDigits(f) || (w == 0 && f == []) then None
      else
        assert forall k :: w < k < |s| ==> s[k] == f[k - w - 1];
        Some(DigitsValue(s[..w]) as real + DigitsValue(f) as real / Pow10(|f|) as real)
  }

  /** `float(s)` restricted to plain decimals; `None` where Python raises
      `ValueError`. Whatever parses is a non-empty string of signs, digits
      and a point, so it never contains whitespace. */
  function ParseNum(s: string): (r: Option<real>)
    ensures r.Some? ==> s != [] && NoSpace(s)
  {
    if s != [] && (s[0] == '+' || s[0] == '-') then
      match ParseUnsigned(s[1..])
      case None => None
      case Some(v) =>
        assert forall k :: 0 < k < |s| ==> s[k] == s[1..][k - 1];
        Some(if s[0] == '-' then -v else v)
    else
      ParseUnsigned(s)
  }

  /** A run of decimal digits parses to the number it writes. */
  lemma ParseDigits(s: string)
    requires s != [] && AllDigits(s)
    ensures ParseNum(s) == Some(DigitsValue(s) as real)
  {
    DigitRunOfDigits(s);
  }

  /** A minus sign in front of a string that carries no sign of its own
      parses exactly when that string does, and negates its value. (A
      second sign is refused: "-+1" does not parse although "+1" does.) */
  lemma ParseNegated(s: string)
    requires s != [] ==> s[0] != '+' && s[0] != '-'
    ensures ParseNum("-" + s).Some? <==> ParseNum(s).Some?
    ensures ParseNum(s).Some? ==> ParseNum("-" + s).value == -ParseNum(s).value
  {
    assert ("-" + s)[1..] == s;
  }

  lemma {:induction false} DigitRunOfDigits(s: string)
    requires AllDigits(s)
    ensures DigitRun(s) == |s|
    decreases |s|
  {
    if s != [] {
      DigitRunOfDigits(s[1..]);
    }
  }
}
