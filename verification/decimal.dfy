/**
 * Decimal text of non-negative integers, as Python's `str` writes it
 * (shortest form, no sign, no leading zero), together with the parser that
 * inverts it exactly on canonical decimal text.
 */
module Decimal {
  import opened Wrappers

  predicate IsDigit(c: char) {
    '0' <= c <= '9'
  }

  predicate AllDigits(s: string) {
    forall k :: 0 <= k < |s| ==> IsDigit(s[k])
  }

  /** Decimal text as `str` produces it: non-empty, digits only, no leading zero. */
  predicate IsCanonical(s: string) {
    && |s| > 0
    && AllDigits(s)
    && (s[0] != '0' || |s| == 1)
  }

  function DigitValue(c: char): (d: nat)
    requires IsDigit(c)
    ensures d < 10
  {
    c as int - '0' as int
  }

  function DigitChar(d: nat): (c: char)
    requires d < 10
    ensures IsDigit(c) && DigitValue(c) == d
  {
    ('0' as int + d) as char
  }

  /** `str(n)` for a non-negative Python int. */
  function FromNat(n: nat): (s: string)
    ensures IsCanonical(s)
    ensures s == "0" <==> n == 0
    decreases n
  {
    if n < 10 then [DigitChar(n)] else FromNat(n / 10) + [DigitChar(n % 10)]
  }

  /** The number a string of digits denotes, most significant digit first. */
  function DigitsValue(s: string): nat
    requires AllDigits(s)
    decreases |s|
  {
    if |s| == 0 then 0 else 10 * DigitsValue(s[..|s| - 1]) + DigitValue(s[|s| - 1])
  }

  /** Parses canonical decimal text; anything else (empty, a non-digit, a leading zero) is rejected. */
  function ToNat(s: string): (r: Option<nat>)
    ensures r.Some? <==> IsCanonical(s)
  {
    if IsCanonical(s) then Some(DigitsValue(s)) else None
  }

  /** Parsing undoes printing. */
  lemma {:induction false} ToNatFromNat(n: nat)
    ensures ToNat(FromNat(n)) == Some(n)
    decreases n
  {
    if n >= 10 {
      ToNatFromNat(n / 10);
      var s := FromNat(n);
      assert s[..|s| - 1] == FromNat(n / 10);
      assert DigitsValue(s) == 10 * (n / 10) + n % 10;
    }
  }

  lemma {:induction false} DigitsValueZero(s: string)
    requires AllDigits(s)
    requires |s| > 0 && s[0] != '0'
    ensures DigitsValue(s) > 0
    decreases |s|
  {
    if |s| > 1 {
      DigitsValueZero(s[..|s| - 1]);
    }
  }

  /** Printing undoes parsing: canonical text is exactly `str` of its value. */
  lemma {:induction false} FromNatToNat(s: string)
    requires ToNat(s).Some?
    ensures FromNat(ToNat(s).value) == s
    decreases |s|
  {
    if |s| > 1 {
      var p := s[..|s| - 1];
      var c := s[|s| - 1];
      assert IsCanonical(p);
      FromNatToNat(p);
      DigitsValueZero(p);
      var n := DigitsValue(s);
      assert n == 10 * DigitsValue(p) + DigitValue(c);
      assert n / 10 == DigitsValue(p) && n % 10 == DigitValue(c);
      assert DigitChar(DigitValue(c)) == c;
      assert s == p + [c];
    } else {
      assert DigitChar(DigitValue(s[0])) == s[0];
    }
  }

  /** Distinct numbers print as distinct text. */
  lemma FromNatInjective(i: nat, j: nat)
    ensures FromNat(i) == FromNat(j) <==> i == j
  {
    ToNatFromNat(i);
    ToNatFromNat(j);
  }

}
