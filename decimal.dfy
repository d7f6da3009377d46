/**
  Decimal text for integers, standing for Swift's `String(Int)` and
  `Int(String)` (radix 10, 64-bit `Int`).  The survey passes a choice index
  from the question bubble to the submit handler as text, so the round trip
  `ParseInt(ShowInt(i)) == Some(i)` is what makes the stored answer equal the
  picked one.
 */
module Decimal {
  import opened Wrappers

  /** Bounds of Swift's `Int` on a 64-bit platform. */
  const INT_MIN: int := -0x8000_0000_0000_0000
  const INT_MAX: int := 0x7FFF_FFFF_FFFF_FFFF

  predicate InIntRange(i: int) {
    INT_MIN <= i <= INT_MAX
  }

  predicate IsDigit(c: char) {
    '0' <= c <= '9'
  }

  predicate AllDigits(s: string) {
    forall k :: 0 <= k < |s| ==> IsDigit(s[k])
  }

  /** A non-empty digit string without a leading zero (except "0" itself):
      the form `String(n)` produces for a non-negative `n`. */
  predicate Canonical(s: string) {
    |s| > 0 && AllDigits(s) && (|s| == 1 || s[0] != '0')
  }

  /** The form `String(i)` produces for any `i`: a canonical digit string,
      or a minus sign followed by a canonical digit string other than "0". */
  predicate CanonicalInt(s: string) {
    Canonical(s) || (|s| >= 2 && s[0] == '-' && Canonical(s[1..]) && s[1] != '0')
  }

  function DigitChar(d: nat): (c: char)
    requires d < 10
    ensures IsDigit(c) && DigitValue(c) == d
  {
    (('0' as int) + d) as char
  }

  function DigitValue(c: char): (d: nat)
    requires IsDigit(c)
    ensures d < 10
  {
    (c as int) - ('0' as int)
  }

  /** The number a digit string denotes (leading zeros allowed). */
  function DigitsValue(s: string): (n: nat)
    requires AllDigits(s)
  {
    if s == [] then 0 else DigitsValue(s[..|s| - 1]) * 10 + DigitValue(s[|s| - 1])
  }

  /** `String(n)` for a non-negative `n`. */
  function ShowNat(n: nat): (s: string)
    ensures Canonical(s)
    ensures s[0] == '0' <==> n == 0
  {
    if n < 10 then [DigitChar(n)] else ShowNat(n / 10) + [DigitChar(n % 10)]
  }

  /** `String(i)`: a minus sign before the digits of a negative number. */
  function ShowInt(i: int): (s: string)
    ensures CanonicalInt(s)
    ensures s[0] == '-' <==> i < 0
  {
    if i < 0 then "-" + ShowNat(-i) else ShowNat(i)
  }

  /** Keeps a value only if it fits in a 64-bit `Int`. */
  function Checked(v: int): (r: Option<int>)
    ensures r.Some? <==> InIntRange(v)
    ensures r.Some? ==> r.value == v
  {
    if InIntRange(v) then Some(v) else None
  }

  /**
    `Int(s)`: an optional sign ('+' or '-') followed by one or more ASCII
    digits, denoting a value that fits in 64 bits; anything else, including
    the empty string, gives `None`.
   */
  function ParseInt(s: string): (r: Option<int>)
    ensures s == [] ==> r == None
    ensures r.Some? ==> InIntRange(r.value)
    ensures r.Some? && r.value < 0 ==> s[0] == '-'
    ensures r.Some? ==> forall k :: 0 < k < |s| ==> IsDigit(s[k])
    ensures r.Some? ==> IsDigit(s[0]) || (|s| >= 2 && (s[0] == '-' || s[0] == '+'))
  {
    if |s| > 0 && (s[0] == '-' || s[0] == '+') then
      var digits := s[1..];
      if |digits| > 0 && AllDigits(digits) then
        var magnitude: int := DigitsValue(digits);
        Checked(if s[0] == '-' then -magnitude else magnitude)
      else
        None
    else if |s| > 0 && AllDigits(s) then
      Checked(DigitsValue(s))
    else
      None
  }

  lemma {:induction false} DigitsValueOfShowNat(n: nat)
    ensures DigitsValue(ShowNat(n)) == n
  {
    var s := ShowNat(n);
    if n >= 10 {
      var p := ShowNat(n / 10);
      assert s == p + [DigitChar(n % 10)];
      assert s[..|s| - 1] == p;
      DigitsValueOfShowNat(n / 10);
    }
  }

  /** Reading back what `String(i)` wrote gives `i` again whenever `i` fits
      in 64 bits, and nothing otherwise. */
  lemma ParseShowInt(i: int)
    ensures ParseInt(ShowInt(i)) == Checked(i)
  {
    if i < 0 {
      var s := ShowInt(i);
      assert s[1..] == ShowNat(-i);
      DigitsValueOfShowNat(-i);
    } else {
      DigitsValueOfShowNat(i);
    }
  }

  lemma {:induction false} DigitsValuePositive(s: string)
    requires |s| > 0 && AllDigits(s) && s[0] != '0'
    ensures DigitsValue(s) > 0
  {
    if |s| > 1 {
      DigitsValuePositive(s[..|s| - 1]);
    }
  }

  lemma {:induction false} ShowNatOfDigitsValue(s: string)
    requires Canonical(s)
    ensures ShowNat(DigitsValue(s)) == s
  {
    if |s| > 1 {
      var p := s[..|s| - 1];
      var d := DigitValue(s[|s| - 1]);
      DigitsValuePositive(p);
      ShowNatOfDigitsValue(p);
      var n := DigitsValue(s);
      assert n == DigitsValue(p) * 10 + d;
      assert n / 10 == DigitsValue(p) && n % 10 == d;
      assert s == p + [s[|s| - 1]];
    }
  }

  /** Conversely, a string in the form `String(i)` produces is exactly the
      text of the number it parses to. */
  lemma ShowParseInt(s: string)
    requires CanonicalInt(s)
    requires ParseInt(s).Some?
    ensures ShowInt(ParseInt(s).value) == s
  {
    if Canonical(s) {
      ShowNatOfDigitsValue(s);
    } else {
      var digits := s[1..];
      ShowNatOfDigitsValue(digits);
      DigitsValuePositive(digits);
      assert s == "-" + digits;
    }
  }
}
