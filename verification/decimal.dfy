/**
 * Go's `strconv.Atoi` as a grammar over characters: an optional `+` or `-`
 * followed by one or more ASCII digits. Integers are unbounded, so the
 * 64-bit range error of the library has no counterpart here.
 */
module Decimal {
  import opened Results

  predicate IsDigit(c: char) {
    '0' <= c <= '9'
  }

  predicate AllDigits(s: string) {
    forall i :: 0 <= i < |s| ==> IsDigit(s[i])
  }

  function DigitValue(c: char): nat
    requires IsDigit(c)
  {
    (c as int) - ('0' as int)
  }

  function DigitChar(d: nat): (c: char)
    requires d < 10
    ensures IsDigit(c) && DigitValue(c) == d
  {
    (('0' as int) + d) as char
  }

  /** The decimal value of a digit string, most significant digit first. */
  function DigitsValue(s: string): nat
    requires AllDigits(s)
    decreases |s|
  {
    if |s| == 0 then 0
    else DigitsValue(s[..|s| - 1]) * 10 + DigitValue(s[|s| - 1])
  }

  /** `strconv.Atoi(s)`: `Some(n)` when `err == nil`, `None` on a syntax error. */
  function Atoi(s: string): (r: Option<int>)
    ensures r.Some? ==> |s| >= 1 && (r.value < 0 ==> s[0] == '-')
  {
    if |s| == 0 then None
    else
      var digits := if s[0] == '-' || s[0] == '+' then s[1..] else s;
      if |digits| == 0 || !AllDigits(digits) then None
      else if s[0] == '-' then Some(-(DigitsValue(digits) as int))
      else Some(DigitsValue(digits))
  }

  /** The shortest decimal spelling of `n` (`strconv.Itoa`, and how `fmt` prints an int). */
  function NatDigits(n: nat): (r: string)
    ensures |r| >= 1 && AllDigits(r)
    decreases n
  {
    if n < 10 then [DigitChar(n)]
    else NatDigits(n / 10) + [DigitChar(n % 10)]
  }

  function Itoa(n: int): (r: string)
    ensures |r| >= 1
    ensures r[0] == '-' <==> n < 0
  {
    if n < 0 then "-" + NatDigits(-n) else NatDigits(n)
  }

  lemma {:induction false} NatDigitsValue(n: nat)
    ensures DigitsValue(NatDigits(n)) == n
    decreases n
  {
    if n >= 10 {
      NatDigitsValue(n / 10);
      var s := NatDigits(n);
      assert s[..|s| - 1] == NatDigits(n / 10);
    }
  }

  /** Every integer's decimal spelling parses back to that integer. */
  lemma AtoiItoa(n: int)
    ensures Atoi(Itoa(n)) == Some(n)
  {
    if n < 0 {
      var digits := NatDigits(-n);
      NatDigitsValue(-n);
      AtoiSign(digits);
      assert Itoa(n) == "-" + digits;
    } else {
      var digits := NatDigits(n);
      NatDigitsValue(n);
      AtoiDigits(digits);
      assert Itoa(n) == digits;
    }
  }

  /**
   * A character that is neither a digit nor a leading sign makes the parse
   * fail; so does a sign with nothing after it.
   */
  lemma AtoiRejects(s: string, i: int)
    requires 0 <= i < |s|
    requires !IsDigit(s[i])
    requires i > 0 || (s[0] != '+' && s[0] != '-') || |s| == 1
    ensures Atoi(s) == None
  {
    if i > 0 && (s[0] == '-' || s[0] == '+') {
      assert !IsDigit(s[1..][i - 1]);
    }
  }

  /** An unsigned digit string parses to its decimal value. */
  lemma AtoiDigits(digits: string)
    requires |digits| >= 1 && AllDigits(digits)
    ensures Atoi(digits) == Some(DigitsValue(digits))
  {
    assert IsDigit(digits[0]);
  }

  /** A leading `+` changes nothing and a leading `-` negates. */
  lemma AtoiSign(digits: string)
    requires |digits| >= 1 && AllDigits(digits)
    ensures Atoi("+" + digits) == Some(DigitsValue(digits))
    ensures Atoi("-" + digits) == Some(-(DigitsValue(digits) as int))
  {
    var plus, minus := "+" + digits, "-" + digits;
    assert plus[0] == '+' && plus[1..] == digits;
    assert minus[0] == '-' && minus[1..] == digits;
  }
}
