/** Decimal printing and parsing, as strconv.Itoa and strconv.Atoi do them. */
module Decimal {

  const MAX_INT64 := 0x7FFF_FFFF_FFFF_FFFF

  predicate IsDigit(c: char) { '0' <= c <= '9' }

  predicate AllDigits(s: string) { forall c | c in s :: IsDigit(c) }

  function Digit(d: nat): (c: char)
    requires d < 10
    ensures IsDigit(c) && DigitValue(c) == d
  {
    ('0' as int + d) as char
  }

  function DigitValue(c: char): (d: nat)
    requires IsDigit(c)
    ensures d < 10
  {
    c as int - '0' as int
  }

  /** strconv.Itoa on a number that is not negative. */
  function Itoa(n: nat): (s: string)
    ensures |s| >= 1 && AllDigits(s)
  {
    if n < 10 then [Digit(n)] else Itoa(n / 10) + [Digit(n % 10)]
  }

  function ParseDigits(s: string): nat
    requires AllDigits(s)
  {
    if s == "" then 0 else ParseDigits(s[..|s| - 1]) * 10 + DigitValue(s[|s| - 1])
  }

  /** strconv.Atoi succeeds: an optional sign, digits, and a value that fits in int64. */
  predicate IsNumber(s: string) {
    var digits := if |s| > 0 && (s[0] == '-' || s[0] == '+') then s[1..] else s;
    && digits != ""
    && AllDigits(digits)
    && ParseDigits(digits) <= if s[0] == '-' then MAX_INT64 + 1 else MAX_INT64
  }

  /** The value strconv.Atoi returns, whatever its error: 0 on a syntax error
      and the nearest int64 when the number is out of range. */
  function Atoi(s: string): int {
    var negative := |s| > 0 && s[0] == '-';
    var digits := if |s| > 0 && (s[0] == '-' || s[0] == '+') then s[1..] else s;
    if digits == "" || !AllDigits(digits) then 0
    else
      var n: int := ParseDigits(digits);
      if negative then (if n > MAX_INT64 + 1 then -MAX_INT64 - 1 else -n)
      else (if n > MAX_INT64 then MAX_INT64 else n)
  }

  lemma {:induction false} ParseItoa(n: nat)
    ensures ParseDigits(Itoa(n)) == n
  {
    var s := Itoa(n);
    if n < 10 {
      assert s[..0] == "";
    } else {
      ParseItoa(n / 10);
      assert s[..|s| - 1] == Itoa(n / 10);
    }
  }

  lemma AtoiItoa(n: nat)
    requires n <= MAX_INT64
    ensures Atoi(Itoa(n)) == n
  {
    ParseItoa(n);
    assert IsDigit(Itoa(n)[0]);
  }

  lemma ItoaInjective(a: nat, b: nat)
    requires Itoa(a) == Itoa(b)
    ensures a == b
  {
    ParseItoa(a);
    ParseItoa(b);
  }

  /** A shorter decimal is a smaller number. */
  lemma {:induction false} ItoaLengthMonotone(a: nat, b: nat)
    requires a <= b
    ensures |Itoa(a)| <= |Itoa(b)|
  {
    if a < 10 {
    } else {
      ItoaLengthMonotone(a / 10, b / 10);
    }
  }

  /** What is printed is a number, also with a sign before it. */
  lemma PrintedIsNumber(n: nat)
    ensures IsNumber(Itoa(n)) <==> n <= MAX_INT64
    ensures IsNumber("+" + Itoa(n)) <==> n <= MAX_INT64
    ensures IsNumber("-" + Itoa(n)) <==> n <= MAX_INT64 + 1
    ensures n <= MAX_INT64 + 1 ==> Atoi("-" + Itoa(n)) + n == 0
  {
    ParseItoa(n);
    assert IsDigit(Itoa(n)[0]);
    assert ("+" + Itoa(n))[1..] == Itoa(n) && ("-" + Itoa(n))[1..] == Itoa(n);
  }

  /** A text that is no number: empty, or with a character that is neither a digit nor a sign
      in front. Its value is 0. */
  lemma NoNumber(s: string)
    requires s == "" || s == "+" || s == "-" || exists k :: 0 <= k < |s| && !('0' <= s[k] <= '9') && (k == 0 ==> s[0] != '+' && s[0] != '-')
    ensures !IsNumber(s) && Atoi(s) == 0
  {
    if k :| 0 <= k < |s| && !('0' <= s[k] <= '9') && (k == 0 ==> s[0] != '+' && s[0] != '-') {
      var signed := s[0] == '-' || s[0] == '+';
      var digits := if signed then s[1..] else s;
      assert s[k] == digits[if signed then k - 1 else k];
      assert s[k] in digits && !IsDigit(s[k]);
    }
  }
}
