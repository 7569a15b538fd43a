/** Decimal text of integers: std::to_string and the C function atoi (integers unbounded). */
module Decimal {
  import opened Arithmetic

  predicate IsDigit(c: char) {
    '0' <= c <= '9'
  }

  function Digit(d: nat): (c: char)
    requires d < 10
    ensures IsDigit(c)
  {
    '0' + d as char
  }

  function NatToString(n: nat): (s: string)
    ensures s != "" && forall i | 0 <= i < |s| :: IsDigit(s[i])
  {
    if n < 10 then [Digit(n)] else NatToString(n / 10) + [Digit(n % 10)]
  }

  function ToString(n: int): string {
    if n < 0 then "-" + NatToString(-n) else NatToString(n)
  }

  /** Value of the leading digits of `s`, continuing from `acc`. */
  function ParseDigits(s: string, acc: int): int {
    if s != "" && IsDigit(s[0]) then ParseDigits(s[1..], acc * 10 + (s[0] as int - '0' as int)) else acc
  }

  function SkipSpace(s: string): string {
    if s != "" && s[0] in {' ', '\t', '\n', '\r', 11 as char, 12 as char} then SkipSpace(s[1..]) else s
  }

  function Atoi(s: string): int {
    var t := SkipSpace(s);
    if t != "" && t[0] == '-' then -ParseDigits(t[1..], 0)
    else if t != "" && t[0] == '+' then ParseDigits(t[1..], 0)
    else ParseDigits(t, 0)
  }

  lemma {:induction false} ParseAppendDigit(s: string, d: nat, acc: int)
    requires d < 10 && forall i | 0 <= i < |s| :: IsDigit(s[i])
    ensures ParseDigits(s + [Digit(d)], acc) == ParseDigits(s, acc) * 10 + d
  {
    if s == "" {
      assert ([] + [Digit(d)])[1..] == "";
    } else {
      assert (s + [Digit(d)])[1..] == s[1..] + [Digit(d)];
      ParseAppendDigit(s[1..], d, acc * 10 + (s[0] as int - '0' as int));
    }
  }

  lemma {:induction false} ParseNat(n: nat)
    ensures ParseDigits(NatToString(n), 0) == n
  {
    if n < 10 {
      ParseAppendDigit("", n, 0);
      assert "" + [Digit(n)] == [Digit(n)];
    } else {
      ParseNat(n / 10);
      ParseAppendDigit(NatToString(n / 10), n % 10, 0);
    }
  }

  function Pow10(n: nat): nat {
    if n == 0 then 1 else 10 * Pow10(n - 1)
  }

  /** The decimal digits, the highest first and without a leading zero. */
  lemma {:induction false} DecimalDigits(n: nat, i: nat)
    requires i < |NatToString(n)|
    ensures Pow10(i) > 0
    ensures NatToString(n)[|NatToString(n)| - 1 - i] as int - '0' as int == n / Pow10(i) % 10
    ensures n > 0 ==> NatToString(n)[0] != '0'
  {
    PowPositive(i);
    if n >= 10 {
      DecimalDigits(n / 10, if i > 0 then i - 1 else 0);
      if i > 0 {
        PowPositive(i - 1);
        DivDiv(n, 10, Pow10(i - 1));
      }
    }
  }

  lemma {:induction false} PowPositive(n: nat)
    ensures Pow10(n) > 0
  {
    if n > 0 {
      PowPositive(n - 1);
    }
  }

  /** Reading back the text of an integer gives the integer, so different integers have different texts. */
  lemma AtoiAfterToString(n: int)
    ensures Atoi(ToString(n)) == n
  {
    ParseNat(if n < 0 then -n else n);
    var s := ToString(n);
    assert n < 0 ==> s[1..] == NatToString(-n);
    assert SkipSpace(s) == s;
  }
}
