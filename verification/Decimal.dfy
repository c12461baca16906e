/** Decimal printing and reading, as in `fmt`'s %d verb and `strconv.ParseInt` in base 10. */
module Decimal {

  predicate IsDigit(c: char) {
    '0' <= c <= '9'
  }

  predicate AllDigits(s: string) {
    forall c :: c in s ==> IsDigit(c)
  }

  function DigitChar(d: nat): (c: char)
    requires d < 10
    ensures IsDigit(c) && DigitValue(c) == d
  {
    '0' + (d as char)
  }

  function DigitValue(c: char): (d: nat)
    requires IsDigit(c)
  {
    (c - '0') as nat
  }

  function Print(n: nat): (s: string)
    ensures s != "" && AllDigits(s)
  {
    if n < 10 then [DigitChar(n)] else Print(n / 10) + [DigitChar(n % 10)]
  }

  function PrintInt(n: int): string {
    if n < 0 then "-" + Print(-n) else Print(n)
  }

  function Value(s: string): nat
    requires AllDigits(s)
  {
    if s == "" then 0 else 10 * Value(s[..|s| - 1]) + DigitValue(s[|s| - 1])
  }

  lemma {:induction false} PrintThenRead(n: nat)
    ensures Value(Print(n)) == n
  {
    if n < 10 {
      assert Print(n)[..0] == "";
    } else {
      PrintThenRead(n / 10);
      assert Print(n)[..|Print(n)| - 1] == Print(n / 10);
    }
  }

  function Power10(n: nat): nat {
    if n == 0 then 1 else 10 * Power10(n - 1)
  }

  /** Positional notation in base ten: every digit counts its own value, times ten for each digit to its
      right. */
  lemma {:induction false} Positional(s: string, c: char, t: string)
    requires AllDigits(s) && '0' <= c <= '9' && AllDigits(t)
    ensures AllDigits(s + [c] + t)
    ensures Value(s + [c] + t) == Value(s) * Power10(|t| + 1) + (c as int - '0' as int) * Power10(|t|) + Value(t)
  {
    var all := s + [c] + t;
    if t == "" {
      assert all[..|all| - 1] == s && all[|all| - 1] == c;
    } else {
      var n := |t| - 1;
      assert t[n] in t && AllDigits(t[..n]);
      Positional(s, c, t[..n]);
      assert all[..|all| - 1] == s + [c] + t[..n] && all[|all| - 1] == t[n];
      Shift(Value(s), c as int - '0' as int, Value(t[..n]), DigitValue(t[n]), n);
    }
  }

  lemma Shift(a: int, d: int, b: int, e: int, n: nat)
    ensures 10 * (a * Power10(n + 1) + d * Power10(n) + b) + e
            == a * Power10(n + 2) + d * Power10(n + 1) + (10 * b + e)
  {
    assert Power10(n + 2) == 10 * Power10(n + 1) && Power10(n + 1) == 10 * Power10(n);
    assert 10 * (a * Power10(n + 1)) == a * (10 * Power10(n + 1));
    assert 10 * (d * Power10(n)) == d * (10 * Power10(n));
  }
}
