/** Decimal numerals of natural numbers, as `%d` prints them and the parsers read them. */
module Decimal {
  predicate IsDigit(c: char)
  {
    '0' <= c <= '9'
  }

  predicate AllDigits(s: string)
  {
    forall i :: 0 <= i < |s| ==> IsDigit(s[i])
  }

  function Print(n: nat): (s: string)
    ensures |s| > 0 && AllDigits(s)
  {
    if n < 10 then [('0' as int + n) as char]
    else Print(n / 10) + [('0' as int + n % 10) as char]
  }

  function Value(s: string): nat
    requires AllDigits(s)
  {
    if s == "" then 0 else 10 * Value(s[..|s| - 1]) + (s[|s| - 1] as int - '0' as int)
  }

  lemma {:induction false} PrintedValue(n: nat)
    ensures Value(Print(n)) == n
  {
    if n < 10 {
      assert Value([]) == 0;
    } else {
      PrintedValue(n / 10);
      assert Print(n)[..|Print(n)| - 1] == Print(n / 10);
    }
  }

  /** Where the digits at the end of a string begin. */
  function DigitTail(s: string): (k: nat)
    ensures k <= |s| && AllDigits(s[k..])
    ensures k > 0 ==> !IsDigit(s[k - 1])
  {
    if s == "" || !IsDigit(s[|s| - 1]) then |s|
    else
      var k := DigitTail(s[..|s| - 1]);
      assert forall i :: k <= i < |s| - 1 ==> s[i] == s[..|s| - 1][k..][i - k];
      k
  }

  lemma {:induction false} DigitTailUnique(s: string, k: nat)
    requires k <= |s| && AllDigits(s[k..]) && (k > 0 ==> !IsDigit(s[k - 1]))
    ensures DigitTail(s) == k
  {
    if k < |s| {
      var n := |s| - 1;
      assert IsDigit(s[k..][n - k]);
      assert s[..n][k..] == s[k..][..n - k];
      DigitTailUnique(s[..n], k);
    }
  }
}
