/** The decimal texts of version counters: sprintf("%d") and atoi on non-negative values. */
module Decimal {

  function Digit(n: nat): char
    requires n < 10
  {
    '0' + n as char
  }

  predicate IsDigit(c: char) { '0' <= c <= '9' }

  function DigitValue(c: char): nat
    requires IsDigit(c)
  {
    (c - '0') as nat
  }

  /** sprintf(buffer, "%d", n) */
  function Text(n: nat): (s: string)
    ensures |s| > 0 && forall i :: 0 <= i < |s| ==> IsDigit(s[i])
  {
    if n < 10 then [Digit(n)] else Text(n / 10) + [Digit(n % 10)]
  }

  /** The value of the leading digits of a text, continuing from `acc`. */
  function Value(s: string, acc: nat): nat {
    if s == [] || !IsDigit(s[0]) then acc else Value(s[1..], 10 * acc + DigitValue(s[0]))
  }

  /** atoi(s) */
  function Atoi(s: string): nat {
    Value(s, 0)
  }

  lemma {:induction false} ValueSnoc(s: string, c: char, acc: nat)
    requires (forall i :: 0 <= i < |s| ==> IsDigit(s[i])) && IsDigit(c)
    ensures Value(s + [c], acc) == 10 * Value(s, acc) + DigitValue(c)
    decreases |s|
  {
    if s == [] {
      assert ([] + [c])[1..] == [];
    } else {
      assert (s + [c])[1..] == s[1..] + [c];
      ValueSnoc(s[1..], c, 10 * acc + DigitValue(s[0]));
    }
  }

  lemma {:induction false} AtoiUndoesText(n: nat)
    ensures Atoi(Text(n)) == n
  {
    if n >= 10 {
      AtoiUndoesText(n / 10);
      ValueSnoc(Text(n / 10), Digit(n % 10), 0);
      assert DigitValue(Digit(n % 10)) == n % 10;
    } else {
      assert DigitValue(Digit(n)) == n;
      assert Value(Text(n)[1..], n) == n;
    }
  }

  /** What a text of digits means: the ASCII code of '0' is 48, and the last digit counts least. */
  function Means(s: string): int {
    if s == "" then 0 else 10 * Means(s[..|s| - 1]) + (s[|s| - 1] as int - 48)
  }

  /** A counter's text is its decimal representation, without leading zeros. */
  lemma {:induction false} TextIsDecimal(n: nat)
    ensures Means(Text(n)) == n
    ensures n > 0 ==> Text(n)[0] != '0'
    ensures n == 0 ==> Text(n) == "0"
  {
    if n >= 10 {
      TextIsDecimal(n / 10);
      assert Text(n)[..|Text(n)| - 1] == Text(n / 10);
    } else {
      assert Means(Text(n)[..0]) == 0;
    }
  }

  lemma {:induction false} ValueStops(s: string, rest: string, acc: nat)
    requires (forall i :: 0 <= i < |s| ==> IsDigit(s[i])) && (rest == "" || !IsDigit(rest[0]))
    ensures Value(s + rest, acc) == Value(s, acc)
    decreases |s|
  {
    if s == "" {
      assert s + rest == rest;
    } else {
      assert (s + rest)[1..] == s[1..] + rest;
      ValueStops(s[1..], rest, 10 * acc + DigitValue(s[0]));
    }
  }

  /** What follows the digits does not matter to atoi, and a text that begins with no digit counts as 0. */
  lemma AtoiStops(n: nat, rest: string)
    requires rest == "" || !IsDigit(rest[0])
    ensures Atoi(Text(n) + rest) == n && Atoi(rest) == 0
  {
    ValueStops(Text(n), rest, 0);
    AtoiUndoesText(n);
  }

  /** strlen(a) == strlen(b) && strncmp(a, b, strlen(b)) == 0 */
  predicate SameText(a: string, b: string) {
    |a| == |b| && a[..|b|] == b[..|b|]
  }

  /** The text comparison of two counters is the comparison of their values. */
  lemma SameTextIsEquality(m: nat, n: nat)
    ensures SameText(Text(m), Text(n)) <==> m == n
  {
    AtoiUndoesText(m);
    AtoiUndoesText(n);
    assert Text(m)[..|Text(m)|] == Text(m) && Text(n)[..|Text(n)|] == Text(n);
  }

  function Pow10(k: nat): (p: nat)
    ensures p > 0
  {
    if k == 0 then 1 else 10 * Pow10(k - 1)
  }

  lemma {:induction false} TextLength(n: nat, k: nat)
    requires k > 0
    ensures |Text(n)| <= k <==> n < Pow10(k)
    decreases k
  {
    if n < 10 {
      assert Pow10(k) >= 10;
    } else if k > 1 {
      TextLength(n / 10, k - 1);
    }
  }

  /** The 10-byte buffer of the server holds a counter and its NUL exactly below 10^9. */
  lemma FitsVersionBuffer(n: nat)
    ensures |Text(n)| + 1 <= 10 <==> n < 1000000000
  {
    TextLength(n, 9);
    assert Pow10(3) == 1000;
    assert Pow10(6) == 1000 * Pow10(3);
    assert Pow10(9) == 1000 * Pow10(6);
  }
}
