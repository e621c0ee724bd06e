/** The generated key names: little-endian base-26 digits. */
module KeyNames {

  const KEY_SIZE := 5

  /** pow(26, n) */
  function Power(n: nat): (p: nat)
    ensures p > 0
  {
    if n == 0 then 1 else Power(n - 1) * 26
  }

  function Div(i: nat, p: nat): (q: nat)
    requires p > 0
  {
    i / p
  }

  function Mod(i: nat, p: nat): (r: nat)
    requires p > 0
    ensures r < p
  {
    i % p
  }

  /** Digit j of i, and what the lower digits make. */
  function DigitOf(i: nat, j: nat): (d: nat)
    ensures d < 26
  {
    Mod(Div(i, Power(j)), 26)
  }

  function Rest(i: nat, j: nat): (r: nat)
    ensures r < Power(j)
  {
    Mod(i, Power(j))
  }

  function Letter(i: nat, j: nat): (c: char)
    ensures 'a' <= c <= 'z'
  {
    'a' + DigitOf(i, j) as char
  }

  function Name(i: nat, size: nat): (s: string)
    ensures |s| == size
    ensures forall j :: 0 <= j < size ==> 'a' <= s[j] <= 'z'
  {
    seq(size, j requires 0 <= j < size => Letter(i, j))
  }

  lemma NameSnoc(i: nat, n: nat)
    ensures Name(i, n + 1) == Name(i, n) + [Letter(i, n)]
  {
  }

  lemma ProductOrder(a: nat, b: nat, d: nat)
    requires a <= b
    ensures a * d <= b * d
  {
  }

  lemma QuotientIsUnique(d: nat, q: nat, r: nat, q': nat, r': nat)
    requires r < d && r' < d && q * d + r == q' * d + r'
    ensures q == q' && r == r'
  {
    if q < q' { ProductOrder(q + 1, q', d); }
    if q' < q { ProductOrder(q' + 1, q, d); }
  }

  lemma DigitSum(p: nat, a: nat, b: nat)
    ensures (a * 26 + b) * p == a * (p * 26) + b * p
  {
  }

  lemma Regroup(p: nat, r: nat, a: nat, b: nat, q: nat, s: nat)
    requires r < p && b < 26 && s < p * 26 && (a * 26 + b) * p + r == q * (p * 26) + s
    ensures s == b * p + r
  {
    DigitSum(p, a, b);
    ProductOrder(b, 25, p);
    QuotientIsUnique(p * 26, a, b * p + r, q, s);
  }

  lemma DivMod(i: nat, p: nat)
    requires p > 0
    ensures i == Div(i, p) * p + Mod(i, p)
  {
  }

  /** One more digit: the remainder by the next power is this one with the digit on top. */
  lemma RestByDigits(i: nat, n: nat)
    ensures Rest(i, n + 1) == DigitOf(i, n) * Power(n) + Rest(i, n)
  {
    hide Div, Mod;
    var p := Power(n);
    var q := Div(i, p);
    DivMod(i, p);
    DivMod(q, 26);
    DivMod(i, p * 26);
    Regroup(p, Mod(i, p), Div(q, 26), Mod(q, 26), Div(i, p * 26), Mod(i, p * 26));
  }

  /** Two names of the same size are equal exactly when the indices agree modulo 26^size. */
  lemma {:induction false} NamesEqualIff(i: nat, k: nat, size: nat)
    ensures Name(i, size) == Name(k, size) <==> Rest(i, size) == Rest(k, size)
    decreases size
  {
    hide Rest, DigitOf, Power;
    if size == 0 {
      NoRest(i);
      NoRest(k);
    } else {
      var n := size - 1;
      NamesEqualIff(i, k, n);
      RestByDigits(i, n);
      RestByDigits(k, n);
      if Rest(i, size) == Rest(k, size) {
        QuotientIsUnique(Power(n), DigitOf(i, n), Rest(i, n), DigitOf(k, n), Rest(k, n));
      }
      NameSnoc(i, n);
      NameSnoc(k, n);
      SameSnoc(Name(i, n), Name(k, n), Letter(i, n), Letter(k, n));
      assert Letter(i, n) == Letter(k, n) <==> DigitOf(i, n) == DigitOf(k, n);
    }
  }

  lemma NoRest(i: nat)
    ensures Rest(i, 0) == 0
  {
  }

  lemma SameSnoc(a: string, b: string, c: char, d: char)
    requires |a| == |b|
    ensures a + [c] == b + [d] <==> a == b && c == d
  {
    assert (a + [c])[|a|] == c && (b + [d])[|a|] == d;
    assert (a + [c])[..|a|] == a && (b + [d])[..|a|] == b;
  }

  /** The number that the first n letters spell: 'a' stands for 0, and the first letter counts least. */
  function Spells(s: string, n: nat): int
    requires n <= |s|
  {
    if n == 0 then 0 else Spells(s, n - 1) + (s[n - 1] as int - 97) * Power(n - 1)
  }

  lemma {:induction false} SpellsPrefix(s: string, n: nat, m: nat)
    requires n <= m <= |s|
    ensures Spells(s[..m], n) == Spells(s, n)
    decreases n
  {
    if n > 0 {
      SpellsPrefix(s, n - 1, m);
    }
  }

  /** A name spells its index, as far as its letters reach. */
  lemma {:induction false} NameSpells(i: nat, size: nat)
    ensures Spells(Name(i, size), size) == i % Power(size)
    decreases size
  {
    if size > 0 {
      var n := size - 1;
      NameSpells(i, n);
      RestByDigits(i, n);
      NameSnoc(i, n);
      assert Name(i, size)[..n] == Name(i, n);
      SpellsPrefix(Name(i, size), n, n);
      assert Rest(i, n) == i % Power(n) && Rest(i, size) == i % Power(size);
      hide Power, Rest;
      assert Name(i, size)[n] as int - 97 == DigitOf(i, n);
    }
  }

  const DISTINCT_NAMES := 11881376

  lemma PowerOfFive()
    ensures Power(KEY_SIZE) == DISTINCT_NAMES
  {
    assert Power(2) == 676;
    assert Power(4) == Power(2) * 26 * 26;
  }

  /** All keys have different names exactly when there are at most 26^5 of them. */
  lemma NamesAreDistinctIff(count: nat)
    ensures (forall i, k :: 0 <= i < k < count ==> Name(i, KEY_SIZE) != Name(k, KEY_SIZE)) <==> count <= DISTINCT_NAMES
  {
    PowerOfFive();
    if count <= DISTINCT_NAMES {
      forall i, k | 0 <= i < k < count ensures Name(i, KEY_SIZE) != Name(k, KEY_SIZE) {
        NamesEqualIff(i, k, KEY_SIZE);
      }
    } else {
      NamesEqualIff(0, DISTINCT_NAMES, KEY_SIZE);
      assert Name(0, KEY_SIZE) == Name(DISTINCT_NAMES, KEY_SIZE);
    }
  }

  /** The nested loops that fill database_keys. */
  method FillNames(count: nat, size: nat) returns (names: array<string>)
    ensures fresh(names) && names.Length == count
    ensures forall i :: 0 <= i < count ==> names[i] == Name(i, size)
  {
    names := new string[count];
    for i := 0 to count
      invariant forall k :: 0 <= k < i ==> names[k] == Name(k, size)
    {
      var name := "";
      for j := 0 to size
        invariant name == Name(i, j)
      {
        assert Name(i, j + 1) == Name(i, j) + [Letter(i, j)];
        name := name + [Letter(i, j)];
      }
      names[i] := name;
    }
  }
}
