/**
 The text protocol between clients and server: commands are space-joined tokens, taken apart again by a
 two-pass strtok_r tokenizer.
 */
module Wire {

  // ---- What strtok_r finds ----

  /** The first position from `at` on that does not hold the delimiter. */
  function TokenStart(s: string, at: nat, d: char): (i: nat)
    requires at <= |s|
    ensures at <= i <= |s|
    ensures forall k :: at <= k < i ==> s[k] == d
    ensures i < |s| ==> s[i] != d
    decreases |s| - at
  {
    if at == |s| || s[at] != d then at else TokenStart(s, at + 1, d)
  }

  /** The first position from `at` on that holds the delimiter, or the end. */
  function TokenEnd(s: string, at: nat, d: char): (i: nat)
    requires at <= |s|
    ensures at <= i <= |s|
    ensures forall k :: at <= k < i ==> s[k] != d
    ensures i < |s| ==> s[i] == d
    decreases |s| - at
  {
    if at == |s| || s[at] == d then at else TokenEnd(s, at + 1, d)
  }

  function TokensFrom(s: string, at: nat, d: char): seq<string>
    requires at <= |s|
    decreases |s| - at
  {
    var i := TokenStart(s, at, d);
    if i == |s| then []
    else
      var j := TokenEnd(s, i, d);
      [s[i..j]] + TokensFrom(s, j, d)
  }

  /** The maximal delimiter-free pieces of a text, in order. */
  function Tokens(s: string, d: char): seq<string> {
    TokensFrom(s, 0, d)
  }

  predicate Clean(t: string, d: char) {
    |t| > 0 && forall k :: 0 <= k < |t| ==> t[k] != d
  }

  ghost predicate AllClean(ts: seq<string>, d: char) {
    forall i :: 0 <= i < |ts| ==> Clean(ts[i], d)
  }

  function Join(ts: seq<string>, d: char): string {
    if ts == [] then ""
    else if |ts| == 1 then ts[0]
    else ts[0] + [d] + Join(ts[1..], d)
  }

  lemma {:induction false} TokensAreClean(s: string, at: nat, d: char)
    requires at <= |s|
    ensures AllClean(TokensFrom(s, at, d), d)
    decreases |s| - at
  {
    var i := TokenStart(s, at, d);
    if i < |s| {
      var j := TokenEnd(s, i, d);
      TokensAreClean(s, j, d);
      assert Clean(s[i..j], d);
    }
  }

  /** w holds s from position n on. */
  ghost predicate EndsWith(w: string, n: nat, s: string) {
    |w| == n + |s| && forall k :: n <= k < |w| ==> w[k] == s[k - n]
  }

  lemma {:induction false} StartShift(w: string, n: nat, s: string, at: nat, d: char)
    requires EndsWith(w, n, s) && at <= |s|
    ensures TokenStart(w, n + at, d) == n + TokenStart(s, at, d)
    decreases |s| - at
  {
    if at < |s| && s[at] == d {
      StartShift(w, n, s, at + 1, d);
    }
  }

  lemma {:induction false} EndShift(w: string, n: nat, s: string, at: nat, d: char)
    requires EndsWith(w, n, s) && at <= |s|
    ensures TokenEnd(w, n + at, d) == n + TokenEnd(s, at, d)
    decreases |s| - at
  {
    if at < |s| && s[at] != d {
      EndShift(w, n, s, at + 1, d);
    }
  }

  lemma SliceShift(w: string, n: nat, s: string, i: nat, j: nat)
    requires EndsWith(w, n, s) && i <= j <= |s|
    ensures w[n + i..n + j] == s[i..j]
  {
  }

  /** What comes before the starting position does not matter. */
  lemma {:induction false} TokensShift(w: string, n: nat, s: string, at: nat, d: char)
    requires EndsWith(w, n, s) && at <= |s|
    ensures TokensFrom(w, n + at, d) == TokensFrom(s, at, d)
    decreases |s| - at
  {
    hide TokenStart, TokenEnd;
    StartShift(w, n, s, at, d);
    var i := TokenStart(s, at, d);
    if i < |s| {
      EndShift(w, n, s, i, d);
      var j := TokenEnd(s, i, d);
      TokensShift(w, n, s, j, d);
      SliceShift(w, n, s, i, j);
    }
  }

  lemma {:induction false} CleanEnd(t: string, rest: string, at: nat, d: char)
    requires Clean(t, d) && at <= |t|
    ensures TokenEnd(t + [d] + rest, at, d) == |t|
    decreases |t| - at
  {
    if at < |t| {
      CleanEnd(t, rest, at + 1, d);
    }
  }

  /** A clean piece, a delimiter, and more text: one token, then those of the text. */
  lemma TokenThenText(t: string, rest: string, d: char)
    requires Clean(t, d)
    ensures Tokens(t + [d] + rest, d) == [t] + Tokens(rest, d)
  {
    var w := t + [d] + rest;
    CleanEnd(t, rest, 0, d);
    assert TokenStart(w, 0, d) == 0;
    assert w[0..|t|] == t;
    TokensShift(w, |t| + 1, rest, 0, d);
    assert TokensFrom(w, |t|, d) == TokensFrom(w, |t| + 1, d) by {
      assert TokenStart(w, |t|, d) == TokenStart(w, |t| + 1, d);
    }
  }

  lemma OneToken(t: string, d: char)
    requires Clean(t, d)
    ensures Tokens(t, d) == [t]
  {
    assert TokenStart(t, 0, d) == 0 && TokenEnd(t, 0, d) == |t|;
    assert t[0..|t|] == t;
    assert TokensFrom(t, |t|, d) == [];
  }

  /**
   A delimiter in front makes no difference, and a text of nothing has no tokens. With TokenThenText and
   OneToken this says what the tokens of any text are.
   */
  lemma LeadingDelimiter(rest: string, d: char)
    ensures Tokens([d] + rest, d) == Tokens(rest, d)
    ensures Tokens("", d) == []
  {
    var w := [d] + rest;
    TokensShift(w, 1, rest, 0, d);
    assert TokenStart(w, 0, d) == TokenStart(w, 1, d);
  }

  /** The last token is what stands behind the last delimiter, if it is clean. */
  lemma {:induction false} TokensSnoc(a: string, b: string, d: char)
    requires Clean(b, d)
    ensures Tokens(a + [d] + b, d) == Tokens(a, d) + [b]
    decreases |a|
  {
    hide Tokens, Clean;
    if a == "" {
      LeadingDelimiter(b, d);
      assert a + [d] + b == [d] + b;
      OneToken(b, d);
    } else if a[0] == d {
      LeadingDelimiter(a[1..], d);
      LeadingDelimiter(a[1..] + [d] + b, d);
      TokensSnoc(a[1..], b, d);
      assert a == [d] + a[1..];
      assert a + [d] + b == [d] + (a[1..] + [d] + b);
    } else {
      var e := TokenEnd(a, 0, d);
      var t := a[..e];
      PieceIsClean(a, d);
      if e == |a| {
        assert a == t;
        TokenThenText(a, b, d);
        OneToken(a, d);
        OneToken(b, d);
      } else {
        var rest := a[e + 1..];
        assert a == t + [d] + rest;
        assert a + [d] + b == t + [d] + (rest + [d] + b);
        TokenThenText(t, rest, d);
        TokenThenText(t, rest + [d] + b, d);
        TokensSnoc(rest, b, d);
      }
    }
  }

  lemma PieceIsClean(a: string, d: char)
    requires a != "" && a[0] != d
    ensures Clean(a[..TokenEnd(a, 0, d)], d)
  {
    assert TokenEnd(a, 0, d) > 0;
  }

  /** Joined tokens come apart again, exactly when none of them is empty or holds the delimiter. */
  lemma JoinRoundTrip(ts: seq<string>, d: char)
    ensures Tokens(Join(ts, d), d) == ts <==> AllClean(ts, d)
  {
    TokensAreClean(Join(ts, d), 0, d);
    if AllClean(ts, d) {
      CleanJoinSplits(ts, d);
    }
  }

  lemma {:induction false} CleanJoinSplits(ts: seq<string>, d: char)
    requires AllClean(ts, d)
    ensures Tokens(Join(ts, d), d) == ts
    decreases |ts|
  {
    if |ts| == 1 {
      OneToken(ts[0], d);
    } else if |ts| > 1 {
      CleanJoinSplits(ts[1..], d);
      TokenThenText(ts[0], Join(ts[1..], d), d);
    }
  }

  // ---- The tokenizer ----

  /** strtok_r from position `at`: the token is s[start..next], and the next search starts at `next`. */
  method NextToken(s: string, at: nat, d: char) returns (found: bool, start: nat, next: nat)
    requires at <= |s|
    ensures found <==> TokensFrom(s, at, d) != []
    ensures found ==> at <= start < next <= |s|
    ensures found ==>
      && TokensFrom(s, at, d)[0] == s[start..next]
      && TokensFrom(s, next, d) == TokensFrom(s, at, d)[1..]
  {
    start := at;
    while start < |s| && s[start] == d
      invariant at <= start <= |s|
      invariant TokenStart(s, at, d) == TokenStart(s, start, d)
    {
      start := start + 1;
    }
    next := start;
    while next < |s| && s[next] != d
      invariant start <= next <= |s|
      invariant TokenEnd(s, start, d) == TokenEnd(s, next, d)
    {
      next := next + 1;
    }
    found := next > start;
  }

  /** The first pass of the tokenizer. */
  method CountTokens(s: string, d: char) returns (count: nat)
    ensures count == |Tokens(s, d)|
  {
    ghost var all := Tokens(s, d);
    var at := 0;
    count := 0;
    while true
      invariant at <= |s| && count <= |all|
      invariant TokensFrom(s, at, d) == all[count..]
      decreases |s| - at
    {
      var found, _, next := NextToken(s, at, d);
      if !found { break; }
      assert all[count..][1..] == all[count + 1..];
      count, at := count + 1, next;
    }
  }

  /** split_by_space and split_by_underscore: after the counting pass, a second one fills the array. */
  method Split(s: string, d: char) returns (tokens: array<string>)
    ensures fresh(tokens)
    ensures tokens[..] == Tokens(s, d)
  {
    ghost var all := Tokens(s, d);
    var count := CountTokens(s, d);
    tokens := new string[count];
    var index, at := 0, 0;
    while true
      invariant at <= |s| && index <= tokens.Length == |all|
      invariant TokensFrom(s, at, d) == all[index..]
      invariant forall k :: 0 <= k < index ==> tokens[k] == all[k]
      decreases |s| - at
    {
      var found, start, next := NextToken(s, at, d);
      if !found { break; }
      assert all[index..][1..] == all[index + 1..];
      tokens[index] := s[start..next];
      index, at := index + 1, next;
    }
  }

  // ---- Building commands ----

  /** keys and values in the order of a SETALL. */
  function Interleave(keys: seq<string>, values: seq<string>): (r: seq<string>)
    requires |keys| == |values|
    ensures |r| == 2 * |keys|
    ensures forall i :: 0 <= i < |keys| ==> r[2 * i] == keys[i] && r[2 * i + 1] == values[i]
  {
    if keys == [] then []
    else
      var rest := Interleave(keys[1..], values[1..]);
      [keys[0], values[0]] + rest
  }

  /** "key value", one text a pair. */
  function Pairs(keys: seq<string>, values: seq<string>): (r: seq<string>)
    requires |keys| == |values|
    ensures |r| == |keys|
    ensures forall i :: 0 <= i < |keys| ==> r[i] == keys[i] + " " + values[i]
  {
    seq(|keys|, i requires 0 <= i < |keys| => keys[i] + " " + values[i])
  }

  lemma {:induction false} JoinPairs(keys: seq<string>, values: seq<string>)
    requires |keys| == |values|
    ensures Join(Interleave(keys, values), ' ') == Join(Pairs(keys, values), ' ')
    decreases |keys|
  {
    if keys != [] {
      var all := Interleave(keys, values);
      var rest := Interleave(keys[1..], values[1..]);
      JoinPairs(keys[1..], values[1..]);
      assert Pairs(keys, values)[1..] == Pairs(keys[1..], values[1..]);
      assert all[1..] == [values[0]] + rest;
      assert all[1..][1..] == rest;
    }
  }

  lemma {:induction false} JoinSnoc(ts: seq<string>, t: string, d: char)
    ensures Join(ts + [t], d) == if ts == [] then t else Join(ts, d) + [d] + t
    decreases |ts|
  {
    if ts != [] {
      assert (ts + [t])[1..] == ts[1..] + [t];
      JoinSnoc(ts[1..], t, d);
    }
  }

  /** The text after i of the items have been appended. */
  function Written(command: string, items: seq<string>, i: nat): string
    requires i <= |items|
  {
    command + Join(items[..i], ' ') + if 0 < i < |items| then " " else ""
  }

  lemma WrittenStep(command: string, items: seq<string>, i: nat)
    requires i < |items|
    ensures Written(command, items, i + 1)
            == Written(command, items, i) + items[i] + if i < |items| - 1 then " " else ""
  {
    JoinSnoc(items[..i], items[i], ' ');
    assert items[..i + 1] == items[..i] + [items[i]];
  }

  /**
   getall: the text put in the buffer and the byte count passed to sendall. The count covers the text and
   its terminating NUL, except that with no keys at all it leaves the NUL out.
   */
  method BuildGetAll(keys: seq<string>) returns (text: string, size: nat)
    ensures text == "GETALL " + Join(keys, ' ')
    ensures size == |text| + if keys == [] then 0 else 1
  {
    text, size := "GETALL ", 7;
    for i := 0 to |keys|
      invariant text == Written("GETALL ", keys, i)
      invariant size == if 0 < i == |keys| then |text| + 1 else |text|
    {
      WrittenStep("GETALL ", keys, i);
      text := text + keys[i];
      if i < |keys| - 1 {
        text := text + " ";
      }
      size := size + |keys[i]| + 1;
    }
    assert keys[..|keys|] == keys;
  }

  /** setall: each pair adds its two texts and two more bytes. The values are already base64 text. */
  method BuildSetAll(keys: seq<string>, values: seq<string>) returns (text: string, size: nat)
    requires |keys| == |values|
    ensures text == "SETALL " + Join(Interleave(keys, values), ' ')
    ensures size == |text| + if keys == [] then 0 else 1
  {
    text, size := "SETALL ", 7;
    ghost var items := Pairs(keys, values);
    for i := 0 to |keys|
      invariant text == Written("SETALL ", items, i)
      invariant size == if 0 < i == |keys| then |text| + 1 else |text|
    {
      WrittenStep("SETALL ", items, i);
      text := text + (keys[i] + " " + values[i]);
      if i < |keys| - 1 {
        text := text + " ";
      }
      size := size + |keys[i]| + |values[i]| + 2;
    }
    assert items[..|keys|] == items;
    JoinPairs(keys, values);
  }

  /** The reply to a GETALL: the values joined, with room for the terminating NUL if there is a value at all. */
  method BuildReply(values: seq<string>) returns (text: string, size: nat)
    ensures text == Join(values, ' ')
    ensures size == |text| + if values == [] then 0 else 1
  {
    size := 0;
    text := "";
    for i := 0 to |values|
      invariant text == Written("", values, i)
      invariant size == if 0 < i == |values| then |text| + 1 else |text|
    {
      WrittenStep("", values, i);
      text := text + values[i];
      if i < |values| - 1 {
        text := text + " ";
      }
      size := size + |values[i]| + 1;
    }
    assert values[..|values|] == values;
  }

  /** The server finds in a command exactly the words the client put there, if they are clean. */
  lemma CommandRoundTrip(command: string, words: seq<string>)
    requires Clean(command, ' ') && words != []
    ensures Tokens(command + " " + Join(words, ' '), ' ') == [command] + words <==> AllClean(words, ' ')
  {
    var ts := [command] + words;
    assert ts[1..] == words;
    assert Join(ts, ' ') == command + " " + Join(words, ' ');
    JoinRoundTrip(ts, ' ');
    assert AllClean(ts, ' ') ==> forall i :: 0 <= i < |words| ==> words[i] == ts[i + 1];
  }
}
