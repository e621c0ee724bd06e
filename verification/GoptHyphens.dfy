/**
 The flag NO_HYPHEN is documented to keep arguments that begin with a hyphen away from an option. The parser
 does not always do so. Here is when it does not: a guard on the words and the table alone, which a caller
 can check beforehand, is met if and only if such an option ends up with such an argument.
 */
module GoptHyphens {
  import opened Common
  import opened GoptSpec

  // ---- Where arguments come from ----

  predicate Hyphen(s: string) { |s| > 0 && s[0] == '-' }

  /** The argument is part of the option's own word: behind '=', or behind the character of a short option. */
  ghost predicate Attached(word: string, e: Event) {
    && e.argument.Some?
    && if e.use.long then
         && IsLong(word) && e.use.name == word[2..]
         && NameLength(e.use.name) < |e.use.name|
         && e.argument.value == e.use.name[NameLength(e.use.name) + 1..]
       else exists j :: 1 <= j < |word| - 1 && e.use.name == [word[j]] && e.argument.value == word[j + 1..]
  }

  /** The option was waiting, and the argument is the whole word. */
  predicate Taken(word: string, mode: Mode, e: Event) {
    mode == Expecting(e.use) && e.argument == Some(word)
  }

  lemma {:induction false} ShortEventsAttached(word: string, j: nat, t: Table, last: nat, k: nat)
    requires last < |t| && 1 <= j <= |word| && k < |ShortEvents(word, j, t, last).0|
    ensures var e := ShortEvents(word, j, t, last).0[k];
            !e.use.long && (e.argument.Some? ==> Attached(word, e))
    decreases |word| - j
  {
    if j < |word| {
      var index := ShortIndex(word[j], t, last);
      if index < last && Has(t[index].flags, ARGUMENT_FORBIDDEN) && k > 0 {
        ShortEventsAttached(word, j + 1, t, last, k - 1);
      }
    }
  }

  /** Every argument is either attached to the option's own word or a whole word that the option took; never both. */
  lemma ArgumentOrigin(word: string, mode: Mode, t: Table, last: nat, k: nat)
    requires last < |t| && (mode.Expecting? ==> mode.use.index <= last)
    requires k < |ReadWord(word, mode, t, last).1| && ReadWord(word, mode, t, last).1[k].argument.Some?
    ensures var e := ReadWord(word, mode, t, last).1[k];
            && (Attached(word, e) <==> !Taken(word, mode, e))
            && (Taken(word, mode, e) ==> Takes(t[mode.use.index].flags, word))
    decreases mode.Expecting?
  {
    var e := ReadWord(word, mode, t, last).1[k];
    if mode.Expecting? && !Takes(t[mode.use.index].flags, word) {
      assert k > 0;
      ArgumentOrigin(word, Normal, t, last, k - 1);
    } else if mode.Normal? && IsShort(word) {
      ShortEventsAttached(word, 1, t, last, k);
    }
  }

  /** The argument of e comes from one of the words. */
  ghost predicate ArgumentFrom(words: seq<string>, t: Table, e: Event)
    requires e.use.index < |t|
  {
    exists p :: 0 <= p < |words| &&
      (Attached(words[p], e) || (e.argument == Some(words[p]) && Takes(t[e.use.index].flags, words[p])))
  }

  lemma {:induction false} ListOrigin(words: seq<string>, mode: Mode, t: Table, last: nat, k: nat)
    requires last < |t| && (mode.Expecting? ==> mode.use.index <= last)
    requires k < |Parse(words, mode, t, last).events| && Parse(words, mode, t, last).events[k].argument.Some?
    ensures var e := Parse(words, mode, t, last).events[k];
            e.use.index <= last && ArgumentFrom(words, t, e)
    decreases |words|
  {
    if words != [] {
      hide ReadWord, Takes, Attached;
      ParseReadsWords(words, mode, t, last);
      ReadWordInTable(words[0], mode, t, last);
      hide Parse;
      var (operand, events, next) := ReadWord(words[0], mode, t, last);
      if k < |events| {
        ArgumentOrigin(words[0], mode, t, last, k);
      } else {
        ListOrigin(words[1..], next, t, last, k - |events|);
        var e := Parse(words[1..], next, t, last).events[k - |events|];
        var p :| 0 <= p < |words[1..]| &&
          (Attached(words[1..][p], e)
           || (e.argument == Some(words[1..][p]) && Takes(t[e.use.index].flags, words[1..][p])));
        assert words[1..][p] == words[p + 1];
      }
    }
  }

  // ---- The guard ----

  predicate NoHyphen(t: Table, index: nat) {
    index < |t| && Has(t[index].flags, ARGUMENT_NO_HYPHEN)
  }

  /** A use of an option marked NO_HYPHEN with an argument that begins with a hyphen. */
  predicate Breaks(t: Table, e: Event) {
    NoHyphen(t, e.use.index) && e.argument.Some? && Hyphen(e.argument.value)
  }

  /** "--name=-...", where the name is that of an option marked NO_HYPHEN. */
  predicate LongGuard(body: string, t: Table, last: nat)
    requires last < |t|
  {
    var n := NameLength(body);
    n + 1 < |body| && body[n + 1] == '-' && NoHyphen(t, LongIndex(body, t, last))
  }

  /** The character stands for an option that takes no argument. */
  predicate Bare(c: char, t: Table, last: nat)
    requires last < |t|
  {
    ShortIndex(c, t, last) < last && Has(t[ShortIndex(c, t, last)].flags, ARGUMENT_FORBIDDEN)
  }

  /** The character at i may have an argument, is marked NO_HYPHEN and is followed by '-'. */
  predicate HyphenBehind(word: string, i: nat, t: Table, last: nat)
    requires last < |t| && i < |word|
  {
    && !Bare(word[i], t, last)
    && NoHyphen(t, ShortIndex(word[i], t, last))
    && i + 1 < |word| && word[i + 1] == '-'
  }

  ghost predicate AllBare(word: string, from: nat, to: nat, t: Table, last: nat)
    requires last < |t| && to <= |word|
  {
    forall h :: from <= h < to ==> Bare(word[h], t, last)
  }

  /** The first character from j on that may have an argument is marked NO_HYPHEN and is followed by '-'. */
  ghost predicate ClusterGuard(word: string, j: nat, t: Table, last: nat)
    requires last < |t| && j <= |word|
  {
    exists i :: j <= i < |word| && AllBare(word, j, i, t, last) && HyphenBehind(word, i, t, last)
  }

  /** A word that is not taken as an argument. */
  ghost predicate OptionGuard(word: string, t: Table, last: nat)
    requires last < |t|
  {
    if IsLong(word) then LongGuard(word[2..], t, last) else IsShort(word) && ClusterGuard(word, 1, t, last)
  }

  /** What a word must look like, in the mode in which it is read. */
  ghost predicate Guard(word: string, mode: Mode, t: Table, last: nat)
    requires last < |t|
  {
    match mode
    case OnlyOperands => false
    case Normal => OptionGuard(word, t, last)
    case Expecting(use) =>
      if NoHyphen(t, use.index) then word == "-" || (|word| >= 2 && word[0] == '-' && OptionGuard(word, t, last))
      else false
  }

  ghost predicate AnyBreaks(t: Table, events: seq<Event>) {
    exists k :: 0 <= k < |events| && Breaks(t, events[k])
  }

  lemma AnyBreaksBoth(t: Table, a: seq<Event>, b: seq<Event>)
    ensures AnyBreaks(t, a + b) <==> AnyBreaks(t, a) || AnyBreaks(t, b)
  {
    hide Breaks;
    if AnyBreaks(t, a) {
      var k :| 0 <= k < |a| && Breaks(t, a[k]);
      assert (a + b)[k] == a[k];
    }
    if AnyBreaks(t, b) {
      var k :| 0 <= k < |b| && Breaks(t, b[k]);
      assert (a + b)[|a| + k] == b[k];
    }
  }

  lemma OneBreaks(t: Table, e: Event)
    ensures AnyBreaks(t, [e]) <==> Breaks(t, e)
  {
    assert [e][0] == e;
  }

  // ---- A word ----

  lemma ClusterGuardStep(word: string, j: nat, t: Table, last: nat)
    requires last < |t| && j < |word|
    ensures ClusterGuard(word, j, t, last)
            <==> if Bare(word[j], t, last) then ClusterGuard(word, j + 1, t, last) else HyphenBehind(word, j, t, last)
  {
    assert AllBare(word, j, j, t, last);
    assert HyphenBehind(word, j, t, last) ==> !Bare(word[j], t, last);
    hide Bare, HyphenBehind;
    if ClusterGuard(word, j, t, last) {
      var i :| j <= i < |word| && AllBare(word, j, i, t, last) && HyphenBehind(word, i, t, last);
      if i > j {
        assert Bare(word[j], t, last);
        assert AllBare(word, j + 1, i, t, last);
      }
    }
    if Bare(word[j], t, last) && ClusterGuard(word, j + 1, t, last) {
      var i :| j + 1 <= i < |word| && AllBare(word, j + 1, i, t, last) && HyphenBehind(word, i, t, last);
      assert AllBare(word, j, i, t, last);
    }
  }

  lemma {:induction false} ClusterBreaksIff(word: string, j: nat, t: Table, last: nat)
    requires last < |t| && j <= |word|
    ensures AnyBreaks(t, ShortEvents(word, j, t, last).0) <==> ClusterGuard(word, j, t, last)
    decreases |word| - j
  {
    if j < |word| {
      ClusterGuardStep(word, j, t, last);
      ClusterBreaksIff(word, j + 1, t, last);
      var index := ShortIndex(word[j], t, last);
      var use := Use(index, false, [word[j]]);
      hide ClusterGuard, ShortIndex, Has, AnyBreaks;
      NothingBreaks(t, []);
      if Bare(word[j], t, last) {
        AnyBreaksBoth(t, [Event(use, None)], ShortEvents(word, j + 1, t, last).0);
        OneBreaks(t, Event(use, None));
      } else {
        OneBreaks(t, Event(use, if j + 1 < |word| then Some(word[j + 1..]) else None));
      }
    }
  }

  lemma NothingBreaks(t: Table, events: seq<Event>)
    requires forall k :: 0 <= k < |events| ==> events[k].argument.None?
    ensures !AnyBreaks(t, events)
  {
  }

  lemma LongBreaksIff(body: string, t: Table, last: nat)
    requires last < |t|
    ensures AnyBreaks(t, LongEvents(body, t, last).0) <==> LongGuard(body, t, last)
  {
    hide LongIndex, Has;
    var events := LongEvents(body, t, last).0;
    if |events| == 1 {
      OneBreaks(t, events[0]);
    }
  }

  lemma OptionBreaksIff(word: string, t: Table, last: nat)
    requires last < |t|
    ensures AnyBreaks(t, ReadWord(word, Normal, t, last).1) <==> OptionGuard(word, t, last)
  {
    hide AnyBreaks, LongGuard, ClusterGuard, LongEvents, ShortEvents;
    NothingBreaks(t, []);
    if IsLong(word) {
      LongBreaksIff(word[2..], t, last);
    } else if IsShort(word) {
      ClusterBreaksIff(word, 1, t, last);
    }
  }

  /** A word breaks the promise exactly when it meets the guard in the mode in which it is read. */
  lemma NoHyphenIff(word: string, mode: Mode, t: Table, last: nat)
    requires last < |t| && (mode.Expecting? ==> mode.use.index <= last)
    ensures AnyBreaks(t, ReadWord(word, mode, t, last).1) <==> Guard(word, mode, t, last)
  {
    OptionBreaksIff(word, t, last);
    hide AnyBreaks, OptionGuard, LongEvents, ShortEvents;
    NothingBreaks(t, []);
    if mode.Expecting? {
      var use := mode.use;
      OneBreaks(t, Event(use, Some(word)));
      NothingBreaks(t, [Event(use, None)]);
      AnyBreaksBoth(t, [Event(use, None)], ReadWord(word, Normal, t, last).1);
    }
  }

  // ---- An argument list ----

  /** The mode in which word p is read: what reading the words before it, one by one, leaves. */
  function ModeAt(words: seq<string>, mode: Mode, p: nat, t: Table, last: nat): (m: Mode)
    requires p <= |words| && last < |t| && (mode.Expecting? ==> mode.use.index <= last)
    ensures m.Expecting? ==> m.use.index <= last
    decreases p
  {
    if p == 0 then mode
    else
      ReadWordInTable(words[0], mode, t, last);
      ModeAt(words[1..], ReadWord(words[0], mode, t, last).2, p - 1, t, last)
  }

  ghost predicate SomeGuard(words: seq<string>, mode: Mode, t: Table, last: nat)
    requires last < |t| && (mode.Expecting? ==> mode.use.index <= last)
  {
    exists p :: 0 <= p < |words| && Guard(words[p], ModeAt(words, mode, p, t, last), t, last)
  }

  lemma SomeGuardStep(words: seq<string>, mode: Mode, t: Table, last: nat)
    requires last < |t| && (mode.Expecting? ==> mode.use.index <= last) && words != []
    ensures var next := ReadWord(words[0], mode, t, last).2;
            && (next.Expecting? ==> next.use.index <= last)
            && (SomeGuard(words, mode, t, last)
                <==> Guard(words[0], mode, t, last) || SomeGuard(words[1..], next, t, last))
  {
    ReadWordInTable(words[0], mode, t, last);
    hide Guard, ReadWord;
    var rest := words[1..];
    var next := ReadWord(words[0], mode, t, last).2;
    if SomeGuard(words, mode, t, last) {
      var p :| 0 <= p < |words| && Guard(words[p], ModeAt(words, mode, p, t, last), t, last);
      if p > 0 {
        assert Guard(rest[p - 1], ModeAt(rest, next, p - 1, t, last), t, last);
      }
    }
    if Guard(words[0], mode, t, last) {
      assert Guard(words[0], ModeAt(words, mode, 0, t, last), t, last);
    }
    if SomeGuard(rest, next, t, last) {
      var p :| 0 <= p < |rest| && Guard(rest[p], ModeAt(rest, next, p, t, last), t, last);
      assert Guard(words[p + 1], ModeAt(words, mode, p + 1, t, last), t, last);
    }
  }

  /**
   The exact condition, for every argument list and table. Some option marked NO_HYPHEN is used with an
   argument that begins with a hyphen if and only if some word meets the guard in the mode that the words
   before it lead to.
   */
  lemma {:induction false} NoHyphenInListIff(words: seq<string>, mode: Mode, t: Table, last: nat)
    requires last < |t| && (mode.Expecting? ==> mode.use.index <= last)
    ensures AnyBreaks(t, Parse(words, mode, t, last).events) <==> SomeGuard(words, mode, t, last)
    decreases |words|
  {
    if words == [] {
      NothingBreaks(t, Parse(words, mode, t, last).events);
    } else {
      ParseReadsWords(words, mode, t, last);
      SomeGuardStep(words, mode, t, last);
      NoHyphenIff(words[0], mode, t, last);
      hide AnyBreaks, SomeGuard, Guard, ReadWord, Parse;
      var (operand, events, next) := ReadWord(words[0], mode, t, last);
      NoHyphenInListIff(words[1..], next, t, last);
      AnyBreaksBoth(t, events, Parse(words[1..], next, t, last).events);
    }
  }

  // ---- Such words exist ----

  /** "--o=-x", "-o-x" and "--o -" all hand a hyphen to an option that requires an argument without one. */
  lemma HyphensGetThrough()
    ensures var t := [Opt('o', Some("o"), ARGUMENT_REQUIRED | ARGUMENT_NO_HYPHEN, 0, None),
                      Opt(NO_NAME, None, LAST, 0, None)];
            && EndsAt(t, 1)
            && Parse(["--o=-x"], Normal, t, 1).events == [Event(Use(0, true, "o=-x"), Some("-x"))]
            && Parse(["-o-x"], Normal, t, 1).events == [Event(Use(0, false, "o"), Some("-x"))]
            && Parse(["--o", "-"], Normal, t, 1).events == [Event(Use(0, true, "o"), Some("-"))]
  {
    var t := [Opt('o', Some("o"), ARGUMENT_REQUIRED | ARGUMENT_NO_HYPHEN, 0, None), Opt(NO_NAME, None, LAST, 0, None)];
    LongUse(t, "o=-x");
    LongUse(t, "o");
    assert LongEvents("o=-x", t, 1) == ([Event(Use(0, true, "o=-x"), Some("-x"))], Normal);
    assert LongEvents("o", t, 1) == ([], Expecting(Use(0, true, "o")));
    assert ShortEvents("-o-x", 1, t, 1) == ([Event(Use(0, false, "o"), Some("-x"))], Normal);
    hide LongEvents, ShortEvents;
    ParseReadsWords(["--o=-x"], Normal, t, 1);
    ParseReadsWords(["-o-x"], Normal, t, 1);
    ParseReadsWords(["--o", "-"], Normal, t, 1);
    ParseReadsWords(["-"], Expecting(Use(0, true, "o")), t, 1);
  }

  lemma LongUse(t: Table, body: string)
    requires |t| == 2 && t[0].longName == Some("o") && (body == "o" || body == "o=-x")
    ensures NameLength(body) == 1 && LongIndex(body, t, 1) == 0
  {
    assert NameLength(body[1..]) == 0;
    assert body[..1] == "o" && "o"[..1] == "o";
    assert Spells(body, t[0]);
  }
}
