/**
 What a command line means, told from the user's side: which words spell a use of an option, with the bits of
 the flags in numbers. Spelling a list of uses and operands and parsing the words gives the list back.
 */
module GoptUse {
  import opened Common
  import opened GoptSpec

  predicate Forbidden(o: Opt) { o.flags & 0x001 != 0 }
  predicate Required(o: Opt) { o.flags & 0x002 != 0 }
  predicate RefusesHyphen(o: Opt) { o.flags & 0x004 != 0 }

  predicate Dashed(word: string) {
    |word| >= 2 && word[0] == '-'
  }

  /** An option that waits for an argument takes this word. */
  predicate MayTake(o: Opt, word: string) {
    !(Dashed(word) && RefusesHyphen(o))
  }

  predicate NoEquals(name: string) {
    forall i :: 0 <= i < |name| ==> name[i] != '='
  }

  /** Where a short option belongs: the first element of that name, else the end. */
  predicate IsShortIndex(c: char, t: Table, last: nat, index: nat)
    requires last < |t|
  {
    index <= last && (index < last ==> t[index].shortName == c) && forall j :: 0 <= j < index ==> t[j].shortName != c
  }

  lemma ShortIndexIsUnique(c: char, t: Table, last: nat, index: nat)
    requires last < |t|
    ensures IsShortIndex(c, t, last, index) <==> index == ShortIndex(c, t, last)
  {
  }

  /** The bits that the parser looks at and sets. */
  lemma FlagBits()
    ensures ARGUMENT_FORBIDDEN == 0x001 && ARGUMENT_REQUIRED == 0x002 && ARGUMENT_NO_HYPHEN == 0x004 && LAST == 0x100
    ensures SeenFlag(false, false) == 0x010 && SeenFlag(false, true) == 0x020
    ensures SeenFlag(true, false) == 0x040 && SeenFlag(true, true) == 0x080
  {
  }

  // ---- Names ----

  /** The two characters are equal, or the same letter of the alphabet in its two cases. */
  predicate SameLetter(a: char, b: char) {
    || a == b
    || ('A' <= a <= 'Z' && b as int == a as int + 32)
    || ('A' <= b <= 'Z' && a as int == b as int + 32)
  }

  lemma CaseIsIgnored(a: string, b: string)
    ensures SameIgnoringCase(a, b) <==> |a| == |b| && forall i :: 0 <= i < |a| ==> SameLetter(a[i], b[i])
  {
    if |a| == |b| {
      forall i | 0 <= i < |a| ensures Lower(a[i]) == Lower(b[i]) <==> SameLetter(a[i], b[i]) {
      }
    }
  }

  /** The part of a long option before '=' abbreviates a name when it is its beginning, in either case. */
  lemma AbbreviationIs(name: string, rest: string, o: Opt)
    requires NoEquals(name) && (rest == "" || rest[0] == '=')
    ensures Abbreviates(name + rest, o)
            <==> o.longName.Some? && |name| <= |o.longName.value|
                 && forall i :: 0 <= i < |name| ==> SameLetter(o.longName.value[i], name[i])
    ensures Spells(name + rest, o) <==> Abbreviates(name + rest, o) && |o.longName.value| == |name|
  {
    NameEnds(name, rest);
    assert (name + rest)[..|name|] == name;
    if o.longName.Some? && |name| <= |o.longName.value| {
      var long := o.longName.value;
      CaseIsIgnored(long[..|name|], name);
      assert forall i :: 0 <= i < |name| ==> long[..|name|][i] == long[i];
    }
  }

  lemma NameEnds(name: string, rest: string)
    requires NoEquals(name) && (rest == "" || rest[0] == '=')
    ensures NameLength(name + rest) == |name|
  {
    assert forall i :: 0 <= i < |name| ==> (name + rest)[i] == name[i];
    assert rest != "" ==> (name + rest)[|name|] == rest[0];
  }

  // ---- Words and what they spell ----

  /** How the last character of a cluster comes by its argument. */
  datatype End =
    | NoEnd
    | EndWith(c: char, index: nat, arg: string)   // the argument follows in the same word
    | EndNext(c: char, index: nat, arg: string)   // the argument is the next word
    | EndAlone(c: char, index: nat)

  /** The indices are those of the options in the table. */
  datatype Item =
    | Operand(word: string)
    | LongWith(name: string, index: nat, arg: string)
    | LongNext(name: string, index: nat, arg: string)
    | LongAlone(name: string, index: nat)
    | Cluster(bare: string, indices: seq<nat>, end: End)

  function EndText(end: End): string {
    match end
    case NoEnd => ""
    case EndWith(c, _, arg) => [c] + arg
    case EndNext(c, _, _) => [c]
    case EndAlone(c, _) => [c]
  }

  function Spelled(item: Item): seq<string> {
    match item
    case Operand(word) => [word]
    case LongWith(name, _, arg) => ["--" + (name + ("=" + arg))]
    case LongNext(name, _, arg) => ["--" + name, arg]
    case LongAlone(name, _) => ["--" + name]
    case Cluster(bare, _, end) =>
      ["-" + (bare + EndText(end))] + if end.EndNext? then [end.arg] else []
  }

  function Operands(item: Item): seq<string> {
    if item.Operand? then [item.word] else []
  }

  function EndEvents(end: End): seq<Event> {
    match end
    case NoEnd => []
    case EndWith(c, index, arg) => [Event(Use(index, false, [c]), Some(arg))]
    case EndNext(c, index, arg) => [Event(Use(index, false, [c]), Some(arg))]
    case EndAlone(c, index) => [Event(Use(index, false, [c]), None)]
  }

  function BareEvents(bare: string, indices: seq<nat>): (events: seq<Event>)
    requires |bare| == |indices|
    ensures |events| == |bare|
  {
    seq(|bare|, i requires 0 <= i < |bare| => Event(Use(indices[i], false, [bare[i]]), None))
  }

  function Events(item: Item): seq<Event>
    requires item.Cluster? ==> |item.bare| == |item.indices|
  {
    match item
    case Operand(_) => []
    case LongWith(name, index, arg) => [Event(Use(index, true, name + ("=" + arg)), Some(arg))]
    case LongNext(name, index, arg) => [Event(Use(index, true, name), Some(arg))]
    case LongAlone(name, index) => [Event(Use(index, true, name), None)]
    case Cluster(bare, indices, end) => BareEvents(bare, indices) + EndEvents(end)
  }

  /** The character stands for an option that must have no argument. */
  predicate IsBare(c: char, t: Table, last: nat, index: nat)
    requires last < |t|
  {
    IsShortIndex(c, t, last, index) && index < last && Forbidden(t[index])
  }

  predicate GoodEnd(end: End, t: Table, last: nat)
    requires last < |t|
  {
    match end
    case NoEnd => true
    case EndWith(c, index, arg) => IsShortIndex(c, t, last, index) && !IsBare(c, t, last, index) && arg != ""
    case EndNext(c, index, arg) =>
      IsShortIndex(c, t, last, index) && !IsBare(c, t, last, index) && index < last && Required(t[index])
      && MayTake(t[index], arg)
    case EndAlone(c, index) =>
      IsShortIndex(c, t, last, index) && !IsBare(c, t, last, index) && !(index < last && Required(t[index]))
  }

  /** The item can be spelled: what follows an option agrees with its flags. */
  ghost predicate Good(item: Item, t: Table, last: nat)
    requires last < |t|
  {
    match item
    case Operand(word) => !Dashed(word)
    case LongWith(name, index, arg) => NoEquals(name) && IsLongIndex(name + ("=" + arg), t, last, index)
    case LongNext(name, index, arg) =>
      && name != "" && NoEquals(name) && IsLongIndex(name, t, last, index)
      && Required(t[index]) && MayTake(t[index], arg)
    case LongAlone(name, index) =>
      name != "" && NoEquals(name) && IsLongIndex(name, t, last, index) && !Required(t[index])
    case Cluster(bare, indices, end) =>
      && |bare| == |indices| && bare + EndText(end) != "" && (bare + EndText(end))[0] != '-'
      && (forall i :: 0 <= i < |bare| ==> IsBare(bare[i], t, last, indices[i]))
      && GoodEnd(end, t, last)
  }

  // ---- One word ----

  lemma SameFlags(t: Table, i: nat, word: string)
    requires i < |t|
    ensures Has(t[i].flags, ARGUMENT_FORBIDDEN) == Forbidden(t[i])
    ensures Has(t[i].flags, ARGUMENT_REQUIRED) == Required(t[i])
    ensures Takes(t[i].flags, word) == MayTake(t[i], word)
  {
  }

  /** A long option: with '=' it has its argument, else it waits if it requires one, else it has none. */
  lemma LongReads(name: string, rest: string, t: Table, last: nat, index: nat)
    requires last < |t| && NoEquals(name) && (rest == "" || rest[0] == '=')
    requires IsLongIndex(name + rest, t, last, index)
    ensures var use := Use(index, true, name + rest);
            LongEvents(name + rest, t, last)
            == if rest != "" then ([Event(use, Some(rest[1..]))], Normal)
               else if Required(t[index]) then ([], Expecting(use))
               else ([Event(use, None)], Normal)
  {
    LongIndexIsUnique(name + rest, t, last, index);
    NameEnds(name, rest);
    SameFlags(t, index, "");
    hide Has, Required, LongIndex, NameLength, IsLongIndex;
    assert rest != "" ==> (name + rest)[|name| + 1..] == rest[1..];
  }

  /** A word of short options from its character j on, where `bare` and then `end` are what is left. */
  lemma {:induction false} ClusterReads(word: string, j: nat, bare: string, indices: seq<nat>, end: End, t: Table,
                                        last: nat)
    requires last < |t| && j <= |word| && |bare| == |indices| && word[j..] == bare + EndText(end)
    requires (forall i :: 0 <= i < |bare| ==> IsBare(bare[i], t, last, indices[i]))
    requires GoodEnd(end, t, last)
    ensures ShortEvents(word, j, t, last)
            == if end.EndNext? then (BareEvents(bare, indices), Expecting(Use(end.index, false, [end.c])))
               else (BareEvents(bare, indices) + EndEvents(end), Normal)
    decreases |bare|
  {
    if bare == "" {
      assert word[j..] == EndText(end);
      EndReads(word, j, end, t, last);
      assert BareEvents(bare, indices) == [];
      assert [] + EndEvents(end) == EndEvents(end);
    } else {
      var c := bare[0];
      assert word[j] == word[j..][0] == c;
      assert word[j + 1..] == word[j..][1..] == bare[1..] + EndText(end);
      assert IsBare(c, t, last, indices[0]);
      ShortIndexIsUnique(c, t, last, indices[0]);
      SameFlags(t, indices[0], "");
      ClusterReads(word, j + 1, bare[1..], indices[1..], end, t, last);
      hide IsBare, ShortIndex, Has, Forbidden, GoodEnd, EndText;
      var head := [Event(Use(indices[0], false, [c]), None)];
      assert BareEvents(bare, indices) == head + BareEvents(bare[1..], indices[1..]);
      assert head + (BareEvents(bare[1..], indices[1..]) + EndEvents(end))
          == BareEvents(bare, indices) + EndEvents(end);
    }
  }

  lemma EndReads(word: string, j: nat, end: End, t: Table, last: nat)
    requires last < |t| && j <= |word| && word[j..] == EndText(end) && GoodEnd(end, t, last)
    ensures ShortEvents(word, j, t, last)
            == if end.EndNext? then ([], Expecting(Use(end.index, false, [end.c]))) else (EndEvents(end), Normal)
  {
    if !end.NoEnd? {
      assert word[j] == word[j..][0] == end.c;
      assert word[j + 1..] == word[j..][1..];
      assert word[j + 1..] == if end.EndWith? then end.arg else "";
      ShortIndexIsUnique(end.c, t, last, end.index);
      SameFlags(t, end.index, "");
      hide IsShortIndex, ShortIndex, Has, Forbidden, Required, MayTake;
    }
  }

  // ---- An option that waits ----

  /** An option waits for the next word: it takes it, unless it is a hyphen word and the option refuses those. */
  lemma WaitingReads(use: Use, words: seq<string>, t: Table, last: nat)
    requires last < |t| && use.index <= last
    ensures Parse(words, Expecting(use), t, last)
            == if words == [] then Parsed([], [Event(use, None)])
               else if MayTake(t[use.index], words[0]) then
                 Prepend([Event(use, Some(words[0]))], Parse(words[1..], Normal, t, last))
               else Prepend([Event(use, None)], Parse(words, Normal, t, last))
  {
    if words != [] { SameFlags(t, use.index, words[0]); }
    hide Has, RefusesHyphen;
  }

  /** What a word leaves to the words behind it. */
  lemma WordThen(word: string, rest: seq<string>, t: Table, last: nat)
    requires last < |t|
    ensures var (operand, events, next) := ReadWord(word, Normal, t, last);
            && (next.Expecting? ==> next.use.index <= last)
            && var p := Parse(rest, next, t, last);
               Parse([word] + rest, Normal, t, last)
               == Parsed(if operand then [word] + p.operands else p.operands, events + p.events)
  {
    assert ([word] + rest)[1..] == rest;
    ParseReadsWords([word] + rest, Normal, t, last);
  }

  lemma LongWord(body: string, t: Table, last: nat)
    requires last < |t| && body != ""
    ensures ReadWord("--" + body, Normal, t, last)
            == (false, LongEvents(body, t, last).0, LongEvents(body, t, last).1)
  {
    assert ("--" + body)[2..] == body;
    hide LongEvents;
  }

  /**
   "--name" without '=', for every table and every list behind it. An option that requires an argument takes
   the next word, which then is no operand, if and only if this is not a hyphen word that it refuses; at the
   end of the list, and for an option that requires none, the use has no argument and what follows is read
   for itself.
   */
  lemma LongTakesNextIff(name: string, index: nat, rest: seq<string>, t: Table, last: nat)
    requires last < |t| && name != "" && NoEquals(name) && IsLongIndex(name, t, last, index)
    ensures var use := Use(index, true, name);
            var p := Parse(["--" + name] + rest, Normal, t, last);
            && p.events != [] && p.events[0].use == use
            && (p.events[0].argument.Some? <==> Required(t[index]) && rest != [] && MayTake(t[index], rest[0]))
            && p == if p.events[0].argument.Some? then
                      Prepend([Event(use, Some(rest[0]))], Parse(rest[1..], Normal, t, last))
                    else Prepend([Event(use, None)], Parse(rest, Normal, t, last))
  {
    LongReads(name, "", t, last, index);
    assert name + "" == name;
    LongWord(name, t, last);
    WordThen("--" + name, rest, t, last);
    var use := Use(index, true, name);
    if Required(t[index]) {
      WaitingReads(use, rest, t, last);
    }
    hide IsLongIndex, LongEvents, ReadWord, Required, MayTake;
    if rest == [] {
      assert Parse(rest, Normal, t, last) == Parsed([], []);
    }
  }

  lemma ClusterWord(word: string, bare: string, indices: seq<nat>, end: End, t: Table, last: nat)
    requires last < |t| && Good(Cluster(bare, indices, end), t, last) && word == "-" + (bare + EndText(end))
    ensures ReadWord(word, Normal, t, last)
            == if end.EndNext? then (false, BareEvents(bare, indices), Expecting(Use(end.index, false, [end.c])))
               else (false, BareEvents(bare, indices) + EndEvents(end), Normal)
  {
    assert word[1..] == bare + EndText(end);
    assert word[1] == (bare + EndText(end))[0];
    ClusterReads(word, 1, bare, indices, end, t, last);
    hide ShortEvents, IsBare, GoodEnd, BareEvents, EndEvents;
  }

  /** The same for the last character of a cluster, behind any number of characters that take no argument. */
  lemma LastShortTakesNextIff(bare: string, indices: seq<nat>, c: char, index: nat, rest: seq<string>, t: Table,
                              last: nat)
    requires last < |t| && |bare| == |indices| && (bare + [c])[0] != '-'
    requires forall i :: 0 <= i < |bare| ==> IsBare(bare[i], t, last, indices[i])
    requires IsShortIndex(c, t, last, index) && !IsBare(c, t, last, index)
    ensures var use := Use(index, false, [c]);
            var p := Parse(["-" + (bare + [c])] + rest, Normal, t, last);
            var n := |bare|;
            && |p.events| > n && p.events[..n] == BareEvents(bare, indices) && p.events[n].use == use
            && (p.events[n].argument.Some?
                <==> index < last && Required(t[index]) && rest != [] && MayTake(t[index], rest[0]))
            && p == if p.events[n].argument.Some? then
                      Prepend(p.events[..n] + [Event(use, Some(rest[0]))], Parse(rest[1..], Normal, t, last))
                    else Prepend(p.events[..n] + [Event(use, None)], Parse(rest, Normal, t, last))
  {
    var waits := index < last && Required(t[index]);
    ShortWaits(bare, indices, c, index, waits, t, last);
    var word := "-" + (bare + [c]);
    WordThen(word, rest, t, last);
    var use := Use(index, false, [c]);
    var before := BareEvents(bare, indices);
    if waits {
      WaitingReads(use, rest, t, last);
    }
    hide IsBare, IsShortIndex, ReadWord, Required, MayTake, BareEvents;
    if rest == [] {
      assert Parse(rest, Normal, t, last) == Parsed([], []);
    }
    Behind(before, Event(use, None), Parse(rest, Normal, t, last).events);
    if rest != [] {
      Behind(before, Event(use, Some(rest[0])), Parse(rest[1..], Normal, t, last).events);
    }
    hide Parse;
  }

  lemma Behind(before: seq<Event>, e: Event, more: seq<Event>)
    ensures before + ([e] + more) == before + [e] + more
    ensures (before + [e] + more)[..|before|] == before && (before + [e] + more)[|before|] == e
  {
  }

  lemma ShortWaits(bare: string, indices: seq<nat>, c: char, index: nat, waits: bool, t: Table, last: nat)
    requires last < |t| && |bare| == |indices| && (bare + [c])[0] != '-'
    requires forall i :: 0 <= i < |bare| ==> IsBare(bare[i], t, last, indices[i])
    requires IsShortIndex(c, t, last, index) && !IsBare(c, t, last, index)
    requires waits == (index < last && Required(t[index]))
    ensures ReadWord("-" + (bare + [c]), Normal, t, last)
            == if waits then (false, BareEvents(bare, indices), Expecting(Use(index, false, [c])))
               else (false, BareEvents(bare, indices) + [Event(Use(index, false, [c]), None)], Normal)
  {
    hide IsBare, IsShortIndex, Required, ReadWord, BareEvents;
    if waits {
      ClusterWord("-" + (bare + [c]), bare, indices, EndNext(c, index, ""), t, last);
    } else {
      ClusterWord("-" + (bare + [c]), bare, indices, EndAlone(c, index), t, last);
    }
  }

  // ---- Whole command lines ----

  /** The parse of some words in front of a list, when they add this much to the parse of the list. */
  ghost predicate Adds(words: seq<string>, operands: seq<string>, events: seq<Event>, rest: seq<string>, t: Table,
                       last: nat)
    requires last < |t|
  {
    var p := Parse(rest, Normal, t, last);
    Parse(words + rest, Normal, t, last) == Parsed(operands + p.operands, events + p.events)
  }

  lemma WordAdds(word: string, operand: bool, events: seq<Event>, rest: seq<string>, t: Table, last: nat)
    requires last < |t| && ReadWord(word, Normal, t, last) == (operand, events, Normal)
    ensures Adds([word], if operand then [word] else [], events, rest, t, last)
  {
    hide Parse, ReadWord;
    WordThen(word, rest, t, last);
    assert [] + Parse(rest, Normal, t, last).operands == Parse(rest, Normal, t, last).operands;
  }

  lemma WordAndNextAdd(word: string, events: seq<Event>, use: Use, arg: string, rest: seq<string>, t: Table, last: nat)
    requires last < |t| && ReadWord(word, Normal, t, last) == (false, events, Expecting(use))
    requires use.index <= last && MayTake(t[use.index], arg)
    ensures Adds([word, arg], [], events + [Event(use, Some(arg))], rest, t, last)
  {
    var more := [arg] + rest;
    hide Parse, ReadWord, MayTake;
    WordThen(word, more, t, last);
    WaitingReads(use, more, t, last);
    assert more[1..] == rest && [word, arg] + rest == [word] + more;
    var p := Parse(rest, Normal, t, last);
    assert events + ([Event(use, Some(arg))] + p.events) == events + [Event(use, Some(arg))] + p.events;
    assert [] + p.operands == p.operands;
  }

  lemma LongItemReads(item: Item, rest: seq<string>, t: Table, last: nat)
    requires last < |t| && Good(item, t, last) && (item.LongWith? || item.LongNext? || item.LongAlone?)
    ensures Adds(Spelled(item), [], Events(item), rest, t, last)
  {
    hide Adds, ReadWord, LongEvents, IsLongIndex, MayTake, Required;
    match item {
      case LongWith(name, index, arg) =>
        var tail := "=" + arg;
        assert tail[1..] == arg;
        LongReads(name, tail, t, last, index);
        LongWord(name + tail, t, last);
        WordAdds("--" + (name + tail), false, Events(item), rest, t, last);
      case LongNext(name, index, arg) =>
        assert name + "" == name;
        LongReads(name, "", t, last, index);
        LongWord(name, t, last);
        LongIndexInTable(name, t, last, index);
        WordAndNextAdd("--" + name, [], Use(index, true, name), arg, rest, t, last);
        assert [] + Events(item) == Events(item);
      case LongAlone(name, index) =>
        assert name + "" == name;
        LongReads(name, "", t, last, index);
        LongWord(name, t, last);
        WordAdds("--" + name, false, Events(item), rest, t, last);
    }
  }

  lemma LongIndexInTable(body: string, t: Table, last: nat, index: nat)
    requires last < |t| && IsLongIndex(body, t, last, index)
    ensures index <= last
  {
  }

  lemma ClusterItemReads(bare: string, indices: seq<nat>, end: End, rest: seq<string>, t: Table, last: nat)
    requires last < |t| && Good(Cluster(bare, indices, end), t, last)
    ensures Adds(Spelled(Cluster(bare, indices, end)), [], Events(Cluster(bare, indices, end)), rest, t, last)
  {
    hide Adds, ReadWord, IsBare, BareEvents, Required, MayTake;
    var word := "-" + (bare + EndText(end));
    ClusterWord(word, bare, indices, end, t, last);
    if end.EndNext? {
      WordAndNextAdd(word, BareEvents(bare, indices), Use(end.index, false, [end.c]), end.arg, rest, t, last);
      assert Spelled(Cluster(bare, indices, end)) == [word, end.arg];
    } else {
      hide GoodEnd, EndEvents, EndText;
      WordAdds(word, false, BareEvents(bare, indices) + EndEvents(end), rest, t, last);
      assert Spelled(Cluster(bare, indices, end)) == [word];
    }
  }

  /** One item in front of any list. */
  lemma ItemReads(item: Item, rest: seq<string>, t: Table, last: nat)
    requires last < |t| && Good(item, t, last)
    ensures Adds(Spelled(item), Operands(item), Events(item), rest, t, last)
  {
    hide Adds;
    if item.Operand? {
      WordAdds(item.word, true, [], rest, t, last);
    } else if item.Cluster? {
      ClusterItemReads(item.bare, item.indices, item.end, rest, t, last);
    } else {
      LongItemReads(item, rest, t, last);
    }
  }

  ghost predicate AllGood(items: seq<Item>, t: Table, last: nat)
    requires last < |t|
  {
    forall i :: 0 <= i < |items| ==> Good(items[i], t, last)
  }

  function SpellAll(items: seq<Item>): seq<string> {
    if items == [] then [] else Spelled(items[0]) + SpellAll(items[1..])
  }

  function AllOperands(items: seq<Item>): seq<string> {
    if items == [] then [] else Operands(items[0]) + AllOperands(items[1..])
  }

  function AllEvents(items: seq<Item>): seq<Event>
    requires forall i :: 0 <= i < |items| && items[i].Cluster? ==> |items[i].bare| == |items[i].indices|
  {
    if items == [] then [] else Events(items[0]) + AllEvents(items[1..])
  }

  lemma {:induction false} ItemsRead(items: seq<Item>, rest: seq<string>, t: Table, last: nat)
    requires last < |t| && AllGood(items, t, last)
    ensures var p := Parse(rest, Normal, t, last);
            Parse(SpellAll(items) + rest, Normal, t, last)
            == Parsed(AllOperands(items) + p.operands, AllEvents(items) + p.events)
    decreases |items|
  {
    hide Parse, Spelled, Operands, Events, Good;
    if items == [] {
      assert SpellAll(items) + rest == rest;
    } else {
      assert Good(items[0], t, last);
      ItemsRead(items[1..], rest, t, last);
      ItemReads(items[0], SpellAll(items[1..]) + rest, t, last);
      assert SpellAll(items) + rest == Spelled(items[0]) + (SpellAll(items[1..]) + rest);
    }
  }

  /**
   Spelling and parsing, for every table: a command line of options, clusters and operands, and behind a "--"
   any words at all, parses to exactly the uses and operands that it was spelled from.
   */
  lemma ParseInvertsSpelling(items: seq<Item>, behind: seq<string>, t: Table, last: nat)
    requires last < |t| && AllGood(items, t, last)
    ensures Parse(SpellAll(items), Normal, t, last) == Parsed(AllOperands(items), AllEvents(items))
    ensures Parse(SpellAll(items) + (["--"] + behind), Normal, t, last)
            == Parsed(AllOperands(items) + behind, AllEvents(items))
  {
    ItemsRead(items, [], t, last);
    ItemsRead(items, ["--"] + behind, t, last);
    assert SpellAll(items) + [] == SpellAll(items);
    assert AllOperands(items) + [] == AllOperands(items) && AllEvents(items) + [] == AllEvents(items);
    assert (["--"] + behind)[1..] == behind;
    assert Parse(["--"] + behind, Normal, t, last) == Parsed(behind, []);
  }

  // ---- Every kind of item can be spelled, so what is said of spelled command lines is about each kind ----

  const SAMPLE: Table := [
    Opt('v', Some("verbose"), 0x001, 0, None),
    Opt('o', Some("out"), 0x006, 0, None),
    Opt('l', Some("level"), 0x000, 0, None),
    Opt(NO_NAME, None, 0x100, 0, None)]

  lemma SampleLong(name: string, rest: string, index: nat)
    requires index < 3 && SAMPLE[index].longName == Some(name) && (rest == "" || rest[0] == '=')
    ensures NoEquals(name) && IsLongIndex(name + rest, SAMPLE, 3, index)
  {
    assert "verbose"[0] == 'v' && "out"[0] == 'o' && "level"[0] == 'l';
    assert NoEquals(name);
    assert forall i: nat :: i < |name| ==> SameLetter(name[i], name[i]);
    forall j | 0 <= j < 3 ensures Spells(name + rest, SAMPLE[j]) <==> j == index {
      AbbreviationIs(name, rest, SAMPLE[j]);
      if j != index {
        assert !SameLetter(SAMPLE[j].longName.value[0], name[0]);
      }
    }
    hide Spells, Abbreviates;
    SpellsAbbreviates(name + rest, SAMPLE[index]);
  }

  lemma SpellsAbbreviates(arg: string, o: Opt)
    requires Spells(arg, o)
    ensures Abbreviates(arg, o)
  {
  }

  lemma SampleShort()
    ensures IsShortIndex('v', SAMPLE, 3, 0) && IsShortIndex('o', SAMPLE, 3, 1) && IsShortIndex('l', SAMPLE, 3, 2)
    ensures IsBare('v', SAMPLE, 3, 0) && !IsBare('o', SAMPLE, 3, 1) && !IsBare('l', SAMPLE, 3, 2)
    ensures Required(SAMPLE[1]) && !Required(SAMPLE[0]) && !Required(SAMPLE[2])
  {
  }

  lemma LongKindsAreSpelled()
    ensures Good(LongWith("out", 1, "-f"), SAMPLE, 3)
    ensures Good(LongNext("out", 1, "f"), SAMPLE, 3)
    ensures Good(LongAlone("verbose", 0), SAMPLE, 3)
  {
    hide IsLongIndex, NoEquals, IsShortIndex, IsBare;
    SampleLong("out", "=" + "-f", 1);
    SampleLong("out", "", 1);
    SampleLong("verbose", "", 0);
    assert "out" + "" == "out" && "verbose" + "" == "verbose";
    SampleShort();
  }

  lemma ShortKindsAreSpelled()
    ensures Good(Cluster("vv", [0, 0], NoEnd), SAMPLE, 3)
    ensures Good(Cluster("v", [0], EndWith('o', 1, "f")), SAMPLE, 3)
    ensures Good(Cluster("", [], EndNext('o', 1, "f")), SAMPLE, 3)
    ensures Good(Cluster("v", [0], EndAlone('l', 2)), SAMPLE, 3)
  {
    hide IsLongIndex, IsShortIndex, IsBare, Required;
    SampleShort();
    assert ("vv" + EndText(NoEnd))[0] == 'v' && ("v" + EndText(EndWith('o', 1, "f")))[0] == 'v';
    assert ("" + EndText(EndNext('o', 1, "f")))[0] == 'o' && ("v" + EndText(EndAlone('l', 2)))[0] == 'v';
  }

  /** "--pin 1234" on the table of the program: the pin is the argument, and there is no operand. */
  lemma PinIsTaken()
    ensures var t := [Opt(NO_NAME, Some("pin"), 0x002, 0, None), Opt(NO_NAME, None, 0x100, 0, None)];
            Parse(["--pin", "1234"], Normal, t, 1) == Parsed([], [Event(Use(0, true, "pin"), Some("1234"))])
  {
    var t := [Opt(NO_NAME, Some("pin"), 0x002, 0, None), Opt(NO_NAME, None, 0x100, 0, None)];
    AbbreviationIs("pin", "", t[0]);
    assert "pin" + "" == "pin";
    hide Spells, Abbreviates, Parse;
    SpellsAbbreviates("pin", t[0]);
    LongTakesNextIff("pin", 0, ["1234"], t, 1);
    assert "--" + "pin" == "--pin";
    assert ["--" + "pin"] + ["1234"] == ["--pin", "1234"] && ["1234"][1..] == [];
    ParseNothing(t, 1);
  }

  lemma ParseNothing(t: Table, last: nat)
    requires last < |t|
    ensures Parse([], Normal, t, last) == Parsed([], [])
  {
  }
}
