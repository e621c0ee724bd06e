/**
 What the option parser promises, apart from how it works: a grammar that turns an argument list into
 operands and option events, and what a list of events leaves in the option table.
 */
module GoptSpec {
  import opened Common

  type Flags = bv16

  const ARGUMENT_FORBIDDEN: Flags := 0x001
  const ARGUMENT_REQUIRED: Flags := 0x002
  const ARGUMENT_NO_HYPHEN: Flags := 0x004
  const SEEN_SHORT_WITHOUT: Flags := 0x010
  const SEEN_SHORT_WITH: Flags := 0x020
  const SEEN_LONG_WITHOUT: Flags := 0x040
  const SEEN_LONG_WITH: Flags := 0x080
  const LAST: Flags := 0x100

  const NO_NAME := '\0'

  datatype Opt = Opt(shortName: char, longName: Option<string>, flags: Flags, count: nat, argument: Option<string>)

  type Table = seq<Opt>

  predicate Has(f: Flags, bit: Flags) { f & bit != 0 }

  /** The first element marked LAST is at index `last`. */
  predicate EndsAt(t: Table, last: nat) {
    && last < |t|
    && Has(t[last].flags, LAST)
    && forall i :: 0 <= i < last ==> !Has(t[i].flags, LAST)
  }

  /** One use of an option. `name` is the short character or the text after "--". */
  datatype Use = Use(index: nat, long: bool, name: string)

  /** A use with the argument it ended up with. */
  datatype Event = Event(use: Use, argument: Option<string>)

  function SeenFlag(long: bool, with: bool): Flags {
    if long then (if with then SEEN_LONG_WITH else SEEN_LONG_WITHOUT)
    else (if with then SEEN_SHORT_WITH else SEEN_SHORT_WITHOUT)
  }

  function Mark(f: Flags, long: bool, with: bool): Flags {
    f | SeenFlag(long, with)
  }

  const SEEN: Flags := 0x0F0

  /** The bits that the parser does not set. */
  function Fixed(f: Flags): Flags {
    f & !SEEN
  }

  // ---- Looking names up ----

  function Lower(c: char): char {
    if 'A' <= c <= 'Z' then c - 'A' + 'a' else c
  }

  predicate SameIgnoringCase(a: string, b: string) {
    |a| == |b| && forall i :: 0 <= i < |a| ==> Lower(a[i]) == Lower(b[i])
  }

  /** strcspn(arg, "=") */
  function NameLength(arg: string): (n: nat)
    ensures n <= |arg|
    ensures forall i :: 0 <= i < n ==> arg[i] != '='
    ensures n < |arg| ==> arg[n] == '='
  {
    if arg == "" || arg[0] == '=' then 0 else 1 + NameLength(arg[1..])
  }

  /** The name in arg is a prefix of the long name of o. */
  predicate Abbreviates(arg: string, o: Opt) {
    var n := NameLength(arg);
    o.longName.Some? && n <= |o.longName.value| && SameIgnoringCase(o.longName.value[..n], arg[..n])
  }

  predicate Spells(arg: string, o: Opt) {
    Abbreviates(arg, o) && |o.longName.value| == NameLength(arg)
  }

  /** `index` is where a long option belongs: the first exact match, else the only prefix match, else the end. */
  ghost predicate IsLongIndex(arg: string, t: Table, last: nat, index: nat)
    requires last < |t|
  {
    && index <= last
    && (index < last && Spells(arg, t[index]) ==> forall j :: 0 <= j < index ==> !Spells(arg, t[j]))
    && (index < last && !Spells(arg, t[index]) ==>
          && Abbreviates(arg, t[index])
          && forall j :: 0 <= j < last ==> !Spells(arg, t[j]) && (Abbreviates(arg, t[j]) ==> j == index))
    && (index == last ==>
          && (forall j :: 0 <= j < last ==> !Spells(arg, t[j]))
          && ((forall j :: 0 <= j < last ==> !Abbreviates(arg, t[j]))
              || exists j, k :: 0 <= j < k < last && Abbreviates(arg, t[j]) && Abbreviates(arg, t[k])))
  }

  /** The scan: `count` prefix matches before i, the latest of them at `found`. */
  function LongIndexFrom(arg: string, t: Table, last: nat, i: nat, found: nat, count: nat): (index: nat)
    requires i <= last < |t| && found <= last
    ensures index <= last
    decreases last - i
  {
    if i == last then (if count == 1 then found else last)
    else if Spells(arg, t[i]) then i
    else if Abbreviates(arg, t[i]) then LongIndexFrom(arg, t, last, i + 1, i, count + 1)
    else LongIndexFrom(arg, t, last, i + 1, found, count)
  }

  function LongIndex(arg: string, t: Table, last: nat): (index: nat)
    requires last < |t|
    ensures index <= last
  {
    LongIndexFrom(arg, t, last, 0, 0, 0)
  }

  function ShortIndexFrom(c: char, t: Table, last: nat, i: nat): (index: nat)
    requires i <= last < |t|
    ensures i <= index <= last
    ensures index < last ==> t[index].shortName == c
    ensures forall j :: i <= j < index ==> t[j].shortName != c
    decreases last - i
  {
    if i == last || t[i].shortName == c then i else ShortIndexFrom(c, t, last, i + 1)
  }

  function ShortIndex(c: char, t: Table, last: nat): (index: nat)
    requires last < |t|
    ensures index <= last
  {
    ShortIndexFrom(c, t, last, 0)
  }

  lemma {:induction false} ScanFindsLongIndex(arg: string, t: Table, last: nat, i: nat, found: nat, count: nat)
    requires i <= last < |t| && found <= last
    requires forall j :: 0 <= j < i ==> !Spells(arg, t[j])
    requires count == 0 ==> forall j :: 0 <= j < i ==> !Abbreviates(arg, t[j])
    requires count >= 1 ==> found < i && Abbreviates(arg, t[found])
    requires count == 1 ==> forall j :: 0 <= j < i && Abbreviates(arg, t[j]) ==> j == found
    requires count >= 2 ==> exists j :: 0 <= j < found && Abbreviates(arg, t[j])
    ensures IsLongIndex(arg, t, last, LongIndexFrom(arg, t, last, i, found, count))
    decreases last - i
  {
    if i < last && !Spells(arg, t[i]) {
      if Abbreviates(arg, t[i]) {
        ScanFindsLongIndex(arg, t, last, i + 1, i, count + 1);
      } else {
        ScanFindsLongIndex(arg, t, last, i + 1, found, count);
      }
    }
  }

  /** long_option_get_index: for every table and argument, the promised index, and only that one. */
  lemma LongIndexIsUnique(arg: string, t: Table, last: nat, index: nat)
    requires last < |t|
    ensures IsLongIndex(arg, t, last, index) <==> index == LongIndex(arg, t, last)
  {
    ScanFindsLongIndex(arg, t, last, 0, 0, 0);
  }

  // ---- The grammar ----

  /** What the next word is read as. */
  datatype Mode = Normal | Expecting(use: Use) | OnlyOperands

  datatype Parsed = Parsed(operands: seq<string>, events: seq<Event>)

  function Prepend(events: seq<Event>, p: Parsed): Parsed {
    p.(events := events + p.events)
  }

  /** An option that requires an argument takes this word for it. */
  predicate Takes(f: Flags, word: string) {
    !(|word| >= 2 && word[0] == '-' && Has(f, ARGUMENT_NO_HYPHEN))
  }

  predicate IsLong(word: string) {
    |word| > 2 && word[0] == '-' && word[1] == '-'
  }

  predicate IsShort(word: string) {
    |word| >= 2 && word[0] == '-' && word[1] != '-'
  }

  /** "--name" or "--name=argument", without the dashes. */
  function LongEvents(body: string, t: Table, last: nat): (seq<Event>, Mode)
    requires last < |t|
  {
    var index := LongIndex(body, t, last);
    var n := NameLength(body);
    var use := Use(index, true, body);
    if n < |body| then ([Event(use, Some(body[n + 1..]))], Normal)
    else if Has(t[index].flags, ARGUMENT_REQUIRED) then ([], Expecting(use))
    else ([Event(use, None)], Normal)
  }

  /** The short options of a word from character j on. */
  function ShortEvents(word: string, j: nat, t: Table, last: nat): (seq<Event>, Mode)
    requires last < |t| && j <= |word|
    decreases |word| - j
  {
    if j == |word| then ([], Normal)
    else
      var index := ShortIndex(word[j], t, last);
      var use := Use(index, false, [word[j]]);
      var rest := if j + 1 < |word| then Some(word[j + 1..]) else None;
      if index < last && Has(t[index].flags, ARGUMENT_FORBIDDEN) then
        var (events, mode) := ShortEvents(word, j + 1, t, last);
        ([Event(use, None)] + events, mode)
      else if index < last && rest.None? && Has(t[index].flags, ARGUMENT_REQUIRED) then ([], Expecting(use))
      else ([Event(use, rest)], Normal)
  }

  /** The whole argument list after the program name. */
  function Parse(words: seq<string>, mode: Mode, t: Table, last: nat): Parsed
    requires last < |t| && (mode.Expecting? ==> mode.use.index <= last)
    decreases |words|, mode.Expecting?
  {
    match mode
    case OnlyOperands => Parsed(words, [])
    case Expecting(use) =>
      if words == [] then Parsed([], [Event(use, None)])
      else if Takes(t[use.index].flags, words[0]) then
        Prepend([Event(use, Some(words[0]))], Parse(words[1..], Normal, t, last))
      else Prepend([Event(use, None)], Parse(words, Normal, t, last))
    case Normal =>
      if words == [] then Parsed([], [])
      else
        var word := words[0];
        if word == "--" then Parse(words[1..], OnlyOperands, t, last)
        else if IsLong(word) then
          var (events, next) := LongEvents(word[2..], t, last);
          Prepend(events, Parse(words[1..], next, t, last))
        else if IsShort(word) then
          ShortModeInTable(word, 1, t, last);
          var (events, next) := ShortEvents(word, 1, t, last);
          Prepend(events, Parse(words[1..], next, t, last))
        else
          var p := Parse(words[1..], Normal, t, last);
          p.(operands := [word] + p.operands)
  }

  lemma {:induction false} ShortModeInTable(word: string, j: nat, t: Table, last: nat)
    requires last < |t| && j <= |word|
    ensures var (events, mode) := ShortEvents(word, j, t, last);
            && (mode.Expecting? ==> mode.use.index <= last)
            && !mode.OnlyOperands?
            && forall k :: 0 <= k < |events| ==> events[k].use.index <= last
    decreases |word| - j
  {
    if j < |word| {
      ShortModeInTable(word, j + 1, t, last);
    }
  }

  /** What one word adds: is it an operand, which events does it complete, and how is the next word read. */
  function ReadWord(word: string, mode: Mode, t: Table, last: nat): (r: (bool, seq<Event>, Mode))
    requires last < |t| && (mode.Expecting? ==> mode.use.index <= last)
    decreases mode.Expecting?
  {
    match mode
    case OnlyOperands => (true, [], OnlyOperands)
    case Expecting(use) =>
      if Takes(t[use.index].flags, word) then (false, [Event(use, Some(word))], Normal)
      else
        var (operand, events, next) := ReadWord(word, Normal, t, last);
        (operand, [Event(use, None)] + events, next)
    case Normal =>
      if word == "--" then (false, [], OnlyOperands)
      else if IsLong(word) then
        var (events, next) := LongEvents(word[2..], t, last);
        (false, events, next)
      else if IsShort(word) then
        var (events, next) := ShortEvents(word, 1, t, last);
        (false, events, next)
      else (true, [], Normal)
  }

  lemma ReadWordInTable(word: string, mode: Mode, t: Table, last: nat)
    requires last < |t| && (mode.Expecting? ==> mode.use.index <= last)
    ensures var (_, events, next) := ReadWord(word, mode, t, last);
            (next.Expecting? ==> next.use.index <= last) && InTable(events, last)
  {
    if IsShort(word) { ShortModeInTable(word, 1, t, last); }
  }

  /** Reading the words one at a time, from the left, gives the parse of the whole list. */
  lemma {:induction false} ParseReadsWords(words: seq<string>, mode: Mode, t: Table, last: nat)
    requires last < |t| && (mode.Expecting? ==> mode.use.index <= last) && words != []
    ensures var (operand, events, next) := ReadWord(words[0], mode, t, last);
            && (next.Expecting? ==> next.use.index <= last)
            && var p := Parse(words[1..], next, t, last);
            Parse(words, mode, t, last)
            == Parsed(if operand then [words[0]] + p.operands else p.operands, events + p.events)
    decreases mode.Expecting?
  {
    ReadWordInTable(words[0], mode, t, last);
    match mode {
      case OnlyOperands => assert words == [words[0]] + words[1..];
      case Expecting(use) =>
        if !Takes(t[use.index].flags, words[0]) { ParseReadsWords(words, Normal, t, last); }
      case Normal =>
    }
  }

  // ---- What events leave in the table ----

  /** The part of a use that is recorded at once: the count, and the first unrecognized names. */
  function Occur(t: Table, last: nat, use: Use): (r: Table)
    requires use.index < |t|
    ensures |r| == |t|
  {
    var o := t[use.index];
    var named :=
      if use.index != last then o
      else if use.long then (if o.longName.None? then o.(longName := Some(use.name)) else o)
      else if o.shortName == NO_NAME && |use.name| > 0 then o.(shortName := use.name[0])
      else o;
    t[use.index := named.(count := o.count + 1)]
  }

  /** The part that waits for the argument. */
  function Settle(t: Table, e: Event): (r: Table)
    requires e.use.index < |t|
    ensures |r| == |t|
  {
    var o := t[e.use.index];
    t[e.use.index := o.(argument := e.argument, flags := Mark(o.flags, e.use.long, e.argument.Some?))]
  }

  ghost predicate InTable(events: seq<Event>, last: nat) {
    forall k :: 0 <= k < |events| ==> events[k].use.index <= last
  }

  function ApplyAll(t: Table, last: nat, events: seq<Event>): (r: Table)
    requires last < |t| && forall k :: 0 <= k < |events| ==> events[k].use.index <= last
    ensures |r| == |t|
  {
    if events == [] then t
    else
      var n := |events| - 1;
      var e := events[n];
      Settle(Occur(ApplyAll(t, last, events[..n]), last, e.use), e)
  }

  /** What gopt does to the table before it reads any word. */
  function Reset(t: Table, last: nat): (r: Table)
    requires last < |t|
    ensures |r| == |t|
  {
    seq(|t|, i requires 0 <= i < |t| =>
      if i < last then t[i].(argument := None, count := 0)
      else if i == last then t[i].(argument := None, count := 0, shortName := NO_NAME, longName := None)
      else t[i])
  }

  // ---- What the documentation promises about the table ----

  function Uses(events: seq<Event>, index: nat): nat {
    if events == [] then 0
    else (if events[|events| - 1].use.index == index then 1 else 0) + Uses(events[..|events| - 1], index)
  }

  /** The argument of the last use of an option; None without one, or when it was never used. */
  function LastArgument(events: seq<Event>, index: nat): Option<string> {
    if events == [] then None
    else if events[|events| - 1].use.index == index then events[|events| - 1].argument
    else LastArgument(events[..|events| - 1], index)
  }

  ghost predicate UsedAs(events: seq<Event>, index: nat, long: bool, with: bool) {
    exists k :: 0 <= k < |events| && events[k].use.index == index && events[k].use.long == long
      && events[k].argument.Some? == with
  }

  /** The name of the first unrecognized use of one form. */
  function FirstUnknown(events: seq<Event>, last: nat, long: bool): Option<string> {
    if events == [] then None
    else if events[0].use.index == last && events[0].use.long == long then Some(events[0].use.name)
    else FirstUnknown(events[1..], last, long)
  }

  /** Marking a use sets one SEEN bit and keeps every other bit. */
  lemma MarkSetsOneBit(f: Flags, long: bool, with: bool)
    ensures Fixed(Mark(f, long, with)) == Fixed(f)
    ensures forall l, w ::
              Has(Mark(f, long, with), SeenFlag(l, w)) <==> Has(f, SeenFlag(l, w)) || (l == long && w == with)
  {
    forall l, w
      ensures Has(Mark(f, long, with), SeenFlag(l, w)) <==> Has(f, SeenFlag(l, w)) || (l == long && w == with)
    {
    }
  }

  lemma UsedAsSnoc(events: seq<Event>, e: Event, index: nat, long: bool, with: bool)
    ensures UsedAs(events + [e], index, long, with)
            <==> UsedAs(events, index, long, with)
                 || (e.use.index == index && e.use.long == long && e.argument.Some? == with)
  {
    var all := events + [e];
    assert all[|events|] == e;
    if UsedAs(events, index, long, with) {
      var k :| 0 <= k < |events| && events[k].use.index == index && events[k].use.long == long
        && events[k].argument.Some? == with;
      assert all[k] == events[k];
    }
  }

  lemma {:induction false} FirstUnknownSnoc(events: seq<Event>, e: Event, last: nat, long: bool)
    ensures FirstUnknown(events + [e], last, long)
            == if FirstUnknown(events, last, long).Some? then FirstUnknown(events, last, long)
               else if e.use.index == last && e.use.long == long then Some(e.use.name)
               else None
    decreases |events|
  {
    if events == [] {
      assert ([] + [e])[1..] == [];
    } else {
      assert (events + [e])[1..] == events[1..] + [e];
      FirstUnknownSnoc(events[1..], e, last, long);
    }
  }

  /** Short names are single characters, never the terminator. */
  ghost predicate PlainNames(events: seq<Event>) {
    forall k :: 0 <= k < |events| && !events[k].use.long ==>
      |events[k].use.name| == 1 && events[k].use.name[0] != NO_NAME
  }

  /** The SEEN flags say which forms were used at least once; the other bits stay. */
  ghost predicate PromisedFlags(before: Flags, after: Flags, events: seq<Event>, i: nat) {
    && Fixed(after) == Fixed(before)
    && forall long, with ::
         Has(after, SeenFlag(long, with)) <==> Has(before, SeenFlag(long, with)) || UsedAs(events, i, long, with)
  }

  /** Names stay as they are; those of the last element are the first unrecognized ones. */
  ghost predicate PromisedNames(before: Opt, after: Opt, events: seq<Event>, i: nat, last: nat) {
    if i != last then after.shortName == before.shortName && after.longName == before.longName
    else
      && after.longName == FirstUnknown(events, last, true)
      && var c := FirstUnknown(events, last, false);
         if c.None? then after.shortName == NO_NAME
         else |c.value| > 0 && after.shortName == c.value[0] && after.shortName != NO_NAME
  }

  /** One element of the table after some events, as the documentation of the parser describes it. */
  ghost predicate Promised(before: Opt, after: Opt, events: seq<Event>, i: nat, last: nat) {
    && after.count == Uses(events, i)
    && after.argument == LastArgument(events, i)
    && PromisedFlags(before.flags, after.flags, events, i)
    && PromisedNames(before, after, events, i, last)
  }

  /**
   The documentation's contract for the option table: count is the number of uses, argument the one given
   with the last use, each SEEN flag says whether that form was used at least once, the other flag bits and
   the names are kept, and the last element collects the first unrecognized names.
   */
  lemma {:induction false} TableKeepsPromise(t: Table, last: nat, events: seq<Event>, i: nat)
    requires last < |t| && i <= last && PlainNames(events)
    requires forall k :: 0 <= k < |events| ==> events[k].use.index <= last
    ensures Promised(t[i], ApplyAll(Reset(t, last), last, events)[i], events, i, last)
    decreases |events|
  {
    if events != [] {
      var n := |events| - 1;
      var (rest, e) := (events[..n], events[n]);
      assert events == rest + [e];
      assert forall k :: 0 <= k < n ==> rest[k] == events[k];
      TableKeepsPromise(t, last, rest, i);
      PromiseStep(t[i], ApplyAll(Reset(t, last), last, rest), rest, e, i, last);
    }
  }

  lemma FlagsStep(before: Flags, mid: Flags, rest: seq<Event>, e: Event, i: nat)
    requires PromisedFlags(before, mid, rest, i)
    ensures PromisedFlags(before, if e.use.index == i then Mark(mid, e.use.long, e.argument.Some?) else mid,
                          rest + [e], i)
  {
    MarkSetsOneBit(mid, e.use.long, e.argument.Some?);
    hide UsedAs, SeenFlag, Mark, Fixed, Has;
    forall long, with ensures UsedAs(rest + [e], i, long, with)
      <==> UsedAs(rest, i, long, with) || (e.use.index == i && e.use.long == long && e.argument.Some? == with) {
      UsedAsSnoc(rest, e, i, long, with);
    }
  }

  lemma NamesStep(before: Opt, mid: Table, rest: seq<Event>, e: Event, i: nat, last: nat)
    requires i <= last < |mid| && e.use.index <= last
    requires !e.use.long ==> |e.use.name| == 1 && e.use.name[0] != NO_NAME
    requires PromisedNames(before, mid[i], rest, i, last)
    ensures PromisedNames(before, Settle(Occur(mid, last, e.use), e)[i], rest + [e], i, last)
  {
    hide FirstUnknown;
    FirstUnknownSnoc(rest, e, last, true);
    FirstUnknownSnoc(rest, e, last, false);
  }

  /** One more event keeps the promise. */
  lemma PromiseStep(before: Opt, mid: Table, rest: seq<Event>, e: Event, i: nat, last: nat)
    requires i <= last < |mid| && e.use.index <= last
    requires !e.use.long ==> |e.use.name| == 1 && e.use.name[0] != NO_NAME
    requires Promised(before, mid[i], rest, i, last)
    ensures Promised(before, Settle(Occur(mid, last, e.use), e)[i], rest + [e], i, last)
  {
    hide PromisedFlags, PromisedNames, Mark;
    var all := rest + [e];
    assert all[..|rest|] == rest && all[|rest|] == e;
    FlagsStep(before.flags, mid[i].flags, rest, e, i);
    NamesStep(before, mid, rest, e, i, last);
  }

  // ---- The promise holds of every argument list ----

  /** The words of an argument list hold no terminator. */
  ghost predicate NoNul(words: seq<string>) {
    forall k, i :: 0 <= k < |words| && 0 <= i < |words[k]| ==> words[k][i] != NO_NAME
  }

  ghost predicate PlainUse(use: Use, last: nat) {
    use.index <= last && (!use.long ==> |use.name| == 1 && use.name[0] != NO_NAME)
  }

  ghost predicate PlainReading(events: seq<Event>, mode: Mode, last: nat) {
    && (forall k :: 0 <= k < |events| ==> PlainUse(events[k].use, last))
    && (mode.Expecting? ==> PlainUse(mode.use, last))
  }

  lemma {:induction false} ShortEventsPlain(word: string, j: nat, t: Table, last: nat)
    requires last < |t| && j <= |word| && forall i :: 0 <= i < |word| ==> word[i] != NO_NAME
    ensures PlainReading(ShortEvents(word, j, t, last).0, ShortEvents(word, j, t, last).1, last)
    decreases |word| - j
  {
    if j < |word| {
      ShortEventsPlain(word, j + 1, t, last);
    }
  }

  lemma ReadWordPlain(word: string, mode: Mode, t: Table, last: nat)
    requires last < |t| && PlainReading([], mode, last) && forall i :: 0 <= i < |word| ==> word[i] != NO_NAME
    ensures PlainReading(ReadWord(word, mode, t, last).1, ReadWord(word, mode, t, last).2, last)
    decreases mode.Expecting?
  {
    hide LongIndex, ShortEvents;
    if IsShort(word) { ShortEventsPlain(word, 1, t, last); }
    if mode.Expecting? {
      ReadWordPlain(word, Normal, t, last);
    }
  }

  lemma {:induction false} ParsePlain(words: seq<string>, mode: Mode, t: Table, last: nat)
    requires last < |t| && PlainReading([], mode, last) && NoNul(words)
    ensures PlainReading(Parse(words, mode, t, last).events, Normal, last)
    decreases |words|
  {
    if words != [] {
      hide PlainUse, ReadWord, Parse;
      var (operand, events, next) := ReadWord(words[0], mode, t, last);
      ReadWordPlain(words[0], mode, t, last);
      ParsePlain(words[1..], next, t, last);
      ParseReadsWords(words, mode, t, last);
    }
  }

  /**
   Every element of every table, for every argument list: what the documentation promises of the element
   holds of the uses that the list spells.
   */
  lemma ParseKeepsPromise(words: seq<string>, t: Table, last: nat, i: nat)
    requires last < |t| && i <= last && NoNul(words)
    ensures var p := Parse(words, Normal, Reset(t, last), last);
            InTable(p.events, last) && Promised(t[i], ApplyAll(Reset(t, last), last, p.events)[i], p.events, i, last)
  {
    ParsePlain(words, Normal, Reset(t, last), last);
    hide Parse, Promised, ApplyAll;
    TableKeepsPromise(t, last, Parse(words, Normal, Reset(t, last), last).events, i);
  }

  // ---- Operands keep their order ----

  ghost predicate Subsequence(a: seq<string>, b: seq<string>) {
    a == [] || (b != [] && ((a[0] == b[0] && Subsequence(a[1..], b[1..])) || Subsequence(a, b[1..])))
  }

  /** The operands are words of the list, in their original order; behind "--" they are all of them. */
  lemma {:induction false} OperandsKeepOrder(words: seq<string>, mode: Mode, t: Table, last: nat)
    requires last < |t| && (mode.Expecting? ==> mode.use.index <= last)
    ensures Subsequence(Parse(words, mode, t, last).operands, words)
    ensures mode.OnlyOperands? ==> Parse(words, mode, t, last).operands == words
    decreases |words|
  {
    if words != [] {
      hide ReadWord;
      ParseReadsWords(words, mode, t, last);
      hide Parse;
      var (operand, events, next) := ReadWord(words[0], mode, t, last);
      OperandsKeepOrder(words[1..], next, t, last);
      var p := Parse(words[1..], next, t, last);
      assert operand ==> ([words[0]] + p.operands)[1..] == p.operands;
    }
  }
}
