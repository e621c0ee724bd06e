/**
 The option parser as it runs: argv is compacted in place and the option table is filled in place. Each
 method is proved against the grammar and the table of events in GoptSpec.
 */
module Gopt {
  import opened Common
  import opened GoptSpec

  // ---- The table while it is being filled ----

  predicate SameBits(f: Flags, g: Flags) {
    && Has(f, ARGUMENT_FORBIDDEN) == Has(g, ARGUMENT_FORBIDDEN)
    && Has(f, ARGUMENT_REQUIRED) == Has(g, ARGUMENT_REQUIRED)
    && Has(f, ARGUMENT_NO_HYPHEN) == Has(g, ARGUMENT_NO_HYPHEN)
    && Has(f, LAST) == Has(g, LAST)
  }

  /** Everything the parser looks at is as it was: the names before the last element and the input flags. */
  ghost predicate Alike(t: Table, u: Table, last: nat) {
    && |t| == |u| && last < |t|
    && (forall i :: 0 <= i < |t| ==> SameBits(t[i].flags, u[i].flags))
    && (forall i :: 0 <= i < last ==> t[i].shortName == u[i].shortName && t[i].longName == u[i].longName)
  }

  lemma MarkKeepsBits(f: Flags, long: bool, with: bool)
    ensures SameBits(Mark(f, long, with), f)
  {
  }

  lemma OccurAlike(t: Table, u: Table, last: nat, use: Use)
    requires Alike(t, u, last) && use.index <= last
    ensures Alike(Occur(t, last, use), u, last)
  {
    hide SameBits;
  }

  lemma SettleAlike(t: Table, u: Table, last: nat, e: Event)
    requires Alike(t, u, last) && e.use.index <= last
    ensures Alike(Settle(t, e), u, last)
  {
    MarkKeepsBits(t[e.use.index].flags, e.use.long, e.argument.Some?);
    hide Mark, Has;
  }

  lemma {:induction false} ApplyAllAlike(t: Table, last: nat, events: seq<Event>)
    requires last < |t| && forall k :: 0 <= k < |events| ==> events[k].use.index <= last
    ensures Alike(ApplyAll(t, last, events), t, last)
    decreases |events|
  {
    hide SameBits;
    if events == [] {
      assert forall f :: SameBits(f, f) by { BitsRefl(); }
    } else {
      var n := |events| - 1;
      ApplyAllAlike(t, last, events[..n]);
      OccurAlike(ApplyAll(t, last, events[..n]), t, last, events[n].use);
      SettleAlike(Occur(ApplyAll(t, last, events[..n]), last, events[n].use), t, last, events[n]);
    }
  }

  lemma BitsRefl()
    ensures forall f :: SameBits(f, f)
  {
  }

  lemma {:induction false} LongIndexAlike(arg: string, t: Table, u: Table, last: nat, i: nat, found: nat, count: nat)
    requires Alike(t, u, last) && i <= last && found <= last
    ensures LongIndexFrom(arg, t, last, i, found, count) == LongIndexFrom(arg, u, last, i, found, count)
    decreases last - i
  {
    if i < last {
      assert Spells(arg, t[i]) == Spells(arg, u[i]) && Abbreviates(arg, t[i]) == Abbreviates(arg, u[i]);
      if Abbreviates(arg, t[i]) {
        LongIndexAlike(arg, t, u, last, i + 1, i, count + 1);
      } else {
        LongIndexAlike(arg, t, u, last, i + 1, found, count);
      }
    }
  }

  lemma {:induction false} ShortIndexAlike(c: char, t: Table, u: Table, last: nat, i: nat)
    requires Alike(t, u, last) && i <= last
    ensures ShortIndexFrom(c, t, last, i) == ShortIndexFrom(c, u, last, i)
    decreases last - i
  {
    if i < last {
      ShortIndexAlike(c, t, u, last, i + 1);
    }
  }

  /** The table after some events, and after the start of a use that still expects its argument. */
  function After(t: Table, last: nat, events: seq<Event>, mode: Mode): (r: Table)
    requires last < |t| && (forall k :: 0 <= k < |events| ==> events[k].use.index <= last)
    requires mode.Expecting? ==> mode.use.index <= last
    ensures |r| == |t|
  {
    var done := ApplyAll(t, last, events);
    if mode.Expecting? then Occur(done, last, mode.use) else done
  }

  lemma ApplySnoc(t: Table, last: nat, events: seq<Event>, e: Event)
    requires last < |t| && e.use.index <= last
    requires forall k :: 0 <= k < |events| ==> events[k].use.index <= last
    ensures ApplyAll(t, last, events + [e]) == Settle(Occur(ApplyAll(t, last, events), last, e.use), e)
  {
    assert (events + [e])[..|events|] == events;
  }

  lemma AfterAlike(t: Table, last: nat, events: seq<Event>, mode: Mode)
    requires last < |t| && (forall k :: 0 <= k < |events| ==> events[k].use.index <= last)
    requires mode.Expecting? ==> mode.use.index <= last
    ensures Alike(After(t, last, events, mode), t, last)
  {
    ApplyAllAlike(t, last, events);
    hide Alike, Occur;
    if mode.Expecting? {
      OccurAlike(ApplyAll(t, last, events), t, last, mode.use);
    }
  }

  // ---- The index helpers ----

  method LongOptionGetIndex(arg: string, options: array<Opt>, ghost last: nat) returns (index: nat)
    requires EndsAt(options[..], last)
    ensures index == LongIndex(arg, options[..], last)
    ensures IsLongIndex(arg, options[..], last, index)
  {
    var count, found, i := 0, 0, 0;
    while !Has(options[i].flags, LAST)
      invariant i <= last < options.Length && found <= last
      invariant LongIndexFrom(arg, options[..], last, i, found, count) == LongIndex(arg, options[..], last)
      decreases last - i
    {
      if Abbreviates(arg, options[i]) {
        if |options[i].longName.value| == NameLength(arg) {
          LongIndexIsUnique(arg, options[..], last, i);
          return i;
        }
        found, count := i, count + 1;
      }
      i := i + 1;
    }
    index := if count == 1 then found else i;
    LongIndexIsUnique(arg, options[..], last, index);
  }

  method ShortOptionGetIndex(c: char, options: array<Opt>, ghost last: nat) returns (index: nat)
    requires EndsAt(options[..], last)
    ensures index == ShortIndex(c, options[..], last)
  {
    index := 0;
    while !Has(options[index].flags, LAST)
      invariant index <= last < options.Length
      invariant ShortIndexFrom(c, options[..], last, index) == ShortIndex(c, options[..], last)
      decreases last - index
    {
      if options[index].shortName == c {
        return;
      }
      index := index + 1;
    }
  }

  // ---- Writing to the table ----

  method RecordUse(options: array<Opt>, ghost last: nat, use: Use)
    requires EndsAt(options[..], last) && use.index <= last && (use.long || |use.name| > 0)
    modifies options
    ensures options[..] == Occur(old(options[..]), last, use)
  {
    var o := options[use.index];
    if Has(o.flags, LAST) {
      if use.long {
        if o.longName.None? { o := o.(longName := Some(use.name)); }
      } else if o.shortName == NO_NAME {
        o := o.(shortName := use.name[0]);
      }
    }
    options[use.index] := o.(count := o.count + 1);
  }

  method RecordArgument(options: array<Opt>, index: nat, seen: Flags, argument: Option<string>, ghost e: Event)
    requires index == e.use.index < options.Length && argument == e.argument
    requires seen == SeenFlag(e.use.long, e.argument.Some?)
    modifies options
    ensures options[..] == Settle(old(options[..]), e)
  {
    var o := options[index];
    options[index] := o.(flags := o.flags | seen, argument := argument);
  }

  // ---- Reading one word ----

  /** The variables expecting and option_index in a given mode. */
  predicate Pending(mode: Mode, expecting: Flags, index: nat) {
    match mode
    case Expecting(use) => expecting == SeenFlag(use.long, true) && index == use.index
    case _ => expecting == 0
  }

  ghost predicate Filling(t: Table, last: nat, options: Table, events: seq<Event>, mode: Mode) {
    && EndsAt(t, last)
    && InTable(events, last)
    && (mode.Expecting? ==> mode.use.index <= last)
    && options == After(t, last, events, mode)
  }

  lemma FillingAlike(t: Table, last: nat, options: Table, events: seq<Event>, mode: Mode)
    requires Filling(t, last, options, events, mode)
    ensures Alike(options, t, last) && EndsAt(options, last)
  {
    AfterAlike(t, last, events, mode);
    hide After;
  }

  /** Settling the pending use, or one that has just been recorded, gives the table after one more event. */
  lemma SettleFills(t: Table, last: nat, options: Table, events: seq<Event>, e: Event)
    requires Filling(t, last, options, events, Expecting(e.use))
    ensures Filling(t, last, Settle(options, e), events + [e], Normal)
  {
    ApplySnoc(t, last, events, e);
  }

  /** "--name" and "--name=argument", without the dashes. */
  method LongOption(body: string, options: array<Opt>, ghost t: Table, ghost last: nat, ghost events: seq<Event>)
    returns (expecting: Flags, index: nat, ghost more: seq<Event>, ghost mode: Mode)
    requires Filling(t, last, options[..], events, Normal)
    modifies options
    ensures (more, mode) == LongEvents(body, t, last)
    ensures Filling(t, last, options[..], events + more, mode)
    ensures Pending(mode, expecting, index) && !mode.OnlyOperands?
  {
    FillingAlike(t, last, options[..], events, Normal);
    LongIndexAlike(body, options[..], t, last, 0, 0, 0);
    index := LongOptionGetIndex(body, options, last);
    var use := Use(index, true, body);
    RecordUse(options, last, use);
    FillingAlike(t, last, options[..], events, Expecting(use));
    expecting, more, mode := 0, [], Normal;
    var n := NameLength(body);
    hide After, EndsAt, Occur, Settle, LongIndex;
    if n < |body| {
      more := [Event(use, Some(body[n + 1..]))];
      SettleFills(t, last, options[..], events, more[0]);
      RecordArgument(options, index, SEEN_LONG_WITH, Some(body[n + 1..]), more[0]);
    } else if Has(options[index].flags, ARGUMENT_REQUIRED) {
      expecting, mode := SEEN_LONG_WITH, Expecting(use);
      assert events + more == events;
    } else {
      more := [Event(use, None)];
      SettleFills(t, last, options[..], events, more[0]);
      RecordArgument(options, index, SEEN_LONG_WITHOUT, None, more[0]);
    }
  }

  /** A cluster of short options. */
  method ShortOptions(word: string, options: array<Opt>, ghost t: Table, ghost last: nat, ghost events: seq<Event>)
    returns (expecting: Flags, index: nat, ghost more: seq<Event>, ghost mode: Mode)
    requires last < |t| && Filling(t, last, options[..], events, Normal) && |word| >= 1
    modifies options
    ensures (more, mode) == ShortEvents(word, 1, t, last)
    ensures Filling(t, last, options[..], events + more, mode)
    ensures Pending(mode, expecting, index) && !mode.OnlyOperands?
  {
    hide Filling, Has;
    expecting, index, more, mode := 0, 0, [], Normal;
    assert events + more == events;
    ghost var (all, final) := ShortEvents(word, 1, t, last);
    var j := 1;
    while j < |word|
      invariant 1 <= j <= |word|
      invariant mode == Normal && expecting == 0
      invariant Filling(t, last, options[..], events + more, Normal)
      invariant more <= all && ShortEvents(word, j, t, last) == (all[|more|..], final)
      decreases |word| - j
    {
      var step: ShortStep;
      ghost var one, next;
      ghost var before := more;
      step, index, one, next := ShortOption(word, j, options, t, last, events + before);
      more, mode := before + one, next;
      assert (events + before) + one == events + more;
      Extends(all, before, one, if step.Continue? then ShortEvents(word, j + 1, t, last).0 else []);
      match step {
        case Continue =>
        case Stop =>
          return;
        case Wait =>
          expecting := SEEN_SHORT_WITH;
          return;
      }
      j := j + 1;
    }
    assert ShortEvents(word, j, t, last) == ([], Normal);
    assert all == more + all[|more|..] && more + [] == more;
  }

  /** One more piece of a list whose rest is known. */
  lemma Extends<T>(all: seq<T>, before: seq<T>, one: seq<T>, rest: seq<T>)
    requires before <= all && all[|before|..] == one + rest
    ensures before + one <= all && all[|before + one|..] == rest
    ensures rest == [] ==> before + one == all
  {
    assert all == before + (one + rest);
    assert all == (before + one) + rest;
  }

  /** What the loop over a cluster does after a character. */
  datatype ShortStep = Continue | Stop | Wait

  method ShortOption(word: string, j: nat, options: array<Opt>, ghost t: Table, ghost last: nat,
                     ghost events: seq<Event>)
    returns (step: ShortStep, index: nat, ghost one: seq<Event>, ghost mode: Mode)
    requires last < |t| && Filling(t, last, options[..], events, Normal) && j < |word|
    modifies options
    ensures Filling(t, last, options[..], events + one, mode)
    ensures match step
            case Continue => mode == Normal && ShortEvents(word, j, t, last)
                             == (one + ShortEvents(word, j + 1, t, last).0, ShortEvents(word, j + 1, t, last).1)
            case Stop => mode == Normal && ShortEvents(word, j, t, last) == (one, mode)
            case Wait => mode.Expecting? && !mode.use.long && index == mode.use.index
                         && ShortEvents(word, j, t, last) == (one, mode)
  {
    FillingAlike(t, last, options[..], events, Normal);
    ShortIndexAlike(word[j], options[..], t, last, 0);
    index := ShortOptionGetIndex(word[j], options, last);
    var use := Use(index, false, [word[j]]);
    RecordUse(options, last, use);
    FillingAlike(t, last, options[..], events, Expecting(use));
    hide After, Occur, Settle, ShortIndex;
    mode, one := Normal, [];
    var unknown := Has(options[index].flags, LAST);
    if !unknown && Has(options[index].flags, ARGUMENT_FORBIDDEN) {
      one := [Event(use, None)];
      SettleFills(t, last, options[..], events, one[0]);
      RecordArgument(options, index, SEEN_SHORT_WITHOUT, None, one[0]);
      step := Continue;
    } else if j + 1 < |word| {
      one := [Event(use, Some(word[j + 1..]))];
      SettleFills(t, last, options[..], events, one[0]);
      RecordArgument(options, index, SEEN_SHORT_WITH, Some(word[j + 1..]), one[0]);
      step := Stop;
    } else if !unknown && Has(options[index].flags, ARGUMENT_REQUIRED) {
      mode, step := Expecting(use), Wait;
      assert events + one == events;
    } else {
      one := [Event(use, None)];
      SettleFills(t, last, options[..], events, one[0]);
      RecordArgument(options, index, SEEN_SHORT_WITHOUT, None, one[0]);
      step := Stop;
    }
  }

  /** The pending option takes the word, or goes without: the bit for "with" shifted down is the one for "without". */
  method SettlePending(word: Option<string>, options: array<Opt>, expecting: Flags, index: nat,
                       ghost t: Table, ghost last: nat, ghost events: seq<Event>, ghost use: Use)
    returns (taken: bool, ghost e: Event)
    requires last < |t| && use.index <= last
    requires Filling(t, last, options[..], events, Expecting(use)) && Pending(Expecting(use), expecting, index)
    modifies options
    ensures taken == (word.Some? && Takes(t[use.index].flags, word.value))
    ensures e == Event(use, if taken then word else None)
    ensures Filling(t, last, options[..], events + [e], Normal)
  {
    FillingAlike(t, last, options[..], events, Expecting(use));
    hide Filling, EndsAt, Settle;
    taken := word.Some? && Takes(options[index].flags, word.value);
    e := Event(use, if taken then word else None);
    SettleFills(t, last, options[..], events, e);
    if taken {
      RecordArgument(options, index, expecting, word, e);
    } else {
      RecordArgument(options, index, expecting >> 1, None, e);
    }
  }

  /** A word that is not behind "--". */
  method OptionWord(word: string, options: array<Opt>, expecting: Flags, index: nat,
                    ghost t: Table, ghost last: nat, ghost events: seq<Event>, ghost mode: Mode)
    returns (operand: bool, doubledash: bool, expecting': Flags, index': nat, ghost more: seq<Event>, ghost next: Mode)
    requires last < |t| && (mode.Expecting? ==> mode.use.index <= last)
    requires Filling(t, last, options[..], events, mode) && Pending(mode, expecting, index) && !mode.OnlyOperands?
    modifies options
    ensures (operand, more, next) == ReadWord(word, mode, t, last)
    ensures Filling(t, last, options[..], events + more, next)
    ensures Pending(next, expecting', index') && (doubledash <==> next.OnlyOperands?)
  {
    hide Filling;
    operand, doubledash, expecting', index', more := false, false, 0, index, [];
    next := Normal;
    if expecting != 0 {
      var taken;
      ghost var e;
      taken, e := SettlePending(Some(word), options, expecting, index, t, last, events, mode.use);
      more := [e];
      if taken { return; }
    }
    assert events + [] == events;
    ghost var before := events + more;
    ghost var found := [];
    if word == "--" {
      doubledash, next := true, OnlyOperands;
      DashesFill(t, last, options[..], before);
    } else if IsLong(word) {
      expecting', index', found, next := LongOption(word[2..], options, t, last, before);
    } else if IsShort(word) {
      expecting', index', found, next := ShortOptions(word, options, t, last, before);
    } else {
      operand := true;
    }
    assert ReadWord(word, Normal, t, last) == (operand, found, next);
    assert before + found == events + (more + found) && before + [] == before;
    assert [] + found == found;
    more := more + found;
  }

  lemma DashesFill(t: Table, last: nat, options: Table, events: seq<Event>)
    requires Filling(t, last, options, events, Normal)
    ensures Filling(t, last, options, events, OnlyOperands)
  {
  }

  // ---- The parser ----

  /** argv ends at n: a null pointer, and none before it. */
  ghost predicate EndsWithNull(argv: seq<Option<string>>, n: nat) {
    1 <= n < |argv| && argv[n].None? && forall i :: 1 <= i < n ==> argv[i].Some?
  }

  ghost function Words(argv: seq<Option<string>>, n: nat): (words: seq<string>)
    requires EndsWithNull(argv, n)
    ensures |words| == n - 1
    ensures forall i :: 0 <= i < n - 1 ==> Some(words[i]) == argv[i + 1]
  {
    seq(n - 1, i requires 0 <= i < n - 1 => argv[i + 1].value)
  }

  /** The reset loop and the reset of the last element. */
  method ResetTable(options: array<Opt>, ghost last: nat)
    requires EndsAt(options[..], last)
    modifies options
    ensures options[..] == Reset(old(options[..]), last)
    ensures EndsAt(options[..], last)
  {
    var i := 0;
    while !Has(options[i].flags, LAST)
      invariant i <= last < options.Length
      invariant forall k :: 0 <= k < i ==> options[k] == old(options[k]).(argument := None, count := 0)
      invariant forall k :: i <= k < options.Length ==> options[k] == old(options[k])
      invariant Has(options[last].flags, LAST) && forall k :: 0 <= k < last ==> !Has(options[k].flags, LAST)
      decreases last - i
    {
      options[i] := options[i].(argument := None, count := 0);
      i := i + 1;
    }
    options[i] := options[i].(shortName := NO_NAME, longName := None, argument := None, count := 0);
  }

  /** What has been read so far and what is still to be read make up the whole parse. */
  ghost predicate Splits(whole: Parsed, operands: seq<string>, events: seq<Event>, rest: Parsed) {
    whole.operands == operands + rest.operands && whole.events == events + rest.events
  }

  lemma SplitsMore(whole: Parsed, operands: seq<string>, events: seq<Event>, rest: Parsed, operand: seq<string>,
                   more: seq<Event>, next: Parsed)
    requires Splits(whole, operands, events, rest)
    requires rest.operands == operand + next.operands && rest.events == more + next.events
    ensures Splits(whole, operands + operand, events + more, next)
  {
  }

  /** The front of argv: the program name, then the operands so far. */
  ghost predicate Front(argv: seq<Option<string>>, name: Option<string>, operands: seq<string>) {
    && 1 + |operands| <= |argv|
    && argv[0] == name
    && forall k :: 0 <= k < |operands| ==> argv[1 + k] == Some(operands[k])
  }

  /** Puts an operand behind the others. */
  method KeepOperand(argv: array<Option<string>>, i: nat, operandCount: nat, ghost operands: seq<string>, ghost n: nat)
    requires operandCount == 1 + |operands| <= i < n < argv.Length && argv[i].Some?
    requires Front(argv[..], argv[0], operands)
    modifies argv
    ensures Front(argv[..], old(argv[0]), operands + [old(argv[i]).value])
    ensures forall k :: i < k < argv.Length ==> argv[k] == old(argv[k])
  {
    ghost var all := operands + [argv[i].value];
    argv[operandCount] := argv[i];
    assert forall k :: 0 <= k < |operands| ==> all[k] == operands[k];
  }

  lemma StartsFilling(t: Table, last: nat)
    requires EndsAt(t, last)
    ensures Filling(t, last, t, [], Normal)
  {
  }

  lemma EndsFilling(t: Table, last: nat, options: Table, events: seq<Event>, mode: Mode)
    requires Filling(t, last, options, events, mode) && !mode.Expecting?
    ensures InTable(events, last) && options == ApplyAll(t, last, events)
  {
  }

  /** What is left when argv is at its end. */
  lemma ParseEnds(mode: Mode, t: Table, last: nat)
    requires last < |t| && (mode.Expecting? ==> mode.use.index <= last)
    ensures Parse([], mode, t, last) == Parsed([], if mode.Expecting? then [Event(mode.use, None)] else [])
  {
  }

  lemma OperandsOnly(word: string, t: Table, last: nat)
    requires last < |t|
    ensures ReadWord(word, OnlyOperands, t, last) == (true, [], OnlyOperands)
  {
  }

  /**
   gopt. The array keeps the program name and exactly the operands, in order, and is null-terminated; the
   table is what the option events leave; both are those of the grammar, for every argv and every table.
   */
  method Gopt(argv: array<Option<string>>, options: array<Opt>, ghost n: nat, ghost last: nat)
    returns (operandCount: nat)
    requires EndsWithNull(argv[..], n) && EndsAt(options[..], last)
    modifies argv, options
    ensures var t := Reset(old(options[..]), last);
            var p := Parse(Words(old(argv[..]), n), Normal, t, last);
            && operandCount == 1 + |p.operands| <= n
            && Front(argv[..], old(argv[0]), p.operands)
            && argv[operandCount].None?
            && InTable(p.events, last)
            && options[..] == ApplyAll(t, last, p.events)
  {
    hide Filling, Parse, ReadWord, ApplyAll, InTable;
    ghost var words := Words(argv[..], n);
    ghost var name := argv[0];
    ResetTable(options, last);
    ghost var t := options[..];
    ghost var whole := Parse(words, Normal, t, last);
    ghost var operands: seq<string> := [];
    ghost var events: seq<Event> := [];
    ghost var mode := Normal;
    StartsFilling(t, last);
    var doubledash, expecting, index, i := false, 0 as Flags, 0, 1;
    operandCount := 1;
    while argv[i].Some?
      invariant 1 <= i <= n < argv.Length && operandCount == 1 + |operands| <= i
      invariant Front(argv[..], name, operands)
      invariant forall k :: i <= k < argv.Length ==> argv[k] == old(argv[k])
      invariant mode.Expecting? ==> mode.use.index <= last
      invariant Filling(t, last, options[..], events, mode)
      invariant Splits(whole, operands, events, Parse(words[i - 1..], mode, t, last))
      invariant Pending(mode, expecting, index) && (doubledash <==> mode.OnlyOperands?)
      decreases n - i
    {
      ghost var left := words[i - 1..];
      assert left[0] == argv[i].value && left[1..] == words[i..];
      ghost var more: seq<Event> := [];
      ghost var next := mode;
      var operand := doubledash;
      assert events + [] == events;
      if doubledash {
        OperandsOnly(left[0], t, last);
      } else {
        operand, doubledash, expecting, index, more, next :=
          OptionWord(argv[i].value, options, expecting, index, t, last, events, mode);
      }
      ParseReadsWords(left, mode, t, last);
      if operand {
        KeepOperand(argv, i, operandCount, operands, n);
        operandCount := operandCount + 1;
      }
      SplitsMore(whole, operands, events, Parse(left, mode, t, last), if operand then [left[0]] else [], more,
                 Parse(words[i..], next, t, last));
      operands, events, mode := operands + if operand then [left[0]] else [], events + more, next;
      i := i + 1;
    }
    assert words[i - 1..] == [];
    ParseEnds(mode, t, last);
    if expecting != 0 {
      var taken;
      ghost var e;
      taken, e := SettlePending(None, options, expecting, index, t, last, events, mode.use);
      events, mode := events + [e], Normal;
    }
    assert events + [] == events && operands + [] == operands;
    EndsFilling(t, last, options[..], events, mode);
    argv[operandCount] := None;
  }
}
