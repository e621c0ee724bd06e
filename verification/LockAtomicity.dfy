/**
 Why a critical section may be treated as one step. Threads issue single GET and SET commands to the
 store, one at a time and interleaved in any way; a thread does so only while it holds the data lock. The
 store is then always the result of running whole sections one after the other, up to the section in
 progress, and every section has read what a single such state contains.
 */
module LockAtomicity {
  import opened Common
  import Decimal
  import Server

  datatype Command = Get(key: string) | Put(key: string, value: string)

  /** The next command of a section, from the replies it has had so far; None: it releases the lock. */
  type Section = seq<Option<string>> -> Option<Command>

  function Apply(db: Server.Db, c: Command): Server.Db {
    match c
    case Get(_) => db
    case Put(key, value) => db[key := value]
  }

  function Reply(db: Server.Db, c: Command): Option<string> {
    if c.Get? && c.key in db then Some(db[c.key]) else None
  }

  /** The store and the replies after the first n commands of a section that runs alone. */
  function Alone(db: Server.Db, section: Section, n: nat): (Server.Db, seq<Option<string>>) {
    if n == 0 then (db, [])
    else
      var (d, replies) := Alone(db, section, n - 1);
      var c := section(replies);
      if c.None? then (d, replies) else (Apply(d, c.value), replies + [Reply(d, c.value)])
  }

  /** A section that has released the lock, with the replies it had. */
  datatype Finished = Finished(section: Section, replies: seq<Option<string>>)

  /** The store after the finished sections, each run alone, in the order in which they released the lock. */
  function Replay(db: Server.Db, log: seq<Finished>): Server.Db
    decreases |log|
  {
    if log == [] then db
    else
      var last := log[|log| - 1];
      Alone(Replay(db, log[..|log| - 1]), last.section, |last.replies|).0
  }

  datatype Thread = Outside | Inside(section: Section, replies: seq<Option<string>>)

  datatype State = State(db: Server.Db, holder: Option<nat>, threads: seq<Thread>, log: seq<Finished>)

  datatype Action = Lock(tid: nat, section: Section) | Do(tid: nat) | Unlock(tid: nat)

  predicate CanRun(st: State, tid: nat) {
    tid < |st.threads| && st.threads[tid].Inside?
  }

  /** Taking a lock that is held changes nothing: the thread waits. */
  function Step(st: State, a: Action): State {
    match a
    case Lock(tid, section) =>
      if tid < |st.threads| && st.threads[tid].Outside? && st.holder.None? then
        st.(holder := Some(tid), threads := st.threads[tid := Inside(section, [])])
      else st
    case Do(tid) =>
      if CanRun(st, tid) then
        var t := st.threads[tid];
        var c := t.section(t.replies);
        if c.None? then st
        else
          st.(db := Apply(st.db, c.value),
              threads := st.threads[tid := Inside(t.section, t.replies + [Reply(st.db, c.value)])])
      else st
    case Unlock(tid) =>
      if CanRun(st, tid) && st.threads[tid].section(st.threads[tid].replies).None? then
        st.(holder := None, threads := st.threads[tid := Outside],
            log := st.log + [Finished(st.threads[tid].section, st.threads[tid].replies)])
      else st
  }

  function Run(st: State, acts: seq<Action>): State
    decreases |acts|
  {
    if acts == [] then st else Run(Step(st, acts[0]), acts[1..])
  }

  /** Entry i ran alone on the store that the entries before it had left, to its end. */
  ghost predicate RanAlone(db: Server.Db, log: seq<Finished>, i: nat)
    requires i < |log|
  {
    && log[i].replies == Alone(Replay(db, log[..i]), log[i].section, |log[i].replies|).1
    && log[i].section(log[i].replies).None?
  }

  /** The store is the replay of the log, plus what the section holding the lock has done so far. */
  ghost predicate Serial(init: Server.Db, st: State) {
    && (forall i :: 0 <= i < |st.log| ==> RanAlone(init, st.log, i))
    && (forall t :: 0 <= t < |st.threads| ==> (st.threads[t].Inside? <==> st.holder == Some(t)))
    && (st.holder.Some? ==> CanRun(st, st.holder.value))
    && (st.db, if st.holder.None? then [] else st.threads[st.holder.value].replies)
       == (if st.holder.None? then (Replay(init, st.log), [])
           else Alone(Replay(init, st.log), st.threads[st.holder.value].section,
                      |st.threads[st.holder.value].replies|))
  }

  lemma ReplaySnoc(init: Server.Db, log: seq<Finished>, last: Finished)
    ensures Replay(init, log + [last]) == Alone(Replay(init, log), last.section, |last.replies|).0
  {
    hide Alone;
    assert (log + [last])[..|log|] == log;
  }

  /** Later entries do not matter to an earlier one. */
  lemma RanAloneInPrefix(init: Server.Db, log: seq<Finished>, all: seq<Finished>, i: nat)
    requires i < |log| <= |all| && all[..|log|] == log
    ensures RanAlone(init, log, i) <==> RanAlone(init, all, i)
  {
    hide Alone, Replay;
    assert all[..i] == all[..|log|][..i];
    assert all[i] == all[..|log|][i];
  }

  lemma LogGrows(init: Server.Db, log: seq<Finished>, last: Finished)
    requires forall i :: 0 <= i < |log| ==> RanAlone(init, log, i)
    requires last.replies == Alone(Replay(init, log), last.section, |last.replies|).1
    requires last.section(last.replies).None?
    ensures forall i :: 0 <= i < |log| + 1 ==> RanAlone(init, log + [last], i)
    ensures Replay(init, log + [last]) == Alone(Replay(init, log), last.section, |last.replies|).0
  {
    hide Alone, Replay;
    var all := log + [last];
    assert all[..|log|] == log && all[|log|] == last;
    ReplaySnoc(init, log, last);
    assert RanAlone(init, all, |log|);
    hide RanAlone;
    forall i | 0 <= i < |all| ensures RanAlone(init, all, i) {
      if i < |log| {
        RanAloneInPrefix(init, log, all, i);
      }
    }
  }

  lemma StepKeepsSerial(init: Server.Db, st: State, a: Action)
    requires Serial(init, st)
    ensures Serial(init, Step(st, a))
  {
    match a {
      case Unlock(tid) =>
        if CanRun(st, tid) && st.threads[tid].section(st.threads[tid].replies).None? {
          assert st.holder == Some(tid);
          LogGrows(init, st.log, Finished(st.threads[tid].section, st.threads[tid].replies));
        }
      case Do(tid) =>
        if CanRun(st, tid) {
          assert st.holder == Some(tid);
        }
      case _ =>
    }
  }

  /** A store at rest, with no thread in a section. */
  predicate AtRest(st: State) {
    st.holder.None? && st.log == [] && forall t :: 0 <= t < |st.threads| ==> st.threads[t].Outside?
  }

  /**
   Atomicity. After any interleaving, the sections that finished are equivalent to running each of them
   alone, one after the other; and whenever the lock is free the store is exactly their result.
   */
  lemma {:induction false} SectionsAreAtomic(init: Server.Db, st: State, acts: seq<Action>)
    requires Serial(init, st)
    ensures Serial(init, Run(st, acts))
    ensures Run(st, acts).holder.None? ==> Run(st, acts).db == Replay(init, Run(st, acts).log)
    decreases |acts|
  {
    if acts != [] {
      StepKeepsSerial(init, st, acts[0]);
      SectionsAreAtomic(init, Step(st, acts[0]), acts[1..]);
    }
  }

  // ---- The sections of the server ----

  function Lookup(db: Server.Db, key: string): Option<string> {
    if key in db then Some(db[key]) else None
  }

  function GetAllSection(keys: seq<string>): Section {
    (replies: seq<Option<string>>) => if |replies| < |keys| then Some(Get(keys[|replies|])) else None
  }

  /** SETALL: read the version, write the next one, write each pair. */
  function SetAllSection(kvs: seq<string>, suffix: string): Section {
    (replies: seq<Option<string>>) =>
      if |replies| == 0 then Some(Get(Server.VersionKey(suffix)))
      else if |replies| == 1 then
        if replies[0].None? then None
        else Some(Put(Server.VersionKey(suffix), Server.NextVersion(replies[0].value)))
      else if |replies| - 2 < |kvs| / 2 then Some(Put(kvs[2 * (|replies| - 2)], kvs[2 * (|replies| - 2) + 1]))
      else None
  }

  /** UP_UPDATE: read the version; unless it has moved on, write the wrap, header, data and next version. */
  function UpdateSection(keys: Server.UpdateKeys, texts: Server.UpdateTexts, seen: string): Section {
    (replies: seq<Option<string>>) =>
      if |replies| == 0 then Some(Get(keys.version))
      else if replies[0].None? || !Decimal.SameText(replies[0].value, seen) then None
      else if |replies| == 1 then Some(Put(keys.wrap, texts.wrap))
      else if |replies| == 2 then Some(Put(keys.header, texts.header))
      else if |replies| == 3 then Some(Put(keys.data, texts.data))
      else if |replies| == 4 then Some(Put(keys.version, Server.NextVersion(replies[0].value)))
      else None
  }

  /** One more command of a section that runs alone. */
  lemma AloneStep(db: Server.Db, section: Section, n: nat, d: Server.Db, replies: seq<Option<string>>, c: Command)
    requires Alone(db, section, n).0 == d && Alone(db, section, n).1 == replies && section(replies) == Some(c)
    ensures Alone(db, section, n + 1).0 == Apply(d, c)
    ensures Alone(db, section, n + 1).1 == replies + [Reply(d, c)]
  {
  }

  lemma {:induction false} GetAllAlone(db: Server.Db, keys: seq<string>, n: nat)
    requires n <= |keys|
    ensures var r := Alone(db, GetAllSection(keys), n);
            r.0 == db && |r.1| == n && forall i :: 0 <= i < n ==> r.1[i] == Lookup(db, keys[i])
  {
    if n > 0 {
      GetAllAlone(db, keys, n - 1);
    }
  }

  lemma {:induction false} SetAllAlone(db: Server.Db, kvs: seq<string>, suffix: string, n: nat)
    requires n <= |kvs| / 2 && Server.VersionKey(suffix) in db
    ensures var key := Server.VersionKey(suffix);
            var r := Alone(db, SetAllSection(kvs, suffix), n + 2);
            r.0 == Server.PutPairs(db[key := Server.NextVersion(db[key])], kvs, n) && |r.1| == n + 2
  {
    if n == 0 {
      var section, key := SetAllSection(kvs, suffix), Server.VersionKey(suffix);
      AloneStep(db, section, 0, db, [], Get(key));
      AloneStep(db, section, 1, db, [Some(db[key])], Put(key, Server.NextVersion(db[key])));
    } else {
      SetAllAlone(db, kvs, suffix, n - 1);
      var (d, replies) := Alone(db, SetAllSection(kvs, suffix), n + 1);
      AloneStep(db, SetAllSection(kvs, suffix), n + 1, d, replies, Put(kvs[2 * n - 2], kvs[2 * n - 1]));
    }
  }

  /** Run to its end, a SETALL section does what the critical section of the server is specified to do. */
  lemma SetAllSectionCommits(db: Server.Db, kvs: seq<string>, suffix: string)
    requires Server.VersionKey(suffix) in db
    ensures var r := Alone(db, SetAllSection(kvs, suffix), |kvs| / 2 + 2);
            && r.0 == Server.SetAllStore(db, kvs, suffix)
            && SetAllSection(kvs, suffix)(r.1).None?
  {
    SetAllAlone(db, kvs, suffix, |kvs| / 2);
  }

  lemma UpdateSectionCommits(db: Server.Db, keys: Server.UpdateKeys, texts: Server.UpdateTexts, seen: string)
    requires keys.version in db
    ensures var r := Alone(db, UpdateSection(keys, texts, seen), 5);
            && r.0 == Server.UpdateStore(db, keys, texts, seen)
            && UpdateSection(keys, texts, seen)(r.1).None?
  {
    var section := UpdateSection(keys, texts, seen);
    var now := Some(db[keys.version]);
    AloneStep(db, section, 0, db, [], Get(keys.version));
    if Decimal.SameText(now.value, seen) {
      var d2 := db[keys.wrap := texts.wrap];
      var d3 := d2[keys.header := texts.header];
      var d4 := d3[keys.data := texts.data];
      AloneStep(db, section, 1, db, [now], Put(keys.wrap, texts.wrap));
      AloneStep(db, section, 2, d2, [now, None], Put(keys.header, texts.header));
      AloneStep(db, section, 3, d3, [now, None, None], Put(keys.data, texts.data));
      AloneStep(db, section, 4, d4, [now, None, None, None],
                Put(keys.version, Server.NextVersion(now.value)));
    } else {
      AloneStops(db, section, 1, 5);
    }
  }

  lemma {:induction false} AloneStops(db: Server.Db, section: Section, m: nat, n: nat)
    requires m <= n && section(Alone(db, section, m).1).None?
    ensures Alone(db, section, n) == Alone(db, section, m)
  {
    if m < n {
      AloneStops(db, section, m, n - 1);
    }
  }

  /**
   Snapshot reads. Whatever runs beside it, a GETALL that has finished returned, for all its keys, the
   values of one single state: the one left by the sections that finished before it.
   */
  lemma GetAllReadsOneState(st: State, acts: seq<Action>, i: nat, keys: seq<string>)
    requires AtRest(st)
    requires i < |Run(st, acts).log| && Run(st, acts).log[i].section == GetAllSection(keys)
    ensures var log := Run(st, acts).log;
            var seen := Replay(st.db, log[..i]);
            && |log[i].replies| == |keys|
            && forall k :: 0 <= k < |keys| ==> log[i].replies[k] == Lookup(seen, keys[k])
  {
    SectionsAreAtomic(st.db, st, acts);
    var log := Run(st, acts).log;
    assert RanAlone(st.db, log, i);
    var seen := Replay(st.db, log[..i]);
    GetAllAlone(seen, keys, |keys|);
    AloneStops(seen, GetAllSection(keys), |keys|, |log[i].replies|);
  }
}
