/**
 The runs that WholeRun speaks about. Every protocol run is served by some interleaving of store commands;
 and in every served run what a thread sends to the store follows from the replies that have been logged.
 */
module ServedRuns {
  import opened Common
  import opened Crypto
  import opened NestedAE
  import opened Protocol
  import opened Decryptability
  import opened ServerRefinement
  import opened WholeRun
  import Decimal
  import LockAtomicity
  import Server

  // ---- One section after the other ----

  lemma {:induction false} RunBoth(fine: LockAtomicity.State, a: seq<LockAtomicity.Action>,
                                   b: seq<LockAtomicity.Action>)
    ensures LockAtomicity.Run(fine, a + b) == LockAtomicity.Run(LockAtomicity.Run(fine, a), b)
    decreases |a|
  {
    hide LockAtomicity.Step;
    if a == [] {
      assert a + b == b;
    } else {
      assert (a + b)[1..] == a[1..] + b;
      RunBoth(LockAtomicity.Step(fine, a[0]), a[1..], b);
    }
  }

  lemma RunOne(fine: LockAtomicity.State, m: LockAtomicity.Action)
    ensures LockAtomicity.Run(fine, [m]) == LockAtomicity.Step(fine, m)
  {
    hide LockAtomicity.Step;
    assert [m][1..] == [];
  }

  /** n commands of the only thread. */
  function Commands(n: nat): seq<LockAtomicity.Action> {
    if n == 0 then [] else Commands(n - 1) + [LockAtomicity.Do(0)]
  }

  predicate OneThread(fine: LockAtomicity.State) {
    fine.holder.None? && |fine.threads| == 1 && fine.threads[0].Outside?
  }

  /** The only thread has had n replies in this section, and `from` is the state in which it took the lock. */
  ghost predicate Within(fine: LockAtomicity.State, from: LockAtomicity.State, section: LockAtomicity.Section, n: nat) {
    var r := LockAtomicity.Alone(from.db, section, n);
    && fine.db == r.0 && fine.log == from.log && fine.holder == Some(0)
    && fine.threads == [LockAtomicity.Inside(section, r.1)]
  }

  lemma {:induction false} CommandsRunAlone(fine: LockAtomicity.State, section: LockAtomicity.Section, n: nat)
    requires OneThread(fine)
    ensures Within(LockAtomicity.Run(fine, [LockAtomicity.Lock(0, section)] + Commands(n)), fine, section, n)
  {
    var lock := LockAtomicity.Lock(0, section);
    if n == 0 {
      RunOne(fine, lock);
      assert [lock] + Commands(0) == [lock];
    } else {
      CommandsRunAlone(fine, section, n - 1);
      var before := [lock] + Commands(n - 1);
      RunBoth(fine, before, [LockAtomicity.Do(0)]);
      RunOne(LockAtomicity.Run(fine, before), LockAtomicity.Do(0));
      hide LockAtomicity.Run;
      assert [lock] + Commands(n) == before + [LockAtomicity.Do(0)];
    }
  }

  /** A whole section: lock, n commands, unlock. */
  function Whole(section: LockAtomicity.Section, n: nat): seq<LockAtomicity.Action> {
    [LockAtomicity.Lock(0, section)] + Commands(n) + [LockAtomicity.Unlock(0)]
  }

  lemma WholeRunsAlone(fine: LockAtomicity.State, section: LockAtomicity.Section, n: nat)
    requires OneThread(fine)
    requires section(LockAtomicity.Alone(fine.db, section, n).1).None?
    ensures var end := LockAtomicity.Run(fine, Whole(section, n));
            var r := LockAtomicity.Alone(fine.db, section, n);
            OneThread(end) && end.db == r.0 && end.log == fine.log + [LockAtomicity.Finished(section, r.1)]
  {
    var before := [LockAtomicity.Lock(0, section)] + Commands(n);
    CommandsRunAlone(fine, section, n);
    RunBoth(fine, before, [LockAtomicity.Unlock(0)]);
    RunOne(LockAtomicity.Run(fine, before), LockAtomicity.Unlock(0));
    hide LockAtomicity.Run, LockAtomicity.Alone;
  }

  /** Every section of the server comes to its end on a store that represents the records. */
  lemma SectionEnds(s: Suite, c: Codec, db: Server.Db, st: State, a: Action) returns (n: nat)
    requires Represents(c, db, st.store) && SectionOf(s, c, st, a).Some?
    ensures var section := SectionOf(s, c, st, a).value;
            section(LockAtomicity.Alone(db, section, n).1).None?
  {
    hide Upload, UploadWords, MakeUpdate, ReEncrypt, UpdateTextsOf, CounterOf, Server.Suffix;
    hide LockAtomicity.Alone, Key, Server.SetAllStore, Server.UpdateStore;
    match a {
      case Fetch(id) =>
        n := 4;
        LockAtomicity.GetAllAlone(db, FetchKeys(id), n);
      case GetForUpdate(id) =>
        n := 3;
        LockAtomicity.GetAllAlone(db, DownloadKeys(id), n);
      case UpdateRead(_, m, _) =>
        n := 3;
        LockAtomicity.GetAllAlone(db, ReadKeys(st.snapshots[m].id), n);
      case SetCommit(tid) =>
        n := SetEnds(s, c, db, st, tid);
      case UpdateCommit(tid, iv, out) =>
        n := UpdateEnds(s, c, db, st, tid, iv, out);
    }
  }

  lemma SetEnds(s: Suite, c: Codec, db: Server.Db, st: State, tid: nat) returns (n: nat)
    requires Represents(c, db, st.store) && SetReady(st, tid)
    ensures var section := SectionOf(s, c, st, SetCommit(tid)).value;
            section(LockAtomicity.Alone(db, section, n).1).None?
  {
    hide Represents, Upload, UploadWords, CounterOf, Server.Suffix, LockAtomicity.Alone, LockAtomicity.SetAllSection;
    hide Server.SetAllStore, Key;
    var req := st.threads[tid].req;
    var words := UploadWords(c, req.id, Upload(s, req, 0));
    CounterIsThere(c, db, st.store, CounterOf(req.id));
    LockAtomicity.SetAllSectionCommits(db, words, CounterOf(req.id));
    n := |words| / 2 + 2;
  }

  lemma CounterIsThere(c: Codec, db: Server.Db, store: map<Id, Entry>, id: Id)
    requires Represents(c, db, store) && id in store
    ensures Server.VersionKey(id) in db && Server.VersionKey(id) == Key(CtxtVersion, id)
  {
    assert Key(CtxtVersion, id) in db;
  }

  lemma UpdateEnds(s: Suite, c: Codec, db: Server.Db, st: State, tid: nat, iv: Bytes, out: Buffers) returns (n: nat)
    requires Represents(c, db, st.store) && UpdateReady(st, tid)
    requires UpdateSectionOf(s, c, st.threads[tid], iv, out).Some?
    ensures var section := UpdateSectionOf(s, c, st.threads[tid], iv, out).value;
            section(LockAtomicity.Alone(db, section, n).1).None?
  {
    var task := st.threads[tid];
    var update := MakeUpdate(s, task.snap, task.coins).value;
    var written := After(ReEncrypt(s, update.1, task.data, iv), out);
    var texts := UpdateTextsOf(c, Record(0, 0, update.0, written.hat, written.ct));
    CounterIsThere(c, db, st.store, task.snap.id);
    hide Represents, MakeUpdate, ReEncrypt, UpdateTextsOf, LockAtomicity.Alone, LockAtomicity.UpdateSection;
    LockAtomicity.UpdateSectionCommits(db, UpdateKeysOf(task.snap.id), texts, Decimal.Text(task.version));
    n := 5;
  }

  lemma ServesSnoc(s: Suite, c: Codec, st: State, done: seq<Action>, a: Action, log: seq<LockAtomicity.Finished>,
                   last: LockAtomicity.Finished)
    requires Serves(s, c, st, done, log)
    ensures SectionOf(s, c, Run(s, st, done), a) == Some(last.section) ==> Serves(s, c, st, done + [a], log + [last])
    ensures SectionOf(s, c, Run(s, st, done), a).None? ==> Serves(s, c, st, done + [a], log)
  {
    hide SectionOf, Run;
    assert (done + [a])[..|done|] == done && (log + [last])[..|log|] == log;
  }

  /**
   Every run of the protocol is served: from a store that represents the records, with the lock free, there
   are store commands whose finished sections are those of the run. So what WholeRun proves of served runs
   speaks about every protocol run.
   */
  lemma {:induction false} EveryRunIsServed(s: Suite, c: Codec, fine: LockAtomicity.State, st: State, acts: seq<Action>)
    returns (moves: seq<LockAtomicity.Action>)
    requires LawfulCodec(c) && OneThread(fine) && fine.log == [] && Represents(c, fine.db, st.store)
    ensures var end := LockAtomicity.Run(fine, moves);
            && OneThread(end)
            && Serves(s, c, st, acts, end.log)
            && Represents(c, end.db, Run(s, st, acts).store)
    decreases |acts|
  {
    hide SectionOf, Represents, Step, LawfulCodec, LockAtomicity.Alone, LockAtomicity.Step, OneThread;
    if acts == [] {
      moves := [];
    } else {
      var (done, a) := (acts[..|acts| - 1], acts[|acts| - 1]);
      assert acts == done + [a];
      moves := EveryRunIsServed(s, c, fine, st, done);
      var mid := Run(s, st, done);
      var here := LockAtomicity.Run(fine, moves);
      RunSnoc(s, st, done, a);
      hide Run, LockAtomicity.Run, Serves;
      var section := SectionOf(s, c, mid, a);
      if section.None? {
        NoSectionNoChange(s, c, mid, a);
        ServesSnoc(s, c, st, done, a, here.log, LockAtomicity.Finished(LockAtomicity.GetAllSection([]), []));
      } else {
        var n := SectionEnds(s, c, here.db, mid, a);
        WholeRunsAlone(here, section.value, n);
        RunBoth(fine, moves, Whole(section.value, n));
        SectionRefines(s, c, here.db, mid, a, n);
        var last := LockAtomicity.Finished(section.value, LockAtomicity.Alone(here.db, section.value, n).1);
        ServesSnoc(s, c, st, done, a, here.log, last);
        moves := moves + Whole(section.value, n);
      }
    }
  }

  /** From the populated store every run, however long, meets all that WholeRun asks of served runs. */
  lemma PopulatedRunsAreServed(s: Suite, c: Codec, ids: set<Id>, populated: SetRequest, threads: nat, acts: seq<Action>)
    returns (fine: LockAtomicity.State, moves: seq<LockAtomicity.Action>)
    requires LawfulCodec(c) && Lawful(s) && ValidRequest(populated) && populated.key.t > 0
    ensures var st := PopulatedState(s, ids, populated, threads);
            && LockAtomicity.AtRest(fine) && Represents(c, fine.db, st.store)
            && Fits(st) && AllReadable(s, st)
            && LockAtomicity.Run(fine, moves).holder.None?
            && Serves(s, c, st, acts, LockAtomicity.Run(fine, moves).log)
  {
    hide Fits, AllReadable, PopulatedState, Represents, TextStore, LockAtomicity.Run, Serves, Lawful, LawfulCodec;
    var st := PopulatedState(s, ids, populated, threads);
    PopulatedStateIsReadable(s, ids, populated, threads);
    TextStoreRepresents(c, st.store);
    fine := LockAtomicity.State(TextStore(c, st.store), None, [LockAtomicity.Outside], []);
    moves := EveryRunIsServed(s, c, fine, st, acts);
  }

  // ---- What a thread sends follows from the log ----

  function TextsOf(replies: seq<Option<string>>): (texts: seq<string>)
    ensures |texts| == |replies|
  {
    seq(|replies|, i requires 0 <= i < |replies| => if replies[i].Some? then replies[i].value else "")
  }

  /** A header read as a struct; nothing is said about one that is too short. */
  function HatOf(header: Bytes): Hat {
    if |header| < HEADER + META_LEN then Hat([], [], header)
    else Hat(header[..16], header[16..32], header[32..HEADER + META_LEN])
  }

  /** The pending update of a thread, decoded from the replies to the updater's download and to its own read. */
  function FromReplies(c: Codec, id: Id, coins: UpdateCoins, download: seq<Option<string>>,
                       read: seq<Option<string>>): (task: Task)
    requires |download| == |read| == 3
  {
    var (d, r) := (TextsOf(download), TextsOf(read));
    UpdatePending(Snapshot(id, c.rootOf(d[2]), c.unb64(d[0]), HatOf(c.unb64(d[1])), 0), coins,
                  Decimal.Atoi(r[0]), HatOf(c.unb64(r[1])), c.unb64(r[2]))
  }

  lemma HeaderDecodes(c: Codec, rec: Record)
    requires LawfulCodec(c) && HatFits(rec.hat)
    ensures HatOf(c.unb64(Encoded(c, Header, rec))) == rec.hat
  {
    var header := rec.hat.iv + rec.hat.tag + rec.hat.data;
    assert header[..16] == rec.hat.iv && header[16..32] == rec.hat.tag;
    assert header[32..HEADER + META_LEN] == rec.hat.data;
  }

  /** Entry q of the log is the updater's download that shows this record. */
  ghost predicate DownloadAt(c: Codec, log: seq<LockAtomicity.Finished>, q: nat, snap: Snapshot) {
    && q < |log| && log[q].section == LockAtomicity.GetAllSection(DownloadKeys(snap.id))
    && |log[q].replies| == 3
    && var d := TextsOf(log[q].replies);
       && snap.root == c.rootOf(d[2]) && snap.wrap == c.unb64(d[0])
       && (HatFits(snap.hat) ==> snap.hat == HatOf(c.unb64(d[1])))
  }

  /** Entry q of the log is the locked read of this task. */
  ghost predicate ReadAt(c: Codec, log: seq<LockAtomicity.Finished>, q: nat, task: Task)
    requires task.UpdatePending?
  {
    && q < |log| && log[q].section == LockAtomicity.GetAllSection(ReadKeys(task.snap.id))
    && |log[q].replies| == 3
    && var r := TextsOf(log[q].replies);
       && task.version == Decimal.Atoi(r[0]) && task.data == c.unb64(r[2])
       && (HatFits(task.hat) ==> task.hat == HatOf(c.unb64(r[1])))
  }

  ghost predicate SnapshotLogged(c: Codec, log: seq<LockAtomicity.Finished>, snap: Snapshot) {
    exists q :: DownloadAt(c, log, q, snap)
  }

  ghost predicate TaskLogged(c: Codec, log: seq<LockAtomicity.Finished>, task: Task) {
    task.UpdatePending? ==> SnapshotLogged(c, log, task.snap) && exists q :: ReadAt(c, log, q, task)
  }

  ghost predicate AllLogged(c: Codec, log: seq<LockAtomicity.Finished>, st: State) {
    && (forall i :: 0 <= i < |st.snapshots| ==> SnapshotLogged(c, log, st.snapshots[i]))
    && (forall t :: 0 <= t < |st.threads| ==> TaskLogged(c, log, st.threads[t]))
  }

  lemma StaysLogged(c: Codec, log: seq<LockAtomicity.Finished>, last: LockAtomicity.Finished, st: State)
    requires AllLogged(c, log, st)
    ensures AllLogged(c, log + [last], st)
  {
    hide TextsOf, HatOf;
    var all := log + [last];
    forall snap | SnapshotLogged(c, log, snap) ensures SnapshotLogged(c, all, snap) {
      var q :| DownloadAt(c, log, q, snap);
      assert DownloadAt(c, all, q, snap);
    }
    forall t | 0 <= t < |st.threads| && st.threads[t].UpdatePending? ensures TaskLogged(c, all, st.threads[t]) {
      assert TaskLogged(c, log, st.threads[t]);
      var q :| ReadAt(c, log, q, st.threads[t]);
      assert ReadAt(c, all, q, st.threads[t]);
    }
  }

  lemma DownloadIsLogged(c: Codec, log: seq<LockAtomicity.Finished>, st: State, id: Id)
    requires LawfulCodec(c) && log != [] && id in st.store
    requires log[|log| - 1].section == LockAtomicity.GetAllSection(DownloadKeys(id))
    requires Answers(c, st, GetForUpdate(id), log[|log| - 1].replies)
    ensures SnapshotLogged(c, log, TakeSnapshot(id, st.store[id].rec))
  {
    var rec := st.store[id].rec;
    if HatFits(rec.hat) { HeaderDecodes(c, rec); }
    hide HatOf, Key, LockAtomicity.GetAllSection;
    assert TextsOf(log[|log| - 1].replies)
        == [Encoded(c, Wrap, rec), Encoded(c, Header, rec), Encoded(c, RootVersion, rec)];
    assert DownloadAt(c, log, |log| - 1, TakeSnapshot(id, rec));
  }

  lemma ReadIsLogged(c: Codec, log: seq<LockAtomicity.Finished>, st: State, tid: nat, n: nat, coins: UpdateCoins)
    requires LawfulCodec(c) && log != [] && n < |st.snapshots| && st.snapshots[n].id in st.store
    requires log[|log| - 1].section == LockAtomicity.GetAllSection(ReadKeys(st.snapshots[n].id))
    requires Answers(c, st, UpdateRead(tid, n, coins), log[|log| - 1].replies)
    ensures var rec := st.store[st.snapshots[n].id].rec;
            exists q :: ReadAt(c, log, q, UpdatePending(st.snapshots[n], coins, rec.version, rec.hat, rec.data))
  {
    var rec := st.store[st.snapshots[n].id].rec;
    if HatFits(rec.hat) { HeaderDecodes(c, rec); }
    Decimal.AtoiUndoesText(rec.version);
    hide HatOf, Key, LockAtomicity.GetAllSection, Decimal.Atoi, Decimal.Text;
    assert TextsOf(log[|log| - 1].replies)
        == [Encoded(c, CtxtVersion, rec), Encoded(c, Header, rec), Encoded(c, Data, rec)];
    assert ReadAt(c, log, |log| - 1, UpdatePending(st.snapshots[n], coins, rec.version, rec.hat, rec.data));
  }

  /** One step: with its section, if it has one, at the end of the log. */
  lemma StepStaysLogged(s: Suite, c: Codec, st: State, a: Action, log: seq<LockAtomicity.Finished>)
    requires LawfulCodec(c) && AllLogged(c, log, st)
    requires SectionOf(s, c, st, a).Some? ==>
               && log != [] && log[|log| - 1].section == SectionOf(s, c, st, a).value
               && Answers(c, st, a, log[|log| - 1].replies)
    ensures AllLogged(c, log, Step(s, st, a))
  {
    hide LawfulCodec, Answers, DownloadAt, ReadAt, LockAtomicity.GetAllSection, Upload, UploadWords, MakeUpdate;
    hide ReEncrypt, UpdateTextsOf, CounterOf, SetStore, CommitUpdate, UpdateSectionOf, LockAtomicity.SetAllSection;
    match a {
      case GetForUpdate(id) =>
        if id in st.store { DownloadIsLogged(c, log, st, id); }
      case UpdateRead(tid, n, coins) =>
        if SectionOf(s, c, st, a).Some? { ReadIsLogged(c, log, st, tid, n, coins); }
      case _ =>
    }
  }

  /** In a served run all that threads and updaters hold has been decoded from replies in the log. */
  lemma {:induction false} TasksAreLogged(s: Suite, c: Codec, st: State, acts: seq<Action>,
                                          log: seq<LockAtomicity.Finished>)
    requires LawfulCodec(c) && Serves(s, c, st, acts, log) && Answered(s, c, st, acts, log)
    requires st.snapshots == [] && forall t :: 0 <= t < |st.threads| ==> !st.threads[t].UpdatePending?
    ensures AllLogged(c, log, Run(s, st, acts))
    decreases |acts|
  {
    hide LawfulCodec, SectionOf, Step, SnapshotLogged;
    if acts != [] {
      var (done, a) := (acts[..|acts| - 1], acts[|acts| - 1]);
      assert acts == done + [a];
      RunSnoc(s, st, done, a);
      var mid := Run(s, st, done);
      hide Run, AllLogged;
      if SectionOf(s, c, mid, a).None? {
        TasksAreLogged(s, c, st, done, log);
      } else {
        var n := |log| - 1;
        TasksAreLogged(s, c, st, done, log[..n]);
        StaysLogged(c, log[..n], log[n], mid);
        assert log[..n] + [log[n]] == log;
      }
      StepStaysLogged(s, c, mid, a, log);
    }
  }

  /**
   The commit of an UP_UPDATE is a function of the log: its section, with all the texts it writes, is the one
   computed from the replies to the updater's download and to the thread's own read.
   */
  lemma SectionFollowsFromLog(s: Suite, c: Codec, st: State, acts: seq<Action>, log: seq<LockAtomicity.Finished>,
                              tid: nat, iv: Bytes, out: Buffers) returns (d: nat, r: nat)
    requires LawfulCodec(c) && Serves(s, c, st, acts, log) && Answered(s, c, st, acts, log)
    requires st.snapshots == [] && forall t :: 0 <= t < |st.threads| ==> !st.threads[t].UpdatePending?
    requires var now := Run(s, st, acts);
             tid < |now.threads| && now.threads[tid].UpdatePending? && HatFits(now.threads[tid].snap.hat)
    ensures var task := Run(s, st, acts).threads[tid];
            && d < |log| && log[d].section == LockAtomicity.GetAllSection(DownloadKeys(task.snap.id))
            && r < |log| && log[r].section == LockAtomicity.GetAllSection(ReadKeys(task.snap.id))
            && |log[d].replies| == |log[r].replies| == 3
            && var decoded := FromReplies(c, task.snap.id, task.coins, log[d].replies, log[r].replies);
               UpdateSectionOf(s, c, task, iv, out) == UpdateSectionOf(s, c, decoded, iv, out)
  {
    TasksAreLogged(s, c, st, acts, log);
    var task := Run(s, st, acts).threads[tid];
    assert TaskLogged(c, log, task);
    d :| DownloadAt(c, log, d, task.snap);
    r :| ReadAt(c, log, r, task);
    hide Run, Serves, Answered, ReEncrypt, LockAtomicity.UpdateSection, HatOf, TextsOf, UpdateTextsOf;
    SameUpdate(s, task, FromReplies(c, task.snap.id, task.coins, log[d].replies, log[r].replies));
  }

  /** The version in a snapshot plays no part in what an updater sends. */
  lemma SameUpdate(s: Suite, a: Task, b: Task)
    requires a.UpdatePending? && b.UpdatePending? && a.coins == b.coins
    requires a.snap.(version := b.snap.version) == b.snap
    ensures MakeUpdate(s, a.snap, a.coins) == MakeUpdate(s, b.snap, b.coins)
  {
  }
}
