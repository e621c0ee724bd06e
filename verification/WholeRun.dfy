/**
 The whole server, from single store commands up to records. Threads issue the commands of their sections
 under the data lock, interleaved in any way; the sections are those that the steps of a protocol run call
 for. Then the text store always represents the records of that protocol run, and every read has returned
 the record that the protocol step works with.
 */
module WholeRun {
  import opened Common
  import opened Crypto
  import opened NestedAE
  import opened Protocol
  import opened Decryptability
  import opened ServerRefinement
  import Decimal
  import LockAtomicity
  import Server

  /** What a client downloads. */
  function FetchKeys(id: Id): seq<string> {
    [Key(Wrap, id), Key(Header, id), Key(Data, id), Key(RootVersion, id)]
  }

  /** What an updater downloads. */
  function DownloadKeys(id: Id): seq<string> {
    [Key(Wrap, id), Key(Header, id), Key(RootVersion, id)]
  }

  function ReadKeys(id: Id): seq<string> {
    [Key(CtxtVersion, id), Key(Header, id), Key(Data, id)]
  }

  /** The section under the data lock that a step calls for, from what the thread itself holds; None: there is none. */
  function SectionOf(s: Suite, c: Codec, st: State, a: Action): Option<LockAtomicity.Section> {
    match a
    case Fetch(id) => Some(LockAtomicity.GetAllSection(FetchKeys(id)))
    case GetForUpdate(id) => Some(LockAtomicity.GetAllSection(DownloadKeys(id)))
    case SetCommit(tid) =>
      if SetReady(st, tid) then
        var req := st.threads[tid].req;
        Some(LockAtomicity.SetAllSection(UploadWords(c, req.id, Upload(s, req, 0)), CounterOf(req.id)))
      else None
    case UpdateRead(tid, n, _) =>
      if IsIdle(st, tid) && n < |st.snapshots| && st.snapshots[n].id in st.store then
        Some(LockAtomicity.GetAllSection(ReadKeys(st.snapshots[n].id)))
      else None
    case UpdateCommit(tid, iv, out) =>
      if UpdateReady(st, tid) then UpdateSectionOf(s, c, st.threads[tid], iv, out) else None
    case _ => None
  }

  function UpdateSectionOf(s: Suite, c: Codec, task: Task, iv: Bytes, out: Buffers): Option<LockAtomicity.Section>
    requires task.UpdatePending?
  {
    var update := MakeUpdate(s, task.snap, task.coins);
    if update.None? then None
    else
      var r := ReEncrypt(s, update.value.1, task.data, iv);
      if r.Overruns? then None
      else
        var written := After(r, out);
        var texts := UpdateTextsOf(c, Record(0, 0, update.value.0, written.hat, written.ct));
        Some(LockAtomicity.UpdateSection(UpdateKeysOf(task.snap.id), texts, Decimal.Text(task.version)))
  }

  function Found(texts: seq<string>): (replies: seq<Option<string>>)
    ensures |replies| == |texts| && forall i :: 0 <= i < |texts| ==> replies[i] == Some(texts[i])
  {
    seq(|texts|, i requires 0 <= i < |texts| => Some(texts[i]))
  }

  /** The replies that a reading step must have had: the texts of the record as it is in this state. */
  ghost predicate Answers(c: Codec, st: State, a: Action, replies: seq<Option<string>>) {
    match a
    case Fetch(id) => id in st.store ==> replies == Found(FetchTexts(c, st.store[id].rec))
    case GetForUpdate(id) =>
      id in st.store ==>
        var rec := st.store[id].rec;
        replies == Found([Encoded(c, Wrap, rec), Encoded(c, Header, rec), Encoded(c, RootVersion, rec)])
    case UpdateRead(tid, n, _) =>
      n < |st.snapshots| && st.snapshots[n].id in st.store ==>
        var rec := st.store[st.snapshots[n].id].rec;
        replies == Found([Encoded(c, CtxtVersion, rec), Encoded(c, Header, rec), Encoded(c, Data, rec)])
    case _ => true
  }

  /** The finished sections are those that the steps of a run call for, in this order. */
  ghost predicate Serves(s: Suite, c: Codec, st: State, acts: seq<Action>, log: seq<LockAtomicity.Finished>)
    decreases |acts|
  {
    if acts == [] then log == []
    else
      var done := acts[..|acts| - 1];
      var section := SectionOf(s, c, Run(s, st, done), acts[|acts| - 1]);
      if section.None? then Serves(s, c, st, done, log)
      else
        && log != [] && log[|log| - 1].section == section.value
        && Serves(s, c, st, done, log[..|log| - 1])
  }

  /** And each of them was answered from the state of the protocol run at its step. */
  ghost predicate Answered(s: Suite, c: Codec, st: State, acts: seq<Action>, log: seq<LockAtomicity.Finished>)
    decreases |acts|
  {
    if acts == [] then log == []
    else
      var done := acts[..|acts| - 1];
      var section := SectionOf(s, c, Run(s, st, done), acts[|acts| - 1]);
      if section.None? then Answered(s, c, st, done, log)
      else
        && log != [] && Answers(c, Run(s, st, done), acts[|acts| - 1], log[|log| - 1].replies)
        && Answered(s, c, st, done, log[..|log| - 1])
  }

  // ---- One section ----

  /** A section that has nothing more to do has done all it does, however many commands that took. */
  lemma SameEnd(db: Server.Db, section: LockAtomicity.Section, m: nat, n: nat)
    requires section(LockAtomicity.Alone(db, section, m).1).None?
    requires section(LockAtomicity.Alone(db, section, n).1).None?
    ensures LockAtomicity.Alone(db, section, m) == LockAtomicity.Alone(db, section, n)
  {
    if m <= n {
      LockAtomicity.AloneStops(db, section, m, n);
    } else {
      LockAtomicity.AloneStops(db, section, n, m);
    }
  }

  /** A finished read of some fields of one id has returned them, and has changed nothing. */
  lemma ReadSection(c: Codec, db: Server.Db, store: map<Id, Entry>, id: Id, kinds: seq<Kind>, keys: seq<string>, n: nat)
    requires Represents(c, db, store) && id in store
    requires |keys| == |kinds| && forall i :: 0 <= i < |keys| ==> keys[i] == Key(kinds[i], id)
    requires LockAtomicity.GetAllSection(keys)(LockAtomicity.Alone(db, LockAtomicity.GetAllSection(keys), n).1).None?
    ensures var r := LockAtomicity.Alone(db, LockAtomicity.GetAllSection(keys), n);
            && r.0 == db && |r.1| == |keys|
            && forall i :: 0 <= i < |keys| ==> r.1[i] == Some(Encoded(c, kinds[i], store[id].rec))
  {
    LockAtomicity.GetAllAlone(db, keys, |keys|);
    SameEnd(db, LockAtomicity.GetAllSection(keys), n, |keys|);
  }

  /** No read changes anything, whatever its keys are. */
  lemma ReadChangesNothing(db: Server.Db, keys: seq<string>, n: nat)
    requires LockAtomicity.GetAllSection(keys)(LockAtomicity.Alone(db, LockAtomicity.GetAllSection(keys), n).1).None?
    ensures LockAtomicity.Alone(db, LockAtomicity.GetAllSection(keys), n).0 == db
  {
    LockAtomicity.GetAllAlone(db, keys, |keys|);
    SameEnd(db, LockAtomicity.GetAllSection(keys), n, |keys|);
  }

  /** One section that has run to its end, alone, does what its protocol step does. */
  lemma SectionRefines(s: Suite, c: Codec, db: Server.Db, st: State, a: Action, n: nat)
    requires LawfulCodec(c) && Represents(c, db, st.store)
    requires SectionOf(s, c, st, a).Some?
    requires SectionOf(s, c, st, a).value(LockAtomicity.Alone(db, SectionOf(s, c, st, a).value, n).1).None?
    ensures var r := LockAtomicity.Alone(db, SectionOf(s, c, st, a).value, n);
            Represents(c, r.0, Step(s, st, a).store) && Answers(c, st, a, r.1)
  {
    hide Represents, Key, Encoded, LockAtomicity.Alone, Encrypt, CounterOf, Server.Suffix;
    match a {
      case Fetch(id) =>
        ReadChangesNothing(db, FetchKeys(id), n);
        if id in st.store {
          ReadSection(c, db, st.store, id, [Wrap, Header, Data, RootVersion], FetchKeys(id), n);
        }
      case GetForUpdate(id) =>
        ReadChangesNothing(db, DownloadKeys(id), n);
        if id in st.store {
          ReadSection(c, db, st.store, id, [Wrap, Header, RootVersion], DownloadKeys(id), n);
        }
      case UpdateRead(tid, m, _) =>
        ReadSection(c, db, st.store, st.snapshots[m].id, [CtxtVersion, Header, Data], ReadKeys(st.snapshots[m].id), n);
      case SetCommit(tid) =>
        SetSectionRefines(s, c, db, st, tid, n);
      case UpdateCommit(tid, iv, out) =>
        UpdateSectionRefines(s, c, db, st, tid, iv, out, n);
    }
  }

  /** SetCommitRefines with the counter by its name. */
  lemma SetUnderCounter(s: Suite, c: Codec, db: Server.Db, st: State, tid: nat)
    requires LawfulCodec(c) && Represents(c, db, st.store) && SetReady(st, tid)
    ensures var req := st.threads[tid].req;
            && Server.VersionKey(CounterOf(req.id)) in db
            && Represents(c, Server.SetAllStore(db, UploadWords(c, req.id, Upload(s, req, 0)), CounterOf(req.id)),
                          Step(s, st, SetCommit(tid)).store)
  {
    hide Represents, UploadWords, Upload, CounterOf, Server.RootCheck, Server.SetAllStore, Server.Suffix, Step;
    var req := st.threads[tid].req;
    SetCommitRefines(s, c, db, st, tid);
    CheckRefines(c, req.root, req.id, Upload(s, req, 0));
  }

  lemma SetSectionRefines(s: Suite, c: Codec, db: Server.Db, st: State, tid: nat, n: nat)
    requires LawfulCodec(c) && Represents(c, db, st.store) && SetReady(st, tid)
    requires var section := SectionOf(s, c, st, SetCommit(tid)).value;
             section(LockAtomicity.Alone(db, section, n).1).None?
    ensures Represents(c, LockAtomicity.Alone(db, SectionOf(s, c, st, SetCommit(tid)).value, n).0,
                       Step(s, st, SetCommit(tid)).store)
  {
    hide Represents, UploadWords, Upload, CounterOf, Server.RootCheck, Server.SetAllStore, Server.Suffix, Step;
    hide LockAtomicity.Alone, LockAtomicity.SetAllSection, LawfulCodec, Server.VersionKey;
    var req := st.threads[tid].req;
    var words := UploadWords(c, req.id, Upload(s, req, 0));
    SetUnderCounter(s, c, db, st, tid);
    LockAtomicity.SetAllSectionCommits(db, words, CounterOf(req.id));
    SameEnd(db, LockAtomicity.SetAllSection(words, CounterOf(req.id)), n, |words| / 2 + 2);
  }

  lemma UpdateSectionRefines(s: Suite, c: Codec, db: Server.Db, st: State, tid: nat, iv: Bytes, out: Buffers, n: nat)
    requires Represents(c, db, st.store) && UpdateReady(st, tid)
    requires UpdateSectionOf(s, c, st.threads[tid], iv, out).Some?
    requires var section := UpdateSectionOf(s, c, st.threads[tid], iv, out).value;
             section(LockAtomicity.Alone(db, section, n).1).None?
    ensures Represents(c, LockAtomicity.Alone(db, UpdateSectionOf(s, c, st.threads[tid], iv, out).value, n).0,
                       Step(s, st, UpdateCommit(tid, iv, out)).store)
  {
    var task := st.threads[tid];
    var update := MakeUpdate(s, task.snap, task.coins).value;
    var written := After(ReEncrypt(s, update.1, task.data, iv), out);
    var texts := UpdateTextsOf(c, Record(0, 0, update.0, written.hat, written.ct));
    UpdateCommitRefines(s, c, db, st, tid, iv, out, update);
    hide Represents, Step, MakeUpdate, ReEncrypt, UpdateTextsOf, Server.UpdateStore;
    LockAtomicity.UpdateSectionCommits(db, UpdateKeysOf(task.snap.id), texts, Decimal.Text(task.version));
    SameEnd(db, LockAtomicity.UpdateSection(UpdateKeysOf(task.snap.id), texts, Decimal.Text(task.version)), n, 5);
  }

  /** A step that calls for no section leaves the records as they are. */
  lemma NoSectionNoChange(s: Suite, c: Codec, st: State, a: Action)
    requires SectionOf(s, c, st, a).None?
    ensures Step(s, st, a).store == st.store
  {
    hide ReEncrypt, MakeUpdate, UpdateTextsOf, UploadWords, CounterOf;
  }

  // ---- Whole runs ----

  lemma {:induction false} ReplayRefines(s: Suite, c: Codec, db: Server.Db, st: State, acts: seq<Action>,
                                         log: seq<LockAtomicity.Finished>)
    requires LawfulCodec(c) && Represents(c, db, st.store) && Serves(s, c, st, acts, log)
    requires forall i :: 0 <= i < |log| ==> LockAtomicity.RanAlone(db, log, i)
    ensures Represents(c, LockAtomicity.Replay(db, log), Run(s, st, acts).store)
    ensures Answered(s, c, st, acts, log)
    decreases |acts|
  {
    hide Represents, Step, SectionOf, Answers, LawfulCodec;
    if acts != [] {
      var (done, a) := (acts[..|acts| - 1], acts[|acts| - 1]);
      assert acts == done + [a];
      RunSnoc(s, st, done, a);
      var mid := Run(s, st, done);
      if SectionOf(s, c, mid, a).None? {
        ReplayRefines(s, c, db, st, done, log);
        NoSectionNoChange(s, c, mid, a);
      } else {
        var n := |log| - 1;
        EarlierRanAlone(db, log, n);
        ReplayRefines(s, c, db, st, done, log[..n]);
        assert LockAtomicity.RanAlone(db, log, n);
        SectionRefines(s, c, LockAtomicity.Replay(db, log[..n]), mid, a, |log[n].replies|);
      }
    }
  }

  lemma EarlierRanAlone(db: Server.Db, log: seq<LockAtomicity.Finished>, n: nat)
    requires n <= |log| && forall i :: 0 <= i < |log| ==> LockAtomicity.RanAlone(db, log, i)
    ensures forall i :: 0 <= i < n ==> LockAtomicity.RanAlone(db, log[..n], i)
  {
    forall i | 0 <= i < n ensures LockAtomicity.RanAlone(db, log[..n], i) {
      LockAtomicity.RanAloneInPrefix(db, log[..n], log, i);
    }
  }

  /**
   The refinement of whole runs. Take any interleaving of single store commands under the data lock, starting
   from a store that represents the records of a protocol state, whose finished sections are those of a
   protocol run. Whenever the lock is free the store represents the records at the end of that protocol run,
   and every section on the way was answered from the records of the step it belongs to.
   */
  lemma ServerRefinesProtocol(s: Suite, c: Codec, fine: LockAtomicity.State, moves: seq<LockAtomicity.Action>,
                              st: State, acts: seq<Action>)
    requires LawfulCodec(c) && LockAtomicity.AtRest(fine) && Represents(c, fine.db, st.store)
    requires LockAtomicity.Run(fine, moves).holder.None?
    requires Serves(s, c, st, acts, LockAtomicity.Run(fine, moves).log)
    ensures var end := LockAtomicity.Run(fine, moves);
            && Represents(c, end.db, Run(s, st, acts).store)
            && Answered(s, c, st, acts, end.log)
  {
    LockAtomicity.SectionsAreAtomic(fine.db, fine, moves);
    hide LockAtomicity.Run, Run, Represents, Serves, Answered, LockAtomicity.Replay, LawfulCodec;
    ReplayRefines(s, c, fine.db, st, acts, LockAtomicity.Run(fine, moves).log);
  }

  // ---- From the store commands to the message ----

  /** A download is the section of no other step. */
  lemma FetchSectionIsFetch(s: Suite, c: Codec, st: State, a: Action, id: Id)
    requires SectionOf(s, c, st, a) == Some(LockAtomicity.GetAllSection(FetchKeys(id)))
    ensures a == Fetch(id)
  {
    hide Upload, UploadWords, MakeUpdate, ReEncrypt, UpdateTextsOf, CounterOf, Server.Suffix;
    var section := SectionOf(s, c, st, a).value;
    FetchSectionBegins(id);
    assert section([]) == Some(LockAtomicity.Get(Key(Wrap, id)));
    assert section([None, None]) == Some(LockAtomicity.Get(Key(Data, id)));
    match a {
      case Fetch(other) =>
        FetchSectionBegins(other);
        KeysDiffer(Wrap, id, Wrap, other);
      case GetForUpdate(other) =>
        KeysDiffer(Data, id, RootVersion, other);
      case UpdateRead(_, m, _) =>
        KeysDiffer(Wrap, id, CtxtVersion, st.snapshots[m].id);
      case SetCommit(tid) =>
        KeysDiffer(Wrap, id, CtxtVersion, CounterOf(st.threads[tid].req.id));
      case UpdateCommit(tid, _, _) =>
        KeysDiffer(Wrap, id, CtxtVersion, st.threads[tid].snap.id);
    }
  }

  lemma FetchSectionBegins(id: Id)
    ensures LockAtomicity.GetAllSection(FetchKeys(id))([]) == Some(LockAtomicity.Get(Key(Wrap, id)))
    ensures LockAtomicity.GetAllSection(FetchKeys(id))([None, None]) == Some(LockAtomicity.Get(Key(Data, id)))
  {
  }

  /**
   Every finished download belongs to a step of the protocol run, that with as many sections before it as the
   download has in the log, and it has returned the record of that step.
   */
  lemma {:induction false} FetchHasStep(s: Suite, c: Codec, st: State, acts: seq<Action>,
                                        log: seq<LockAtomicity.Finished>, q: nat, id: Id) returns (p: nat)
    requires Serves(s, c, st, acts, log) && Answered(s, c, st, acts, log)
    requires q < |log| && log[q].section == LockAtomicity.GetAllSection(FetchKeys(id))
    ensures p < |acts| && acts[p] == Fetch(id)
    ensures Serves(s, c, st, acts[..p], log[..q])
    ensures Answers(c, Run(s, st, acts[..p]), acts[p], log[q].replies)
    decreases |acts|
  {
    hide SectionOf, Answers, Run;
    var n := |acts| - 1;
    var done := acts[..n];
    var section := SectionOf(s, c, Run(s, st, done), acts[n]);
    if section.None? {
      p := FetchHasStep(s, c, st, done, log, q, id);
      assert done[..p] == acts[..p];
    } else if q == |log| - 1 {
      FetchSectionIsFetch(s, c, Run(s, st, done), acts[n], id);
      p := n;
    } else {
      p := FetchHasStep(s, c, st, done, log[..|log| - 1], q, id);
      assert done[..p] == acts[..p];
      assert log[..|log| - 1][..q] == log[..q];
    }
  }

  lemma {:induction false} PrefixIsDisciplined(s: Suite, st: State, acts: seq<Action>, p: nat)
    requires p <= |acts| && DisciplinedRun(s, st, acts)
    ensures DisciplinedRun(s, st, acts[..p])
    decreases |acts|
  {
    hide Step, Disciplined;
    if p > 0 {
      PrefixIsDisciplined(s, Step(s, st, acts[0]), acts[1..], p - 1);
      assert acts[..p][1..] == acts[1..][..p - 1];
    }
  }

  /** What a client reads from the texts of a record after a disciplined run is the message last set. */
  lemma TextsGiveLastMessage(s: Suite, c: Codec, st: State, acts: seq<Action>, id: Id)
    requires LawfulCodec(c) && Lawful(s) && Fits(st) && AllReadable(s, st) && DisciplinedRun(s, st, acts)
    requires id in st.store && OwnsCounter(id)
    ensures var after := Run(s, st, acts).store;
            && id in after
            && ClientReads(s, c, FetchTexts(c, after[id].rec)) == Plain(ExpectedMessage(s, st, acts, id))
  {
    DownloadGivesLastMessage(s, st, acts, id);
    RunKeepsReadable(s, st, acts, id);
    hide Run, DisciplinedRun, Fits, LawfulCodec, Lawful, ClientReads, FetchTexts, Download;
    var e := Run(s, st, acts).store[id];
    assert Readable(s, e);
    ClientReadsRecord(s, c, e.rec);
  }

  /**
   Every download, in every interleaving. Take any interleaving of single store commands whose finished
   sections are those of a disciplined protocol run. Whenever a client's GETALL of an id that owns its counter
   has finished, its replies are four texts, and what the client decodes and decrypts from them is the message
   last set on that id before the step of the download. The step is its own: the sections that finished before
   the download are those of the steps before it.
   */
  lemma EveryDownloadGivesLastMessage(s: Suite, c: Codec, fine: LockAtomicity.State, moves: seq<LockAtomicity.Action>,
                                      st: State, acts: seq<Action>, q: nat, id: Id)
    returns (p: nat, texts: seq<string>)
    requires LawfulCodec(c) && LockAtomicity.AtRest(fine) && Represents(c, fine.db, st.store)
    requires LockAtomicity.Run(fine, moves).holder.None?
    requires Serves(s, c, st, acts, LockAtomicity.Run(fine, moves).log)
    requires Lawful(s) && Fits(st) && AllReadable(s, st) && DisciplinedRun(s, st, acts)
    requires id in st.store && OwnsCounter(id)
    requires q < |LockAtomicity.Run(fine, moves).log|
    requires LockAtomicity.Run(fine, moves).log[q].section == LockAtomicity.GetAllSection(FetchKeys(id))
    ensures p < |acts| && acts[p] == Fetch(id)
    ensures Serves(s, c, st, acts[..p], LockAtomicity.Run(fine, moves).log[..q])
    ensures |texts| == 4 && LockAtomicity.Run(fine, moves).log[q].replies == Found(texts)
    ensures ClientReads(s, c, texts) == Plain(ExpectedMessage(s, st, acts[..p], id))
  {
    ServerRefinesProtocol(s, c, fine, moves, st, acts);
    p := FetchHasStep(s, c, st, acts, LockAtomicity.Run(fine, moves).log, q, id);
    PrefixIsDisciplined(s, st, acts, p);
    TextsGiveLastMessage(s, c, st, acts[..p], id);
    hide LockAtomicity.Run, Run, Represents, Serves, Answered, DisciplinedRun, Fits, ClientReads, FetchTexts;
    texts := FetchTexts(c, Run(s, st, acts[..p]).store[id].rec);
  }

  /**
   The same of the texts in the store whenever the lock is free: they are those of a record that downloads to
   the message last set, and a client that has them reads that message.
   */
  lemma StoredTextsGiveLastMessage(s: Suite, c: Codec, fine: LockAtomicity.State, moves: seq<LockAtomicity.Action>,
                                   st: State, acts: seq<Action>, id: Id) returns (rec: Record)
    requires LawfulCodec(c) && LockAtomicity.AtRest(fine) && Represents(c, fine.db, st.store)
    requires LockAtomicity.Run(fine, moves).holder.None?
    requires Serves(s, c, st, acts, LockAtomicity.Run(fine, moves).log)
    requires Lawful(s) && Fits(st) && AllReadable(s, st) && DisciplinedRun(s, st, acts)
    requires id in st.store && OwnsCounter(id)
    ensures var db := LockAtomicity.Run(fine, moves).db;
            forall kind :: Key(kind, id) in db && db[Key(kind, id)] == Encoded(c, kind, rec)
    ensures Download(s, rec) == Plain(ExpectedMessage(s, st, acts, id))
    ensures ClientReads(s, c, Server.Values(LockAtomicity.Run(fine, moves).db, FetchKeys(id)))
            == Plain(ExpectedMessage(s, st, acts, id))
  {
    hide LockAtomicity.Run, Run, Represents, Serves, Answered, DisciplinedRun, Fits, AllReadable, ClientReads, Encoded;
    hide Key, Download, ExpectedMessage, LawfulCodec, Lawful, LockAtomicity.AtRest, FetchTexts, Server.Values;
    ServerRefinesProtocol(s, c, fine, moves, st, acts);
    DownloadGivesLastMessage(s, st, acts, id);
    TextsGiveLastMessage(s, c, st, acts, id);
    rec := Run(s, st, acts).store[id].rec;
    RepresentedTexts(c, LockAtomicity.Run(fine, moves).db, Run(s, st, acts).store, id);
  }

  lemma RepresentedTexts(c: Codec, db: Server.Db, store: map<Id, Entry>, id: Id)
    requires Represents(c, db, store) && id in store
    ensures forall kind :: Key(kind, id) in db && db[Key(kind, id)] == Encoded(c, kind, store[id].rec)
    ensures Server.Values(db, FetchKeys(id)) == FetchTexts(c, store[id].rec)
  {
    hide Key, Encoded;
  }
}
