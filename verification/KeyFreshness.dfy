/**
 When every upload and every update draws a payload key of its own, two versions of a record never share
 one, in any state that a run can reach. With this the window condition is exact over whole runs.
 */
module KeyFreshness {
  import opened Common
  import opened Crypto
  import opened NestedAE
  import opened Protocol
  import opened Decryptability
  import opened UpdateWindow

  function RecordKey(s: Suite, rec: Record): Option<Bytes> {
    PayloadKey(s, rec.root, rec.wrap, rec.hat)
  }

  function SnapshotKey(s: Suite, snap: Snapshot): Option<Bytes> {
    PayloadKey(s, snap.root, snap.wrap, snap.hat)
  }

  /** The payload key that a commit of this task will put into use. */
  function TaskKey(task: Task): Option<Bytes> {
    match task
    case Idle => None
    case SetPending(req) => Some(req.coins.payloadKey)
    case UpdatePending(_, coins, _, _, _) => Some(coins.reKey.payloadKey)
  }

  /** The payload key that the client of an action has drawn for it. */
  function Drawn(a: Action): Option<Bytes> {
    match a
    case SetCheck(_, req) => Some(req.coins.payloadKey)
    case UpdateRead(_, _, coins) => Some(coins.reKey.payloadKey)
    case _ => None
  }

  /** The draws of a run differ from each other and from the keys in use before it. */
  ghost predicate DistinctDraws(acts: seq<Action>, used: set<Bytes>) {
    forall i :: 0 <= i < |acts| && Drawn(acts[i]).Some? ==>
      && Drawn(acts[i]).value !in used
      && forall j :: 0 <= j < i ==> Drawn(acts[j]) != Drawn(acts[i])
  }

  /** Well-formed draws; and a commit does not write buffers that AE_ReEncrypt has left as they were. */
  ghost predicate Honest(s: Suite, st: State, a: Action) {
    match a
    case SetCheck(_, req) => ValidRequest(req)
    case UpdateRead(_, _, coins) => ValidUpdateCoins(coins)
    case UpdateCommit(tid, iv, out) =>
      && |iv| == IV_LEN
      && (UpdateReady(st, tid) && CommitUpdate(s, st.store[st.threads[tid].snap.id], st.threads[tid], iv, out).Some? ==>
            GoesThrough(s, st.threads[tid], iv))
    case _ => true
  }

  ghost predicate HonestRun(s: Suite, st: State, acts: seq<Action>)
    decreases |acts|
  {
    acts != [] ==> Honest(s, st, acts[0]) && HonestRun(s, Step(s, st, acts[0]), acts[1..])
  }

  /** No SETALL on another id counts up the version of this one. */
  predicate SoleOwner(store: map<Id, Entry>, id: Id) {
    OwnsCounter(id) && forall other :: other in store ==> (CounterOf(other) == id ==> other == id)
  }

  // ---- The invariant ----

  ghost predicate RecordsFit(s: Suite, st: State, used: set<Bytes>) {
    forall id :: id in st.store ==>
      && |st.store[id].rec.data| < INT_LIMIT
      && (RecordKey(s, st.store[id].rec).Some? ==> RecordKey(s, st.store[id].rec).value in used)
  }

  ghost predicate SnapshotKeyFits(s: Suite, st: State, snap: Snapshot, used: set<Bytes>) {
    SnapshotKey(s, snap).Some? ==>
      && SnapshotKey(s, snap).value in used
      && (snap.id in st.store && SoleOwner(st.store, snap.id) && snap.version != st.store[snap.id].rec.version ==>
            RecordKey(s, st.store[snap.id].rec) != SnapshotKey(s, snap))
  }

  ghost predicate ValidTask(st: State, task: Task) {
    match task
    case Idle => true
    case SetPending(req) => ValidRequest(req)
    case UpdatePending(snap, coins, _, _, data) =>
      ValidUpdateCoins(coins) && |data| < INT_LIMIT && snap in st.snapshots
  }

  /** The key of a pending task is in use nowhere yet. */
  ghost predicate TaskKeyFits(s: Suite, st: State, t: nat, used: set<Bytes>)
    requires t < |st.threads|
  {
    var key := TaskKey(st.threads[t]);
    key.Some? ==>
      && key.value in used
      && (forall id :: id in st.store ==> RecordKey(s, st.store[id].rec) != key)
      && (forall i :: 0 <= i < |st.snapshots| ==> SnapshotKey(s, st.snapshots[i]) != key)
      && (forall u :: 0 <= u < |st.threads| && u != t ==> TaskKey(st.threads[u]) != key)
  }

  ghost predicate KeysFit(s: Suite, st: State, used: set<Bytes>) {
    && RecordsFit(s, st, used)
    && (forall i :: 0 <= i < |st.snapshots| ==> SnapshotKeyFits(s, st, st.snapshots[i], used))
    && (forall t :: 0 <= t < |st.threads| ==> ValidTask(st, st.threads[t]) && TaskKeyFits(s, st, t, used))
  }

  // ---- What a commit does to a record's key ----

  /** A committed update is under the key drawn for it, or the record can no longer be opened. */
  lemma UpdatedKey(s: Suite, e: Entry, task: Task, iv: Bytes, out: Buffers)
    requires Lawful(s) && KeyBinding(s) && task.UpdatePending? && ValidUpdateCoins(task.coins) && |iv| == IV_LEN
    requires |task.data| < INT_LIMIT && CommitUpdate(s, e, task, iv, out).Some? && GoesThrough(s, task, iv)
    ensures var rec := CommitUpdate(s, e, task, iv, out).value.rec;
            && |rec.data| == |task.data|
            && (RecordKey(s, rec).Some? ==> RecordKey(s, rec) == TaskKey(task))
  {
    var (wrap, delta) := MakeUpdate(s, task.snap, task.coins).value;
    var prior := OpenHat(s, s.unwrap(task.snap.root, task.snap.wrap).value, task.snap.hat).value;
    SealedHatOpens(s, task.coins.newKey, task.coins.reKey.hatIv, NewMeta(prior, task.coins.reKey));
    hide OpenHat, SealHat;
    assert s.unwrap(task.snap.root, wrap) == Some(task.coins.newKey);
  }

  /** The thread whose commit changes the record of an id in this step. */
  ghost predicate Commits(s: Suite, st: State, a: Action, id: Id) {
    match a
    case SetCommit(tid) => SetReady(st, tid) && st.threads[tid].req.id == id
    case UpdateCommit(tid, iv, out) =>
      && UpdateReady(st, tid) && st.threads[tid].snap.id == id
      && CommitUpdate(s, st.store[id], st.threads[tid], iv, out).Some?
    case _ => false
  }

  /** One step at one record: it is committed, under the key of the task that does it, or its values stay. */
  lemma RecordStep(s: Suite, st: State, a: Action, id: Id, used: set<Bytes>)
    requires Lawful(s) && KeyBinding(s) && KeysFit(s, st, used) && Honest(s, st, a) && id in st.store
    ensures id in Step(s, st, a).store
    ensures var (rec, after) := (st.store[id].rec, Step(s, st, a).store[id].rec);
            && |after.data| < INT_LIMIT
            && (if Commits(s, st, a, id) then
                  && (a.SetCommit? || a.UpdateCommit?)
                  && a.tid < |st.threads|
                  && (RecordKey(s, after).Some? ==> RecordKey(s, after) == TaskKey(st.threads[a.tid]))
                  && Step(s, st, a).threads == st.threads[a.tid := Idle]
                else
                  && after.(version := rec.version) == rec
                  && (SoleOwner(st.store, id) ==> after == rec))
  {
    hide Encrypt, CommitUpdate, RecordsFit, SnapshotKeyFits, TaskKeyFits, PayloadKey, CounterOf;
    assert |st.store[id].rec.data| < INT_LIMIT by { RecordBound(s, st, used, id); }
    if Commits(s, st, a, id) {
      var task := st.threads[a.tid];
      assert ValidTask(st, task);
      match a {
        case SetCommit(_) =>
          UploadOpens(s, task.req, task.req.wrapIv);
          UploadedHolds(s, task.req.key, task.req.message, task.req.coins);
        case UpdateCommit(_, iv, out) =>
          UpdatedKey(s, st.store[id], task, iv, out);
      }
    }
  }

  lemma RecordBound(s: Suite, st: State, used: set<Bytes>, id: Id)
    requires KeysFit(s, st, used) && id in st.store
    ensures |st.store[id].rec.data| < INT_LIMIT
  {
  }

  // ---- Every step keeps it ----

  function InUse(used: set<Bytes>, a: Action): set<Bytes> {
    if Drawn(a).Some? then used + {Drawn(a).value} else used
  }

  function AllInUse(used: set<Bytes>, acts: seq<Action>): set<Bytes>
    decreases |acts|
  {
    if acts == [] then used else AllInUse(InUse(used, acts[0]), acts[1..])
  }

  lemma StepKeepsRecordsFit(s: Suite, st: State, a: Action, used: set<Bytes>)
    requires Lawful(s) && KeyBinding(s) && KeysFit(s, st, used) && Honest(s, st, a)
    ensures RecordsFit(s, Step(s, st, a), InUse(used, a))
  {
    hide Step, Commits, Lawful, KeyBinding, Honest, PayloadKey;
    StepKeepsIds(s, st, a);
    forall id | id in st.store
      ensures var rec := Step(s, st, a).store[id].rec;
              |rec.data| < INT_LIMIT && (RecordKey(s, rec).Some? ==> RecordKey(s, rec).value in used)
    {
      RecordStep(s, st, a, id, used);
      if Commits(s, st, a, id) {
        assert TaskKeyFits(s, st, a.tid, used);
      }
    }
  }

  /** A download that was there before the step still fits: a commit brings a key that no download has. */
  lemma SnapshotsStayFit(s: Suite, st: State, a: Action, used: set<Bytes>, snap: Snapshot)
    requires Lawful(s) && KeyBinding(s) && KeysFit(s, st, used) && Honest(s, st, a) && snap in st.snapshots
    ensures SnapshotKeyFits(s, Step(s, st, a), snap, InUse(used, a))
  {
    hide Step, Commits, Lawful, KeyBinding, Honest, PayloadKey, CounterOf;
    StepKeepsIds(s, st, a);
    assert SnapshotKeyFits(s, st, snap, used);
    var i :| 0 <= i < |st.snapshots| && st.snapshots[i] == snap;
    if snap.id in st.store {
      RecordStep(s, st, a, snap.id, used);
      SameOwner(st.store, Step(s, st, a).store, snap.id);
      if Commits(s, st, a, snap.id) {
        assert TaskKeyFits(s, st, a.tid, used);
      }
    }
  }

  lemma SameOwner(before: map<Id, Entry>, after: map<Id, Entry>, id: Id)
    requires before.Keys == after.Keys
    ensures SoleOwner(before, id) <==> SoleOwner(after, id)
  {
    hide CounterOf, OwnsCounter;
    assert forall other :: other in before <==> other in after;
  }

  /** The downloads after a step: those before it, and possibly one that shows a record as it is. */
  lemma SnapshotsAfter(s: Suite, st: State, a: Action, snap: Snapshot)
    requires snap in Step(s, st, a).snapshots
    ensures snap in st.snapshots
            || (snap.id in st.store && snap == TakeSnapshot(snap.id, st.store[snap.id].rec)
                && Step(s, st, a).store == st.store && Drawn(a).None?)
  {
    hide CommitUpdate, SetStore;
  }

  /** The tasks after a step: those before it, and possibly one under a key just drawn. */
  lemma TasksAfter(s: Suite, st: State, a: Action, used: set<Bytes>, t: nat)
    requires KeysFit(s, st, used) && Honest(s, st, a) && t < |Step(s, st, a).threads|
    ensures t < |st.threads|
    ensures var after := Step(s, st, a);
            && ValidTask(after, after.threads[t])
            && (after.threads[t] == Idle
                || after.threads[t] == st.threads[t]
                || (TaskKey(after.threads[t]) == Drawn(a) && a.tid == t && after.store == st.store
                    && after.snapshots == st.snapshots))
  {
    hide CommitUpdate, SetStore, RecordsFit, SnapshotKeyFits, TaskKeyFits, CounterOf;
    StepKeepsIds(s, st, a);
    assert ValidTask(st, st.threads[t]);
    if a.UpdateRead? && a.n < |st.snapshots| && st.snapshots[a.n].id in st.store {
      RecordBound(s, st, used, st.snapshots[a.n].id);
    }
  }

  lemma TaskStaysFit(s: Suite, st: State, a: Action, used: set<Bytes>, t: nat)
    requires Lawful(s) && KeyBinding(s) && KeysFit(s, st, used) && Honest(s, st, a)
    requires Drawn(a).Some? ==> Drawn(a).value !in used
    requires t < |Step(s, st, a).threads| && TaskKey(Step(s, st, a).threads[t]).Some?
    ensures TaskKeyFits(s, Step(s, st, a), t, InUse(used, a))
  {
    hide Step, Commits, Lawful, KeyBinding, Honest, PayloadKey, SoleOwner, ValidTask;
    StepKeepsIds(s, st, a);
    TasksAfter(s, st, a, used, t);
    var after := Step(s, st, a);
    var key := TaskKey(after.threads[t]);
    assert TaskKeyFits(s, st, t, used);
    forall u | 0 <= u < |after.threads| && u != t ensures TaskKey(after.threads[u]) != key {
      TasksAfter(s, st, a, used, u);
      assert TaskKeyFits(s, st, u, used);
    }
    forall id | id in after.store ensures RecordKey(s, after.store[id].rec) != key {
      RecordKeyStays(s, st, a, used, t, id);
    }
    forall i | 0 <= i < |after.snapshots| ensures SnapshotKey(s, after.snapshots[i]) != key {
      SnapshotKeyStays(s, st, a, used, t, after.snapshots[i]);
    }
  }

  lemma RecordKeyStays(s: Suite, st: State, a: Action, used: set<Bytes>, t: nat, id: Id)
    requires Lawful(s) && KeyBinding(s) && KeysFit(s, st, used) && Honest(s, st, a)
    requires Drawn(a).Some? ==> Drawn(a).value !in used
    requires t < |Step(s, st, a).threads| && TaskKey(Step(s, st, a).threads[t]).Some?
    requires id in Step(s, st, a).store
    ensures RecordKey(s, Step(s, st, a).store[id].rec) != TaskKey(Step(s, st, a).threads[t])
  {
    hide Step, Commits, Lawful, KeyBinding, Honest, PayloadKey, SoleOwner, ValidTask, SnapshotKeyFits;
    StepKeepsIds(s, st, a);
    TasksAfter(s, st, a, used, t);
    RecordStep(s, st, a, id, used);
    assert TaskKeyFits(s, st, t, used);
    if Commits(s, st, a, id) {
      assert TaskKeyFits(s, st, a.tid, used);
    }
  }

  lemma SnapshotKeyStays(s: Suite, st: State, a: Action, used: set<Bytes>, t: nat, snap: Snapshot)
    requires Lawful(s) && KeyBinding(s) && KeysFit(s, st, used) && Honest(s, st, a)
    requires Drawn(a).Some? ==> Drawn(a).value !in used
    requires t < |Step(s, st, a).threads| && TaskKey(Step(s, st, a).threads[t]).Some?
    requires snap in Step(s, st, a).snapshots
    ensures SnapshotKey(s, snap) != TaskKey(Step(s, st, a).threads[t])
  {
    hide Step, Lawful, KeyBinding, Honest, PayloadKey, SoleOwner, ValidTask;
    TasksAfter(s, st, a, used, t);
    SnapshotsAfter(s, st, a, snap);
    assert TaskKeyFits(s, st, t, used);
    if snap in st.snapshots {
      assert SnapshotKeyFits(s, st, snap, used);
    } else {
      assert SnapshotKey(s, snap) == RecordKey(s, st.store[snap.id].rec);
    }
  }

  lemma StepKeepsKeysFit(s: Suite, st: State, a: Action, used: set<Bytes>)
    requires Lawful(s) && KeyBinding(s) && KeysFit(s, st, used) && Honest(s, st, a)
    requires Drawn(a).Some? ==> Drawn(a).value !in used
    ensures KeysFit(s, Step(s, st, a), InUse(used, a))
  {
    hide Step, Lawful, KeyBinding, Honest, PayloadKey, SoleOwner, ValidTask, RecordsFit;
    StepKeepsRecordsFit(s, st, a, used);
    var after := Step(s, st, a);
    forall i | 0 <= i < |after.snapshots| ensures SnapshotKeyFits(s, after, after.snapshots[i], InUse(used, a)) {
      var snap := after.snapshots[i];
      SnapshotsAfter(s, st, a, snap);
      if snap in st.snapshots {
        SnapshotsStayFit(s, st, a, used, snap);
      } else {
        CurrentSnapshotFits(s, st, used, snap);
      }
    }
    forall t | 0 <= t < |after.threads|
      ensures ValidTask(after, after.threads[t]) && TaskKeyFits(s, after, t, InUse(used, a))
    {
      TasksAfter(s, st, a, used, t);
      if TaskKey(after.threads[t]).Some? {
        TaskStaysFit(s, st, a, used, t);
      }
    }
  }

  lemma CurrentSnapshotFits(s: Suite, st: State, used: set<Bytes>, snap: Snapshot)
    requires RecordsFit(s, st, used) && snap.id in st.store && snap == TakeSnapshot(snap.id, st.store[snap.id].rec)
    ensures SnapshotKeyFits(s, st, snap, used)
  {
    hide PayloadKey;
    assert SnapshotKey(s, snap) == RecordKey(s, st.store[snap.id].rec);
  }

  lemma {:induction false} RunKeepsKeysFit(s: Suite, st: State, acts: seq<Action>, used: set<Bytes>)
    requires Lawful(s) && KeyBinding(s) && KeysFit(s, st, used) && HonestRun(s, st, acts) && DistinctDraws(acts, used)
    ensures KeysFit(s, Run(s, st, acts), AllInUse(used, acts))
    decreases |acts|
  {
    hide KeysFit, Lawful, KeyBinding, Step, Honest;
    if acts != [] {
      StepKeepsKeysFit(s, st, acts[0], used);
      DrawsLeft(acts, used);
      RunKeepsKeysFit(s, Step(s, st, acts[0]), acts[1..], InUse(used, acts[0]));
    }
  }

  lemma DrawsLeft(acts: seq<Action>, used: set<Bytes>)
    requires acts != [] && DistinctDraws(acts, used)
    ensures Drawn(acts[0]).Some? ==> Drawn(acts[0]).value !in used
    ensures DistinctDraws(acts[1..], InUse(used, acts[0]))
  {
    hide Drawn;
    var rest := acts[1..];
    forall i | 0 <= i < |rest| && Drawn(rest[i]).Some?
      ensures Drawn(rest[i]).value !in InUse(used, acts[0])
      ensures forall j :: 0 <= j < i ==> Drawn(rest[j]) != Drawn(rest[i])
    {
      assert rest[i] == acts[i + 1];
      assert Drawn(acts[0]) != Drawn(acts[i + 1]);
      assert forall j :: 0 <= j < i ==> rest[j] == acts[j + 1];
    }
  }

  /**
   The window condition over whole runs. Uploads and updates draw distinct payload keys, and are otherwise
   free to come in any order and at any time. Whenever, in a state that such a run reaches, the record of an
   id that shares its counter with no other is readable and an UP_UPDATE on it commits, the record can be
   decrypted to its message afterwards if and only if no commit came between the updater's download and the
   server's first read.
   */
  lemma CommitDecryptsIffInRun(s: Suite, st: State, acts: seq<Action>, used: set<Bytes>, tid: nat, iv: Bytes,
                               out: Buffers)
    requires Lawful(s) && KeyBinding(s) && Fits(st) && KeysFit(s, st, used)
    requires HonestRun(s, st, acts) && DistinctDraws(acts, used) && |iv| == IV_LEN
    requires UpdateReady(Run(s, st, acts), tid)
    requires var now := Run(s, st, acts);
             var task := now.threads[tid];
             var e := now.store[task.snap.id];
             && SoleOwner(now.store, task.snap.id)
             && Readable(s, e)
             && CommitUpdate(s, e, task, iv, out).Some?
             && GoesThrough(s, task, iv)
    ensures var now := Run(s, st, acts);
            var task := now.threads[tid];
            var e := now.store[task.snap.id];
            (Download(s, CommitUpdate(s, e, task, iv, out).value.rec) == Plain(e.message))
            <==> task.snap.version == task.version
  {
    RunKeepsFits(s, st, acts);
    RunKeepsKeysFit(s, st, acts, used);
    var now := Run(s, st, acts);
    ReadableFreshKeys(s, now, AllInUse(used, acts), tid);
    hide Run, HonestRun, DistinctDraws, KeysFit, Fits, Lawful, KeyBinding;
    hide CommitUpdate, GoesThrough, Readable, Download;
    CommitDecryptsIff(s, now, tid, iv, out);
  }

  lemma ReadableFreshKeys(s: Suite, st: State, used: set<Bytes>, tid: nat)
    requires KeysFit(s, st, used) && UpdateReady(st, tid)
    requires SoleOwner(st.store, st.threads[tid].snap.id) && Readable(s, st.store[st.threads[tid].snap.id])
    ensures ValidUpdateCoins(st.threads[tid].coins)
    ensures FreshKeys(s, st.threads[tid].snap, st.store[st.threads[tid].snap.id].rec)
  {
    var task := st.threads[tid];
    assert ValidTask(st, task);
    assert SnapshotKeyFits(s, st, task.snap, used);
    assert RecordKey(s, st.store[task.snap.id].rec).Some?;
  }

  /** A populated store is one to start from; its one payload key is in use. */
  lemma PopulatedKeysFit(s: Suite, ids: set<Id>, req: SetRequest, threads: nat)
    requires Lawful(s) && ValidRequest(req) && req.key.t > 0
    ensures KeysFit(s, PopulatedState(s, ids, req, threads), {req.coins.payloadKey})
  {
    UploadOpens(s, req, req.wrapIv);
    PopulatedHolds(s, req.key, req.message, req.coins);
    hide PayloadKey, Encrypt;
  }

  // ---- Both answers occur ----

  lemma SoleOwners(store: map<Id, Entry>, id: Id)
    requires OwnsCounter(id) && forall other :: other in store ==> OwnsCounter(other)
    ensures SoleOwner(store, id)
  {
  }

  /** A download for an update, a SETALL in its window, and the server's read. */
  function ReadAfterSet(req: SetRequest, coins: UpdateCoins): seq<Action> {
    [GetForUpdate(req.id)] + ([SetCheck(0, req)] + ([SetCommit(0)] + ([UpdateRead(0, 0, coins)] + [])))
  }

  lemma ReadAfterSetIsHonest(s: Suite, st: State, req: SetRequest, coins: UpdateCoins, used: set<Bytes>)
    requires ValidRequest(req) && ValidUpdateCoins(coins)
    requires req.coins.payloadKey !in used && coins.reKey.payloadKey !in used
    requires coins.reKey.payloadKey != req.coins.payloadKey
    ensures HonestRun(s, st, ReadAfterSet(req, coins)) && DistinctDraws(ReadAfterSet(req, coins), used)
  {
    hide Step, ValidRequest, ValidUpdateCoins;
    var a := [GetForUpdate(req.id), SetCheck(0, req), SetCommit(0), UpdateRead(0, 0, coins)];
    var one := Step(s, st, a[0]);
    var two := Step(s, one, a[1]);
    HonestCons(s, Step(s, two, a[2]), a[3], []);
    HonestCons(s, two, a[2], [a[3]] + []);
    HonestCons(s, one, a[1], [a[2]] + ([a[3]] + []));
    HonestCons(s, st, a[0], [a[1]] + ([a[2]] + ([a[3]] + [])));
    assert ReadAfterSet(req, coins) == a;
  }

  lemma UploadVersion(s: Suite, req: SetRequest, version: nat)
    ensures Upload(s, req, version).version == version
  {
  }

  /**
   From any state with a free thread: the run with a SETALL in the window leads to a pending update whose
   version is not that of its download.
   */
  lemma ReadAfterSetIsLate(s: Suite, st: State, req: SetRequest, coins: UpdateCoins)
    requires |st.threads| > 0 && st.threads[0] == Idle && st.snapshots == []
    requires Known(st.store, req.id) && OwnsCounter(req.id) && req.root == st.root
    ensures var now := Run(s, st, ReadAfterSet(req, coins));
            UpdateReady(now, 0) && now.threads[0].snap.version != now.threads[0].version
  {
    hide Upload, CounterOf;
    var one := Step(s, st, GetForUpdate(req.id));
    var two := Step(s, one, SetCheck(0, req));
    var three := Step(s, two, SetCommit(0));
    var last := [UpdateRead(0, 0, coins)] + [];
    RunCons(s, st, GetForUpdate(req.id), [SetCheck(0, req)] + ([SetCommit(0)] + last), req.id);
    RunCons(s, one, SetCheck(0, req), [SetCommit(0)] + last, req.id);
    RunCons(s, two, SetCommit(0), last, req.id);
    RunCons(s, three, UpdateRead(0, 0, coins), [], req.id);
    UploadVersion(s, req, st.store[req.id].rec.version + 1);
  }

  lemma HonestCons(s: Suite, st: State, a: Action, rest: seq<Action>)
    ensures HonestRun(s, st, [a] + rest) <==> Honest(s, st, a) && HonestRun(s, Step(s, st, a), rest)
  {
    hide Step, Honest;
    assert ([a] + rest)[1..] == rest;
  }

  /** A download for an update and the server's read, with nothing in between. */
  function ReadAtOnce(id: Id, coins: UpdateCoins): seq<Action> {
    [GetForUpdate(id)] + ([UpdateRead(0, 0, coins)] + [])
  }

  /** The run whose window stays closed. */
  lemma ReadAtOnceQualifies(s: Suite, st: State, id: Id, coins: UpdateCoins, used: set<Bytes>)
    requires |st.threads| > 0 && st.threads[0] == Idle && st.snapshots == [] && id in st.store
    requires ValidUpdateCoins(coins) && coins.reKey.payloadKey !in used
    ensures var acts := ReadAtOnce(id, coins);
            var now := Run(s, st, acts);
            && HonestRun(s, st, acts) && DistinctDraws(acts, used)
            && UpdateReady(now, 0) && now.threads[0].snap.version == now.threads[0].version
  {
    hide ValidUpdateCoins;
    var a := [GetForUpdate(id), UpdateRead(0, 0, coins)];
    var one := Step(s, st, a[0]);
    HonestCons(s, one, a[1], []);
    HonestCons(s, st, a[0], [a[1]] + []);
    RunCons(s, st, a[0], [a[1]] + [], id);
    RunCons(s, one, a[1], [], id);
    assert [a[0]] + ([a[1]] + []) == a;
  }
}
