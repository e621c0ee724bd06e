/**
 Every stored record can be decrypted to the message last committed for its id, in every state of every
 disciplined run; and the discipline is exactly what an update needs.
 */
module Decryptability {
  import opened Common
  import opened Crypto
  import opened NestedAE
  import opened Protocol

  /** root_version, wrap, header and data together hold the message under `layers` re-encryptions. */
  ghost predicate Readable(s: Suite, e: Entry) {
    var key := s.unwrap(e.rec.root, e.rec.wrap);
    key.Some? && Holds(s, Stored(key.value, e.rec.hat, e.rec.data), e.message, e.layers)
  }

  predicate ValidRequest(req: SetRequest) {
    ValidEncryptCoins(req.coins) && HEADER + |req.message| + req.key.t * LAYER < INT_LIMIT
  }

  predicate ValidUpdateCoins(c: UpdateCoins) {
    ValidReKeyCoins(c.reKey) && c.reKey.historyKey != Zeros(KEY_LEN)
  }

  ghost predicate TaskSound(store: map<Id, Entry>, task: Task) {
    match task
    case Idle => true
    case SetPending(req) => ValidRequest(req)
    case UpdatePending(snap, coins, version, _, _) =>
      && ValidUpdateCoins(coins)
      && snap.id in store
      && (OwnsCounter(snap.id) ==>
            && snap.version == version
            && (version == store[snap.id].rec.version ==>
                  HasRoom(store[snap.id].message, store[snap.id].rec.data, store[snap.id].layers)))
  }

  ghost predicate AllReadable(s: Suite, st: State) {
    && (forall id :: id in st.store && OwnsCounter(id) ==> Readable(s, st.store[id]))
    && (forall t :: 0 <= t < |st.threads| ==> TaskSound(st.store, st.threads[t]))
  }

  /**
   What a step needs from its client. The hypotheses that matter are on the step in which a thread
   starts on an update: no commit on the id since the download it was built from, and a layer of pad left.
   */
  ghost predicate Disciplined(st: State, a: Action) {
    match a
    case SetCheck(_, req) => ValidRequest(req)
    case UpdateRead(_, n, coins) =>
      n < |st.snapshots| && st.snapshots[n].id in st.store ==>
        var e := st.store[st.snapshots[n].id];
        && ValidUpdateCoins(coins)
        && (OwnsCounter(st.snapshots[n].id) ==>
              st.snapshots[n].version == e.rec.version && HasRoom(e.message, e.rec.data, e.layers))
    case UpdateCommit(_, iv, _) => |iv| == IV_LEN
    case _ => true
  }

  ghost predicate DisciplinedRun(s: Suite, st: State, acts: seq<Action>)
    decreases |acts|
  {
    acts != [] ==> Disciplined(st, acts[0]) && DisciplinedRun(s, Step(s, st, acts[0]), acts[1..])
  }

  lemma SetIsReadable(s: Suite, e: Entry, req: SetRequest)
    requires Lawful(s) && ValidRequest(req)
    ensures Readable(s, CommitSet(s, e, req))
  {
    UploadedHolds(s, req.key, req.message, req.coins);
  }

  /** An update built from the record as it still is keeps the message and adds one layer. */
  lemma UpdateIsReadable(s: Suite, e: Entry, task: Task, iv: Bytes, out: Buffers)
    requires Lawful(s) && Readable(s, e) && HasRoom(e.message, e.rec.data, e.layers)
    requires task.UpdatePending? && ValidUpdateCoins(task.coins) && |iv| == IV_LEN
    requires task.version == e.rec.version && task.data == e.rec.data
    requires task.snap == TakeSnapshot(task.snap.id, e.rec)
    ensures CommitUpdate(s, e, task, iv, out).Some? && Readable(s, CommitUpdate(s, e, task, iv, out).value)
    ensures |CommitUpdate(s, e, task, iv, out).value.rec.data| == |e.rec.data|
  {
    var stored := Stored(s.unwrap(e.rec.root, e.rec.wrap).value, e.rec.hat, e.rec.data);
    var round := Round(task.coins.newKey, task.coins.reKey, iv);
    RotateWithinCapacity(s, stored, e.message, e.layers, round);
  }

  lemma CommitKeepsReadable(s: Suite, st: State, tid: nat, iv: Bytes, out: Buffers)
    requires Lawful(s) && Fits(st) && AllReadable(s, st) && |iv| == IV_LEN && UpdateReady(st, tid)
    requires OwnsCounter(st.threads[tid].snap.id)
    ensures var id := st.threads[tid].snap.id;
            var e := CommitUpdate(s, st.store[id], st.threads[tid], iv, out);
            e.Some? ==> Readable(s, e.value) && |e.value.rec.data| == |st.store[id].rec.data|
  {
    var task := st.threads[tid];
    assert TaskFits(st.store, task) && TaskSound(st.store, task);
    if task.version == st.store[task.snap.id].rec.version {
      UpdateIsReadable(s, st.store[task.snap.id], task, iv, out);
    }
  }

  lemma EntriesStayReadable(s: Suite, st: State, a: Action, id: Id)
    requires Lawful(s) && Fits(st) && AllReadable(s, st) && Disciplined(st, a)
    requires id in st.store && id in Step(s, st, a).store && OwnsCounter(id)
    ensures Readable(s, Step(s, st, a).store[id])
  {
    hide Lawful, Holds;
    assert Readable(s, st.store[id]);
    match a {
      case SetCommit(tid) =>
        if SetReady(st, tid) && id == st.threads[tid].req.id {
          assert TaskSound(st.store, st.threads[tid]);
          SetIsReadable(s, st.store[id], st.threads[tid].req);
        }
      case UpdateCommit(tid, iv, out) =>
        if UpdateReady(st, tid) && id == st.threads[tid].snap.id {
          CommitKeepsReadable(s, st, tid, iv, out);
        }
      case _ =>
    }
  }

  lemma TaskStaysSound(before: map<Id, Entry>, after: map<Id, Entry>, task: Task)
    requires Advances(before, after) && TaskFits(before, task) && TaskSound(before, task)
    ensures TaskSound(after, task)
  {
  }

  lemma TasksStaySound(s: Suite, st: State, a: Action, t: nat)
    requires Fits(st) && AllReadable(s, st) && Disciplined(st, a)
    requires t < |Step(s, st, a).threads|
    ensures TaskSound(Step(s, st, a).store, Step(s, st, a).threads[t])
  {
    hide Readable, Upload, CommitUpdate;
    StepAdvances(s, st, a);
    assert TaskSound(st.store, st.threads[t]) && TaskFits(st.store, st.threads[t]);
    TaskStaysSound(st.store, Step(s, st, a).store, st.threads[t]);
  }

  lemma StepKeepsReadable(s: Suite, st: State, a: Action)
    requires Lawful(s) && Fits(st) && AllReadable(s, st) && Disciplined(st, a)
    ensures AllReadable(s, Step(s, st, a))
  {
    hide Lawful, Readable, TaskSound;
    StepAdvances(s, st, a);
    var after := Step(s, st, a);
    forall id | id in after.store && OwnsCounter(id) ensures Readable(s, after.store[id]) {
      EntriesStayReadable(s, st, a, id);
    }
    forall t | 0 <= t < |after.threads| ensures TaskSound(after.store, after.threads[t]) {
      TasksStaySound(s, st, a, t);
    }
  }

  /** The last SETALL of a run that commits on an id. */
  function LastSet(s: Suite, st: State, acts: seq<Action>, id: Id): Option<SetRequest>
    decreases |acts|
  {
    if acts == [] then None
    else
      var later := LastSet(s, Step(s, st, acts[0]), acts[1..], id);
      if later.Some? then later
      else if acts[0].SetCommit? && SetReady(st, acts[0].tid) && st.threads[acts[0].tid].req.id == id then
        Some(st.threads[acts[0].tid].req)
      else None
  }

  /** What a reader of `id` should get after a run. */
  function ExpectedMessage(s: Suite, st: State, acts: seq<Action>, id: Id): Bytes
    requires id in st.store
  {
    var last := LastSet(s, st, acts, id);
    if last.Some? then last.value.message else st.store[id].message
  }

  lemma StepMessage(s: Suite, st: State, a: Action, id: Id)
    requires id in st.store
    ensures id in Step(s, st, a).store
    ensures Step(s, st, a).store[id].message == ExpectedMessage(s, st, [a], id)
  {
    assert LastSet(s, Step(s, st, a), [a][1..], id) == None;
  }

  lemma {:induction false} RunKeepsReadable(s: Suite, st: State, acts: seq<Action>, id: Id)
    requires Lawful(s) && Fits(st) && AllReadable(s, st) && DisciplinedRun(s, st, acts) && id in st.store
    ensures var after := Run(s, st, acts);
            && Fits(after) && AllReadable(s, after)
            && id in after.store && after.store[id].message == ExpectedMessage(s, st, acts, id)
    decreases |acts|
  {
    hide Lawful, AllReadable, Fits, Disciplined;
    if acts != [] {
      StepKeepsFits(s, st, acts[0]);
      StepKeepsReadable(s, st, acts[0]);
      StepMessage(s, st, acts[0], id);
      RunKeepsReadable(s, Step(s, st, acts[0]), acts[1..], id);
    }
  }

  /**
   End to end. After any disciplined run of any number of threads, updaters and ids, downloading an id that
   owns its counter gives the message of the last SETALL that committed on it, or the populated message,
   however many UP_UPDATEs have committed since.
   */
  lemma DownloadGivesLastMessage(s: Suite, st: State, acts: seq<Action>, id: Id)
    requires Lawful(s) && Fits(st) && AllReadable(s, st) && DisciplinedRun(s, st, acts)
    requires id in st.store && OwnsCounter(id)
    ensures var after := Run(s, st, acts).store;
            id in after && Download(s, after[id].rec) == Plain(ExpectedMessage(s, st, acts, id))
  {
    RunKeepsReadable(s, st, acts, id);
    var e := Run(s, st, acts).store[id];
    assert Readable(s, e);
    HeldMessageDecrypts(s, Stored(s.unwrap(e.rec.root, e.rec.wrap).value, e.rec.hat, e.rec.data), e.message, e.layers);
  }

  // ---- The populated store ----

  /** Every id gets the same wrap, header and truncated ciphertext, and version 0. */
  function PopulatedState(s: Suite, ids: set<Id>, req: SetRequest, threads: nat): State {
    var stored := Populated(s, req.key, req.message, req.coins);
    var rec := Record(req.root, 0, s.wrap(req.root, req.wrapIv, req.key), stored.hat, stored.ct);
    State(map id | id in ids :: Entry(rec, req.message, 0), req.root, seq(threads, _ => Idle), [])
  }

  lemma PopulatedStateIsReadable(s: Suite, ids: set<Id>, req: SetRequest, threads: nat)
    requires Lawful(s) && ValidRequest(req) && req.key.t > 0
    ensures Fits(PopulatedState(s, ids, req, threads)) && AllReadable(s, PopulatedState(s, ids, req, threads))
  {
    PopulatedHolds(s, req.key, req.message, req.coins);
  }
}
