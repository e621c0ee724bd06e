/**
 The key-value server and its clients as a state machine whose steps are the critical sections of the
 server: the GETALLs of clients and updaters, the two halves of a SETALL (root key check, commit), the two
 halves of an UP_UPDATE (locked read; version check and commit, with the re-encryption in between) and a
 ROOTKEY. A step that is not enabled changes nothing, so every sequence of actions is a run.
 */
module Protocol {
  import opened Common
  import opened Crypto
  import opened NestedAE
  import Server
  import Wire

  type Id = string

  /**
   The id whose version counter a SETALL on `id` advances: the text behind the last underscore of the root
   version key. It is the id itself only if that is not empty and has no underscore.
   */
  function CounterOf(id: Id): (c: Id)
    ensures c == id <==> Wire.Clean(id, '_')
  {
    Server.SuffixIsIdIff(id);
    Server.Suffix(Server.ROOT_VERSION + id)
  }

  /** An id whose own counter a SETALL advances. What follows about versions is about these ids. */
  predicate OwnsCounter(id: Id) {
    Wire.Clean(id, '_')
  }

  /** The five values stored for one id. */
  datatype Record = Record(root: Handle, version: nat, wrap: Bytes, hat: Hat, data: Bytes)

  /** A record with its history: the message last committed, and the UP_UPDATE commits since then. */
  datatype Entry = Entry(rec: Record, message: Bytes, layers: nat)

  /** What a client asks to be stored under an id, and the random draws it makes. */
  datatype SetRequest = SetRequest(id: Id, root: Handle, key: AEKey, message: Bytes, coins: EncryptCoins, wrapIv: Bytes)

  /** What an updater downloads. The version is not part of the download; it records when it was made. */
  datatype Snapshot = Snapshot(id: Id, root: Handle, wrap: Bytes, hat: Hat, version: nat)

  /** The output buffers of AE_ReEncrypt; nothing determines what they hold before the call. */
  datatype Buffers = Buffers(hat: Hat, ct: Bytes)

  datatype UpdateCoins = UpdateCoins(newKey: AEKey, wrapIv: Bytes, reKey: ReKeyCoins)

  /** What a server thread is in the middle of. */
  datatype Task =
    | Idle
    | SetPending(req: SetRequest)  // the root key was checked, the data lock is not yet taken
    | UpdatePending(snap: Snapshot, coins: UpdateCoins, version: nat, hat: Hat, data: Bytes)

  datatype State = State(store: map<Id, Entry>, root: Handle, threads: seq<Task>, snapshots: seq<Snapshot>)

  datatype Action =
    | Fetch(id: Id)  // a client downloads a record
    | GetForUpdate(id: Id)
    | SetCheck(tid: nat, req: SetRequest)
    | SetCommit(tid: nat)
    | UpdateRead(tid: nat, n: nat, coins: UpdateCoins)  // a thread starts on the UP_UPDATE built from download n
    | UpdateCommit(tid: nat, iv: Bytes, out: Buffers)
    | RootKey(tid: nat, root: Handle)

  // ---- What the clients compute ----

  function Upload(s: Suite, req: SetRequest, version: nat): Record {
    var (hat, ct) := Encrypt(s, req.key, req.message, req.coins);
    Record(req.root, version, s.wrap(req.root, req.wrapIv, req.key), hat, ct)
  }

  function Download(s: Suite, rec: Record): Outcome {
    var key := s.unwrap(rec.root, rec.wrap);
    if key.None? then Failed else Decrypt(s, key.value, rec.hat, rec.data)
  }

  function TakeSnapshot(id: Id, rec: Record): Snapshot {
    Snapshot(id, rec.root, rec.wrap, rec.hat, rec.version)
  }

  /** The new wrap and the delta an updater sends, made from what it downloaded. */
  function MakeUpdate(s: Suite, snap: Snapshot, coins: UpdateCoins): Option<(Bytes, Delta)> {
    var oldKey := s.unwrap(snap.root, snap.wrap);
    if oldKey.None? then None
    else
      var delta := ReKeyGen(s, oldKey.value, coins.newKey, snap.hat, coins.reKey);
      if delta.None? then None
      else Some((s.wrap(snap.root, coins.wrapIv, coins.newKey), delta.value))
  }

  // ---- What the server computes ----

  /** A SETALL on an id that owns its counter. */
  function CommitSet(s: Suite, e: Entry, req: SetRequest): Entry {
    Entry(Upload(s, req, e.rec.version + 1), req.message, 0)
  }

  function Bump(e: Entry): Entry {
    e.(rec := e.rec.(version := e.rec.version + 1))
  }

  /** The record and the counter that a SETALL on the id writes are both there. */
  predicate Known(store: map<Id, Entry>, id: Id) {
    id in store && CounterOf(id) in store
  }

  /** The second half of SETALL. The version that moves on is that of CounterOf(id), whichever id this is. */
  function SetStore(s: Suite, store: map<Id, Entry>, req: SetRequest): (after: map<Id, Entry>)
    requires Known(store, req.id)
    ensures after.Keys == store.Keys
  {
    var c := CounterOf(req.id);
    if c == req.id then store[c := CommitSet(s, store[c], req)]
    else
      store[c := Bump(store[c])]
        [req.id := Entry(Upload(s, req, store[req.id].rec.version), req.message, 0)]
  }

  /** What the output buffers hold after AE_ReEncrypt: a call that rejects leaves them as they were. */
  function After(r: ReEncrypted, out: Buffers): Buffers {
    if r.Done? then Buffers(r.hat, r.ct) else out
  }

  function Updated(e: Entry, wrap: Bytes, b: Buffers): Entry {
    Entry(Record(e.rec.root, e.rec.version + 1, wrap, b.hat, b.ct), e.message, e.layers + 1)
  }

  /**
   The second half of UP_UPDATE. None: the version has moved on, or no update was sent, or the
   re-encryption left its buffers. The return code of AE_ReEncrypt is ignored, so after a rejected call
   whatever the buffers held is committed.
   */
  function CommitUpdate(s: Suite, e: Entry, task: Task, iv: Bytes, out: Buffers): Option<Entry>
    requires task.UpdatePending?
  {
    var update := MakeUpdate(s, task.snap, task.coins);
    if task.version != e.rec.version || update.None? then None
    else
      var r := ReEncrypt(s, update.value.1, task.data, iv);
      if r.Overruns? then None else Some(Updated(e, update.value.0, After(r, out)))
  }

  predicate IsIdle(st: State, tid: nat) {
    tid < |st.threads| && st.threads[tid].Idle?
  }

  function Become(st: State, tid: nat, task: Task): State
    requires tid < |st.threads|
  {
    st.(threads := st.threads[tid := task])
  }

  predicate SetReady(st: State, tid: nat) {
    tid < |st.threads| && st.threads[tid].SetPending? && Known(st.store, st.threads[tid].req.id)
  }

  predicate UpdateReady(st: State, tid: nat) {
    tid < |st.threads| && st.threads[tid].UpdatePending? && st.threads[tid].snap.id in st.store
  }

  function Step(s: Suite, st: State, a: Action): State {
    match a
    case Fetch(_) => st
    case GetForUpdate(id) =>
      if id in st.store then st.(snapshots := st.snapshots + [TakeSnapshot(id, st.store[id].rec)]) else st
    case SetCheck(tid, req) =>
      if IsIdle(st, tid) && req.root == st.root && Known(st.store, req.id) then Become(st, tid, SetPending(req)) else st
    case SetCommit(tid) =>
      if SetReady(st, tid) then
        Become(st, tid, Idle).(store := SetStore(s, st.store, st.threads[tid].req))
      else st
    case UpdateRead(tid, n, coins) =>
      if IsIdle(st, tid) && n < |st.snapshots| && st.snapshots[n].id in st.store then
        var rec := st.store[st.snapshots[n].id].rec;
        Become(st, tid, UpdatePending(st.snapshots[n], coins, rec.version, rec.hat, rec.data))
      else st
    case UpdateCommit(tid, iv, out) =>
      if UpdateReady(st, tid) then
        var id := st.threads[tid].snap.id;
        var e := CommitUpdate(s, st.store[id], st.threads[tid], iv, out);
        var idle := Become(st, tid, Idle);
        if e.Some? then idle.(store := st.store[id := e.value]) else idle
      else st
    case RootKey(tid, root) =>
      if IsIdle(st, tid) then st.(root := root) else st
  }

  function Run(s: Suite, st: State, acts: seq<Action>): State
    decreases |acts|
  {
    if acts == [] then st else Run(s, Step(s, st, acts[0]), acts[1..])
  }

  lemma {:induction false} RunSnoc(s: Suite, st: State, acts: seq<Action>, a: Action)
    ensures Run(s, st, acts + [a]) == Step(s, Run(s, st, acts), a)
    decreases |acts|
  {
    if acts == [] {
      assert ([] + [a])[1..] == [];
    } else {
      assert (acts + [a])[1..] == acts[1..] + [a];
      RunSnoc(s, Step(s, st, acts[0]), acts[1..], a);
    }
  }

  // ---- Versions: who sees what is in the store ----

  /** The id is known, and while the version is still the one seen, so are the values seen. */
  ghost predicate SnapshotFits(store: map<Id, Entry>, snap: Snapshot) {
    && snap.id in store
    && (OwnsCounter(snap.id) ==>
          var rec := store[snap.id].rec;
          && snap.version <= rec.version
          && (snap.version == rec.version ==> snap == TakeSnapshot(snap.id, rec)))
  }

  ghost predicate TaskFits(store: map<Id, Entry>, task: Task) {
    match task
    case Idle => true
    case SetPending(req) => Known(store, req.id)
    case UpdatePending(snap, _, version, hat, data) =>
      && SnapshotFits(store, snap)
      && (OwnsCounter(snap.id) ==>
            var rec := store[snap.id].rec;
            && snap.version <= version <= rec.version
            && (version == rec.version ==> hat == rec.hat && data == rec.data))
  }

  /** What updaters and threads have seen fits the versions. */
  ghost predicate Fits(st: State) {
    && (forall i :: 0 <= i < |st.snapshots| ==> SnapshotFits(st.store, st.snapshots[i]))
    && (forall t :: 0 <= t < |st.threads| ==> TaskFits(st.store, st.threads[t]))
  }

  /** Ids stay, and an entry that owns its counter either stays as it is or moves to the next version. */
  ghost predicate Advances(before: map<Id, Entry>, after: map<Id, Entry>) {
    && before.Keys == after.Keys
    && forall id :: id in before && OwnsCounter(id) ==>
         after[id] == before[id] || after[id].rec.version == before[id].rec.version + 1
  }

  /** The ids and the threads stay the same, whatever the ids look like. */
  lemma StepKeepsIds(s: Suite, st: State, a: Action)
    ensures Step(s, st, a).store.Keys == st.store.Keys
    ensures |Step(s, st, a).threads| == |st.threads|
  {
  }

  /** Every change of a record that owns its counter raises its version by one. */
  lemma StepAdvances(s: Suite, st: State, a: Action)
    ensures Advances(st.store, Step(s, st, a).store)
    ensures |Step(s, st, a).threads| == |st.threads|
  {
    hide CounterOf;
  }

  lemma FitsAfterAdvance(before: map<Id, Entry>, after: map<Id, Entry>, task: Task)
    requires Advances(before, after) && TaskFits(before, task)
    ensures TaskFits(after, task)
  {
  }

  lemma StepKeepsFits(s: Suite, st: State, a: Action)
    requires Fits(st)
    ensures Fits(Step(s, st, a))
  {
    StepAdvances(s, st, a);
    var after := Step(s, st, a);
    forall t | 0 <= t < |after.threads| ensures TaskFits(after.store, after.threads[t]) {
      if after.threads[t] == st.threads[t] {
        FitsAfterAdvance(st.store, after.store, st.threads[t]);
      }
    }
    forall i | 0 <= i < |after.snapshots| ensures SnapshotFits(after.store, after.snapshots[i]) {
    }
  }

  /** How many steps of a run change the record of an id. */
  function Changes(s: Suite, st: State, acts: seq<Action>, id: Id): nat
    decreases |acts|
  {
    if acts == [] then 0
    else
      var next := Step(s, st, acts[0]);
      var changed := id in st.store && id in next.store && next.store[id] != st.store[id];
      (if changed then 1 else 0) + Changes(s, next, acts[1..], id)
  }

  /** Over any run the version of an id counts the changes of its record. */
  lemma {:induction false} RunCountsChanges(s: Suite, st: State, acts: seq<Action>, id: Id)
    requires Fits(st) && id in st.store && OwnsCounter(id)
    ensures var after := Run(s, st, acts);
            && id in after.store
            && after.store[id].rec.version == st.store[id].rec.version + Changes(s, st, acts, id)
    decreases |acts|
  {
    if acts != [] {
      StepKeepsFits(s, st, acts[0]);
      StepAdvances(s, st, acts[0]);
      RunCountsChanges(s, Step(s, st, acts[0]), acts[1..], id);
    }
  }

  lemma {:induction false} RunKeepsFits(s: Suite, st: State, acts: seq<Action>)
    requires Fits(st)
    ensures Fits(Run(s, st, acts))
    decreases |acts|
  {
    if acts != [] {
      StepKeepsFits(s, st, acts[0]);
      RunKeepsFits(s, Step(s, st, acts[0]), acts[1..]);
    }
  }

  /** The entry an UP_UPDATE commit may produce: the stored data re-encrypted, everything else kept. */
  ghost predicate IsReEncryptionOf(s: Suite, after: Entry, before: Entry, update: (Bytes, Delta), iv: Bytes,
                                   out: Buffers) {
    match ReEncrypt(s, update.1, before.rec.data, iv)
    case Done(hat, ct) =>
      after == Entry(Record(before.rec.root, before.rec.version + 1, update.0, hat, ct), before.message,
                     before.layers + 1)
    case Rejected => after.rec == Record(before.rec.root, before.rec.version + 1, update.0, out.hat, out.ct)
    case Overruns => false
  }

  /**
   No lost update, in every state a run can reach, on an id that owns its counter. An UP_UPDATE whose version
   has moved on changes nothing. One that commits re-encrypts exactly the data that is in the store at that
   instant, although it read them earlier, and changes that id alone.
   */
  lemma NoLostUpdate(s: Suite, init: State, acts: seq<Action>, tid: nat, iv: Bytes, out: Buffers)
    requires Fits(init)
    requires var st := Run(s, init, acts);
             tid < |st.threads| && st.threads[tid].UpdatePending? && OwnsCounter(st.threads[tid].snap.id)
    ensures var st := Run(s, init, acts);
            var task := st.threads[tid];
            var id := task.snap.id;
            var after := Step(s, st, UpdateCommit(tid, iv, out)).store;
            && id in st.store
            && (task.version != st.store[id].rec.version ==> after == st.store)
            && (after != st.store ==>
                  && task.hat == st.store[id].rec.hat
                  && MakeUpdate(s, task.snap, task.coins).Some?
                  && after == st.store[id := after[id]]
                  && IsReEncryptionOf(s, after[id], st.store[id], MakeUpdate(s, task.snap, task.coins).value, iv,
                                      out))
  {
    RunKeepsFits(s, init, acts);
    var st := Run(s, init, acts);
    assert TaskFits(st.store, st.threads[tid]);
    StepAdvances(s, st, UpdateCommit(tid, iv, out));
  }
}
