/**
 The room for another layer in terms of what a client can count: the UP_UPDATE commits on an id since the
 last SETALL on it, against the number of re-encryptions that the upload was made for.
 */
module Budget {
  import opened Common
  import opened Crypto
  import opened NestedAE
  import opened Protocol
  import opened Decryptability

  predicate SetsId(st: State, a: Action, id: Id) {
    a.SetCommit? && SetReady(st, a.tid) && st.threads[a.tid].req.id == id
  }

  predicate UpdatesId(s: Suite, st: State, a: Action, id: Id) {
    && a.UpdateCommit? && UpdateReady(st, a.tid) && st.threads[a.tid].snap.id == id
    && CommitUpdate(s, st.store[id], st.threads[a.tid], a.iv, a.out).Some?
  }

  /** The UP_UPDATE commits of a run on an id, since the last SETALL commit on it or since the start. */
  function UpdatesSinceSet(s: Suite, st: State, acts: seq<Action>, id: Id): nat
    decreases |acts|
  {
    if acts == [] then 0
    else
      var done := acts[..|acts| - 1];
      var (mid, a) := (Run(s, st, done), acts[|acts| - 1]);
      if SetsId(mid, a, id) then 0
      else if UpdatesId(s, mid, a, id) then UpdatesSinceSet(s, st, done, id) + 1
      else UpdatesSinceSet(s, st, done, id)
  }

  /** How many re-encryptions the blob of an id was made for: `first` is that of the initial store. */
  function MadeFor(s: Suite, st: State, acts: seq<Action>, id: Id, first: nat): nat {
    var last := LastSet(s, st, acts, id);
    if last.Some? then last.value.key.t else first
  }

  lemma {:induction false} LastSetSnoc(s: Suite, st: State, acts: seq<Action>, a: Action, id: Id)
    ensures LastSet(s, st, acts + [a], id)
            == if SetsId(Run(s, st, acts), a, id) then Some(Run(s, st, acts).threads[a.tid].req)
               else LastSet(s, st, acts, id)
    decreases |acts|
  {
    hide Step;
    if acts == [] {
      assert LastSet(s, Step(s, st, a), ([] + [a])[1..], id) == None;
    } else {
      assert (acts + [a])[1..] == acts[1..] + [a];
      LastSetSnoc(s, Step(s, st, acts[0]), acts[1..], a, id);
    }
  }

  lemma {:induction false} DisciplinedSnoc(s: Suite, st: State, acts: seq<Action>, a: Action)
    ensures DisciplinedRun(s, st, acts + [a]) <==> DisciplinedRun(s, st, acts) && Disciplined(Run(s, st, acts), a)
    decreases |acts|
  {
    hide Step, Disciplined;
    if acts == [] {
      assert DisciplinedRun(s, Step(s, st, a), ([] + [a])[1..]);
    } else {
      assert (acts + [a])[1..] == acts[1..] + [a];
      DisciplinedSnoc(s, Step(s, st, acts[0]), acts[1..], a);
    }
  }

  lemma UpdatesSnoc(s: Suite, st: State, acts: seq<Action>, a: Action, id: Id)
    ensures UpdatesSinceSet(s, st, acts + [a], id)
            == if SetsId(Run(s, st, acts), a, id) then 0
               else if UpdatesId(s, Run(s, st, acts), a, id) then UpdatesSinceSet(s, st, acts, id) + 1
               else UpdatesSinceSet(s, st, acts, id)
  {
    hide SetsId, UpdatesId;
    assert (acts + [a])[..|acts|] == acts;
  }

  // ---- Layers count updates, and blobs keep their size ----

  /** One step at one id: a SETALL, an UP_UPDATE, or neither, when at most the version is counted up. */
  lemma EntryStep(s: Suite, st: State, a: Action, id: Id)
    requires id in st.store && OwnsCounter(id)
    ensures id in Step(s, st, a).store
    ensures var (e, after) := (st.store[id], Step(s, st, a).store[id]);
            if SetsId(st, a, id) then after == CommitSet(s, e, st.threads[a.tid].req)
            else if UpdatesId(s, st, a, id) then after == CommitUpdate(s, e, st.threads[a.tid], a.iv, a.out).value
            else after == e || after == Bump(e)
  {
    hide CommitUpdate, CommitSet, Upload, CounterOf;
    StepKeepsIds(s, st, a);
  }

  /** The entry has been re-encrypted `updates` times, and its blob was made for t re-encryptions. */
  predicate Counted(e: Entry, updates: nat, t: nat) {
    && e.layers == updates
    && HEADER + |e.message| <= |e.rec.data|
    && Capacity(|e.rec.data|, |e.message|) == t
  }

  lemma UploadIsCounted(s: Suite, e: Entry, req: SetRequest)
    requires Lawful(s) && ValidRequest(req)
    ensures Counted(CommitSet(s, e, req), 0, req.key.t)
  {
    UploadedHolds(s, req.key, req.message, req.coins);
    CapacityOfPad(|req.message|, req.key.t);
  }

  ghost predicate CountedIn(s: Suite, st: State, acts: seq<Action>, id: Id, first: nat) {
    var after := Run(s, st, acts).store;
    id in after && Counted(after[id], UpdatesSinceSet(s, st, acts, id), MadeFor(s, st, acts, id, first))
  }

  /** What one step makes of a counted entry. */
  lemma CountedEntryStep(s: Suite, st: State, a: Action, id: Id, updates: nat, t: nat)
    requires Lawful(s) && Fits(st) && AllReadable(s, st) && Disciplined(st, a)
    requires id in st.store && OwnsCounter(id) && Counted(st.store[id], updates, t)
    ensures id in Step(s, st, a).store
    ensures SetsId(st, a, id) ==> Counted(Step(s, st, a).store[id], 0, st.threads[a.tid].req.key.t)
    ensures !SetsId(st, a, id) ==>
              Counted(Step(s, st, a).store[id], if UpdatesId(s, st, a, id) then updates + 1 else updates, t)
  {
    EntryStep(s, st, a, id);
    hide Step, CommitSet, Fits, Readable, Lawful;
    if SetsId(st, a, id) {
      assert TaskSound(st.store, st.threads[a.tid]);
      UploadIsCounted(s, st.store[id], st.threads[a.tid].req);
    } else if UpdatesId(s, st, a, id) {
      CommitKeepsReadable(s, st, a.tid, a.iv, a.out);
    }
  }

  lemma CountedStep(s: Suite, st: State, acts: seq<Action>, a: Action, id: Id, first: nat)
    requires Lawful(s) && CountedIn(s, st, acts, id, first) && OwnsCounter(id)
    requires var mid := Run(s, st, acts); Fits(mid) && AllReadable(s, mid) && Disciplined(mid, a)
    ensures CountedIn(s, st, acts + [a], id, first)
  {
    hide Run, Step, UpdatesSinceSet, LastSet, Fits, AllReadable, Lawful, Disciplined, SetsId, UpdatesId, Counted;
    hide OwnsCounter;
    RunSnoc(s, st, acts, a);
    LastSetSnoc(s, st, acts, a, id);
    UpdatesSnoc(s, st, acts, a, id);
    var mid := Run(s, st, acts);
    CountedEntryStep(s, mid, a, id, UpdatesSinceSet(s, st, acts, id), MadeFor(s, st, acts, id, first));
  }

  // ---- The discipline, counted ----

  /** What the next step needs: as in `Disciplined`, with the room for a layer counted in commits. */
  ghost predicate WithinBudget(s: Suite, st: State, acts: seq<Action>, a: Action, first: nat) {
    var now := Run(s, st, acts);
    match a
    case SetCheck(_, req) => ValidRequest(req)
    case UpdateRead(_, n, coins) =>
      n < |now.snapshots| && now.snapshots[n].id in now.store ==>
        var id := now.snapshots[n].id;
        && ValidUpdateCoins(coins)
        && (OwnsCounter(id) ==>
              && now.snapshots[n].version == now.store[id].rec.version
              && UpdatesSinceSet(s, st, acts, id) < MadeFor(s, st, acts, id, first))
    case UpdateCommit(_, iv, _) => |iv| == IV_LEN
    case _ => true
  }

  ghost predicate Budgeted(s: Suite, st: State, acts: seq<Action>, first: nat)
    decreases |acts|
  {
    acts != [] ==>
      var done := acts[..|acts| - 1];
      Budgeted(s, st, done, first) && WithinBudget(s, st, done, acts[|acts| - 1], first)
  }

  /** Where every record has been counted, the two disciplines ask for the same. */
  lemma SameDiscipline(s: Suite, st: State, acts: seq<Action>, a: Action, first: nat)
    requires forall id :: id in Run(s, st, acts).store && OwnsCounter(id) ==> CountedIn(s, st, acts, id, first)
    ensures WithinBudget(s, st, acts, a, first) <==> Disciplined(Run(s, st, acts), a)
  {
    hide Run, UpdatesSinceSet, LastSet, OwnsCounter;
    var now := Run(s, st, acts);
    if a.UpdateRead? && a.n < |now.snapshots| && now.snapshots[a.n].id in now.store {
      var e := now.store[now.snapshots[a.n].id];
      if OwnsCounter(now.snapshots[a.n].id) {
        RoomIsCapacity(e.message, e.rec.data, e.layers);
      }
    }
  }

  ghost predicate Starts(s: Suite, st: State, first: nat) {
    && Fits(st) && AllReadable(s, st)
    && forall id :: id in st.store && OwnsCounter(id) ==> Counted(st.store[id], 0, first)
  }

  /**
   A run is disciplined exactly when each update is read within the window and while fewer UP_UPDATEs have
   been committed since the last SETALL than the upload was made for; and along it `layers` counts them.
   */
  lemma {:induction false} BudgetIsDiscipline(s: Suite, st: State, acts: seq<Action>, first: nat)
    requires Lawful(s) && Starts(s, st, first)
    ensures Budgeted(s, st, acts, first) <==> DisciplinedRun(s, st, acts)
    ensures DisciplinedRun(s, st, acts) ==>
              forall id :: id in st.store && OwnsCounter(id) ==> CountedIn(s, st, acts, id, first)
    decreases |acts|
  {
    if acts == [] {
      forall id | id in st.store && OwnsCounter(id) ensures CountedIn(s, st, acts, id, first) {
        assert Counted(st.store[id], 0, first);
      }
    } else {
      var (done, a) := (acts[..|acts| - 1], acts[|acts| - 1]);
      assert acts == done + [a];
      BudgetIsDiscipline(s, st, done, first);
      DisciplinedSnoc(s, st, done, a);
      hide WithinBudget, Disciplined, Lawful, CountedIn, AllReadable, Fits, Run;
      if DisciplinedRun(s, st, done) {
        RunKeepsIds(s, st, done);
        SameDiscipline(s, st, done, a, first);
        if Disciplined(Run(s, st, done), a) {
          forall id | id in st.store && OwnsCounter(id) ensures CountedIn(s, st, acts, id, first) {
            RunKeepsReadable(s, st, done, id);
            CountedStep(s, st, done, a, id, first);
          }
        }
      }
    }
  }

  lemma {:induction false} RunKeepsIds(s: Suite, st: State, acts: seq<Action>)
    ensures Run(s, st, acts).store.Keys == st.store.Keys
    decreases |acts|
  {
    if acts != [] {
      StepKeepsIds(s, st, acts[0]);
      RunKeepsIds(s, Step(s, st, acts[0]), acts[1..]);
    }
  }

  lemma PopulatedStarts(s: Suite, ids: set<Id>, req: SetRequest, threads: nat)
    requires Lawful(s) && ValidRequest(req) && req.key.t > 0
    ensures Starts(s, PopulatedState(s, ids, req, threads), req.key.t - 1)
  {
    PopulatedStateIsReadable(s, ids, req, threads);
    PopulatedHolds(s, req.key, req.message, req.coins);
    CapacityOfPad(|req.message|, req.key.t);
  }

  /**
   End to end, counted. From a populated store whose blobs were made for t re-encryptions: as long as every
   update is read within its window, and no more than t - 1 of them are committed on a populated record and
   no more than its own t on an uploaded one, a download gives the message last set.
   */
  lemma DownloadWithinBudget(s: Suite, ids: set<Id>, populated: SetRequest, threads: nat, acts: seq<Action>, id: Id)
    requires Lawful(s) && ValidRequest(populated) && populated.key.t > 0 && id in ids && OwnsCounter(id)
    requires Budgeted(s, PopulatedState(s, ids, populated, threads), acts, populated.key.t - 1)
    ensures var init := PopulatedState(s, ids, populated, threads);
            var after := Run(s, init, acts).store;
            && id in after
            && Download(s, after[id].rec) == Plain(ExpectedMessage(s, init, acts, id))
            && after[id].layers == UpdatesSinceSet(s, init, acts, id)
            && after[id].layers <= MadeFor(s, init, acts, id, populated.key.t - 1)
  {
    var init := PopulatedState(s, ids, populated, threads);
    PopulatedStarts(s, ids, populated, threads);
    BudgetIsDiscipline(s, init, acts, populated.key.t - 1);
    DownloadGivesLastMessage(s, init, acts, id);
    RunKeepsReadable(s, init, acts, id);
    hide Run, UpdatesSinceSet, LastSet, Budgeted, DisciplinedRun, Fits, Decrypt, Peel;
    assert CountedIn(s, init, acts, id, populated.key.t - 1);
    var e := Run(s, init, acts).store[id];
    HoldsSize(s, Stored(s.unwrap(e.rec.root, e.rec.wrap).value, e.rec.hat, e.rec.data), e.message, e.layers);
  }
}
