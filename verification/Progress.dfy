/** Threads move on: whatever comes of a commit, its thread is free for the next command afterwards. */
module Progress {
  import opened Common
  import opened Crypto
  import opened NestedAE
  import opened Protocol
  import opened Decryptability
  import Budget

  /** The thread is in the middle of a command, and this is the step that ends it. */
  predicate Ends(st: State, a: Action) {
    (a.SetCommit? && SetReady(st, a.tid)) || (a.UpdateCommit? && UpdateReady(st, a.tid))
  }

  /** A command that ends frees its thread and touches no other thread and no download, committed or not. */
  lemma EndFreesThread(s: Suite, st: State, a: Action)
    requires Ends(st, a)
    ensures var after := Step(s, st, a);
            && |after.threads| == |st.threads| && after.threads[a.tid] == Idle
            && (forall t :: 0 <= t < |st.threads| && t != a.tid ==> after.threads[t] == st.threads[t])
            && after.snapshots == st.snapshots && after.root == st.root
            && after.store.Keys == st.store.Keys
  {
    hide SetStore, CommitUpdate, CounterOf;
    StepKeepsIds(s, st, a);
  }

  /** A SETALL is taken on by a thread exactly when the thread is free and the root key is the current one. */
  lemma SetIsTakenIff(s: Suite, st: State, tid: nat, req: SetRequest)
    requires Known(st.store, req.id) && tid < |st.threads|
    ensures var after := Step(s, st, SetCheck(tid, req));
            && (after != st <==> st.threads[tid] == Idle && req.root == st.root)
            && (after != st ==> SetReady(after, tid) && after.threads[tid].req == req && after.store == st.store)
  {
    hide CounterOf;
    var after := Step(s, st, SetCheck(tid, req));
    assert after != st ==> after.threads[tid] != st.threads[tid];
    if st.threads[tid] == Idle && req.root == st.root {
      assert after.threads[tid] != st.threads[tid];
    }
  }

  /** An UP_UPDATE is taken on by a free thread, with the version, header and data that are stored at that moment. */
  lemma UpdateIsTakenIff(s: Suite, st: State, tid: nat, n: nat, coins: UpdateCoins)
    requires tid < |st.threads| && n < |st.snapshots| && st.snapshots[n].id in st.store
    ensures var after := Step(s, st, UpdateRead(tid, n, coins));
            var rec := st.store[st.snapshots[n].id].rec;
            && (after != st <==> st.threads[tid] == Idle)
            && (after != st ==>
                  && UpdateReady(after, tid) && after.store == st.store && after.snapshots == st.snapshots
                  && after.threads[tid] == UpdatePending(st.snapshots[n], coins, rec.version, rec.hat, rec.data))
  {
    var after := Step(s, st, UpdateRead(tid, n, coins));
    assert after != st ==> after.threads[tid] != st.threads[tid];
    if st.threads[tid] == Idle {
      assert after.threads[tid] != st.threads[tid];
    }
  }

  /** A failed version check frees the thread and changes nothing else. */
  lemma FailedCheckOnlyFrees(s: Suite, st: State, tid: nat, iv: Bytes, out: Buffers)
    requires UpdateReady(st, tid)
    requires st.threads[tid].version != st.store[st.threads[tid].snap.id].rec.version
    ensures Step(s, st, UpdateCommit(tid, iv, out)) == st.(threads := st.threads[tid := Idle])
  {
  }

  /** The thread's next command: a whole SETALL behind the end of the one before. */
  function ThenSet(a: Action, tid: nat, req: SetRequest): seq<Action> {
    [a] + [SetCheck(tid, req)] + [SetCommit(tid)]
  }

  /**
   After every commit, successful or not, and in particular after an UP_UPDATE whose version check has failed,
   the same thread takes and commits a SETALL, and a download gives the message of that SETALL.
   */
  lemma NextSetGoesThrough(s: Suite, st: State, a: Action, req: SetRequest)
    requires Lawful(s) && Ends(st, a)
    requires ValidRequest(req) && req.root == st.root && Known(st.store, req.id)
    ensures var acts := ThenSet(a, a.tid, req);
            var after := Run(s, st, acts);
            && a.tid < |after.threads| && after.threads[a.tid] == Idle
            && LastSet(s, st, acts, req.id) == Some(req)
            && req.id in after.store
            && Download(s, after.store[req.id].rec) == Plain(req.message)
  {
    hide Upload, CommitUpdate, CounterOf, Download, Lawful, ValidRequest;
    var one := Step(s, st, a);
    var two := Step(s, one, SetCheck(a.tid, req));
    EndFreesThread(s, st, a);
    SetIsTakenIff(s, one, a.tid, req);
    EndFreesThread(s, two, SetCommit(a.tid));
    hide Step, SetStore, IsIdle;
    assert [a] == [] + [a];
    RunSnoc(s, st, [], a);
    RunSnoc(s, st, [a], SetCheck(a.tid, req));
    RunSnoc(s, st, [a] + [SetCheck(a.tid, req)], SetCommit(a.tid));
    Budget.LastSetSnoc(s, st, [a] + [SetCheck(a.tid, req)], SetCommit(a.tid), req.id);
    hide Run, LastSet;
    SetDownloads(s, two, a.tid);
  }

  /** What a SETALL has committed downloads to its message, whichever counter it advanced. */
  lemma SetDownloads(s: Suite, st: State, tid: nat)
    requires Lawful(s) && SetReady(st, tid) && ValidRequest(st.threads[tid].req)
    ensures var req := st.threads[tid].req;
            var after := Step(s, st, SetCommit(tid)).store;
            req.id in after && Download(s, after[req.id].rec) == Plain(req.message)
  {
    var req := st.threads[tid].req;
    SetIsReadable(s, st.store[req.id], req);
    var e := CommitSet(s, st.store[req.id], req);
    hide CounterOf, Encrypt, Decrypt, Holds;
    HeldMessageDecrypts(s, Stored(s.unwrap(e.rec.root, e.rec.wrap).value, e.rec.hat, e.rec.data), e.message, 0);
    var rec := Step(s, st, SetCommit(tid)).store[req.id].rec;
    assert rec.(version := e.rec.version) == e.rec;
  }
}
