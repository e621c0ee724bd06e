/**
 How long an old root key can still be committed. The root key is checked under one lock and the upload is
 committed under another, so uploads that other threads had already validated still go through after a
 ROOTKEY; no more than those do.
 */
module RootKeyChange {
  import opened Crypto
  import opened Protocol
  import opened Decryptability

  /** main() starts five server threads. */
  const THREADS := 5

  /** 1 when a thread holds a validated upload under a root key other than r. */
  function StaleTask(task: Task, r: Handle): nat {
    if task.SetPending? && task.req.root != r then 1 else 0
  }

  function StalePending(threads: seq<Task>, r: Handle): (n: nat)
    ensures n <= |threads|
  {
    if threads == [] then 0 else StaleTask(threads[0], r) + StalePending(threads[1..], r)
  }

  /** How many SETALL commits of a run store a root version other than r. */
  function StaleCommits(s: Suite, st: State, acts: seq<Action>, r: Handle): nat
    decreases |acts|
  {
    if acts == [] then 0
    else
      var a := acts[0];
      (if a.SetCommit? && SetReady(st, a.tid) then StaleTask(st.threads[a.tid], r) else 0)
      + StaleCommits(s, Step(s, st, a), acts[1..], r)
  }

  ghost predicate KeepsRootKey(acts: seq<Action>, r: Handle) {
    forall i :: 0 <= i < |acts| && acts[i].RootKey? ==> acts[i].root == r
  }

  lemma {:induction false} PendingAfter(threads: seq<Task>, t: nat, task: Task, r: Handle)
    requires t < |threads|
    ensures StalePending(threads[t := task], r) + StaleTask(threads[t], r)
            == StalePending(threads, r) + StaleTask(task, r)
  {
    if t == 0 {
      assert threads[0 := task][1..] == threads[1..];
    } else {
      assert threads[t := task][1..] == threads[1..][t - 1 := task];
      PendingAfter(threads[1..], t - 1, task, r);
    }
  }

  lemma StepConservesStale(s: Suite, st: State, a: Action, r: Handle)
    requires st.root == r && (a.RootKey? ==> a.root == r)
    ensures var after := Step(s, st, a);
            && after.root == r
            && StaleCommits(s, st, [a], r) + StalePending(after.threads, r) == StalePending(st.threads, r)
  {
    hide CommitUpdate, SetStore, TakeSnapshot, CounterOf;
    assert StaleCommits(s, Step(s, st, a), [a][1..], r) == 0;
    var after := Step(s, st, a);
    if after.threads != st.threads {
      PendingAfter(st.threads, a.tid, after.threads[a.tid], r);
      assert after.threads == st.threads[a.tid := after.threads[a.tid]];
    }
  }

  /** While the root key stays r, each validated upload under another key is either still pending or committed. */
  lemma {:induction false} RunConservesStale(s: Suite, st: State, acts: seq<Action>, r: Handle)
    requires st.root == r && KeepsRootKey(acts, r)
    ensures StaleCommits(s, st, acts, r) + StalePending(Run(s, st, acts).threads, r) == StalePending(st.threads, r)
    decreases |acts|
  {
    if acts != [] {
      StepConservesStale(s, st, acts[0], r);
      assert StaleCommits(s, Step(s, st, acts[0]), [acts[0]][1..], r) == 0;
      RunConservesStale(s, Step(s, st, acts[0]), acts[1..], r);
    }
  }

  lemma {:induction false} SomeThreadNotStale(threads: seq<Task>, t: nat, r: Handle)
    requires t < |threads| && StaleTask(threads[t], r) == 0
    ensures StalePending(threads, r) < |threads|
  {
    if t > 0 {
      SomeThreadNotStale(threads[1..], t - 1, r);
    }
  }

  /**
   Bounded staleness. From the moment a thread has put ROOTKEY r into effect, as long as r stays, no run
   of the five threads commits more than four uploads under another root key.
   */
  lemma AtMostFourStaleCommits(s: Suite, st: State, tid: nat, r: Handle, acts: seq<Action>)
    requires |st.threads| == THREADS && IsIdle(st, tid) && KeepsRootKey(acts, r)
    ensures StaleCommits(s, Step(s, st, RootKey(tid, r)), acts, r) <= THREADS - 1
  {
    var next := Step(s, st, RootKey(tid, r));
    RunConservesStale(s, next, acts, r);
    SomeThreadNotStale(next.threads, tid, r);
  }

  // ---- The bound is reached ----

  /** Each thread from i on commits what it holds. */
  function CommitAllFrom(i: nat, n: nat): (acts: seq<Action>)
    ensures forall j :: 0 <= j < |acts| ==> acts[j].SetCommit?
    decreases n - i
  {
    if i >= n then [] else [SetCommit(i)] + CommitAllFrom(i + 1, n)
  }

  /** Every validated upload is for a record and a counter that are there. */
  ghost predicate RequestsKnown(st: State) {
    forall t :: 0 <= t < |st.threads| && st.threads[t].SetPending? ==> Known(st.store, st.threads[t].req.id)
  }

  lemma StepKeepsRequestsKnown(s: Suite, st: State, a: Action)
    requires RequestsKnown(st)
    ensures RequestsKnown(Step(s, st, a))
  {
    hide CommitUpdate, SetStore, CounterOf;
    StepKeepsIds(s, st, a);
    var after := Step(s, st, a);
    forall t | 0 <= t < |after.threads| && after.threads[t].SetPending?
      ensures Known(after.store, after.threads[t].req.id)
    {
      if after.threads[t] == st.threads[t] {
        assert Known(st.store, st.threads[t].req.id);
      }
    }
  }

  lemma {:induction false} NonePendingAfterCommitAll(s: Suite, st: State, i: nat, r: Handle)
    requires RequestsKnown(st) && i <= |st.threads|
    requires forall t :: 0 <= t < i ==> !st.threads[t].SetPending?
    ensures StalePending(Run(s, st, CommitAllFrom(i, |st.threads|)).threads, r) == 0
    decreases |st.threads| - i
  {
    if i == |st.threads| {
      NoneStale(st.threads, r);
    } else {
      var acts := CommitAllFrom(i, |st.threads|);
      assert acts[1..] == CommitAllFrom(i + 1, |st.threads|);
      StepKeepsRequestsKnown(s, st, acts[0]);
      NonePendingAfterCommitAll(s, Step(s, st, acts[0]), i + 1, r);
    }
  }

  lemma {:induction false} NoneStale(threads: seq<Task>, r: Handle)
    requires forall t :: 0 <= t < |threads| ==> !threads[t].SetPending?
    ensures StalePending(threads, r) == 0
  {
    if threads != [] {
      NoneStale(threads[1..], r);
    }
  }

  /** Whatever uploads are pending at the change, some run commits all of them: with four, the bound is met. */
  lemma StaleBoundIsReached(s: Suite, st: State, tid: nat, r: Handle)
    requires RequestsKnown(st) && IsIdle(st, tid)
    ensures var next := Step(s, st, RootKey(tid, r));
            var acts := CommitAllFrom(0, |next.threads|);
            KeepsRootKey(acts, r) && StaleCommits(s, next, acts, r) == StalePending(st.threads, r)
  {
    var next := Step(s, st, RootKey(tid, r));
    StepKeepsRequestsKnown(s, st, RootKey(tid, r));
    NonePendingAfterCommitAll(s, next, 0, r);
    RunConservesStale(s, next, CommitAllFrom(0, |next.threads|), r);
  }

  // ---- Four of them ----

  /** Threads 1 to 4 each have an upload under the current root key validated. */
  function FourChecks(req: SetRequest): seq<Action> {
    [SetCheck(1, req)] + [SetCheck(2, req)] + [SetCheck(3, req)] + [SetCheck(4, req)]
  }

  lemma OneMoreCheck(s: Suite, st: State, acts: seq<Action>, tid: nat, req: SetRequest, r: Handle)
    requires var mid := Run(s, st, acts);
             IsIdle(mid, tid) && req.root == mid.root && Known(mid.store, req.id) && RequestsKnown(mid)
    requires req.root != r
    ensures var (mid, after) := (Run(s, st, acts), Run(s, st, acts + [SetCheck(tid, req)]));
            && after == Become(mid, tid, SetPending(req))
            && RequestsKnown(after)
            && StalePending(after.threads, r) == StalePending(mid.threads, r) + 1
  {
    hide Run, CounterOf;
    RunSnoc(s, st, acts, SetCheck(tid, req));
    PendingAfter(Run(s, st, acts).threads, tid, SetPending(req), r);
  }

  lemma FourStaleUploads(s: Suite, st: State, req: SetRequest, r: Handle)
    requires |st.threads| == THREADS && (forall t :: 0 <= t < THREADS ==> st.threads[t].Idle?)
    requires req.root == st.root && Known(st.store, req.id) && r != st.root
    ensures var after := Run(s, st, FourChecks(req));
            && IsIdle(after, 0) && |after.threads| == THREADS
            && RequestsKnown(after)
            && StalePending(after.threads, r) == THREADS - 1
  {
    hide Known, StalePending, StaleTask;
    NoneStale(st.threads, r);
    assert [] + [SetCheck(1, req)] == [SetCheck(1, req)];
    OneMoreCheck(s, st, [], 1, req, r);
    hide Run, RequestsKnown;
    OneMoreCheck(s, st, [SetCheck(1, req)], 2, req, r);
    OneMoreCheck(s, st, [SetCheck(1, req)] + [SetCheck(2, req)], 3, req, r);
    OneMoreCheck(s, st, [SetCheck(1, req)] + [SetCheck(2, req)] + [SetCheck(3, req)], 4, req, r);
  }

  /**
   The bound of four is tight. From any populated store and for every new root key, four uploads are
   validated, the key changes, and all four are committed under the old one.
   */
  lemma FourIsTight(s: Suite, ids: set<Id>, populated: SetRequest, req: SetRequest, r: Handle)
    requires req.id in ids && CounterOf(req.id) in ids && req.root == populated.root && r != populated.root
    ensures var st := Run(s, PopulatedState(s, ids, populated, THREADS), FourChecks(req));
            var next := Step(s, st, RootKey(0, r));
            var acts := CommitAllFrom(0, THREADS);
            IsIdle(st, 0) && KeepsRootKey(acts, r) && StaleCommits(s, next, acts, r) == THREADS - 1
  {
    hide CounterOf, StaleCommits, Run, RequestsKnown, StalePending, FourChecks, KeepsRootKey, CommitAllFrom;
    var init := PopulatedState(s, ids, populated, THREADS);
    FourStaleUploads(s, init, req, r);
    StaleBoundIsReached(s, Run(s, init, FourChecks(req)), 0, r);
    StepKeepsIds(s, Run(s, init, FourChecks(req)), RootKey(0, r));
  }
}
