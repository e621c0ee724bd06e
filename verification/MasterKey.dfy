/**
 Rotating the root key: every stored wrap is opened under the old HSM key and wrapped under a new one,
 record by record, and the old key is destroyed when the loop is through.
 */
module MasterKey {
  import opened Common
  import opened Crypto

  type Wraps = map<string, Bytes>

  /**
   How the call ends. A record without a wrap makes it return EXIT_FAILURE; a wrap that does not open
   under the old key keeps it retrying for ever.
   */
  datatype Outcome = Finished | MissingWrap(at: nat) | NeverOpens(at: nat)

  datatype Rotation = Rotation(suite: Suite, oldKey: Handle, newKey: Handle, ivs: nat -> Bytes)

  function WrapKey(id: string): string { "wrap_" + id }

  function Get(wraps: Wraps, name: string): Bytes {
    if name in wraps then wraps[name] else []
  }

  /** The loop from id i on. */
  function RewrapFrom(r: Rotation, ids: seq<string>, i: nat, wraps: Wraps): (Outcome, Wraps)
    requires i <= |ids|
    decreases |ids| - i
  {
    if i == |ids| then (Finished, wraps)
    else
      var name := WrapKey(ids[i]);
      var wrap := Get(wraps, name);
      var key := r.suite.unwrap(r.oldKey, wrap);
      if |wrap| == 0 then (MissingWrap(i), wraps)
      else if key.None? then (NeverOpens(i), wraps)
      else RewrapFrom(r, ids, i + 1, wraps[name := r.suite.wrap(r.newKey, r.ivs(i), key.value)])
  }

  /** The HSM's live keys and the store's wraps. */
  class Vault {
    var live: set<Handle>
    var wraps: Wraps

    constructor (live: set<Handle>, wraps: Wraps)
      ensures this.live == live && this.wraps == wraps
    {
      this.live, this.wraps := live, wraps;
    }

    method UpdateMasterKey(ids: seq<string>, r: Rotation) returns (outcome: Outcome)
      requires r.oldKey in live && r.newKey !in live
      modifies this
      ensures (outcome, wraps) == RewrapFrom(r, ids, 0, old(wraps))
      ensures live == LiveAfter(outcome, old(live), r)
    {
      live := live + {r.newKey};
      var i := 0;
      while i < |ids|
        invariant i <= |ids| && live == old(live) + {r.newKey}
        invariant RewrapFrom(r, ids, i, wraps) == RewrapFrom(r, ids, 0, old(wraps))
      {
        var wrap := Get(wraps, WrapKey(ids[i]));
        if |wrap| == 0 {
          return MissingWrap(i);
        }
        var key := r.suite.unwrap(r.oldKey, wrap);
        if key.None? {
          return NeverOpens(i);
        }
        wraps := wraps[WrapKey(ids[i]) := r.suite.wrap(r.newKey, r.ivs(i), key.value)];
        i := i + 1;
      }
      live := live - {r.oldKey};
      return Finished;
    }
  }

  function LiveAfter(outcome: Outcome, live: set<Handle>, r: Rotation): set<Handle> {
    if outcome.Finished? then live + {r.newKey} - {r.oldKey} else live + {r.newKey}
  }

  /** Some live key opens the record to this data key. */
  ghost predicate Recoverable(s: Suite, live: set<Handle>, wraps: Wraps, name: string, key: AEKey) {
    name in wraps && exists h :: h in live && s.unwrap(h, wraps[name]) == Some(key)
  }

  ghost predicate Listed(ids: seq<string>, n: nat, name: string)
    requires n <= |ids|
  {
    exists j :: 0 <= j < n && WrapKey(ids[j]) == name
  }

  ghost predicate Distinct(ids: seq<string>) {
    forall j, k :: 0 <= j < k < |ids| ==> ids[j] != ids[k]
  }

  /** The record of id has a wrap, and the old key opens it. */
  ghost predicate Ready(r: Rotation, wraps: Wraps, id: string) {
    |Get(wraps, WrapKey(id))| > 0 && r.suite.unwrap(r.oldKey, Get(wraps, WrapKey(id))).Some?
  }

  /** The first n ids open under the new key to what they opened to under the old one; the rest is untouched. */
  ghost predicate Halfway(r: Rotation, ids: seq<string>, n: nat, before: Wraps, wraps: Wraps)
    requires n <= |ids|
  {
    && before.Keys == wraps.Keys
    && (forall name :: name in before && !Listed(ids, n, name) ==> wraps[name] == before[name])
    && (forall j :: 0 <= j < n ==> Moved(r, WrapKey(ids[j]), before, wraps))
  }

  ghost predicate Moved(r: Rotation, name: string, before: Wraps, wraps: Wraps) {
    && name in before && name in wraps
    && |before[name]| > 0
    && r.suite.unwrap(r.oldKey, before[name]).Some?
    && r.suite.unwrap(r.newKey, wraps[name]) == r.suite.unwrap(r.oldKey, before[name])
  }

  lemma WrapKeyIsInjective(a: string, b: string)
    requires WrapKey(a) == WrapKey(b)
    ensures a == b
  {
    assert WrapKey(a)[5..] == a && WrapKey(b)[5..] == b;
  }

  lemma ListedNext(ids: seq<string>, n: nat, name: string)
    requires n < |ids|
    ensures Listed(ids, n + 1, name) <==> Listed(ids, n, name) || name == WrapKey(ids[n])
  {
    if Listed(ids, n + 1, name) {
      var j :| 0 <= j < n + 1 && WrapKey(ids[j]) == name;
      assert j < n ==> Listed(ids, n, name);
    }
  }

  /** Re-wrapping one record that has not been re-wrapped yet. */
  lemma HalfwayStep(r: Rotation, ids: seq<string>, n: nat, before: Wraps, wraps: Wraps)
    requires Lawful(r.suite) && n < |ids| && Halfway(r, ids, n, before, wraps)
    requires !Listed(ids, n, WrapKey(ids[n])) && Ready(r, wraps, ids[n])
    ensures var key := r.suite.unwrap(r.oldKey, Get(wraps, WrapKey(ids[n]))).value;
            Halfway(r, ids, n + 1, before, wraps[WrapKey(ids[n]) := r.suite.wrap(r.newKey, r.ivs(n), key)])
  {
    var name := WrapKey(ids[n]);
    var key := r.suite.unwrap(r.oldKey, wraps[name]).value;
    var next := wraps[name := r.suite.wrap(r.newKey, r.ivs(n), key)];
    assert Moved(r, name, before, next);
    forall j | 0 <= j < n ensures Moved(r, WrapKey(ids[j]), before, next) {
      assert Moved(r, WrapKey(ids[j]), before, wraps);
      assert Listed(ids, n, WrapKey(ids[j]));
    }
    forall other | other in before && !Listed(ids, n + 1, other) ensures next[other] == before[other] {
      ListedNext(ids, n, other);
    }
  }

  /** A record that has been re-wrapped opens under the old key no more. */
  lemma NotTwice(r: Rotation, ids: seq<string>, n: nat, before: Wraps, wraps: Wraps)
    requires n < |ids| && Halfway(r, ids, n, before, wraps) && r.oldKey != r.newKey
    requires Distinct(ids) || KeyBinding(r.suite)
    ensures Listed(ids, n, WrapKey(ids[n])) ==> !Distinct(ids) && !Ready(r, wraps, ids[n])
  {
    if Listed(ids, n, WrapKey(ids[n])) {
      var j :| 0 <= j < n && WrapKey(ids[j]) == WrapKey(ids[n]);
      WrapKeyIsInjective(ids[j], ids[n]);
      assert Moved(r, WrapKey(ids[j]), before, wraps);
    }
  }

  function StopsAt(outcome: Outcome, n: nat): nat {
    if outcome.Finished? then n else outcome.at
  }

  /** The loop invariant, from any id to whichever exit is taken. */
  lemma {:induction false} RewrapKeepsHalfway(r: Rotation, ids: seq<string>, i: nat, before: Wraps, wraps: Wraps)
    requires Lawful(r.suite) && r.oldKey != r.newKey && (Distinct(ids) || KeyBinding(r.suite))
    requires i <= |ids| && Halfway(r, ids, i, before, wraps)
    ensures var (outcome, after) := RewrapFrom(r, ids, i, wraps);
            StopsAt(outcome, |ids|) <= |ids| && Halfway(r, ids, StopsAt(outcome, |ids|), before, after)
    decreases |ids| - i
  {
    hide Halfway, Lawful, KeyBinding, Distinct;
    if i < |ids| && Ready(r, wraps, ids[i]) {
      NotTwice(r, ids, i, before, wraps);
      HalfwayStep(r, ids, i, before, wraps);
      var key := r.suite.unwrap(r.oldKey, Get(wraps, WrapKey(ids[i]))).value;
      RewrapKeepsHalfway(r, ids, i + 1, before, wraps[WrapKey(ids[i]) := r.suite.wrap(r.newKey, r.ivs(i), key)]);
    }
  }

  /** The record of ids[k] is ready, and no earlier id has the same one. */
  ghost predicate NewAndReady(r: Rotation, ids: seq<string>, k: nat, wraps: Wraps)
    requires k < |ids|
  {
    Ready(r, wraps, ids[k]) && !Listed(ids, k, WrapKey(ids[k]))
  }

  lemma NextIsReady(r: Rotation, ids: seq<string>, i: nat, before: Wraps, wraps: Wraps)
    requires i < |ids| && Halfway(r, ids, i, before, wraps) && r.oldKey != r.newKey && KeyBinding(r.suite)
    ensures NewAndReady(r, ids, i, before) <==> Ready(r, wraps, ids[i])
    ensures Ready(r, wraps, ids[i]) ==> !Listed(ids, i, WrapKey(ids[i]))
  {
    NotTwice(r, ids, i, before, wraps);
    if !Listed(ids, i, WrapKey(ids[i])) {
      assert Get(wraps, WrapKey(ids[i])) == Get(before, WrapKey(ids[i]));
    }
  }

  /** The call is over with every id processed exactly when the rest of them are ready and new. */
  lemma {:induction false} FinishesFrom(r: Rotation, ids: seq<string>, i: nat, before: Wraps, wraps: Wraps)
    requires Lawful(r.suite) && r.oldKey != r.newKey && KeyBinding(r.suite)
    requires i <= |ids| && Halfway(r, ids, i, before, wraps)
    ensures RewrapFrom(r, ids, i, wraps).0.Finished? <==> forall k :: i <= k < |ids| ==> NewAndReady(r, ids, k, before)
    decreases |ids| - i
  {
    hide Halfway, Lawful, KeyBinding, Listed, WrapKey, NewAndReady;
    if i < |ids| {
      NextIsReady(r, ids, i, before, wraps);
      if Ready(r, wraps, ids[i]) {
        HalfwayStep(r, ids, i, before, wraps);
        var key := r.suite.unwrap(r.oldKey, Get(wraps, WrapKey(ids[i]))).value;
        FinishesFrom(r, ids, i + 1, before, wraps[WrapKey(ids[i]) := r.suite.wrap(r.newKey, r.ivs(i), key)]);
      }
    }
  }

  lemma DistinctNames(ids: seq<string>)
    ensures Distinct(ids) <==> forall k :: 0 <= k < |ids| ==> !Listed(ids, k, WrapKey(ids[k]))
  {
    if Distinct(ids) {
      forall k, j | 0 <= j < k < |ids| ensures WrapKey(ids[j]) != WrapKey(ids[k]) {
        if WrapKey(ids[j]) == WrapKey(ids[k]) { WrapKeyIsInjective(ids[j], ids[k]); }
      }
    }
    if !Distinct(ids) {
      var j, k :| 0 <= j < k < |ids| && ids[j] == ids[k];
      assert Listed(ids, k, WrapKey(ids[k]));
    }
  }

  /** update_master_key returns success exactly for distinct ids that all have a wrap under the old key. */
  lemma FinishesIff(r: Rotation, ids: seq<string>, wraps: Wraps)
    requires Lawful(r.suite) && r.oldKey != r.newKey && KeyBinding(r.suite)
    ensures RewrapFrom(r, ids, 0, wraps).0.Finished?
            <==> Distinct(ids) && forall k :: 0 <= k < |ids| ==> Ready(r, wraps, ids[k])
  {
    FinishesFrom(r, ids, 0, wraps, wraps);
    DistinctNames(ids);
    hide Ready, Listed, Distinct, WrapKey;
    assert forall k :: 0 <= k < |ids| ==>
        (NewAndReady(r, ids, k, wraps) <==> Ready(r, wraps, ids[k]) && !Listed(ids, k, WrapKey(ids[k])));
  }

  /** The first n wraps were made with an iv of their own each. */
  ghost predicate OwnIvs(r: Rotation, ids: seq<string>, n: nat, before: Wraps, wraps: Wraps)
    requires n <= |ids|
  {
    forall j :: 0 <= j < n ==> MadeWith(r, WrapKey(ids[j]), r.ivs(j), before, wraps)
  }

  ghost predicate MadeWith(r: Rotation, name: string, iv: Bytes, before: Wraps, wraps: Wraps) {
    && name in before && name in wraps
    && var key := r.suite.unwrap(r.oldKey, before[name]);
       key.Some? && wraps[name] == r.suite.wrap(r.newKey, iv, key.value)
  }

  lemma OwnIvsStep(r: Rotation, ids: seq<string>, n: nat, before: Wraps, wraps: Wraps)
    requires n < |ids| && Halfway(r, ids, n, before, wraps) && OwnIvs(r, ids, n, before, wraps)
    requires !Listed(ids, n, WrapKey(ids[n])) && Ready(r, wraps, ids[n])
    ensures var key := r.suite.unwrap(r.oldKey, Get(wraps, WrapKey(ids[n]))).value;
            OwnIvs(r, ids, n + 1, before, wraps[WrapKey(ids[n]) := r.suite.wrap(r.newKey, r.ivs(n), key)])
  {
    var name := WrapKey(ids[n]);
    var key := r.suite.unwrap(r.oldKey, wraps[name]).value;
    var next := wraps[name := r.suite.wrap(r.newKey, r.ivs(n), key)];
    forall j | 0 <= j < n + 1 ensures MadeWith(r, WrapKey(ids[j]), r.ivs(j), before, next) {
      if j < n {
        assert MadeWith(r, WrapKey(ids[j]), r.ivs(j), before, wraps);
        assert Listed(ids, n, WrapKey(ids[j]));
      }
    }
  }

  /** Each id passed has the original data key wrapped under the new root key with an iv drawn for this id. */
  lemma {:induction false} RewrapUsesOwnIvs(r: Rotation, ids: seq<string>, i: nat, before: Wraps, wraps: Wraps)
    requires Lawful(r.suite) && r.oldKey != r.newKey && (Distinct(ids) || KeyBinding(r.suite))
    requires i <= |ids| && Halfway(r, ids, i, before, wraps) && OwnIvs(r, ids, i, before, wraps)
    ensures var (outcome, after) := RewrapFrom(r, ids, i, wraps);
            StopsAt(outcome, |ids|) <= |ids| && OwnIvs(r, ids, StopsAt(outcome, |ids|), before, after)
    decreases |ids| - i
  {
    hide Halfway, Lawful, KeyBinding, Distinct, OwnIvs;
    if i < |ids| && Ready(r, wraps, ids[i]) {
      NotTwice(r, ids, i, before, wraps);
      HalfwayStep(r, ids, i, before, wraps);
      OwnIvsStep(r, ids, i, before, wraps);
      var key := r.suite.unwrap(r.oldKey, Get(wraps, WrapKey(ids[i]))).value;
      RewrapUsesOwnIvs(r, ids, i + 1, before, wraps[WrapKey(ids[i]) := r.suite.wrap(r.newKey, r.ivs(i), key)]);
    }
  }

  // ---- Which way the call ends ----

  ghost predicate AllNew(r: Rotation, ids: seq<string>, n: nat, wraps: Wraps)
    requires n <= |ids|
  {
    forall k :: 0 <= k < n ==> NewAndReady(r, ids, k, wraps)
  }

  /** The ids before n go through, and there is no wrap for ids[n]. */
  ghost predicate MissingAt(r: Rotation, ids: seq<string>, n: nat, wraps: Wraps) {
    n < |ids| && AllNew(r, ids, n, wraps) && Get(wraps, WrapKey(ids[n])) == []
  }

  /** The ids before n go through; the wrap of ids[n] is not under the old key, or will not be when its turn comes. */
  ghost predicate StuckAt(r: Rotation, ids: seq<string>, n: nat, wraps: Wraps) {
    && n < |ids| && AllNew(r, ids, n, wraps) && Get(wraps, WrapKey(ids[n])) != []
    && (r.suite.unwrap(r.oldKey, Get(wraps, WrapKey(ids[n]))).None? || Listed(ids, n, WrapKey(ids[n])))
  }

  /** One turn of the loop: which of the three ways it takes. */
  lemma TurnIs(r: Rotation, ids: seq<string>, i: nat, before: Wraps, wraps: Wraps)
    requires KeyBinding(r.suite) && EmptyWrapFails(r.suite) && r.oldKey != r.newKey
    requires i < |ids| && Halfway(r, ids, i, before, wraps) && AllNew(r, ids, i, before)
    ensures var wrap := Get(wraps, WrapKey(ids[i]));
            && (wrap == [] <==> MissingAt(r, ids, i, before))
            && (wrap != [] && r.suite.unwrap(r.oldKey, wrap).None? <==> StuckAt(r, ids, i, before))
            && (Ready(r, wraps, ids[i]) <==> NewAndReady(r, ids, i, before))
  {
    var name := WrapKey(ids[i]);
    if Listed(ids, i, name) {
      var j :| 0 <= j < i && WrapKey(ids[j]) == name;
      assert Moved(r, WrapKey(ids[j]), before, wraps);
      assert wraps[name] != [];
    } else {
      assert Get(wraps, name) == Get(before, name);
    }
  }

  lemma PastIsOver(r: Rotation, ids: seq<string>, i: nat, n: nat, wraps: Wraps)
    requires n < i <= |ids| && AllNew(r, ids, i, wraps)
    ensures !MissingAt(r, ids, n, wraps) && !StuckAt(r, ids, n, wraps)
  {
    assert NewAndReady(r, ids, n, wraps);
  }

  lemma FutureIsOff(r: Rotation, ids: seq<string>, i: nat, n: nat, wraps: Wraps)
    requires i < n && i < |ids| && !NewAndReady(r, ids, i, wraps)
    ensures !MissingAt(r, ids, n, wraps) && !StuckAt(r, ids, n, wraps)
  {
  }

  lemma NoneBehind(r: Rotation, ids: seq<string>, n: nat, wraps: Wraps)
    ensures n >= |ids| ==> !MissingAt(r, ids, n, wraps) && !StuckAt(r, ids, n, wraps)
  {
  }

  lemma {:induction false} OutcomeFrom(r: Rotation, ids: seq<string>, i: nat, n: nat, before: Wraps, wraps: Wraps)
    requires Lawful(r.suite) && KeyBinding(r.suite) && EmptyWrapFails(r.suite) && r.oldKey != r.newKey
    requires i <= |ids| && Halfway(r, ids, i, before, wraps) && AllNew(r, ids, i, before)
    ensures var outcome := RewrapFrom(r, ids, i, wraps).0;
            && (outcome == MissingWrap(n) <==> MissingAt(r, ids, n, before))
            && (outcome == NeverOpens(n) <==> StuckAt(r, ids, n, before))
    decreases |ids| - i
  {
    hide Halfway, Lawful, KeyBinding, EmptyWrapFails, Listed, WrapKey, NewAndReady, StuckAt, MissingAt;
    if n < i { PastIsOver(r, ids, i, n, before); }
    if i == |ids| {
      NoneBehind(r, ids, n, before);
    } else {
      TurnIs(r, ids, i, before, wraps);
      if i < n && !NewAndReady(r, ids, i, before) { FutureIsOff(r, ids, i, n, before); }
      if Ready(r, wraps, ids[i]) {
        if n == i { PastIsOver(r, ids, i + 1, n, before); }
        NotTwice(r, ids, i, before, wraps);
        HalfwayStep(r, ids, i, before, wraps);
        var key := r.suite.unwrap(r.oldKey, Get(wraps, WrapKey(ids[i]))).value;
        OutcomeFrom(r, ids, i + 1, n, before, wraps[WrapKey(ids[i]) := r.suite.wrap(r.newKey, r.ivs(i), key)]);
      }
    }
  }

  /**
   The exact exit, on the store before the call. It returns failure at id n exactly when the ids before n go
   through and id n has no wrap. It retries id n for ever exactly when the ids before n go through and id n has
   a wrap that is not under the old key, or was listed before.
   */
  lemma OutcomeIs(r: Rotation, ids: seq<string>, wraps: Wraps, n: nat)
    requires Lawful(r.suite) && KeyBinding(r.suite) && EmptyWrapFails(r.suite) && r.oldKey != r.newKey
    ensures RewrapFrom(r, ids, 0, wraps).0 == MissingWrap(n) <==> MissingAt(r, ids, n, wraps)
    ensures RewrapFrom(r, ids, 0, wraps).0 == NeverOpens(n) <==> StuckAt(r, ids, n, wraps)
  {
    OutcomeFrom(r, ids, 0, n, wraps, wraps);
  }

  /** The call returns at all exactly when no id stops it for ever. */
  lemma ReturnsIff(r: Rotation, ids: seq<string>, wraps: Wraps)
    requires Lawful(r.suite) && KeyBinding(r.suite) && EmptyWrapFails(r.suite) && r.oldKey != r.newKey
    ensures !RewrapFrom(r, ids, 0, wraps).0.NeverOpens? <==> forall n :: 0 <= n < |ids| ==> !StuckAt(r, ids, n, wraps)
  {
    hide StuckAt, MissingAt, Lawful, KeyBinding;
    var outcome := RewrapFrom(r, ids, 0, wraps).0;
    forall n | 0 <= n < |ids| ensures outcome == NeverOpens(n) <==> StuckAt(r, ids, n, wraps) {
      OutcomeIs(r, ids, wraps, n);
    }
    if outcome.NeverOpens? {
      OutcomeIs(r, ids, wraps, outcome.at);
      StuckInList(r, ids, outcome.at, wraps);
    }
  }

  lemma StuckInList(r: Rotation, ids: seq<string>, n: nat, wraps: Wraps)
    requires StuckAt(r, ids, n, wraps)
    ensures n < |ids|
  {
  }

  /**
   Safe at every exit: whichever way the call ends, a data key that a live root key could recover before it
   can be recovered after it; an unlisted record under the old key is the only exception, and only at the
   normal end.
   */
  lemma EveryExitIsRecoverable(r: Rotation, ids: seq<string>, live: set<Handle>, wraps: Wraps, name: string,
                               h: Handle, key: AEKey)
    requires Lawful(r.suite) && (Distinct(ids) || KeyBinding(r.suite))
    requires r.oldKey in live && r.newKey !in live && h in live
    requires name in wraps && r.suite.unwrap(h, wraps[name]) == Some(key)
    requires KeyBinding(r.suite) || h == r.oldKey || !Listed(ids, |ids|, name)
    ensures var (outcome, after) := RewrapFrom(r, ids, 0, wraps);
            h != r.oldKey || !outcome.Finished? || Listed(ids, |ids|, name) ==>
              Recoverable(r.suite, LiveAfter(outcome, live, r), after, name, key)
  {
    RewrapKeepsHalfway(r, ids, 0, wraps, wraps);
    var (outcome, after) := RewrapFrom(r, ids, 0, wraps);
    var n := StopsAt(outcome, |ids|);
    if Listed(ids, n, name) {
      var j :| 0 <= j < n && WrapKey(ids[j]) == name;
      assert Moved(r, WrapKey(ids[j]), wraps, after);
      assert Listed(ids, |ids|, name);
      assert h == r.oldKey;
      assert r.suite.unwrap(r.newKey, after[name]) == Some(key);
    } else {
      assert after[name] == wraps[name];
      assert r.suite.unwrap(h, after[name]) == Some(key);
    }
  }

  /** After the normal end a record that was under the old key can be recovered if and only if it was listed. */
  lemma RecoverableIffListed(r: Rotation, ids: seq<string>, live: set<Handle>, wraps: Wraps, name: string, key: AEKey)
    requires Lawful(r.suite) && KeyBinding(r.suite) && r.oldKey in live && r.newKey !in live
    requires name in wraps && r.suite.unwrap(r.oldKey, wraps[name]) == Some(key)
    requires RewrapFrom(r, ids, 0, wraps).0.Finished?
    ensures Recoverable(r.suite, LiveAfter(Finished, live, r), RewrapFrom(r, ids, 0, wraps).1, name, key)
            <==> Listed(ids, |ids|, name)
  {
    EveryExitIsRecoverable(r, ids, live, wraps, name, r.oldKey, key);
    RewrapKeepsHalfway(r, ids, 0, wraps, wraps);
  }

  // ---- Downloads by the stored root version ----

  /** The HSM opens a wrap under a handle only while the key behind it is live. */
  function HsmUnwrap(s: Suite, live: set<Handle>, h: Handle, wrap: Bytes): Option<AEKey> {
    if h in live then s.unwrap(h, wrap) else None
  }

  /**
   The loop rewrites the wraps and nothing else. A download that goes by the root version stored beside a
   record therefore gets the data key exactly when that version names the key the record is now under: the new
   key for the ids passed, the old one for the others. After the normal end a root version that still names the
   old key opens no listed record.
   */
  lemma OpensUnderStoredVersionIff(r: Rotation, ids: seq<string>, live: set<Handle>, wraps: Wraps, name: string,
                                   key: AEKey, h: Handle)
    requires Lawful(r.suite) && KeyBinding(r.suite) && r.oldKey in live && r.newKey !in live
    requires name in wraps && HsmUnwrap(r.suite, live, r.oldKey, wraps[name]) == Some(key)
    requires Listed(ids, |ids|, name)
    ensures var (outcome, after) := RewrapFrom(r, ids, 0, wraps);
            var n := StopsAt(outcome, |ids|);
            && n <= |ids| && name in after
            && (HsmUnwrap(r.suite, LiveAfter(outcome, live, r), h, after[name]) == Some(key)
                <==> h == if Listed(ids, n, name) then r.newKey else r.oldKey)
            && (outcome.Finished? ==> HsmUnwrap(r.suite, LiveAfter(outcome, live, r), r.oldKey, after[name]).None?)
  {
    RewrapKeepsHalfway(r, ids, 0, wraps, wraps);
    var (outcome, after) := RewrapFrom(r, ids, 0, wraps);
    var n := StopsAt(outcome, |ids|);
    if Listed(ids, n, name) {
      var j :| 0 <= j < n && WrapKey(ids[j]) == name;
      assert Moved(r, WrapKey(ids[j]), wraps, after);
    }
  }
}
