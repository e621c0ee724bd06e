/**
 The hypothesis on the update window is needed, and exactly that hypothesis: a committed UP_UPDATE leaves
 its record decryptable if and only if no commit on the id came between the updater's download and the
 server's first read. The server itself compares versions only from that first read on.
 */
module UpdateWindow {
  import opened Common
  import opened Crypto
  import opened NestedAE
  import opened Protocol
  import opened Decryptability

  /** The payload key of the outermost layer, as a holder of the root key reads it. */
  function PayloadKey(s: Suite, root: Handle, wrap: Bytes, hat: Hat): Option<Bytes> {
    var key := s.unwrap(root, wrap);
    if key.None? then None
    else
      var meta := OpenHat(s, key.value, hat);
      if meta.None? then None else Some(meta.value.payloadKey)
  }

  /** Payload keys are drawn afresh: two versions of a record never share one. */
  ghost predicate FreshKeys(s: Suite, snap: Snapshot, rec: Record) {
    snap.version != rec.version ==>
      PayloadKey(s, snap.root, snap.wrap, snap.hat) != PayloadKey(s, rec.root, rec.wrap, rec.hat)
  }

  /** A payload opens under one key only. */
  lemma OtherKeyFails(s: Suite, payload: Bytes, longer: Bytes, k: Bytes, k': Bytes, historyKey: Bytes)
    requires KeyBinding(s) && |k| == |k'| == KEY_LEN && k != k'
    requires |payload| >= HEADER && |longer| >= HEADER && payload[..HEADER] == longer[..HEADER]
    requires OpenPayload(s, longer, k).Some?
    ensures Peel(s, payload, k', historyKey) == Failed
  {
    assert payload[..16] == payload[..HEADER][..16] == longer[..16];
    assert payload[16..32] == payload[..HEADER][16..32] == longer[16..32];
  }

  /** What the decryption of a committed update comes down to: the stored payload under the key in the download. */
  lemma UpdatedPeelsStored(s: Suite, newKey: AEKey, prior: Meta, delta: Delta, ct: Bytes, coins: ReKeyCoins, iv: Bytes)
    requires Lawful(s) && ValidReKeyCoins(coins) && coins.historyKey != Zeros(KEY_LEN) && |iv| == IV_LEN
    requires |prior.payloadKey| == |prior.historyKey| == KEY_LEN && |ct| < INT_LIMIT
    requires delta == Delta(SealHat(s, newKey, coins.hatIv, NewMeta(prior, coins)), HistoryBlock(s, prior, coins),
                            prior.length, coins.payloadKey, coins.seed)
    requires ReEncrypt(s, delta, ct, iv).Done?
    ensures var r := ReEncrypt(s, delta, ct, iv);
            Decrypt(s, newKey, r.hat, r.ct) == Peel(s, ct[..HEADER + prior.length], prior.payloadKey, prior.historyKey)
  {
    var below := ct[..HEADER + prior.length];
    var c := s.seal(coins.payloadKey, iv, below + delta.history);
    LayerPeels(s, below, prior, coins, iv);
    SealedHatOpens(s, newKey, coins.hatIv, NewMeta(prior, coins));
    var r := ReEncrypt(s, delta, ct, iv);
    var layer := iv + c.tag + c.data;
    var pad := s.keystream(coins.seed, |ct| - (HEADER + prior.length + LAYER));
    Halves(layer, pad);
    assert r.ct == layer + pad;
  }

  /** The stored payload does not open under a key other than its own, at any length. */
  lemma StoredPeelsUnderOwnKey(s: Suite, stored: Stored, message: Bytes, k: nat, prior: Meta)
    requires KeyBinding(s) && Holds(s, stored, message, k)
    requires |prior.payloadKey| == KEY_LEN && 0 <= prior.length <= |stored.ct| - HEADER
    requires prior.payloadKey != OpenHat(s, stored.key, stored.hat).value.payloadKey
    ensures Peel(s, stored.ct[..HEADER + prior.length], prior.payloadKey, prior.historyKey) == Failed
  {
    var meta := OpenHat(s, stored.key, stored.hat).value;
    OtherKeyFails(s, stored.ct[..HEADER + prior.length], stored.ct[..HEADER + meta.length], meta.payloadKey,
                  prior.payloadKey, prior.historyKey);
  }

  /** The server can re-encrypt what it read with what it was sent. */
  ghost predicate GoesThrough(s: Suite, task: Task, iv: Bytes)
    requires task.UpdatePending?
  {
    var update := MakeUpdate(s, task.snap, task.coins);
    update.Some? && ReEncrypt(s, update.value.1, task.data, iv).Done?
  }

  /** An update built from another version of the record destroys it. */
  lemma StaleUpdateFails(s: Suite, e: Entry, task: Task, iv: Bytes, out: Buffers)
    requires Lawful(s) && KeyBinding(s) && Readable(s, e) && |iv| == IV_LEN
    requires task.UpdatePending? && ValidUpdateCoins(task.coins) && task.data == e.rec.data
    requires CommitUpdate(s, e, task, iv, out).Some? && GoesThrough(s, task, iv)
    requires PayloadKey(s, task.snap.root, task.snap.wrap, task.snap.hat)
             != PayloadKey(s, e.rec.root, e.rec.wrap, e.rec.hat)
    ensures Download(s, CommitUpdate(s, e, task, iv, out).value.rec) == Failed
  {
    var oldKey := s.unwrap(task.snap.root, task.snap.wrap).value;
    var prior := OpenHat(s, oldKey, task.snap.hat).value;
    var stored := Stored(s.unwrap(e.rec.root, e.rec.wrap).value, e.rec.hat, e.rec.data);
    var (wrap, delta) := MakeUpdate(s, task.snap, task.coins).value;
    HoldsSize(s, stored, e.message, e.layers);
    UpdatedPeelsStored(s, task.coins.newKey, prior, delta, e.rec.data, task.coins.reKey, iv);
    StoredPeelsUnderOwnKey(s, stored, e.message, e.layers, prior);
    hide Peel, Decrypt, ReKeyGen, Carries;
    assert s.unwrap(task.snap.root, wrap) == Some(task.coins.newKey);
  }

  /** The exact condition, in terms of version numbers alone. */
  lemma CommitDecryptsIff(s: Suite, st: State, tid: nat, iv: Bytes, out: Buffers)
    requires Lawful(s) && KeyBinding(s) && Fits(st) && UpdateReady(st, tid) && |iv| == IV_LEN
    requires var task := st.threads[tid];
             var e := st.store[task.snap.id];
             && OwnsCounter(task.snap.id)
             && Readable(s, e)
             && ValidUpdateCoins(task.coins)
             && FreshKeys(s, task.snap, e.rec)
             && CommitUpdate(s, e, task, iv, out).Some?
             && GoesThrough(s, task, iv)
    ensures var task := st.threads[tid];
            var e := st.store[task.snap.id];
            (Download(s, CommitUpdate(s, e, task, iv, out).value.rec) == Plain(e.message))
            <==> task.snap.version == task.version
  {
    var task := st.threads[tid];
    var e := st.store[task.snap.id];
    assert TaskFits(st.store, task);
    if task.snap.version == task.version {
      UpdateIsReadable(s, e, task, iv, out);
      var rec := CommitUpdate(s, e, task, iv, out).value.rec;
      HeldMessageDecrypts(s, Stored(s.unwrap(rec.root, rec.wrap).value, rec.hat, rec.data), e.message, e.layers + 1);
    } else {
      StaleUpdateFails(s, e, task, iv, out);
    }
  }

  // ---- A run that leaves the window open ----

  /** Download for an update, then a whole SETALL, then the update. */
  function StaleRun(req: SetRequest, coins: UpdateCoins, iv: Bytes, out: Buffers): seq<Action> {
    [GetForUpdate(req.id), SetCheck(0, req), SetCommit(0), UpdateRead(0, 0, coins), UpdateCommit(0, iv, out)]
  }

  lemma RunCons(s: Suite, st: State, a: Action, rest: seq<Action>, id: Id)
    ensures Run(s, st, [a] + rest) == Run(s, Step(s, st, a), rest)
    ensures !a.SetCommit? ==> LastSet(s, st, [a] + rest, id) == LastSet(s, Step(s, st, a), rest, id)
  {
    assert ([a] + rest)[1..] == rest;
  }

  lemma StaleRunStates(s: Suite, st: State, req: SetRequest, coins: UpdateCoins, iv: Bytes, out: Buffers)
    requires req.id in st.store && |st.threads| > 0 && st.threads[0] == Idle && st.snapshots == []
    requires req.root == st.root && OwnsCounter(req.id)
    ensures var prior := st.store[req.id];
            var e := CommitSet(s, prior, req);
            var task := UpdatePending(TakeSnapshot(req.id, prior.rec), coins, e.rec.version, e.rec.hat, e.rec.data);
            var committed := CommitUpdate(s, e, task, iv, out);
            && Run(s, st, StaleRun(req, coins, iv, out)).store
               == st.store[req.id := if committed.Some? then committed.value else e]
            && LastSet(s, st, StaleRun(req, coins, iv, out), req.id) == Some(req)
  {
    hide Upload, CommitUpdate, CounterOf;
    var acts := StaleRun(req, coins, iv, out);
    var id := req.id;
    var st1 := Step(s, st, acts[0]);
    var st2 := Step(s, st1, acts[1]);
    var st3 := Step(s, st2, acts[2]);
    var st4 := Step(s, st3, acts[3]);
    var st5 := Step(s, st4, acts[4]);
    assert acts == [acts[0]] + ([acts[1]] + ([acts[2]] + ([acts[3]] + ([acts[4]] + []))));
    RunCons(s, st, acts[0], [acts[1]] + ([acts[2]] + ([acts[3]] + ([acts[4]] + []))), id);
    RunCons(s, st1, acts[1], [acts[2]] + ([acts[3]] + ([acts[4]] + [])), id);
    RunCons(s, st2, acts[2], [acts[3]] + ([acts[4]] + []), id);
    RunCons(s, st3, acts[3], [acts[4]] + [], id);
    RunCons(s, st4, acts[4], [], id);
    assert SetReady(st2, 0) && st2.threads[0].req == req;
  }

  /** The header of an upload opens under the wrapped key to the drawn payload key and the message length. */
  lemma UploadOpens(s: Suite, req: SetRequest, iv: Bytes)
    requires Lawful(s) && ValidRequest(req)
    ensures var hat := Encrypt(s, req.key, req.message, req.coins).0;
            && OpenHat(s, req.key, hat)
               == Some(Meta(req.coins.seed, req.coins.payloadKey, Zeros(KEY_LEN), |req.message|))
            && PayloadKey(s, req.root, s.wrap(req.root, iv, req.key), hat) == Some(req.coins.payloadKey)
  {
    SealedHatOpens(s, req.key, req.coins.hatIv,
                   Meta(req.coins.seed, req.coins.payloadKey, Zeros(KEY_LEN), |req.message|));
  }

  /** An update made from an earlier upload commits on a later one, and destroys it. */
  lemma StaleUploadFails(s: Suite, first: SetRequest, prior: Entry, req: SetRequest, coins: UpdateCoins, iv: Bytes,
                         out: Buffers)
    requires Lawful(s) && KeyBinding(s) && ValidRequest(first) && ValidRequest(req)
    requires prior.rec.root == first.root && prior.rec.wrap == s.wrap(first.root, first.wrapIv, first.key)
    requires prior.rec.hat == Encrypt(s, first.key, first.message, first.coins).0
    requires req.coins.payloadKey != first.coins.payloadKey
    requires |first.message| + LAYER <= |req.message| + req.key.t * LAYER
    requires ValidUpdateCoins(coins) && |iv| == IV_LEN
    ensures var e := CommitSet(s, prior, req);
            var task := UpdatePending(TakeSnapshot(req.id, prior.rec), coins, e.rec.version, e.rec.hat, e.rec.data);
            var committed := CommitUpdate(s, e, task, iv, out);
            && committed.Some?
            && committed.value.rec.version == prior.rec.version + 2
            && Download(s, committed.value.rec) == Failed
  {
    var e := CommitSet(s, prior, req);
    var task := UpdatePending(TakeSnapshot(req.id, prior.rec), coins, e.rec.version, e.rec.hat, e.rec.data);
    UploadOpens(s, first, first.wrapIv);
    UploadOpens(s, req, req.wrapIv);
    UploadedHolds(s, req.key, req.message, req.coins);
    SetIsReadable(s, prior, req);
    hide Peel, Encrypt, Readable, Decrypt, Holds;
    var update := MakeUpdate(s, task.snap, coins);
    assert update.Some? && update.value.1.length == |first.message|;
    assert ReEncrypt(s, update.value.1, e.rec.data, iv).Done?;
    StaleUpdateFails(s, e, task, iv, out);
  }

  /**
   The window hypothesis cannot be dropped, even for an id that owns its counter. Take any populated store,
   any update downloaded from it, and any new message uploaded under the current root key in between. Every
   check the server makes passes, the update commits, and the new message can no longer be decrypted.
   */
  lemma WindowIsNeeded(s: Suite, ids: set<Id>, populated: SetRequest, threads: nat, req: SetRequest,
                       coins: UpdateCoins, iv: Bytes, out: Buffers)
    requires Lawful(s) && KeyBinding(s)
    requires ValidRequest(populated) && populated.key.t > 0 && threads > 0
    requires ValidRequest(req) && req.id in ids && OwnsCounter(req.id) && req.root == populated.root
    requires req.coins.payloadKey != populated.coins.payloadKey
    requires |populated.message| + LAYER <= |req.message| + req.key.t * LAYER
    requires ValidUpdateCoins(coins) && |iv| == IV_LEN
    ensures var init := PopulatedState(s, ids, populated, threads);
            var acts := StaleRun(req, coins, iv, out);
            var after := Run(s, init, acts).store;
            && ExpectedMessage(s, init, acts, req.id) == req.message
            && req.id in after
            && after[req.id].rec.version == 2
            && Download(s, after[req.id].rec) == Failed
  {
    var init := PopulatedState(s, ids, populated, threads);
    var prior := init.store[req.id];
    hide Encrypt, Download, CommitUpdate;
    StaleRunStates(s, init, req, coins, iv, out);
    StaleUploadFails(s, populated, prior, req, coins, iv, out);
  }

  // ---- A run that keeps the window closed ----

  /** Download for an update, then the update. */
  function FreshRun(id: Id, coins: UpdateCoins, iv: Bytes, out: Buffers): seq<Action> {
    [GetForUpdate(id), UpdateRead(0, 0, coins), UpdateCommit(0, iv, out)]
  }

  lemma FreshRunStates(s: Suite, st: State, id: Id, coins: UpdateCoins, iv: Bytes, out: Buffers)
    requires id in st.store && |st.threads| > 0 && st.threads[0] == Idle && st.snapshots == []
    requires ValidUpdateCoins(coins) && |iv| == IV_LEN
    requires HasRoom(st.store[id].message, st.store[id].rec.data, st.store[id].layers)
    ensures var e := st.store[id];
            var task := UpdatePending(TakeSnapshot(id, e.rec), coins, e.rec.version, e.rec.hat, e.rec.data);
            var committed := CommitUpdate(s, e, task, iv, out);
            && DisciplinedRun(s, st, FreshRun(id, coins, iv, out))
            && Run(s, st, FreshRun(id, coins, iv, out)).store
               == st.store[id := if committed.Some? then committed.value else e]
  {
    hide HasRoom;
    var acts := FreshRun(id, coins, iv, out);
    var st1 := Step(s, st, acts[0]);
    var st2 := Step(s, st1, acts[1]);
    assert acts == [acts[0]] + ([acts[1]] + ([acts[2]] + []));
    RunCons(s, st, acts[0], [acts[1]] + ([acts[2]] + []), id);
    RunCons(s, st1, acts[1], [acts[2]] + [], id);
    RunCons(s, st2, acts[2], [], id);
    DisciplinedCons(s, st2, acts[2], []);
    DisciplinedCons(s, st1, acts[1], [acts[2]] + []);
    DisciplinedCons(s, st, acts[0], [acts[1]] + ([acts[2]] + []));
  }

  lemma DisciplinedCons(s: Suite, st: State, a: Action, rest: seq<Action>)
    ensures DisciplinedRun(s, st, [a] + rest) <==> Disciplined(st, a) && DisciplinedRun(s, Step(s, st, a), rest)
  {
    assert ([a] + rest)[1..] == rest;
  }

  /**
   The discipline asks for nothing an honest updater cannot give. On any store populated for at least two
   re-encryptions, a download followed by its update is a disciplined run; the update commits, and the
   record holds the populated message under one more layer.
   */
  lemma FreshUpdateGoesThrough(s: Suite, ids: set<Id>, populated: SetRequest, threads: nat, id: Id,
                               coins: UpdateCoins, iv: Bytes, out: Buffers)
    requires Lawful(s) && ValidRequest(populated) && populated.key.t >= 2 && threads > 0 && id in ids
    requires ValidUpdateCoins(coins) && |iv| == IV_LEN
    ensures var init := PopulatedState(s, ids, populated, threads);
            var after := Run(s, init, FreshRun(id, coins, iv, out)).store;
            && DisciplinedRun(s, init, FreshRun(id, coins, iv, out))
            && id in after
            && after[id].rec.version == 1
            && after[id].layers == 1
            && Download(s, after[id].rec) == Plain(populated.message)
  {
    var init := PopulatedState(s, ids, populated, threads);
    var e := init.store[id];
    PopulatedHolds(s, populated.key, populated.message, populated.coins);
    hide Populated, Decrypt, Holds, OpenHat, ReEncrypt, ReKeyGen;
    assert HasRoom(e.message, e.rec.data, e.layers);
    FreshRunStates(s, init, id, coins, iv, out);
    assert Readable(s, e);
    UpdateDownloads(s, e, id, coins, iv, out);
  }

  /** A whole SETALL, and then an update made from what it has stored. */
  function SetThenUpdate(req: SetRequest, coins: UpdateCoins, iv: Bytes, out: Buffers): seq<Action> {
    [SetCheck(0, req)] + ([SetCommit(0)] + FreshRun(req.id, coins, iv, out))
  }

  lemma RoomAfterUpload(s: Suite, e: Entry, req: SetRequest)
    requires Lawful(s) && ValidRequest(req) && req.key.t >= 1
    ensures HasRoom(req.message, CommitSet(s, e, req).rec.data, 0)
  {
    UploadedHolds(s, req.key, req.message, req.coins);
  }

  /** What a whole SETALL by a free thread comes to. */
  lemma SetStates(s: Suite, st: State, req: SetRequest, rest: seq<Action>)
    requires Known(st.store, req.id) && OwnsCounter(req.id) && req.root == st.root && ValidRequest(req)
    requires |st.threads| > 0 && st.threads[0] == Idle
    ensures var acts := [SetCheck(0, req)] + ([SetCommit(0)] + rest);
            var after := st.(store := st.store[req.id := CommitSet(s, st.store[req.id], req)]);
            && Run(s, st, acts) == Run(s, after, rest)
            && (DisciplinedRun(s, st, acts) <==> DisciplinedRun(s, after, rest))
  {
    hide Upload, CounterOf, ValidRequest;
    var one := Step(s, st, SetCheck(0, req));
    var two := Step(s, one, SetCommit(0));
    RunCons(s, st, SetCheck(0, req), [SetCommit(0)] + rest, req.id);
    RunCons(s, one, SetCommit(0), rest, req.id);
    DisciplinedCons(s, st, SetCheck(0, req), [SetCommit(0)] + rest);
    DisciplinedCons(s, one, SetCommit(0), rest);
    assert two.threads == st.threads;
  }

  /** A committed update of a record that is as it was downloaded, in terms of what a download gives. */
  lemma UpdateDownloads(s: Suite, e: Entry, id: Id, coins: UpdateCoins, iv: Bytes, out: Buffers)
    requires Lawful(s) && Readable(s, e) && HasRoom(e.message, e.rec.data, e.layers)
    requires ValidUpdateCoins(coins) && |iv| == IV_LEN
    ensures var task := UpdatePending(TakeSnapshot(id, e.rec), coins, e.rec.version, e.rec.hat, e.rec.data);
            var committed := CommitUpdate(s, e, task, iv, out);
            && committed.Some? && committed.value.rec.version == e.rec.version + 1
            && committed.value.layers == e.layers + 1
            && Download(s, committed.value.rec) == Plain(e.message)
  {
    var task := UpdatePending(TakeSnapshot(id, e.rec), coins, e.rec.version, e.rec.hat, e.rec.data);
    UpdateIsReadable(s, e, task, iv, out);
    hide Decrypt, Holds, OpenHat, ReEncrypt, ReKeyGen;
    var rec := CommitUpdate(s, e, task, iv, out).value.rec;
    HeldMessageDecrypts(s, Stored(s.unwrap(rec.root, rec.wrap).value, rec.hat, rec.data), e.message, e.layers + 1);
  }

  /**
   An upload made for at least one re-encryption, and its update right after: a disciplined run, at whose end
   the record holds the new message under one layer, two versions on.
   */
  lemma SetThenUpdateGoesThrough(s: Suite, st: State, req: SetRequest, coins: UpdateCoins, iv: Bytes, out: Buffers)
    requires Lawful(s) && Known(st.store, req.id) && OwnsCounter(req.id) && req.root == st.root
    requires |st.threads| > 0 && st.threads[0] == Idle && st.snapshots == []
    requires ValidRequest(req) && req.key.t >= 1 && ValidUpdateCoins(coins) && |iv| == IV_LEN
    ensures var acts := SetThenUpdate(req, coins, iv, out);
            var after := Run(s, st, acts).store;
            && DisciplinedRun(s, st, acts)
            && req.id in after
            && after[req.id].rec.version == st.store[req.id].rec.version + 2
            && after[req.id].layers == 1
            && Download(s, after[req.id].rec) == Plain(req.message)
  {
    hide Readable, HasRoom, Download, CommitUpdate, FreshRun, CounterOf, Encrypt, Run, DisciplinedRun, Step;
    hide Lawful, ValidRequest, ValidUpdateCoins;
    var e := CommitSet(s, st.store[req.id], req);
    var two := st.(store := st.store[req.id := e]);
    SetIsReadable(s, st.store[req.id], req);
    RoomAfterUpload(s, st.store[req.id], req);
    SetStates(s, st, req, FreshRun(req.id, coins, iv, out));
    FreshRunStates(s, two, req.id, coins, iv, out);
    UpdateDownloads(s, e, req.id, coins, iv, out);
  }
}
