/**
 Why the protocol needs ids without an underscore. A SETALL finds its version counter behind the last
 underscore of a key. For an id that holds one, this is the counter of another id: its own stays as it is,
 and an UP_UPDATE that was read before the SETALL commits over it. Everything here is an equivalence with
 the id owning its counter: it is not empty and holds no underscore.
 */
module Underscores {
  import opened Common
  import opened Crypto
  import opened NestedAE
  import opened Protocol
  import opened Decryptability
  import opened ServerRefinement
  import opened UpdateWindow
  import Decimal
  import Server
  import Wire

  /** A SETALL advances the version of its own record exactly when the id has no underscore. */
  lemma SetAdvancesOwnVersionIff(s: Suite, store: map<Id, Entry>, req: SetRequest)
    requires Known(store, req.id)
    ensures var (before, after) := (store[req.id].rec.version, SetStore(s, store, req)[req.id].rec.version);
            && (after == before + 1 <==> OwnsCounter(req.id))
            && (after == before <==> !OwnsCounter(req.id))
  {
  }

  predicate AdvancesAt(before: map<Id, Entry>, after: map<Id, Entry>, id: Id) {
    id in before && id in after && (after[id] == before[id] || after[id].rec.version == before[id].rec.version + 1)
  }

  /** So the law of `Advances` holds of the record that a SETALL replaces exactly when the record owns its counter. */
  lemma SetStepAdvancesIff(s: Suite, st: State, tid: nat)
    requires SetReady(st, tid)
    requires CommitSet(s, st.store[st.threads[tid].req.id], st.threads[tid].req).rec.data
             != st.store[st.threads[tid].req.id].rec.data
    ensures var id := st.threads[tid].req.id;
            AdvancesAt(st.store, Step(s, st, SetCommit(tid)).store, id) <==> OwnsCounter(id)
  {
    hide Encrypt, CounterOf;
    var req := st.threads[tid].req;
    SetAdvancesOwnVersionIff(s, st.store, req);
    var after := Step(s, st, SetCommit(tid)).store;
    assert after[req.id].rec.data == CommitSet(s, st.store[req.id], req).rec.data;
    assert req.id in st.store;
  }

  // ---- On the texts of the server ----

  /** What an UP_UPDATE has read, when a SETALL on the same id has been committed since. */
  lemma SetAllBlocksUpdateIff(c: Codec, db: Server.Db, id: Id, up: Record, v: nat, w: nat)
    requires LawfulCodec(c)
    requires Key(CtxtVersion, id) in db && db[Key(CtxtVersion, id)] == Decimal.Text(v)
    requires Key(CtxtVersion, CounterOf(id)) in db && db[Key(CtxtVersion, CounterOf(id))] == Decimal.Text(w)
    ensures var words := UploadWords(c, id, up);
            && Server.RootCheck(c.rootText(up.root), words, 0) == Some(CounterOf(id))
            && var after := Server.SetAllStore(db, words, CounterOf(id));
            && Key(CtxtVersion, id) in after
            && (Decimal.SameText(after[Key(CtxtVersion, id)], Decimal.Text(v)) <==> !OwnsCounter(id))
  {
    var counter := CounterOf(id);
    CheckRefines(c, up.root, id, up);
    UploadWrites(c, db, id, up, counter, w);
    KindsDiffer(id);
    KeysDiffer(CtxtVersion, id, CtxtVersion, counter);
    hide Key, Encoded, UploadWords, CounterOf, Server.SetAllStore;
    Decimal.SameTextIsEquality(v, v);
    Decimal.SameTextIsEquality(w + 1, v);
    if counter == id {
      Decimal.SameTextIsEquality(v, w);
      assert Decimal.SameText(Decimal.Text(v), Decimal.Text(w));
    }
  }

  /**
   The lost update, on the store as it is. An UP_UPDATE has read the version of an id; a SETALL on that id
   commits; then the UP_UPDATE commits. It leaves the SETALL alone exactly when the id has no underscore;
   otherwise the wrap, header and data that the SETALL wrote are overwritten.
   */
  lemma LateUpdateOverwritesIff(c: Codec, db: Server.Db, id: Id, up: Record, v: nat, w: nat, texts: Server.UpdateTexts)
    requires LawfulCodec(c) && texts.data != Encoded(c, Data, up)
    requires Key(CtxtVersion, id) in db && db[Key(CtxtVersion, id)] == Decimal.Text(v)
    requires Key(CtxtVersion, CounterOf(id)) in db && db[Key(CtxtVersion, CounterOf(id))] == Decimal.Text(w)
    ensures var stored := Server.SetAllStore(db, UploadWords(c, id, up), CounterOf(id));
            && Key(CtxtVersion, id) in stored
            && var final := Server.UpdateStore(stored, UpdateKeysOf(id), texts, db[Key(CtxtVersion, id)]);
            && (final == stored <==> OwnsCounter(id))
            && (!OwnsCounter(id) ==>
                  && Key(Wrap, id) in final && final[Key(Wrap, id)] == texts.wrap
                  && Key(Header, id) in final && final[Key(Header, id)] == texts.header
                  && Key(Data, id) in final && final[Key(Data, id)] == texts.data)
  {
    SetAllBlocksUpdateIff(c, db, id, up, v, w);
    UploadWrites(c, db, id, up, CounterOf(id), w);
    KindsDiffer(id);
    hide Key, Encoded, UploadWords, CounterOf, Server.SetAllStore, Decimal.SameText;
    var stored := Server.SetAllStore(db, UploadWords(c, id, up), CounterOf(id));
    assert stored[Key(Data, id)] == Encoded(c, Data, up);
  }

  // ---- On whole runs ----

  /** An update is downloaded and read by thread 0; thread 1 runs a whole SETALL; the update commits. */
  function LateRun(req: SetRequest, coins: UpdateCoins, iv: Bytes, out: Buffers): seq<Action> {
    [GetForUpdate(req.id), UpdateRead(0, 0, coins), SetCheck(1, req), SetCommit(1), UpdateCommit(0, iv, out)]
  }

  /** The state in which such a run starts. */
  predicate AtRest(st: State, req: SetRequest) {
    && Known(st.store, req.id)
    && |st.threads| >= 2 && st.threads[0] == Idle && st.threads[1] == Idle
    && st.snapshots == []
    && req.root == st.root
  }

  lemma LateRunStates(s: Suite, st: State, req: SetRequest, coins: UpdateCoins, iv: Bytes, out: Buffers)
    requires AtRest(st, req)
    ensures var rec := st.store[req.id].rec;
            var stored := SetStore(s, st.store, req);
            var task := UpdatePending(TakeSnapshot(req.id, rec), coins, rec.version, rec.hat, rec.data);
            var committed := CommitUpdate(s, stored[req.id], task, iv, out);
            && Run(s, st, LateRun(req, coins, iv, out)).store
               == (if committed.Some? then stored[req.id := committed.value] else stored)
            && LastSet(s, st, LateRun(req, coins, iv, out), req.id) == Some(req)
  {
    hide Upload, CommitUpdate, CounterOf, SetStore;
    var acts := LateRun(req, coins, iv, out);
    var id := req.id;
    var st1 := Step(s, st, acts[0]);
    var st2 := Step(s, st1, acts[1]);
    var st3 := Step(s, st2, acts[2]);
    var st4 := Step(s, st3, acts[3]);
    assert acts == [acts[0]] + ([acts[1]] + ([acts[2]] + ([acts[3]] + ([acts[4]] + []))));
    RunCons(s, st, acts[0], [acts[1]] + ([acts[2]] + ([acts[3]] + ([acts[4]] + []))), id);
    RunCons(s, st1, acts[1], [acts[2]] + ([acts[3]] + ([acts[4]] + [])), id);
    RunCons(s, st2, acts[2], [acts[3]] + ([acts[4]] + []), id);
    RunCons(s, st3, acts[3], [acts[4]] + [], id);
    RunCons(s, st4, acts[4], [], id);
    assert SetReady(st3, 1) && st3.threads[1].req == req;
  }

  /** The record a late update leaves when the version has not moved: that of the update without the SETALL. */
  lemma LateUpdateIsOld(s: Suite, e: Entry, stored: Entry, task: Task, iv: Bytes, out: Buffers)
    requires task.UpdatePending? && CommitUpdate(s, e, task, iv, out).Some?
    requires stored.rec.version == e.rec.version && stored.rec.root == e.rec.root
    ensures CommitUpdate(s, stored, task, iv, out).Some?
    ensures CommitUpdate(s, stored, task, iv, out).value.rec == CommitUpdate(s, e, task, iv, out).value.rec
  {
  }

  /**
   The exact condition, for every id. From any state in which the record is readable under the current root
   key and has room for a layer, the run in which a SETALL falls between the read and the commit of an
   UP_UPDATE ends with the new message if and only if the id has no underscore. With one, a download gives
   the old message: the SETALL is lost, although every check of the server has passed.
   */
  lemma LateCommitKeepsSetIff(s: Suite, st: State, req: SetRequest, coins: UpdateCoins, iv: Bytes, out: Buffers)
    requires Lawful(s) && AtRest(st, req) && ValidRequest(req) && ValidUpdateCoins(coins) && |iv| == IV_LEN
    requires var e := st.store[req.id];
             && Readable(s, e) && e.rec.root == st.root && HasRoom(e.message, e.rec.data, e.layers)
             && e.message != req.message
    ensures var acts := LateRun(req, coins, iv, out);
            var after := Run(s, st, acts).store;
            && ExpectedMessage(s, st, acts, req.id) == req.message
            && req.id in after
            && (Download(s, after[req.id].rec) == Plain(req.message) <==> OwnsCounter(req.id))
            && (Download(s, after[req.id].rec) == Plain(st.store[req.id].message) <==> !OwnsCounter(req.id))
  {
    var e := st.store[req.id];
    var task := UpdatePending(TakeSnapshot(req.id, e.rec), coins, e.rec.version, e.rec.hat, e.rec.data);
    var stored := SetStore(s, st.store, req)[req.id];
    LateRunStates(s, st, req, coins, iv, out);
    if OwnsCounter(req.id) {
      SetIsReadable(s, e, req);
      hide Readable, Encrypt, Decrypt;
      assert CommitUpdate(s, stored, task, iv, out).None?;
      ReadableDownloads(s, stored);
    } else {
      UpdateIsReadable(s, e, task, iv, out);
      hide Readable, Encrypt, CommitUpdate, Decrypt;
      LateUpdateIsOld(s, e, stored, task, iv, out);
      ReadableDownloads(s, CommitUpdate(s, e, task, iv, out).value);
      UpdateKeepsMessage(s, e, task, iv, out);
    }
  }

  lemma ReadableDownloads(s: Suite, e: Entry)
    requires Readable(s, e)
    ensures Download(s, e.rec) == Plain(e.message)
  {
    HeldMessageDecrypts(s, Stored(s.unwrap(e.rec.root, e.rec.wrap).value, e.rec.hat, e.rec.data), e.message, e.layers);
  }

  lemma UpdateKeepsMessage(s: Suite, e: Entry, task: Task, iv: Bytes, out: Buffers)
    requires task.UpdatePending? && CommitUpdate(s, e, task, iv, out).Some?
    ensures CommitUpdate(s, e, task, iv, out).value.message == e.message
  {
  }

  /** Such an id exists: with "a_b" and "b" populated, a SETALL on "a_b" between read and commit is lost. */
  lemma LostSetAll(s: Suite, populated: SetRequest, req: SetRequest, coins: UpdateCoins, iv: Bytes, out: Buffers)
    requires Lawful(s) && ValidRequest(populated) && populated.key.t >= 2
    requires ValidRequest(req) && req.id == "a_b" && req.root == populated.root && req.message != populated.message
    requires ValidUpdateCoins(coins) && |iv| == IV_LEN
    ensures var init := PopulatedState(s, {"a_b", "b"}, populated, 5);
            var acts := LateRun(req, coins, iv, out);
            var after := Run(s, init, acts).store;
            && ExpectedMessage(s, init, acts, "a_b") == req.message
            && "a_b" in after
            && Download(s, after["a_b"].rec) == Plain(populated.message)
  {
    var init := PopulatedState(s, {"a_b", "b"}, populated, 5);
    CounterOfExample();
    PopulatedHolds(s, populated.key, populated.message, populated.coins);
    assert !Wire.Clean("a_b", '_') by { assert "a_b"[1] == '_'; }
    hide Populated, Holds;
    assert HasRoom(populated.message, init.store["a_b"].rec.data, 0);
    LateCommitKeepsSetIff(s, init, req, coins, iv, out);
  }

  lemma CounterOfExample()
    ensures CounterOf("a_b") == "b"
  {
    hide Wire.Tokens;
    Wire.TokenThenText("root", "version_a_b", '_');
    Wire.TokenThenText("version", "a_b", '_');
    Wire.TokenThenText("a", "b", '_');
    Wire.OneToken("b", '_');
    assert Server.ROOT_VERSION + "a_b" == "root" + ['_'] + "version_a_b";
    assert "version_a_b" == "version" + ['_'] + "a_b" && "a_b" == "a" + ['_'] + "b";
  }
}
