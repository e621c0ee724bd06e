/**
 The names under which a record is stored, letter by letter, and the rotation of the root key on the store
 that holds the records: it rewrites the wraps of the listed ids and nothing else.
 */
module RootRotation {
  import opened Common
  import opened Crypto
  import opened NestedAE
  import opened Protocol
  import opened ServerRefinement
  import opened WholeRun
  import MasterKey
  import Server

  // ---- Names ----

  /** The five names of a record; the rotation uses the first of them. */
  lemma RecordNames(id: Id)
    ensures Key(Wrap, id) == "wrap_" + id == MasterKey.WrapKey(id)
    ensures Key(Header, id) == "header_" + id
    ensures Key(Data, id) == "data_" + id
    ensures Key(RootVersion, id) == "root_version_" + id
    ensures Key(CtxtVersion, id) == "ctxt_version_" + id == Server.VersionKey(id)
  {
  }

  /** The words of an upload: each value under its own name, the header as iv, tag and sealed record. */
  lemma UploadIs(c: Codec, id: Id, rec: Record)
    ensures UploadWords(c, id, rec)
            == ["wrap_" + id, c.b64(rec.wrap), "header_" + id, c.b64(rec.hat.iv + rec.hat.tag + rec.hat.data),
                "data_" + id, c.b64(rec.data), "root_version_" + id, c.rootText(rec.root)]
  {
    RecordNames(id);
    hide Key;
  }

  /** What clients, updaters and the server ask for, and what an UP_UPDATE names. */
  lemma QuestionsAre(id: Id)
    ensures FetchKeys(id) == ["wrap_" + id, "header_" + id, "data_" + id, "root_version_" + id]
    ensures DownloadKeys(id) == ["wrap_" + id, "header_" + id, "root_version_" + id]
    ensures ReadKeys(id) == ["ctxt_version_" + id, "header_" + id, "data_" + id]
    ensures UpdateKeysOf(id) == Server.UpdateKeys("wrap_" + id, "header_" + id, "data_" + id, "ctxt_version_" + id)
  {
    RecordNames(id);
    hide Key;
  }

  // ---- The loop on texts ----

  /** update_master_key on the text store: a wrap is decoded, opened, wrapped anew and encoded. */
  function RewrapTexts(c: Codec, r: MasterKey.Rotation, ids: seq<string>, i: nat, db: Server.Db)
    : (MasterKey.Outcome, Server.Db)
    requires i <= |ids|
    decreases |ids| - i
  {
    if i == |ids| then (MasterKey.Finished, db)
    else
      var name := "wrap_" + ids[i];
      var wrap := if name in db then c.unb64(db[name]) else [];
      var key := r.suite.unwrap(r.oldKey, wrap);
      if |wrap| == 0 then (MasterKey.MissingWrap(i), db)
      else if key.None? then (MasterKey.NeverOpens(i), db)
      else
        RewrapTexts(c, r, ids, i + 1, db[name := c.b64(r.suite.wrap(r.newKey, r.ivs(i), key.value))])
  }

  /** The store as bytes. */
  function View(c: Codec, db: Server.Db): MasterKey.Wraps {
    map name | name in db :: c.unb64(db[name])
  }

  lemma ViewAfterPut(c: Codec, db: Server.Db, name: string, wrap: Bytes)
    requires LawfulCodec(c)
    ensures View(c, db[name := c.b64(wrap)]) == View(c, db)[name := wrap]
  {
  }

  /** Some id from i on, and before n, has this name. */
  ghost predicate ListedFrom(ids: seq<string>, i: nat, n: nat, name: string)
    requires n <= |ids|
  {
    exists j :: i <= j < n && "wrap_" + ids[j] == name
  }

  /** Between two stores only the names of ids[i..n] have changed, and what is there now has been encoded. */
  ghost predicate Rewritten(c: Codec, ids: seq<string>, i: nat, n: nat, db: Server.Db, after: Server.Db) {
    && i <= n <= |ids| && after.Keys == db.Keys
    && (forall name :: name in db && !ListedFrom(ids, i, n, name) ==> after[name] == db[name])
    && (forall name :: name in db && ListedFrom(ids, i, n, name) ==> c.b64(c.unb64(after[name])) == after[name])
  }

  lemma NothingRewritten(c: Codec, ids: seq<string>, i: nat, db: Server.Db)
    requires i <= |ids|
    ensures Rewritten(c, ids, i, i, db, db)
  {
  }

  lemma OneMoreRewritten(c: Codec, ids: seq<string>, i: nat, n: nat, db: Server.Db, wrap: Bytes, after: Server.Db)
    requires LawfulCodec(c) && i < |ids| && "wrap_" + ids[i] in db
    requires Rewritten(c, ids, i + 1, n, db["wrap_" + ids[i] := c.b64(wrap)], after)
    ensures Rewritten(c, ids, i, n, db, after)
  {
    forall name
      ensures ListedFrom(ids, i, n, name) <==> ListedFrom(ids, i + 1, n, name) || name == "wrap_" + ids[i]
    {
      if ListedFrom(ids, i, n, name) {
        var j :| i <= j < n && "wrap_" + ids[j] == name;
        assert j == i || ListedFrom(ids, i + 1, n, name);
      }
    }
  }

  /** The loop on texts is the loop on bytes, and it writes under the names of the ids passed only. */
  lemma {:induction false} TextsFollowBytes(c: Codec, r: MasterKey.Rotation, ids: seq<string>, i: nat, db: Server.Db)
    requires LawfulCodec(c) && i <= |ids|
    ensures var (outcome, after) := RewrapTexts(c, r, ids, i, db);
            && MasterKey.RewrapFrom(r, ids, i, View(c, db)) == (outcome, View(c, after))
            && Rewritten(c, ids, i, MasterKey.StopsAt(outcome, |ids|), db, after)
    decreases |ids| - i
  {
    hide Rewritten, LawfulCodec;
    NothingRewritten(c, ids, i, db);
    if i < |ids| {
      var name := "wrap_" + ids[i];
      var wrap := MasterKey.Get(View(c, db), name);
      var key := r.suite.unwrap(r.oldKey, wrap);
      if |wrap| > 0 && key.Some? {
        var again := r.suite.wrap(r.newKey, r.ivs(i), key.value);
        var next := db[name := c.b64(again)];
        ViewAfterPut(c, db, name, again);
        TextsFollowBytes(c, r, ids, i + 1, next);
        var (outcome, after) := RewrapTexts(c, r, ids, i + 1, next);
        OneMoreRewritten(c, ids, i, MasterKey.StopsAt(outcome, |ids|), db, again, after);
      }
    }
  }

  // ---- What the rotation leaves of the records ----

  /** The records with the wraps that the store holds now. */
  function Rewrapped(c: Codec, store: map<Id, Entry>, after: Server.Db): map<Id, Entry>
    requires forall id :: id in store ==> Key(Wrap, id) in after
  {
    map id | id in store :: store[id].(rec := store[id].rec.(wrap := c.unb64(after[Key(Wrap, id)])))
  }

  lemma OnlyWrapsListed(ids: seq<string>, n: nat, kind: Kind, id: Id)
    requires n <= |ids|
    ensures ListedFrom(ids, 0, n, Key(kind, id)) <==> kind == Wrap && id in ids[..n]
  {
    if ListedFrom(ids, 0, n, Key(kind, id)) {
      var j :| 0 <= j < n && "wrap_" + ids[j] == Key(kind, id);
      RecordNames(ids[j]);
      KeysDiffer(kind, id, Wrap, ids[j]);
      assert ids[..n][j] == id;
    }
    if kind == Wrap && id in ids[..n] {
      var j :| 0 <= j < n && ids[..n][j] == id;
      RecordNames(id);
      assert "wrap_" + ids[j] == Key(kind, id);
    }
  }

  /** Headers, data, root versions, counters, and the wraps of ids not passed, are as they were. */
  ghost predicate OthersKept(db: Server.Db, after: Server.Db, store: map<Id, Entry>, passed: seq<string>) {
    forall kind, id :: id in store && !(kind == Wrap && id in passed) ==>
      Key(kind, id) in db && Key(kind, id) in after && after[Key(kind, id)] == db[Key(kind, id)]
  }

  /** The wraps of the ids passed open under the new key to what they opened to under the old one. */
  ghost predicate PassedMoved(c: Codec, r: MasterKey.Rotation, after: Server.Db, store: map<Id, Entry>,
                              passed: seq<string>) {
    forall id :: id in store && id in passed ==>
      && Key(Wrap, id) in after
      && var was := r.suite.unwrap(r.oldKey, store[id].rec.wrap);
         was.Some? && r.suite.unwrap(r.newKey, c.unb64(after[Key(Wrap, id)])) == was
  }

  lemma RestIsKept(c: Codec, ids: seq<string>, n: nat, db: Server.Db, after: Server.Db, store: map<Id, Entry>)
    requires LawfulCodec(c) && Represents(c, db, store) && Rewritten(c, ids, 0, n, db, after)
    ensures OthersKept(db, after, store, ids[..n])
    ensures forall id :: id in store ==> Key(Wrap, id) in after
    ensures Represents(c, after, Rewrapped(c, store, after))
  {
    hide Key;
    forall kind, id | id in store
      ensures Key(kind, id) in db && Key(kind, id) in after
      ensures !(kind == Wrap && id in ids[..n]) ==> after[Key(kind, id)] == db[Key(kind, id)]
      ensures kind == Wrap ==> c.b64(c.unb64(after[Key(kind, id)])) == after[Key(kind, id)]
    {
      OnlyWrapsListed(ids, n, kind, id);
      assert Key(kind, id) in db && db[Key(kind, id)] == Encoded(c, kind, store[id].rec);
    }
  }

  lemma PassedAreMoved(c: Codec, r: MasterKey.Rotation, ids: seq<string>, n: nat, db: Server.Db, after: Server.Db,
                       store: map<Id, Entry>)
    requires LawfulCodec(c) && Represents(c, db, store)
    requires n <= |ids| && MasterKey.Halfway(r, ids, n, View(c, db), View(c, after))
    ensures PassedMoved(c, r, after, store, ids[..n])
  {
    hide Key;
    forall id | id in store && id in ids[..n]
      ensures Key(Wrap, id) in after
      ensures r.suite.unwrap(r.oldKey, store[id].rec.wrap).Some?
      ensures r.suite.unwrap(r.newKey, c.unb64(after[Key(Wrap, id)])) == r.suite.unwrap(r.oldKey, store[id].rec.wrap)
    {
      var j :| 0 <= j < n && ids[..n][j] == id;
      RecordNames(id);
      assert MasterKey.Moved(r, MasterKey.WrapKey(ids[j]), View(c, db), View(c, after));
      assert db[Key(Wrap, id)] == Encoded(c, Wrap, store[id].rec);
    }
  }

  /**
   The rotation on the store of the records, at whichever exit. The wraps of the ids passed open under the new
   key to the data keys that they had under the old one; all other wraps, and every header, ciphertext, root
   version and counter, are as before; and the store represents the records with those wraps.
   */
  lemma RotationRewrapsListed(c: Codec, r: MasterKey.Rotation, ids: seq<string>, db: Server.Db, store: map<Id, Entry>)
    requires LawfulCodec(c) && Represents(c, db, store)
    requires Lawful(r.suite) && r.oldKey != r.newKey && (MasterKey.Distinct(ids) || KeyBinding(r.suite))
    ensures var (outcome, after) := RewrapTexts(c, r, ids, 0, db);
            var n := MasterKey.StopsAt(outcome, |ids|);
            && n <= |ids|
            && OthersKept(db, after, store, ids[..n])
            && PassedMoved(c, r, after, store, ids[..n])
            && (forall id :: id in store ==> Key(Wrap, id) in after)
            && Represents(c, after, Rewrapped(c, store, after))
  {
    hide RewrapTexts, View, Rewritten, Key, MasterKey.Halfway, MasterKey.RewrapFrom, Lawful, KeyBinding, LawfulCodec;
    hide Represents, OthersKept, PassedMoved, MasterKey.Distinct;
    var (outcome, after) := RewrapTexts(c, r, ids, 0, db);
    var n := MasterKey.StopsAt(outcome, |ids|);
    TextsFollowBytes(c, r, ids, 0, db);
    AtFirst(r, ids, View(c, db));
    MasterKey.RewrapKeepsHalfway(r, ids, 0, View(c, db), View(c, db));
    StopsInList(c, ids, n, db, after);
    RestIsKept(c, ids, n, db, after, store);
    PassedAreMoved(c, r, ids, n, db, after, store);
  }

  lemma AtFirst(r: MasterKey.Rotation, ids: seq<string>, wraps: MasterKey.Wraps)
    ensures MasterKey.Halfway(r, ids, 0, wraps, wraps)
  {
  }

  lemma StopsInList(c: Codec, ids: seq<string>, n: nat, db: Server.Db, after: Server.Db)
    requires Rewritten(c, ids, 0, n, db, after)
    ensures n <= |ids|
  {
  }
}
