/** The text store of the server implements the records of the protocol, critical section by critical section. */
module ServerRefinement {
  import opened Common
  import opened Crypto
  import opened NestedAE
  import opened Protocol
  import Decimal
  import Server

  datatype Kind = RootVersion | CtxtVersion | Wrap | Header | Data

  function Prefix(kind: Kind): string {
    match kind
    case RootVersion => Server.ROOT_VERSION
    case CtxtVersion => Server.CTXT_VERSION
    case Wrap => "wrap_"
    case Header => "header_"
    case Data => "data_"
  }

  function Key(kind: Kind, id: Id): string {
    Prefix(kind) + id
  }

  /** No two values share a key: the prefixes already differ in their first letters. */
  lemma KeysDiffer(k: Kind, i: Id, k': Kind, i': Id)
    ensures Key(k, i) == Key(k', i') <==> k == k' && i == i'
  {
    if Key(k, i) == Key(k', i') {
      assert Prefix(k)[0] == Key(k, i)[0] == Key(k', i')[0] == Prefix(k')[0];
      assert i == Key(k, i)[|Prefix(k)|..] && i' == Key(k', i')[|Prefix(k')|..];
    }
  }

  /** base64 of bytes, the text of a root key handle, and how each is read back. */
  datatype Codec = Codec(
    b64: Bytes -> string,
    unb64: string -> Bytes,
    rootText: Handle -> string,
    rootOf: string -> Handle)

  ghost predicate LawfulCodec(c: Codec) {
    && (forall x :: c.unb64(c.b64(x)) == x)
    && (forall h :: c.rootOf(c.rootText(h)) == h)
  }

  function Encoded(c: Codec, kind: Kind, rec: Record): string {
    match kind
    case RootVersion => c.rootText(rec.root)
    case CtxtVersion => Decimal.Text(rec.version)
    case Wrap => c.b64(rec.wrap)
    case Header => c.b64(rec.hat.iv + rec.hat.tag + rec.hat.data)
    case Data => c.b64(rec.data)
  }

  ghost predicate Represents(c: Codec, db: Server.Db, store: map<Id, Entry>) {
    forall kind, id :: id in store ==> Key(kind, id) in db && db[Key(kind, id)] == Encoded(c, kind, store[id].rec)
  }

  // ---- Reading a record back ----

  /** The four values that a client downloads. */
  function FetchTexts(c: Codec, rec: Record): (texts: seq<string>)
    ensures |texts| == 4
  {
    [Encoded(c, Wrap, rec), Encoded(c, Header, rec), Encoded(c, Data, rec), Encoded(c, RootVersion, rec)]
  }

  /** What a client makes of these: the header is read as a struct of 16, 16 and 52 bytes. */
  function ClientReads(s: Suite, c: Codec, texts: seq<string>): Outcome
    requires |texts| == 4
  {
    var header, data := c.unb64(texts[1]), c.unb64(texts[2]);
    if data == [] || header == [] then Failed
    else if |header| < HEADER + META_LEN then OutOfBounds
    else
      var key := s.unwrap(c.rootOf(texts[3]), c.unb64(texts[0]));
      if key.None? then Failed
      else Decrypt(s, key.value, Hat(header[..16], header[16..32], header[32..HEADER + META_LEN]), data)
  }

  /** A client that has the texts of a record downloads that record. */
  lemma ClientReadsRecord(s: Suite, c: Codec, rec: Record)
    requires LawfulCodec(c) && HatFits(rec.hat) && rec.data != []
    ensures ClientReads(s, c, FetchTexts(c, rec)) == Download(s, rec)
  {
    hide Decrypt;
    var header := rec.hat.iv + rec.hat.tag + rec.hat.data;
    assert header[..16] == rec.hat.iv && header[16..32] == rec.hat.tag;
    assert header[32..HEADER + META_LEN] == rec.hat.data;
  }

  /** A download of which the header or the data is missing gives nothing. */
  lemma MissingTextsFail(s: Suite, c: Codec, texts: seq<string>)
    requires |texts| == 4 && (c.unb64(texts[1]) == [] || c.unb64(texts[2]) == [])
    ensures ClientReads(s, c, texts) == Failed
  {
  }

  /** Codecs that read back what they write exist. */
  const TOY_CODEC := Codec(
    (x: Bytes) => seq(|x|, i requires 0 <= i < |x| => x[i] as char),
    (t: string) => seq(|t|, i requires 0 <= i < |t| => (t[i] as int % 256) as byte),
    Decimal.Text,
    Decimal.Atoi)

  lemma ToyCodecIsLawful()
    ensures LawfulCodec(TOY_CODEC)
  {
    forall x: Bytes ensures TOY_CODEC.unb64(TOY_CODEC.b64(x)) == x {
      assert forall i :: 0 <= i < |x| ==> TOY_CODEC.b64(x)[i] as int == x[i] as int;
    }
    forall h: Handle ensures TOY_CODEC.rootOf(TOY_CODEC.rootText(h)) == h {
      Decimal.AtoiUndoesText(h);
    }
  }

  // ---- Every store of records has texts ----

  function TextsOfKind(c: Codec, kind: Kind, store: map<Id, Entry>): (db: Server.Db)
    ensures forall id :: id in store ==> Key(kind, id) in db && db[Key(kind, id)] == Encoded(c, kind, store[id].rec)
  {
    assert forall i, j :: Key(kind, i) == Key(kind, j) ==> i == j by {
      forall i, j | Key(kind, i) == Key(kind, j) ensures i == j { KeysDiffer(kind, i, kind, j); }
    }
    map id | id in store :: Key(kind, id) := Encoded(c, kind, store[id].rec)
  }

  function TextStore(c: Codec, store: map<Id, Entry>): Server.Db {
    TextsOfKind(c, RootVersion, store) + TextsOfKind(c, CtxtVersion, store) + TextsOfKind(c, Wrap, store)
    + TextsOfKind(c, Header, store) + TextsOfKind(c, Data, store)
  }

  lemma OtherKind(c: Codec, kind: Kind, other: Kind, store: map<Id, Entry>, id: Id)
    requires kind != other
    ensures Key(kind, id) !in TextsOfKind(c, other, store)
  {
    hide Key, Encoded;
    if Key(kind, id) in TextsOfKind(c, other, store) {
      var i :| i in store && Key(kind, id) == Key(other, i);
      KeysDiffer(kind, id, other, i);
    }
  }

  lemma TextStoreRepresents(c: Codec, store: map<Id, Entry>)
    ensures Represents(c, TextStore(c, store), store)
  {
    hide Key, Encoded, TextsOfKind;
    forall kind, id | id in store
      ensures Key(kind, id) in TextStore(c, store)
      ensures TextStore(c, store)[Key(kind, id)] == Encoded(c, kind, store[id].rec)
    {
      forall other | other != kind ensures Key(kind, id) !in TextsOfKind(c, other, store) {
        OtherKind(c, kind, other, store, id);
      }
    }
  }

  /** The words of a SETALL after the command. */
  function UploadWords(c: Codec, id: Id, rec: Record): seq<string> {
    [Key(Wrap, id), Encoded(c, Wrap, rec), Key(Header, id), Encoded(c, Header, rec),
     Key(Data, id), Encoded(c, Data, rec), Key(RootVersion, id), Encoded(c, RootVersion, rec)]
  }

  /** The server validates an upload exactly when its root key is the current one, and finds its counter. */
  lemma CheckRefines(c: Codec, current: Handle, id: Id, rec: Record)
    requires LawfulCodec(c)
    ensures Server.RootCheck(c.rootText(current), UploadWords(c, id, rec), 0)
            == if rec.root == current then Some(CounterOf(id)) else None
  {
    hide Server.Suffix;
    assert c.rootOf(c.rootText(current)) == current && c.rootOf(c.rootText(rec.root)) == rec.root;
    var kvs := UploadWords(c, id, rec);
    var text := c.rootText(current);
    assert kvs[0][0] == 'w' && kvs[2][0] == 'h' && kvs[4][0] == 'd';
    assert Server.NamesRootVersion(kvs[6]);
    assert Server.RootCheck(text, kvs, 0) == Server.RootCheck(text, kvs, 1) == Server.RootCheck(text, kvs, 2)
        == Server.RootCheck(text, kvs, 3);
    assert kvs[7][..|kvs[7]|] == kvs[7] && text[..|text|] == text;
  }

  function UpdateKeysOf(id: Id): Server.UpdateKeys {
    Server.UpdateKeys(Key(Wrap, id), Key(Header, id), Key(Data, id), Key(CtxtVersion, id))
  }

  /** `after` is `db` with the five values of one id rewritten. */
  ghost predicate Rewrites(c: Codec, db: Server.Db, after: Server.Db, id: Id, rec: Record) {
    && (forall kind :: Key(kind, id) in after && after[Key(kind, id)] == Encoded(c, kind, rec))
    && (forall key :: key in db && (forall kind :: key != Key(kind, id)) ==> key in after && after[key] == db[key])
  }

  /** Rewriting the values of one id leaves the others as they were. */
  lemma WritesOneRecord(c: Codec, db: Server.Db, after: Server.Db, store: map<Id, Entry>, id: Id, e: Entry)
    requires Represents(c, db, store) && Rewrites(c, db, after, id, e.rec)
    ensures Represents(c, after, store[id := e])
  {
    forall kind, i | i in store[id := e]
      ensures Key(kind, i) in after && after[Key(kind, i)] == Encoded(c, kind, store[id := e][i].rec)
    {
      if i != id {
        forall k ensures Key(kind, i) != Key(k, id) {
          KeysDiffer(kind, i, k, id);
        }
      }
    }
  }

  lemma KindsDiffer(id: Id)
    ensures forall k, k' :: k != k' ==> Key(k, id) != Key(k', id)
  {
    forall k, k' | k != k' ensures Key(k, id) != Key(k', id) {
      KeysDiffer(k, id, k', id);
    }
  }

  /** The four pairs of an upload, in the order in which they are set. */
  function FourWritten(c: Codec, db: Server.Db, id: Id, rec: Record): Server.Db {
    db[Key(Wrap, id) := Encoded(c, Wrap, rec)][Key(Header, id) := Encoded(c, Header, rec)]
      [Key(Data, id) := Encoded(c, Data, rec)][Key(RootVersion, id) := Encoded(c, RootVersion, rec)]
  }

  /** The version goes first. */
  function FiveWritten(c: Codec, db: Server.Db, id: Id, rec: Record): Server.Db {
    FourWritten(c, db[Key(CtxtVersion, id) := Encoded(c, CtxtVersion, rec)], id, rec)
  }

  lemma FiveWrites(c: Codec, db: Server.Db, id: Id, rec: Record)
    ensures Rewrites(c, db, FiveWritten(c, db, id, rec), id, rec)
  {
    KindsDiffer(id);
    hide Key, Encoded;
  }

  /** Four writes do when the root version is already there. */
  lemma FourWrites(c: Codec, db: Server.Db, id: Id, rec: Record)
    requires Key(RootVersion, id) in db && db[Key(RootVersion, id)] == Encoded(c, RootVersion, rec)
    ensures Rewrites(c, db,
                     db[Key(Wrap, id) := Encoded(c, Wrap, rec)][Key(Header, id) := Encoded(c, Header, rec)]
                       [Key(Data, id) := Encoded(c, Data, rec)][Key(CtxtVersion, id) := Encoded(c, CtxtVersion, rec)],
                     id, rec)
  {
    KindsDiffer(id);
    hide Key, Encoded;
  }

  /** The loop of SETALL sets a version and then the four pairs of an upload. */
  lemma UploadWrites(c: Codec, db: Server.Db, id: Id, up: Record, counter: Id, v: nat)
    requires Server.VersionKey(counter) in db && db[Server.VersionKey(counter)] == Decimal.Text(v)
    ensures Server.SetAllStore(db, UploadWords(c, id, up), counter)
            == FourWritten(c, db[Key(CtxtVersion, counter) := Decimal.Text(v + 1)], id, up)
  {
    var kvs := UploadWords(c, id, up);
    var start := db[Server.VersionKey(counter) := Decimal.Text(v + 1)];
    Decimal.AtoiUndoesText(v);
    assert Server.PutPairs(start, kvs, 1) == start[kvs[0] := kvs[1]];
    assert Server.PutPairs(start, kvs, 2) == start[kvs[0] := kvs[1]][kvs[2] := kvs[3]];
    assert Server.PutPairs(start, kvs, 3) == start[kvs[0] := kvs[1]][kvs[2] := kvs[3]][kvs[4] := kvs[5]];
  }

  /** The four writes of an upload do when the version stays. */
  lemma FourWritesKeepVersion(c: Codec, db: Server.Db, id: Id, rec: Record)
    requires Key(CtxtVersion, id) in db && db[Key(CtxtVersion, id)] == Encoded(c, CtxtVersion, rec)
    ensures Rewrites(c, db, FourWritten(c, db, id, rec), id, rec)
  {
    KindsDiffer(id);
    hide Key, Encoded;
  }

  /** One write does when only the version changes. */
  lemma OneWrite(c: Codec, db: Server.Db, id: Id, rec: Record, v: nat)
    requires forall kind :: Key(kind, id) in db && db[Key(kind, id)] == Encoded(c, kind, rec)
    ensures Rewrites(c, db, db[Key(CtxtVersion, id) := Decimal.Text(v)], id, rec.(version := v))
  {
    KindsDiffer(id);
    hide Key;
  }

  /** SETALL under another id's counter: that counter moves on, and the record keeps its version. */
  lemma UploadUnderOtherCounter(c: Codec, db: Server.Db, store: map<Id, Entry>, id: Id, up: Record, counter: Id,
                                e: Entry)
    requires id in store && counter in store && counter != id && Represents(c, db, store)
    requires e.rec == up.(version := store[id].rec.version)
    ensures Server.VersionKey(counter) in db
    ensures Represents(c, Server.SetAllStore(db, UploadWords(c, id, up), counter),
                       store[counter := Bump(store[counter])][id := e])
  {
    var other := store[counter].rec;
    assert Key(CtxtVersion, counter) in db && db[Key(CtxtVersion, counter)] == Encoded(c, CtxtVersion, other);
    UploadWrites(c, db, id, up, counter, other.version);
    hide Key, UploadWords, FourWritten, Rewrites, Server.SetAllStore;
    var mid := db[Key(CtxtVersion, counter) := Decimal.Text(other.version + 1)];
    OneWrite(c, db, counter, other, other.version + 1);
    WritesOneRecord(c, db, mid, store, counter, Bump(store[counter]));
    var bumped := store[counter := Bump(store[counter])];
    assert bumped[id] == store[id];
    assert Key(CtxtVersion, id) in mid && mid[Key(CtxtVersion, id)] == Encoded(c, CtxtVersion, store[id].rec);
    FourWritesKeepVersion(c, mid, id, e.rec);
    SameWrites(c, mid, id, up, e.rec.version);
    WritesOneRecord(c, mid, FourWritten(c, mid, id, up), bumped, id, e);
  }

  /** The four writes do not depend on the version of the record. */
  lemma SameWrites(c: Codec, db: Server.Db, id: Id, up: Record, v: nat)
    ensures FourWritten(c, db, id, up) == FourWritten(c, db, id, up.(version := v))
  {
  }

  /** SETALL replaces the record of its id by the upload, at the next version. */
  lemma UploadReplacesRecord(c: Codec, db: Server.Db, store: map<Id, Entry>, id: Id, up: Record, e: Entry)
    requires id in store && Represents(c, db, store) && Server.VersionKey(id) in db
    requires e.rec == up.(version := store[id].rec.version + 1)
    ensures Represents(c, Server.SetAllStore(db, UploadWords(c, id, up), id), store[id := e])
  {
    hide Rewrites, UploadWords, FourWritten, Server.SetAllStore;
    assert db[Key(CtxtVersion, id)] == Encoded(c, CtxtVersion, store[id].rec);
    UploadWrites(c, db, id, up, id, store[id].rec.version);
    SameWrites(c, db[Key(CtxtVersion, id) := Encoded(c, CtxtVersion, e.rec)], id, up, e.rec.version);
    FiveWrites(c, db, id, e.rec);
    WritesOneRecord(c, db, FiveWritten(c, db, id, e.rec), store, id, e);
  }

  /** The texts the server writes for a re-encrypted record. */
  function UpdateTextsOf(c: Codec, rec: Record): Server.UpdateTexts {
    Server.UpdateTexts(Encoded(c, Wrap, rec), Encoded(c, Header, rec), Encoded(c, Data, rec))
  }

  /** UP_UPDATE replaces the record of its id, keeping the root version, at the next version. */
  lemma UpdateReplacesRecord(c: Codec, db: Server.Db, store: map<Id, Entry>, id: Id, e: Entry)
    requires id in store && Represents(c, db, store) && Key(CtxtVersion, id) in db
    requires e.rec.root == store[id].rec.root && e.rec.version == store[id].rec.version + 1
    ensures Represents(c, Server.UpdateStore(db, UpdateKeysOf(id), UpdateTextsOf(c, e.rec),
                                             Decimal.Text(store[id].rec.version)), store[id := e])
  {
    assert db[Key(CtxtVersion, id)] == Encoded(c, CtxtVersion, store[id].rec);
    assert db[Key(RootVersion, id)] == Encoded(c, RootVersion, store[id].rec);
    Decimal.SameTextIsEquality(store[id].rec.version, store[id].rec.version);
    FourWrites(c, db, id, e.rec);
    Decimal.AtoiUndoesText(store[id].rec.version);
    hide Key, Rewrites, Represents;
    WritesOneRecord(c, db, Server.UpdateStore(db, UpdateKeysOf(id), UpdateTextsOf(c, e.rec),
                                              Decimal.Text(store[id].rec.version)), store, id, e);
  }

  /**
   The commit of SETALL on the text store, under the counter that its own check has found, is the SetCommit
   step on records: for every id, whether it owns that counter or not.
   */
  lemma SetCommitRefines(s: Suite, c: Codec, db: Server.Db, st: State, tid: nat)
    requires LawfulCodec(c) && SetReady(st, tid) && Represents(c, db, st.store)
    ensures var req := st.threads[tid].req;
            var words := UploadWords(c, req.id, Upload(s, req, 0));
            var suffix := Server.RootCheck(c.rootText(req.root), words, 0);
            && suffix.Some?
            && Server.VersionKey(suffix.value) in db
            && Represents(c, Server.SetAllStore(db, words, suffix.value), Step(s, st, SetCommit(tid)).store)
  {
    var req := st.threads[tid].req;
    var id, up, counter := req.id, Upload(s, req, 0), CounterOf(req.id);
    CheckRefines(c, req.root, id, up);
    assert Key(CtxtVersion, counter) in db;
    hide Represents, Encrypt, CounterOf;
    if counter == id {
      UploadReplacesRecord(c, db, st.store, id, up, CommitSet(s, st.store[id], req));
    } else {
      UploadUnderOtherCounter(c, db, st.store, id, up, counter,
                              Entry(Upload(s, req, st.store[id].rec.version), req.message, 0));
    }
  }

  lemma VersionIsStored(c: Codec, db: Server.Db, store: map<Id, Entry>, id: Id)
    requires Represents(c, db, store) && id in store
    ensures Key(CtxtVersion, id) in db && db[Key(CtxtVersion, id)] == Decimal.Text(store[id].rec.version)
  {
    assert db[Key(CtxtVersion, id)] == Encoded(c, CtxtVersion, store[id].rec);
  }

  /**
   The commit of UP_UPDATE on the text store is the UpdateCommit step on records: it compares and advances
   the decimal text of the version and writes the texts of what the output buffers hold after the re-encryption.
   */
  lemma UpdateCommitRefines(s: Suite, c: Codec, db: Server.Db, st: State, tid: nat, iv: Bytes, out: Buffers,
                            update: (Bytes, Delta))
    requires UpdateReady(st, tid) && Represents(c, db, st.store)
    requires MakeUpdate(s, st.threads[tid].snap, st.threads[tid].coins) == Some(update)
    requires !ReEncrypt(s, update.1, st.threads[tid].data, iv).Overruns?
    ensures var task := st.threads[tid];
            var id := task.snap.id;
            var written := After(ReEncrypt(s, update.1, task.data, iv), out);
            var texts := UpdateTextsOf(c, Record(0, 0, update.0, written.hat, written.ct));
            && Key(CtxtVersion, id) in db
            && Represents(c, Server.UpdateStore(db, UpdateKeysOf(id), texts, Decimal.Text(task.version)),
                          Step(s, st, UpdateCommit(tid, iv, out)).store)
  {
    hide Represents, ReEncrypt, MakeUpdate, Key, Decimal.SameText, Decimal.Text;
    var task := st.threads[tid];
    var id := task.snap.id;
    var prior := st.store[id];
    VersionIsStored(c, db, st.store, id);
    Decimal.SameTextIsEquality(prior.rec.version, task.version);
    if task.version == prior.rec.version {
      UpdateReplacesRecord(c, db, st.store, id, CommitUpdate(s, prior, task, iv, out).value);
    }
  }

  /** A GETALL of the fields of one id returns the texts of one record. */
  lemma GetAllReadsOneRecord(c: Codec, db: Server.Db, store: map<Id, Entry>, id: Id, kinds: seq<Kind>)
    requires Represents(c, db, store) && id in store
    ensures var keys := seq(|kinds|, i requires 0 <= i < |kinds| => Key(kinds[i], id));
            && (forall i :: 0 <= i < |keys| ==> keys[i] in db)
            && Server.Values(db, keys)
               == seq(|kinds|, i requires 0 <= i < |kinds| => Encoded(c, kinds[i], store[id].rec))
  {
    var keys := seq(|kinds|, i requires 0 <= i < |kinds| => Key(kinds[i], id));
    assert forall i :: 0 <= i < |keys| ==> keys[i] == Key(kinds[i], id);
  }
}
