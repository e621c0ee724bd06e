/**
 The server's critical sections on the store as it is: a map from text keys to text values. The class
 carries the shared state; each method is one critical section, and is specified by a function on the store.
 */
module Server {
  import opened Common
  import Decimal
  import Wire

  type Db = map<string, string>

  const ROOT_VERSION := "root_version_"
  const CTXT_VERSION := "ctxt_version_"

  predicate NamesRootVersion(key: string) {
    ROOT_VERSION <= key
  }

  /** The last of the underscore-separated pieces of a key. */
  function Suffix(key: string): string {
    var ts := Wire.Tokens(key, '_');
    if ts == [] then "" else ts[|ts| - 1]
  }

  function VersionKey(suffix: string): string {
    CTXT_VERSION + suffix
  }

  /**
   The root key check of SETALL from pair i on: the first root version named decides. Some: the upload may
   be committed, and this suffix names its version counter.
   */
  function RootCheck(rootKey: string, kvs: seq<string>, i: nat): Option<string>
    requires i <= |kvs| / 2
    decreases |kvs| / 2 - i
  {
    if i == |kvs| / 2 then None
    else if !NamesRootVersion(kvs[2 * i]) then RootCheck(rootKey, kvs, i + 1)
    else if Decimal.SameText(kvs[2 * i + 1], rootKey) then Some(Suffix(kvs[2 * i]))
    else None
  }

  /** The store after the first n pairs have been set. */
  function PutPairs(db: Db, kvs: seq<string>, n: nat): Db
    requires n <= |kvs| / 2
  {
    if n == 0 then db else PutPairs(db, kvs, n - 1)[kvs[2 * n - 2] := kvs[2 * n - 1]]
  }

  function NextVersion(text: string): string {
    Decimal.Text(Decimal.Atoi(text) + 1)
  }

  function SetAllStore(db: Db, kvs: seq<string>, suffix: string): Db
    requires VersionKey(suffix) in db
  {
    PutPairs(db[VersionKey(suffix) := NextVersion(db[VersionKey(suffix)])], kvs, |kvs| / 2)
  }

  /** The four keys of an UP_UPDATE command. */
  datatype UpdateKeys = UpdateKeys(wrap: string, header: string, data: string, version: string)

  /** The three texts an UP_UPDATE writes. */
  datatype UpdateTexts = UpdateTexts(wrap: string, header: string, data: string)

  function UpdateStore(db: Db, keys: UpdateKeys, texts: UpdateTexts, seen: string): Db
    requires keys.version in db
  {
    if Decimal.SameText(db[keys.version], seen) then
      db[keys.wrap := texts.wrap][keys.header := texts.header][keys.data := texts.data]
        [keys.version := NextVersion(db[keys.version])]
    else db
  }

  /** What a GET yields; the text of a missing key is empty. */
  function TextOf(db: Db, key: string): string {
    if key in db then db[key] else ""
  }

  function Values(db: Db, keys: seq<string>): (r: seq<string>)
    ensures |r| == |keys|
    ensures forall i :: 0 <= i < |keys| ==> r[i] == if keys[i] in db then db[keys[i]] else ""
  {
    seq(|keys|, i requires 0 <= i < |keys| => TextOf(db, keys[i]))
  }

  /** `after` has the bytes of the new text and, behind them, those of the old one that are not covered. */
  ghost predicate Overwrites(before: string, text: string, after: string) {
    && |text| <= |after| && |before| <= |after| && (|after| == |text| || |after| == |before|)
    && (forall i :: 0 <= i < |text| ==> after[i] == text[i])
    && (forall i :: |text| <= i < |after| ==> after[i] == before[i])
  }

  class Server {
    var db: Db
    var rootKey: string

    constructor (db: Db, rootKey: string)
      ensures this.db == db && this.rootKey == rootKey
    {
      this.db, this.rootKey := db, rootKey;
    }

    /** GETALL, under the data lock. */
    method GetAll(keys: seq<string>) returns (values: seq<string>)
      ensures values == Values(db, keys)
    {
      values := [];
      for i := 0 to |keys|
        invariant |values| == i && forall j :: 0 <= j < i ==> values[j] == TextOf(db, keys[j])
      {
        values := values + [TextOf(db, keys[i])];
      }
    }

    /** First half of SETALL, under the root key lock. */
    method CheckRootKey(kvs: seq<string>) returns (suffix: Option<string>)
      ensures suffix == RootCheck(rootKey, kvs, 0)
    {
      for i := 0 to |kvs| / 2
        invariant RootCheck(rootKey, kvs, 0) == RootCheck(rootKey, kvs, i)
      {
        var key := kvs[2 * i];
        if |key| >= |ROOT_VERSION| && key[..|ROOT_VERSION|] == ROOT_VERSION {
          if !Decimal.SameText(kvs[2 * i + 1], rootKey) {
            return None;
          }
          var pieces := Wire.Split(key, '_');
          return Some(if pieces.Length == 0 then "" else pieces[pieces.Length - 1]);
        }
      }
      suffix := None;
    }

    /** Second half of SETALL, under the data lock: the version first, then each pair in turn. */
    method CommitSetAll(kvs: seq<string>, suffix: string)
      requires VersionKey(suffix) in db
      modifies `db
      ensures db == SetAllStore(old(db), kvs, suffix)
    {
      var key := VersionKey(suffix);
      var version := Decimal.Atoi(db[key]);
      version := version + 1;
      db := db[key := Decimal.Text(version)];
      ghost var start := db;
      for i := 0 to |kvs| / 2
        invariant db == PutPairs(start, kvs, i)
      {
        db := db[kvs[2 * i] := kvs[2 * i + 1]];
      }
    }

    /** First half of UP_UPDATE, under the data lock. */
    method ReadForUpdate(keys: UpdateKeys) returns (version: string, header: string, data: string)
      requires keys.version in db && keys.header in db && keys.data in db
      ensures version == db[keys.version] && header == db[keys.header] && data == db[keys.data]
    {
      version, header, data := db[keys.version], db[keys.header], db[keys.data];
    }

    /** Second half of UP_UPDATE, under the data lock; 1 when the version has moved on. */
    method CommitUpdate(keys: UpdateKeys, texts: UpdateTexts, seen: string) returns (rc: int)
      requires keys.version in db
      modifies `db
      ensures db == UpdateStore(old(db), keys, texts, seen)
      ensures rc == if old(db)[keys.version] == seen then 0 else 1
    {
      var now := db[keys.version];
      assert now[..|now|] == now && seen[..|seen|] == seen;
      if !Decimal.SameText(now, seen) {
        return 1;
      }
      var version := Decimal.Atoi(now);
      version := version + 1;
      db := db[keys.wrap := texts.wrap];
      db := db[keys.header := texts.header];
      db := db[keys.data := texts.data];
      db := db[keys.version := Decimal.Text(version)];
      rc := 0;
    }

    /** ROOTKEY, under the root key lock: only as many bytes are written as the new text has. */
    method SetRootKey(text: string)
      modifies `rootKey
      ensures Overwrites(old(rootKey), text, rootKey)
    {
      for i := 0 to |text|
        invariant i <= |rootKey| && |old(rootKey)| <= |rootKey| && (|rootKey| == i || |rootKey| == |old(rootKey)|)
        invariant forall k :: 0 <= k < i ==> rootKey[k] == text[k]
        invariant forall k :: i <= k < |rootKey| ==> rootKey[k] == old(rootKey)[k]
      {
        rootKey := if i < |rootKey| then rootKey[i := text[i]] else rootKey + [text[i]];
      }
    }
  }

  /** ROOTKEY takes effect exactly when the new text is no shorter than the one it replaces. */
  lemma RootKeyTakesEffectIff(before: string, text: string, after: string)
    requires Overwrites(before, text, after)
    ensures after == text <==> |before| <= |text|
    ensures |before| > |text| ==> after == text + before[|text|..]
  {
  }

  // ---- SETALL on any list of pairs ----

  /** The first pair that names a root version decides alone; without one, nothing is committed. */
  lemma {:induction false} FirstRootVersionDecides(rootKey: string, kvs: seq<string>, from: nat, i: nat)
    requires from <= i <= |kvs| / 2
    requires forall j :: from <= j < i ==> !("root_version_" <= kvs[2 * j])
    requires i < |kvs| / 2 ==> "root_version_" <= kvs[2 * i]
    ensures RootCheck(rootKey, kvs, from)
            == if i < |kvs| / 2 && kvs[2 * i + 1] == rootKey then Some(Suffix(kvs[2 * i])) else None
    decreases i - from
  {
    if from < i {
      FirstRootVersionDecides(rootKey, kvs, from + 1, i);
    } else if i < |kvs| / 2 {
      var text := kvs[2 * i + 1];
      assert text[..|text|] == text && rootKey[..|rootKey|] == rootKey;
    }
  }

  /** A key that no pair names keeps its value, or its absence. */
  lemma {:induction false} UnnamedStays(db: Db, kvs: seq<string>, n: nat, key: string)
    requires n <= |kvs| / 2 && forall j :: 0 <= j < n ==> kvs[2 * j] != key
    ensures var after := PutPairs(db, kvs, n);
            (key in after <==> key in db) && (key in db ==> after[key] == db[key])
  {
    if n > 0 {
      UnnamedStays(db, kvs, n - 1, key);
      assert kvs[2 * (n - 1)] != key;
    }
  }

  /** The last pair with a key wins. */
  lemma {:induction false} LastPairWins(db: Db, kvs: seq<string>, n: nat, i: nat)
    requires i < n <= |kvs| / 2 && forall j :: i < j < n ==> kvs[2 * j] != kvs[2 * i]
    ensures var after := PutPairs(db, kvs, n);
            kvs[2 * i] in after && after[kvs[2 * i]] == kvs[2 * i + 1]
    decreases n
  {
    if i < n - 1 {
      LastPairWins(db, kvs, n - 1, i);
      assert kvs[2 * (n - 1)] != kvs[2 * i];
    }
  }

  /** So SETALL counts the version up first, and a pair that names the counter still overwrites it. */
  lemma PairsWinOverCounter(db: Db, kvs: seq<string>, suffix: string, i: nat)
    requires VersionKey(suffix) in db && i < |kvs| / 2
    requires kvs[2 * i] == "ctxt_version_" + suffix
    requires forall j :: i < j < |kvs| / 2 ==> kvs[2 * j] != "ctxt_version_" + suffix
    ensures var after := SetAllStore(db, kvs, suffix);
            VersionKey(suffix) in after && after[VersionKey(suffix)] == kvs[2 * i + 1]
  {
    LastPairWins(db[VersionKey(suffix) := NextVersion(db[VersionKey(suffix)])], kvs, |kvs| / 2, i);
  }

  // ---- Which version counter a SETALL advances ----

  lemma RootKeyTokens(id: string)
    requires Wire.Clean(id, '_')
    ensures Wire.Tokens(ROOT_VERSION + id, '_') == ["root", "version", id]
  {
    Wire.OneToken(id, '_');
    Wire.TokenThenText("version", id, '_');
    Wire.TokenThenText("root", "version" + ['_'] + id, '_');
    assert ROOT_VERSION + id == "root" + ['_'] + ("version" + ['_'] + id);
  }

  /** The suffix of a key is the text behind its last underscore. */
  lemma SuffixIsBehindLastUnderscore(front: string, id: string)
    requires Wire.Clean(id, '_')
    ensures Suffix(front + "_" + id) == id
  {
    Wire.TokensSnoc(front, id, '_');
    assert front + "_" + id == front + ['_'] + id;
  }

  /** SETALL advances the counter of its own id exactly when the id is non-empty and has no underscore. */
  lemma SuffixIsIdIff(id: string)
    ensures Suffix(ROOT_VERSION + id) == id <==> Wire.Clean(id, '_')
  {
    var key := ROOT_VERSION + id;
    Wire.TokensAreClean(key, 0, '_');
    if Wire.Clean(id, '_') {
      RootKeyTokens(id);
    } else {
      assert Wire.TokenStart(key, 0, '_') == 0 by { assert key[0] == 'r'; }
    }
  }
}
