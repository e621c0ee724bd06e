/**
 The nested updatable encryption scheme on byte sequences: what each call computes, and the laws
 that hold over any number of re-encryptions.

 A ciphertext is  iv(16) | tag(16) | payload | pad.  A re-encryption seals the old iv, tag and payload
 together with a 64-byte history block under a fresh key, so the payload grows by 96 bytes and the pad
 shrinks by 96.  The header ("hat") holds the seed of the pad and the keys of the outermost layer.
 */
module NestedAE {
  import opened Common
  import opened Crypto

  /** sizeof(AE_ctx_header): iv and tag, in front of a payload or a history block. */
  const HEADER := 32
  /** Encrypted history: header, then the payload key and the history key of the layer below. */
  const HISTORY := 64
  /** What one re-encryption adds to the payload: 2 * RHO + NU, a header and a history block. */
  const LAYER := 96
  /** sizeof(ct_hat_data): a seed, two keys and a 32-bit length. */
  const META_LEN := 52

  const INT_LIMIT := 0x8000_0000

  datatype Meta = Meta(seed: Bytes, payloadKey: Bytes, historyKey: Bytes, length: int)

  datatype Hat = Hat(iv: Bytes, tag: Bytes, data: Bytes)

  datatype Delta = Delta(hat: Hat, history: Bytes, length: int, payloadKey: Bytes, seed: Bytes)

  /** What a decryption writes to the message buffer, if anything. OutOfBounds: an index leaves its buffer. */
  datatype Outcome = Plain(message: Bytes) | Failed | OutOfBounds

  /** Overruns: the writes of the call do not fit the output buffer. */
  datatype ReEncrypted = Done(hat: Hat, ct: Bytes) | Rejected | Overruns

  // ---- The 52-byte record inside the hat ----

  function Le32(n: int): (b: Bytes)
    ensures |b| == 4
  {
    [(n % 256) as byte, (n / 256 % 256) as byte, (n / 65536 % 256) as byte, (n / 16777216 % 256) as byte]
  }

  /** A 32-bit two's complement integer, least significant byte first. */
  function FromLe32(b: Bytes): int
    requires |b| == 4
  {
    var u := b[0] as int + 256 * (b[1] as int) + 65536 * (b[2] as int) + 16777216 * (b[3] as int);
    if u < INT_LIMIT then u else u - 2 * INT_LIMIT
  }

  predicate ValidMeta(m: Meta) {
    && |m.seed| == SEED_LEN
    && |m.payloadKey| == |m.historyKey| == KEY_LEN
    && 0 <= m.length < INT_LIMIT
  }

  function MetaBytes(m: Meta): (b: Bytes)
    ensures ValidMeta(m) ==> |b| == META_LEN
  {
    m.seed + m.payloadKey + m.historyKey + Le32(m.length)
  }

  function ParseMeta(b: Bytes): (m: Meta)
    requires |b| == META_LEN
    ensures |m.seed| == SEED_LEN && |m.payloadKey| == |m.historyKey| == KEY_LEN
  {
    Meta(b[..16], b[16..32], b[32..48], FromLe32(b[48..]))
  }

  lemma Le32RoundTrip(n: int)
    requires 0 <= n < INT_LIMIT
    ensures FromLe32(Le32(n)) == n
  {
    var q := n / 65536;
    assert n == 65536 * q + n % 65536;
    assert q / 256 == n / 16777216;
    assert n % 65536 == 256 * (n / 256 % 256) + n % 256;
  }

  lemma ParseInvertsMetaBytes(m: Meta)
    requires ValidMeta(m)
    ensures ParseMeta(MetaBytes(m)) == m
  {
    var b := MetaBytes(m);
    assert b[..16] == m.seed;
    assert b[16..32] == m.payloadKey;
    assert b[32..48] == m.historyKey;
    assert b[48..] == Le32(m.length);
    Le32RoundTrip(m.length);
  }

  // ---- The calls ----

  predicate AllZero(key: Bytes): (zero: bool)
    ensures zero <==> key == Zeros(|key|)
  {
    forall i :: 0 <= i < |key| ==> key[i] == 0
  }

  function SealHat(s: Suite, key: AEKey, iv: Bytes, meta: Meta): Hat
  {
    var c := s.seal(key.key, iv, MetaBytes(meta));
    Hat(iv, c.tag, c.data)
  }

  function OpenHat(s: Suite, key: AEKey, hat: Hat): Option<Meta> {
    var plain := s.open(key.key, hat.iv, hat.data, hat.tag);
    if plain.None? || |plain.value| != META_LEN then None else Some(ParseMeta(plain.value))
  }

  /** Random bytes drawn by AE_Encrypt. */
  datatype EncryptCoins = EncryptCoins(payloadKey: Bytes, payloadIv: Bytes, seed: Bytes, hatIv: Bytes)

  predicate ValidEncryptCoins(c: EncryptCoins) {
    |c.payloadKey| == KEY_LEN && |c.payloadIv| == IV_LEN && |c.seed| == SEED_LEN && |c.hatIv| == IV_LEN
  }

  function Encrypt(s: Suite, key: AEKey, message: Bytes, coins: EncryptCoins): (Hat, Bytes)
  {
    var c := s.seal(coins.payloadKey, coins.payloadIv, message);
    var meta := Meta(coins.seed, coins.payloadKey, Zeros(KEY_LEN), |message|);
    (SealHat(s, key, coins.hatIv, meta),
     coins.payloadIv + c.tag + c.data + s.keystream(coins.seed, key.t * LAYER))
  }

  /** Opens iv|tag|payload. */
  function OpenPayload(s: Suite, payload: Bytes, payloadKey: Bytes): Option<Bytes>
    requires |payload| >= HEADER
  {
    s.open(payloadKey, payload[..16], payload[32..], payload[16..32])
  }

  /** Peels every layer of iv|tag|payload; an all-zero history key marks the innermost one. */
  function Peel(s: Suite, payload: Bytes, payloadKey: Bytes, historyKey: Bytes): (r: Outcome)
    decreases |payload|
  {
    if |payload| < HEADER then OutOfBounds
    else
      var content := OpenPayload(s, payload, payloadKey);
      if content.None? || |content.value| != |payload| - HEADER then Failed
      else if AllZero(historyKey) then Plain(content.value)
      else if |content.value| < HISTORY then OutOfBounds
      else
        var (below, keys) := SplitLayer(s, content.value, historyKey);
        if keys.None? then Failed
        else Peel(s, below, keys.value[..KEY_LEN], keys.value[KEY_LEN..])
  }

  /** A content layer is the layer below followed by the history block that holds its two keys. */
  function SplitLayer(s: Suite, content: Bytes, historyKey: Bytes): (r: (Bytes, Option<Bytes>))
    requires |content| >= HISTORY
    ensures |r.0| == |content| - HISTORY
    ensures r.1.Some? ==> |r.1.value| == 2 * KEY_LEN
  {
    var at := |content| - HISTORY;
    var keys := s.open(historyKey, content[at..at + 16], content[at + 32..], content[at + 16..at + 32]);
    (content[..at], if keys.Some? && |keys.value| == 2 * KEY_LEN then keys else None)
  }

  predicate PadMatches(s: Suite, seed: Bytes, ct: Bytes, length: nat)
    requires HEADER + length <= |ct|
  {
    ct[HEADER + length..] == s.keystream(seed, |ct| - HEADER - length)
  }

  /** The length argument of the source, ctx_length, is |ct| - HEADER. */
  function Decrypt(s: Suite, key: AEKey, hat: Hat, ct: Bytes): Outcome {
    var content := OpenHat(s, key, hat);
    if content.None? then Failed
    else
      var meta := content.value;
      if meta.length > |ct| - HEADER then Failed
      else if meta.length < 0 || |ct| < HEADER then OutOfBounds
      else if !PadMatches(s, meta.seed, ct, meta.length) then Failed
      else Peel(s, ct[..HEADER + meta.length], meta.payloadKey, meta.historyKey)
  }

  /** Random bytes drawn by AE_ReKeyGen. */
  datatype ReKeyCoins = ReKeyCoins(historyKey: Bytes, historyIv: Bytes, payloadKey: Bytes, seed: Bytes, hatIv: Bytes)

  predicate ValidReKeyCoins(c: ReKeyCoins) {
    && |c.historyKey| == |c.payloadKey| == KEY_LEN
    && |c.historyIv| == |c.hatIv| == IV_LEN
    && |c.seed| == SEED_LEN
  }

  function NewMeta(prior: Meta, coins: ReKeyCoins): Meta {
    Meta(coins.seed, coins.payloadKey, coins.historyKey, prior.length + LAYER)
  }

  function HistoryBlock(s: Suite, prior: Meta, coins: ReKeyCoins): Bytes {
    var c := s.seal(coins.historyKey, coins.historyIv, prior.payloadKey + prior.historyKey);
    coins.historyIv + c.tag + c.data
  }

  /** None is the error return: the hat does not open. */
  function ReKeyGen(s: Suite, oldKey: AEKey, newKey: AEKey, hat: Hat, coins: ReKeyCoins): (d: Option<Delta>) {
    var content := OpenHat(s, oldKey, hat);
    if content.None? then None
    else
      var prior := content.value;
      Some(Delta(SealHat(s, newKey, coins.hatIv, NewMeta(prior, coins)), HistoryBlock(s, prior, coins),
                 prior.length, coins.payloadKey, coins.seed))
  }

  function ReEncrypt(s: Suite, delta: Delta, ct: Bytes, iv: Bytes): ReEncrypted {
    var ctxLength := |ct| - HEADER;
    if delta.length > ctxLength then Rejected
    else if !(0 <= delta.length <= ctxLength - LAYER) then Overruns
    else
      var c := s.seal(delta.payloadKey, iv, ct[..HEADER + delta.length] + delta.history);
      Done(delta.hat, iv + c.tag + c.data + s.keystream(delta.seed, ctxLength - (delta.length + LAYER)))
  }

  // ---- What a stored ciphertext satisfies ----

  /** ct, read with the keys and the length in `meta`, holds `message` under k re-encryptions. */
  ghost predicate Carries(s: Suite, meta: Meta, ct: Bytes, message: Bytes, k: nat) {
    && meta.length == |message| + LAYER * k
    && HEADER + meta.length <= |ct| < INT_LIMIT
    && PadMatches(s, meta.seed, ct, meta.length)
    && Peel(s, ct[..HEADER + meta.length], meta.payloadKey, meta.historyKey) == Plain(message)
    && (meta.historyKey == Zeros(|meta.historyKey|) <==> k == 0)
  }

  /** The three parts have the sizes of the struct that holds them. */
  predicate HatFits(hat: Hat) {
    |hat.iv| == IV_LEN && |hat.tag| == TAG_LEN && |hat.data| == META_LEN
  }

  /** (hat, ct) holds `message` under `key` after k re-encryptions. */
  ghost predicate WellSealed(s: Suite, key: AEKey, hat: Hat, ct: Bytes, message: Bytes, k: nat) {
    var content := OpenHat(s, key, hat);
    content.Some? && Carries(s, content.value, ct, message, k) && HatFits(hat)
  }

  lemma SealedHatOpens(s: Suite, key: AEKey, iv: Bytes, meta: Meta)
    requires Lawful(s) && ValidMeta(meta)
    ensures OpenHat(s, key, SealHat(s, key, iv, meta)) == Some(meta)
    ensures |iv| == IV_LEN ==> HatFits(SealHat(s, key, iv, meta))
  {
    ParseInvertsMetaBytes(meta);
  }

  /** A payload sealed in one piece opens to what was sealed. */
  lemma SealedPayloadOpens(s: Suite, key: Bytes, iv: Bytes, plain: Bytes)
    requires Lawful(s) && |iv| == IV_LEN
    ensures var c := s.seal(key, iv, plain);
            var payload := iv + c.tag + c.data;
            && |payload| == HEADER + |plain|
            && OpenPayload(s, payload, key) == Some(plain)
  {
    var c := s.seal(key, iv, plain);
    var payload := iv + c.tag + c.data;
    assert payload[..16] == iv && payload[16..32] == c.tag && payload[32..] == c.data;
  }

  lemma EncryptSeals(s: Suite, key: AEKey, message: Bytes, coins: EncryptCoins)
    requires Lawful(s) && ValidEncryptCoins(coins)
    requires HEADER + |message| + key.t * LAYER < INT_LIMIT
    ensures var (hat, ct) := Encrypt(s, key, message, coins);
            && |ct| == HEADER + |message| + key.t * LAYER
            && WellSealed(s, key, hat, ct, message, 0)
  {
    var (hat, ct) := Encrypt(s, key, message, coins);
    var c := s.seal(coins.payloadKey, coins.payloadIv, message);
    SealedHatOpens(s, key, coins.hatIv, Meta(coins.seed, coins.payloadKey, Zeros(KEY_LEN), |message|));
    SealedPayloadOpens(s, coins.payloadKey, coins.payloadIv, message);
    assert ct[..HEADER + |message|] == coins.payloadIv + c.tag + c.data;
    assert ct[HEADER + |message|..] == s.keystream(coins.seed, key.t * LAYER);
  }

  lemma PadPrefixMatches(s: Suite, seed: Bytes, ct: Bytes, length: nat, n: nat)
    requires KeystreamIsPrefixClosed(s) && HEADER + length <= n <= |ct|
    requires PadMatches(s, seed, ct, length)
    ensures PadMatches(s, seed, ct[..n], length)
  {
    var at := HEADER + length;
    assert s.keystream(seed, n - at) <= s.keystream(seed, |ct| - at);
    assert ct[..n][at..] == ct[at..][..n - at];
  }

  /** Dropping pad bytes at the end keeps the ciphertext decryptable. */
  lemma PadCanBeTruncated(s: Suite, key: AEKey, hat: Hat, ct: Bytes, message: Bytes, k: nat, n: nat)
    requires Lawful(s) && WellSealed(s, key, hat, ct, message, k)
    requires HEADER + |message| + LAYER * k <= n <= |ct|
    ensures WellSealed(s, key, hat, ct[..n], message, k)
  {
    var meta := OpenHat(s, key, hat).value;
    PadPrefixMatches(s, meta.seed, ct, meta.length, n);
    assert ct[..n][..HEADER + meta.length] == ct[..HEADER + meta.length];
  }

  /** One more layer around a payload peels to the same message. */
  lemma LayerPeels(s: Suite, below: Bytes, prior: Meta, coins: ReKeyCoins, iv: Bytes)
    requires Lawful(s) && ValidReKeyCoins(coins) && |iv| == IV_LEN && coins.historyKey != Zeros(KEY_LEN)
    requires |prior.payloadKey| == |prior.historyKey| == KEY_LEN
    ensures var c := s.seal(coins.payloadKey, iv, below + HistoryBlock(s, prior, coins));
            && |c.data| == |below| + HISTORY
            && Peel(s, iv + c.tag + c.data, coins.payloadKey, coins.historyKey)
               == Peel(s, below, prior.payloadKey, prior.historyKey)
  {
    var keys := prior.payloadKey + prior.historyKey;
    var block := HistoryBlock(s, prior, coins);
    var plain := below + block;
    var at := |below|;
    SealedPayloadOpens(s, coins.payloadKey, iv, plain);
    SealedPayloadOpens(s, coins.historyKey, coins.historyIv, keys);
    assert |block| == HISTORY;
    assert plain[..at] == below && plain[at..] == block;
    assert plain[at..at + 16] == block[..16] && plain[at + 16..at + 32] == block[16..32];
    assert plain[at + 32..] == block[32..];
    assert keys[..KEY_LEN] == prior.payloadKey && keys[KEY_LEN..] == prior.historyKey;
  }

  /** One AE_KeyGen, AE_ReKeyGen and AE_ReEncrypt. */
  datatype Round = Round(newKey: AEKey, coins: ReKeyCoins, iv: Bytes)

  predicate ValidRound(r: Round) {
    ValidReKeyCoins(r.coins) && |r.iv| == IV_LEN && r.coins.historyKey != Zeros(KEY_LEN)
  }

  datatype Stored = Stored(key: AEKey, hat: Hat, ct: Bytes)

  /** AE_ReKeyGen followed by AE_ReEncrypt; without a delta there is nothing to send. */
  function Attempt(s: Suite, stored: Stored, round: Round): ReEncrypted {
    var delta := ReKeyGen(s, stored.key, round.newKey, stored.hat, round.coins);
    if delta.None? then Rejected else ReEncrypt(s, delta.value, stored.ct, round.iv)
  }

  /** One rotation of a stored blob, if its re-encryption goes through. */
  function Rotate(s: Suite, stored: Stored, round: Round): Option<Stored> {
    var r := Attempt(s, stored, round);
    if r.Done? then Some(Stored(round.newKey, r.hat, r.ct)) else None
  }

  ghost predicate Holds(s: Suite, stored: Stored, message: Bytes, k: nat) {
    WellSealed(s, stored.key, stored.hat, stored.ct, message, k)
  }

  ghost predicate HasRoom(message: Bytes, ct: Bytes, k: nat) {
    HEADER + |message| + LAYER * (k + 1) <= |ct|
  }

  lemma Halves(a: Bytes, b: Bytes)
    ensures (a + b)[..|a|] == a && (a + b)[|a|..] == b
  {
  }

  /** What AE_ReEncrypt writes carries the same message under one more layer. */
  lemma ReEncryptCarries(s: Suite, prior: Meta, ct: Bytes, message: Bytes, k: nat, delta: Delta,
                         coins: ReKeyCoins, iv: Bytes)
    requires Lawful(s) && Carries(s, prior, ct, message, k) && HasRoom(message, ct, k)
    requires |prior.payloadKey| == |prior.historyKey| == KEY_LEN
    requires ValidReKeyCoins(coins) && |iv| == IV_LEN && coins.historyKey != Zeros(KEY_LEN)
    requires delta.length == prior.length && delta.history == HistoryBlock(s, prior, coins)
    requires delta.payloadKey == coins.payloadKey && delta.seed == coins.seed
    ensures var r := ReEncrypt(s, delta, ct, iv);
            && r.Done?
            && r.hat == delta.hat
            && |r.ct| == |ct|
            && Carries(s, NewMeta(prior, coins), r.ct, message, k + 1)
  {
    var below := ct[..HEADER + prior.length];
    var c := s.seal(coins.payloadKey, iv, below + delta.history);
    LayerPeels(s, below, prior, coins, iv);
    var at := HEADER + prior.length + LAYER;
    var layer := iv + c.tag + c.data;
    var pad := s.keystream(coins.seed, |ct| - at);
    Halves(layer, pad);
    assert ReEncrypt(s, delta, ct, iv).ct == layer + pad;
  }

  /** One rotation keeps the message and the size, and uses exactly one layer of pad. */
  lemma RotationSeals(s: Suite, stored: Stored, message: Bytes, k: nat, round: Round)
    requires Lawful(s) && WellSealed(s, stored.key, stored.hat, stored.ct, message, k)
    requires HasRoom(message, stored.ct, k) && ValidRound(round)
    ensures var r := Attempt(s, stored, round);
            && r.Done?
            && |r.ct| == |stored.ct|
            && WellSealed(s, round.newKey, r.hat, r.ct, message, k + 1)
  {
    var prior := OpenHat(s, stored.key, stored.hat).value;
    var delta := ReKeyGen(s, stored.key, round.newKey, stored.hat, round.coins).value;
    SealedHatOpens(s, round.newKey, round.coins.hatIv, NewMeta(prior, round.coins));
    ReEncryptCarries(s, prior, stored.ct, message, k, delta, round.coins, round.iv);
  }

  // ---- Any number of rotations ----

  function RotateAll(s: Suite, stored: Stored, rounds: seq<Round>): Option<Stored>
    decreases |rounds|
  {
    if rounds == [] then Some(stored)
    else
      var next := Rotate(s, stored, rounds[0]);
      if next.None? then None else RotateAll(s, next.value, rounds[1..])
  }

  /** How many re-encryptions a blob of `size` bytes with an m-byte message admits. */
  function Capacity(size: nat, m: nat): nat
    requires HEADER + m <= size
  {
    (size - HEADER - m) / LAYER
  }

  lemma CapacityOfPad(m: nat, t: nat)
    ensures Capacity(HEADER + m + t * LAYER, m) == t
    ensures t > 0 ==> Capacity(m + t * LAYER, m) == t - 1
  {
  }

  lemma RoomIsCapacity(message: Bytes, ct: Bytes, k: nat)
    requires HEADER + |message| <= |ct|
    ensures HasRoom(message, ct, k) <==> k < Capacity(|ct|, |message|)
  {
  }

  /** Without room the guard of AE_ReEncrypt still lets the call through; it never rejects a stored blob. */
  lemma GuardNeverFires(s: Suite, stored: Stored, message: Bytes, k: nat, round: Round)
    requires Lawful(s) && ValidRound(round) && Holds(s, stored, message, k)
    ensures HEADER + |message| <= |stored.ct|
    ensures !Attempt(s, stored, round).Rejected?
    ensures Attempt(s, stored, round).Done? <==> k < Capacity(|stored.ct|, |message|)
    ensures Attempt(s, stored, round).Overruns? <==> k == Capacity(|stored.ct|, |message|)
  {
    RoomIsCapacity(message, stored.ct, k);
  }

  lemma HoldsSize(s: Suite, stored: Stored, message: Bytes, k: nat)
    requires Holds(s, stored, message, k)
    ensures HEADER + |message| + LAYER * k <= |stored.ct| < INT_LIMIT
  {
  }

  lemma RotateWithinCapacity(s: Suite, stored: Stored, message: Bytes, k: nat, round: Round)
    requires Lawful(s) && Holds(s, stored, message, k) && ValidRound(round)
    ensures var next := Rotate(s, stored, round);
            && HEADER + |message| + LAYER * k <= |stored.ct|
            && (next.Some? <==> HasRoom(message, stored.ct, k))
            && (next.Some? ==>
                  && |next.value.ct| == |stored.ct|
                  && Holds(s, next.value, message, k + 1))
  {
    if HasRoom(message, stored.ct, k) {
      RotationSeals(s, stored, message, k, round);
    }
  }

  /**
   The central law. From a well-sealed blob, a run of rotations goes through exactly when it is within
   the capacity; then the blob has kept its size and holds the same message.
   */
  lemma {:induction false} RotationsKeepMessage(s: Suite, stored: Stored, message: Bytes, k: nat, rounds: seq<Round>)
    requires Lawful(s) && Holds(s, stored, message, k)
    requires forall i :: 0 <= i < |rounds| ==> ValidRound(rounds[i])
    ensures |stored.ct| >= HEADER + |message|
    ensures var r := RotateAll(s, stored, rounds);
            && (r.Some? <==> k + |rounds| <= Capacity(|stored.ct|, |message|))
            && (r.Some? ==> |r.value.ct| == |stored.ct| && Holds(s, r.value, message, k + |rounds|))
    decreases |rounds|
  {
    HoldsSize(s, stored, message, k);
    if rounds != [] {
      RotateWithinCapacity(s, stored, message, k, rounds[0]);
      var next := Rotate(s, stored, rounds[0]);
      if next.Some? {
        RotationsKeepMessage(s, next.value, message, k + 1, rounds[1..]);
      }
    }
  }

  /** What the client uploads. */
  function Uploaded(s: Suite, key: AEKey, message: Bytes, coins: EncryptCoins): Stored {
    var (hat, ct) := Encrypt(s, key, message, coins);
    Stored(key, hat, ct)
  }

  /** What the populate program stores: only as many bytes as AE_Encrypt returns, 32 fewer. */
  function Populated(s: Suite, key: AEKey, message: Bytes, coins: EncryptCoins): (r: Stored)
    ensures |r.ct| <= |message| + key.t * LAYER
  {
    var whole := Uploaded(s, key, message, coins);
    var n := |message| + key.t * LAYER;
    if n <= |whole.ct| then whole.(ct := whole.ct[..n]) else Stored(key, whole.hat, [])
  }

  lemma UploadedHolds(s: Suite, key: AEKey, message: Bytes, coins: EncryptCoins)
    requires Lawful(s) && ValidEncryptCoins(coins) && HEADER + |message| + key.t * LAYER < INT_LIMIT
    ensures |Uploaded(s, key, message, coins).ct| == HEADER + |message| + key.t * LAYER
    ensures Holds(s, Uploaded(s, key, message, coins), message, 0)
  {
    EncryptSeals(s, key, message, coins);
  }

  /** The upload of the client: a blob made for t re-encryptions admits t of them, and no more. */
  lemma EncryptThenRotate(s: Suite, key: AEKey, message: Bytes, coins: EncryptCoins, rounds: seq<Round>)
    requires Lawful(s) && ValidEncryptCoins(coins) && HEADER + |message| + key.t * LAYER < INT_LIMIT
    requires forall i :: 0 <= i < |rounds| ==> ValidRound(rounds[i])
    ensures var r := RotateAll(s, Uploaded(s, key, message, coins), rounds);
            && (r.Some? <==> |rounds| <= key.t)
            && (r.Some? ==> Holds(s, r.value, message, |rounds|))
  {
    UploadedHolds(s, key, message, coins);
    CapacityOfPad(|message|, key.t);
    RotationsKeepMessage(s, Uploaded(s, key, message, coins), message, 0, rounds);
  }

  lemma PopulatedHolds(s: Suite, key: AEKey, message: Bytes, coins: EncryptCoins)
    requires Lawful(s) && ValidEncryptCoins(coins) && HEADER + |message| + key.t * LAYER < INT_LIMIT
    requires key.t > 0
    ensures |Populated(s, key, message, coins).ct| == |message| + key.t * LAYER
    ensures Holds(s, Populated(s, key, message, coins), message, 0)
  {
    EncryptSeals(s, key, message, coins);
    var whole := Uploaded(s, key, message, coins);
    PadCanBeTruncated(s, key, whole.hat, whole.ct, message, 0, |message| + key.t * LAYER);
  }

  /** The populated upload still decrypts, but admits one re-encryption fewer. */
  lemma PopulateThenRotate(s: Suite, key: AEKey, message: Bytes, coins: EncryptCoins, rounds: seq<Round>)
    requires Lawful(s) && ValidEncryptCoins(coins) && HEADER + |message| + key.t * LAYER < INT_LIMIT
    requires key.t > 0
    requires forall i :: 0 <= i < |rounds| ==> ValidRound(rounds[i])
    ensures var r := RotateAll(s, Populated(s, key, message, coins), rounds);
            && (r.Some? <==> |rounds| <= key.t - 1)
            && (r.Some? ==> Holds(s, r.value, message, |rounds|))
  {
    PopulatedHolds(s, key, message, coins);
    CapacityOfPad(|message|, key.t);
    RotationsKeepMessage(s, Populated(s, key, message, coins), message, 0, rounds);
  }

  /** A blob that holds a message decrypts to it under its key. */
  lemma HeldMessageDecrypts(s: Suite, stored: Stored, message: Bytes, k: nat)
    requires Holds(s, stored, message, k)
    ensures Decrypt(s, stored.key, stored.hat, stored.ct) == Plain(message)
  {
  }
}
