/**
 What the bytes of the scheme are, position by position, and what a decryption refuses. Everything here is
 in numbers, so that it can be held against the structs of the program.
 */
module Layout {
  import opened Common
  import opened Crypto
  import opened NestedAE

  // ---- Where the bytes are ----

  /** The header record: seed, payload key, history key, and the length with its lowest byte first. */
  lemma MetaLayout(m: Meta)
    requires ValidMeta(m)
    ensures var b := MetaBytes(m);
            && |b| == 52
            && b[..16] == m.seed && b[16..32] == m.payloadKey && b[32..48] == m.historyKey
            && m.length == b[48] as int + 0x100 * b[49] as int + 0x1_0000 * b[50] as int + 0x100_0000 * b[51] as int
  {
    var b := MetaBytes(m);
    assert b[48..] == Le32(m.length);
    LittleEndian(m.length);
  }

  lemma LittleEndian(n: int)
    requires 0 <= n < INT_LIMIT
    ensures var b := Le32(n);
            n == b[0] as int + 0x100 * b[1] as int + 0x1_0000 * b[2] as int + 0x100_0000 * b[3] as int
  {
    Le32RoundTrip(n);
  }

  /** The length field is signed: the highest bit counts negative. */
  lemma LengthIsSigned(b: Bytes)
    requires |b| == 4
    ensures FromLe32(b) == b[0] as int + 0x100 * b[1] as int + 0x1_0000 * b[2] as int + 0x100_0000 * b[3] as int
                           - if b[3] >= 0x80 then 0x1_0000_0000 else 0
  {
  }

  /** A fresh ciphertext: iv, tag, sealed message, pad; and its header, sealed with an all-zero history key. */
  lemma CiphertextLayout(s: Suite, key: AEKey, message: Bytes, coins: EncryptCoins)
    requires Lawful(s) && ValidEncryptCoins(coins)
    ensures var (hat, ct) := Encrypt(s, key, message, coins);
            var c := s.seal(coins.payloadKey, coins.payloadIv, message);
            var h := s.seal(key.key, coins.hatIv, MetaBytes(Meta(coins.seed, coins.payloadKey, Zeros(16), |message|)));
            var m := |message|;
            && |ct| == 32 + m + 96 * key.t
            && ct[..16] == coins.payloadIv && ct[16..32] == c.tag && ct[32..32 + m] == c.data
            && ct[32 + m..] == s.keystream(coins.seed, 96 * key.t)
            && hat == Hat(coins.hatIv, h.tag, h.data)
  {
    var c := s.seal(coins.payloadKey, coins.payloadIv, message);
    var pad := s.keystream(coins.seed, key.t * LAYER);
    Four(coins.payloadIv, c.tag, c.data, pad);
  }

  lemma Four(a: Bytes, b: Bytes, c: Bytes, d: Bytes)
    ensures var w := a + b + c + d;
            && w[..|a|] == a && w[|a|..|a| + |b|] == b
            && w[|a| + |b|..|a| + |b| + |c|] == c && w[|a| + |b| + |c|..] == d
  {
  }

  /** What an updater sends: the header of the next layer, 96 bytes longer, and both keys under the new history key. */
  lemma DeltaLayout(s: Suite, oldKey: AEKey, newKey: AEKey, hat: Hat, coins: ReKeyCoins)
    requires Lawful(s) && ValidReKeyCoins(coins)
    ensures ReKeyGen(s, oldKey, newKey, hat, coins).Some? <==> OpenHat(s, oldKey, hat).Some?
    ensures OpenHat(s, oldKey, hat).Some? ==>
              var prior := OpenHat(s, oldKey, hat).value;
              var d := ReKeyGen(s, oldKey, newKey, hat, coins).value;
              var c := s.seal(coins.historyKey, coins.historyIv, prior.payloadKey + prior.historyKey);
              var next := Meta(coins.seed, coins.payloadKey, coins.historyKey, prior.length + 96);
              && |d.history| == 64
              && d.history[..16] == coins.historyIv && d.history[16..32] == c.tag && d.history[32..] == c.data
              && d.length == prior.length && d.payloadKey == coins.payloadKey && d.seed == coins.seed
              && d.hat == Hat(coins.hatIv, s.seal(newKey.key, coins.hatIv, MetaBytes(next)).tag,
                              s.seal(newKey.key, coins.hatIv, MetaBytes(next)).data)
  {
    if OpenHat(s, oldKey, hat).Some? {
      var prior := OpenHat(s, oldKey, hat).value;
      var c := s.seal(coins.historyKey, coins.historyIv, prior.payloadKey + prior.historyKey);
      Four(coins.historyIv, c.tag, c.data, []);
      hide OpenHat, MetaBytes;
      assert c.data + [] == c.data;
      assert coins.historyIv + c.tag + c.data + [] == coins.historyIv + c.tag + c.data;
    }
  }

  /** When a re-encryption is refused, when it does not fit, and what it writes otherwise. */
  lemma ReEncryptLayout(s: Suite, delta: Delta, ct: Bytes, iv: Bytes)
    requires Lawful(s) && |iv| == 16 && |delta.history| == 64
    ensures var r := ReEncrypt(s, delta, ct, iv);
            && (r.Rejected? <==> delta.length + 32 > |ct|)
            && (r.Done? <==> 0 <= delta.length && delta.length + 128 <= |ct|)
            && (r.Done? ==>
                  var n := delta.length;
                  var c := s.seal(delta.payloadKey, iv, ct[..32 + n] + delta.history);
                  && r.hat == delta.hat && |r.ct| == |ct|
                  && r.ct[..16] == iv && r.ct[16..32] == c.tag && r.ct[32..128 + n] == c.data
                  && r.ct[128 + n..] == s.keystream(delta.seed, |ct| - 128 - n))
  {
    if ReEncrypt(s, delta, ct, iv).Done? {
      var n := delta.length;
      var c := s.seal(delta.payloadKey, iv, ct[..32 + n] + delta.history);
      Four(iv, c.tag, c.data, s.keystream(delta.seed, |ct| - 128 - n));
    }
  }

  // ---- What a decryption refuses ----

  /** Changing any one byte of the pad makes the decryption fail. */
  lemma TamperedPadFails(s: Suite, stored: Stored, message: Bytes, k: nat, i: nat, b: byte)
    requires Holds(s, stored, message, k)
    requires 32 + |message| + 96 * k <= i < |stored.ct| && b != stored.ct[i]
    ensures Decrypt(s, stored.key, stored.hat, stored.ct[i := b]) == Failed
  {
    var meta := OpenHat(s, stored.key, stored.hat).value;
    hide Peel;
    var ct := stored.ct[i := b];
    var at := HEADER + meta.length;
    assert stored.ct[at..][i - at] == stored.ct[i] && ct[at..][i - at] == b;
  }

  /** So does cutting into the payload. */
  lemma ShortBlobFails(s: Suite, stored: Stored, message: Bytes, k: nat, n: nat)
    requires Holds(s, stored, message, k) && 32 <= n < 32 + |message| + 96 * k
    ensures Decrypt(s, stored.key, stored.hat, stored.ct[..n]) == Failed
  {
    hide Peel;
  }

  /** So does a header that the key does not open, or that holds no 52-byte record. */
  lemma HeaderMustOpen(s: Suite, key: AEKey, hat: Hat, ct: Bytes)
    ensures var plain := s.open(key.key, hat.iv, hat.data, hat.tag);
            plain.None? || |plain.value| != 52 ==> Decrypt(s, key, hat, ct) == Failed
  {
  }

  /** And so does a payload whose outermost layer does not open under the key in the header. */
  lemma PayloadMustOpen(s: Suite, stored: Stored, message: Bytes, k: nat, ct: Bytes)
    requires Holds(s, stored, message, k) && |ct| == |stored.ct|
    requires s.open(OpenHat(s, stored.key, stored.hat).value.payloadKey, ct[..16],
                    ct[32..32 + |message| + 96 * k], ct[16..32]).None?
    ensures Decrypt(s, stored.key, stored.hat, ct) == Failed
  {
    var meta := OpenHat(s, stored.key, stored.hat).value;
    var payload := ct[..HEADER + meta.length];
    assert payload[..16] == ct[..16] && payload[16..32] == ct[16..32] && payload[32..] == ct[32..HEADER + meta.length];
  }

  // ---- What is asked of the draws ----

  /** Nothing but their sizes, and that a history key is not the sentinel. */
  lemma DrawsAre(e: EncryptCoins, r: Round)
    ensures ValidEncryptCoins(e)
            <==> |e.payloadKey| == 16 && |e.payloadIv| == 16 && |e.seed| == 16 && |e.hatIv| == 16
    ensures ValidRound(r)
            <==> |r.coins.historyKey| == 16 && |r.coins.payloadKey| == 16 && |r.coins.historyIv| == 16
                 && |r.coins.hatIv| == 16 && |r.coins.seed| == 16 && |r.iv| == 16
                 && exists i :: 0 <= i < 16 && r.coins.historyKey[i] != 0
  {
    if |r.coins.historyKey| == 16 && r.coins.historyKey != Zeros(16) {
      assert exists i :: 0 <= i < 16 && r.coins.historyKey[i] != Zeros(16)[i];
    }
  }
}
