/**
 The scheme as the program runs it: on byte buffers that the calls overwrite in place. Every method is
 specified by the function of the same name in NestedAE; RAND_bytes draws are parameters.
 */
module NestedAEBuffers {
  import opened Common
  import opened Crypto
  import opened NestedAE

  /** memcpy(dst + |done|, src, |src|), where `done` is what the buffer holds up to there. */
  method Append(dst: array<byte>, ghost done: Bytes, at: nat, src: Bytes)
    requires at == |done| && at + |src| <= dst.Length && dst[..at] == done
    modifies dst
    ensures dst[..at + |src|] == done + src
    ensures forall i :: at + |src| <= i < dst.Length ==> dst[i] == old(dst[i])
  {
    forall i | 0 <= i < |src| {
      dst[at + i] := src[i];
    }
  }

  /**
   gcm_decrypt on src[at..at + length]; the plaintext goes to the front of dst. Nothing is promised
   about dst[..length] when the tag does not match.
   */
  method GcmDecrypt(s: Suite, key: Bytes, iv: Bytes, tag: Bytes, src: array<byte>, at: nat, length: nat,
                    dst: array<byte>) returns (n: int)
    requires OpenKeepsLength(s)
    requires at + length <= src.Length && length <= dst.Length && src != dst
    modifies dst
    ensures var plain := s.open(key, iv, src[at..at + length], tag);
            if plain.Some? then n == length && dst[..length] == plain.value else n == -1
    ensures forall i :: length <= i < dst.Length ==> dst[i] == old(dst[i])
  {
    var plain := s.open(key, iv, src[at..at + length], tag);
    match plain {
      case None => n := -1;
      case Some(bytes) =>
        Append(dst, [], 0, bytes);
        n := |bytes|;
    }
  }

  /** The loop that ORs a history key together. */
  method IsAllZero(key: Bytes) returns (zero: bool)
    ensures zero <==> key == Zeros(|key|)
  {
    var acc: bv8 := 0;
    for i := 0 to |key|
      invariant acc == 0 <==> forall j :: 0 <= j < i ==> key[j] == 0
    {
      acc := acc | (key[i] as bv8);
    }
    zero := acc == 0;
  }

  /** The call's own layer opens, and so does its history block: what decides the return code. */
  ghost predicate TopLayerOpens(s: Suite, payload: Bytes, payloadKey: Bytes, historyKey: Bytes)
    requires |payload| >= HEADER
  {
    var content := OpenPayload(s, payload, payloadKey);
    && content.Some?
    && (AllZero(historyKey) || (|content.value| >= HISTORY && SplitLayer(s, content.value, historyKey).1.Some?))
  }

  /** Opens iv|tag|payload of `length` bytes into the front of dst. */
  method OpenPayloadInto(s: Suite, payload: array<byte>, payloadKey: Bytes, length: nat, dst: array<byte>)
    returns (ok: bool)
    requires OpenKeepsLength(s)
    requires HEADER + length <= payload.Length && length <= dst.Length && payload != dst
    modifies dst
    ensures var content := OpenPayload(s, payload[..HEADER + length], payloadKey);
            ok == content.Some? && (ok ==> |content.value| == length && dst[..length] == content.value)
    ensures forall i :: length <= i < dst.Length ==> dst[i] == old(dst[i])
  {
    ghost var whole := payload[..HEADER + length];
    var iv, tag := payload[..16], payload[16..32];
    assert whole[..16] == iv && whole[16..32] == tag;
    assert whole[32..] == payload[HEADER..HEADER + length];
    var n := GcmDecrypt(s, payloadKey, iv, tag, payload, HEADER, length, dst);
    ok := n == length;
  }

  /** Opens the history block at the end of an opened layer of `length` bytes. */
  method OpenHistory(s: Suite, data: array<byte>, length: nat, historyKey: Bytes) returns (keys: Option<Bytes>)
    requires OpenKeepsLength(s) && HISTORY <= length <= data.Length
    ensures SplitLayer(s, data[..length], historyKey) == (data[..length - HISTORY], keys)
  {
    var at := length - HISTORY;
    ghost var content := data[..length];
    var iv, tag := data[at..at + 16], data[at + 16..at + 32];
    assert content[at..at + 16] == iv && content[at + 16..at + 32] == tag;
    assert content[at + 32..] == data[at + HEADER..at + HEADER + 2 * KEY_LEN];
    assert content[..at] == data[..at];
    var buffer := new byte[2 * KEY_LEN];
    var n := GcmDecrypt(s, historyKey, iv, tag, data, at + HEADER, 2 * KEY_LEN, buffer);
    if n == 2 * KEY_LEN {
      assert buffer[..] == buffer[..2 * KEY_LEN];
      keys := Some(buffer[..]);
    } else {
      keys := None;
    }
  }

  /** What one level contributes once its payload and its history block have opened. */
  lemma PeelBelow(s: Suite, payload: Bytes, payloadKey: Bytes, historyKey: Bytes, content: Bytes, keys: Bytes)
    requires |payload| == HEADER + |content| && !AllZero(historyKey)
    requires OpenPayload(s, payload, payloadKey) == Some(content)
    requires |content| >= HISTORY && SplitLayer(s, content, historyKey).1 == Some(keys)
    ensures Peel(s, payload, payloadKey, historyKey)
            == Peel(s, content[..|content| - HISTORY], keys[..KEY_LEN], keys[KEY_LEN..])
  {
  }

  /**
   Peels one layer into `data` and recurses with the two buffers swapped. The return code reports only
   this level: a failure further down is not seen by the caller.
   */
  method DecryptLastStep(s: Suite, payload: array<byte>, payloadKey: Bytes, historyKey: Bytes, length: nat,
                         message: array<byte>, data: array<byte>) returns (rc: int)
    requires OpenKeepsLength(s)
    requires payload != data && payload != message && data != message
    requires HEADER + length <= payload.Length && length <= data.Length && length <= message.Length
    requires Peel(s, payload[..HEADER + length], payloadKey, historyKey) != OutOfBounds
    modifies payload, data, message
    ensures var r := old(Peel(s, payload[..HEADER + length], payloadKey, historyKey));
            r.Plain? ==> rc == 0 && |r.message| <= length && message[..|r.message|] == r.message
    ensures rc == if old(TopLayerOpens(s, payload[..HEADER + length], payloadKey, historyKey)) then 0 else -1
    ensures forall i :: length <= i < message.Length ==> message[i] == old(message[i])
    decreases length
  {
    ghost var whole := payload[..HEADER + length];
    var zero := IsAllZero(historyKey);
    if zero {
      var ok := OpenPayloadInto(s, payload, payloadKey, length, message);
      rc := if ok then 0 else -1;
    } else {
      var ok := OpenPayloadInto(s, payload, payloadKey, length, data);
      if !ok {
        return -1;
      }
      ghost var content := data[..length];
      var keys := OpenHistory(s, data, length, historyKey);
      if keys.None? {
        return -1;
      }
      PeelBelow(s, whole, payloadKey, historyKey, content, keys.value);
      assert content[..length - HISTORY] == data[..length - HISTORY];
      var _ := DecryptLastStep(s, data, keys.value[..KEY_LEN], keys.value[KEY_LEN..], length - LAYER, message, payload);
      rc := 0;
    }
  }

  /** True when the header opens and the pad is the expected one. */
  ghost predicate Accepted(s: Suite, key: AEKey, hat: Hat, ct: Bytes)
    requires |ct| >= HEADER
  {
    var content := OpenHat(s, key, hat);
    && content.Some?
    && 0 <= content.value.length <= |ct| - HEADER
    && PadMatches(s, content.value.seed, ct, content.value.length)
  }

  /** The loop that compares the regenerated pad with the stored one. */
  method SameBytes(expected: Bytes, buffer: array<byte>, at: nat) returns (same: bool)
    requires at + |expected| <= buffer.Length
    ensures same <==> buffer[at..at + |expected|] == expected
  {
    for i := 0 to |expected|
      invariant forall j :: 0 <= j < i ==> expected[j] == buffer[at + j]
    {
      if expected[i] != buffer[at + i] {
        assert buffer[at..at + |expected|][i] != expected[i];
        return false;
      }
    }
    same := true;
  }

  /** AE_Decrypt: the ciphertext is only read; the message is written when everything opens. */
  method AEDecrypt(s: Suite, key: AEKey, hat: Hat, ciphertext: array<byte>, message: array<byte>, ctxLength: nat)
    requires OpenKeepsLength(s) && ciphertext != message
    requires HEADER + ctxLength <= ciphertext.Length && ctxLength <= message.Length
    requires forall seed, n: nat :: |s.keystream(seed, n)| == n
    requires Decrypt(s, key, hat, ciphertext[..HEADER + ctxLength]) != OutOfBounds
    modifies message
    ensures var r := Decrypt(s, key, hat, ciphertext[..HEADER + ctxLength]);
            r.Plain? ==> |r.message| <= ctxLength && message[..|r.message|] == r.message
    ensures !Accepted(s, key, hat, ciphertext[..HEADER + ctxLength]) ==> message[..] == old(message[..])
    ensures forall i :: ctxLength <= i < message.Length ==> message[i] == old(message[i])
  {
    ghost var ct := ciphertext[..HEADER + ctxLength];
    var content := OpenHat(s, key, hat);
    if content.None? || content.value.length > ctxLength {
      return;
    }
    var meta := content.value;
    var padAt, padLen := HEADER + meta.length, ctxLength - meta.length;
    assert ct[padAt..] == ciphertext[padAt..padAt + padLen];
    var padOk := SameBytes(s.keystream(meta.seed, padLen), ciphertext, padAt);
    if !padOk {
      return;
    }
    var payload := new byte[padAt];
    Append(payload, [], 0, ciphertext[..padAt]);
    assert payload[..padAt] == ct[..padAt];
    var data := new byte[meta.length];
    assert Peel(s, payload[..padAt], meta.payloadKey, meta.historyKey) == Decrypt(s, key, hat, ct);
    var _ := DecryptLastStep(s, payload, meta.payloadKey, meta.historyKey, meta.length, message, data);
  }

  /** AE_Encrypt: returns the header and the length it reports, which leaves out the 32 header bytes. */
  method AEEncrypt(s: Suite, key: AEKey, message: array<byte>, length: nat, coins: EncryptCoins,
                   ciphertext: array<byte>) returns (hat: Hat, written: nat)
    requires Lawful(s) && ValidEncryptCoins(coins)
    requires message != ciphertext && length <= message.Length
    requires HEADER + length + key.t * LAYER <= ciphertext.Length
    modifies ciphertext
    ensures (hat, ciphertext[..HEADER + length + key.t * LAYER]) == Encrypt(s, key, message[..length], coins)
    ensures written == length + key.t * LAYER
    ensures forall i :: HEADER + written <= i < ciphertext.Length ==> ciphertext[i] == old(ciphertext[i])
  {
    var historyKey := new byte[KEY_LEN];
    for i := 0 to KEY_LEN
      modifies historyKey
      invariant forall j :: 0 <= j < i ==> historyKey[j] == 0
    {
      historyKey[i] := 0;
    }
    var plain := message[..length];
    var c := s.seal(coins.payloadKey, coins.payloadIv, plain);
    var padLen := key.t * LAYER;
    Append(ciphertext, [], 0, coins.payloadIv);
    Append(ciphertext, coins.payloadIv, IV_LEN, c.tag);
    Append(ciphertext, coins.payloadIv + c.tag, HEADER, c.data);
    var pad := s.keystream(coins.seed, padLen);
    Append(ciphertext, coins.payloadIv + c.tag + c.data, HEADER + length, pad);
    assert historyKey[..] == Zeros(KEY_LEN);
    hat := SealHat(s, key, coins.hatIv, Meta(coins.seed, coins.payloadKey, historyKey[..], length));
    written := length + |pad|;
  }

  /** AE_ReKeyGen: -1 exactly when the old key does not open the header. */
  method AEReKeyGen(s: Suite, oldKey: AEKey, newKey: AEKey, hat: Hat, coins: ReKeyCoins)
    returns (rc: int, delta: Option<Delta>)
    requires ValidReKeyCoins(coins)
    ensures delta == ReKeyGen(s, oldKey, newKey, hat, coins)
    ensures rc == if delta.Some? then 0 else -1
  {
    var content := OpenHat(s, oldKey, hat);
    if content.None? {
      return -1, None;
    }
    var prior := content.value;
    var payloadKey, seed := new byte[KEY_LEN], new byte[SEED_LEN];
    for i := 0 to KEY_LEN
      invariant forall j :: 0 <= j < i ==> payloadKey[j] == coins.payloadKey[j] && seed[j] == coins.seed[j]
    {
      payloadKey[i] := coins.payloadKey[i];
      seed[i] := coins.seed[i];
    }
    assert payloadKey[..] == coins.payloadKey && seed[..] == coins.seed;
    var history := s.seal(coins.historyKey, coins.historyIv, prior.payloadKey + prior.historyKey);
    var newMeta := Meta(coins.seed, coins.payloadKey, coins.historyKey, prior.length + LAYER);
    delta := Some(Delta(SealHat(s, newKey, coins.hatIv, newMeta), coins.historyIv + history.tag + history.data,
                        prior.length, payloadKey[..], seed[..]));
    rc := 0;
  }

  /**
   AE_ReEncrypt: reads the front of ciphertext1, writes all of ciphertext2, or leaves it alone when it
   rejects. The server's ciphertext1 is a decode buffer, longer than what it holds.
   */
  method AEReEncrypt(s: Suite, delta: Delta, ciphertext1: array<byte>, ciphertext2: array<byte>, ctxLength: nat,
                     iv: Bytes) returns (rc: int, hat: Option<Hat>)
    requires Lawful(s) && |iv| == IV_LEN && |delta.history| == HISTORY
    requires ciphertext1 != ciphertext2
    requires HEADER + ctxLength <= ciphertext1.Length && HEADER + ctxLength == ciphertext2.Length
    requires ReEncrypt(s, delta, ciphertext1[..HEADER + ctxLength], iv) != Overruns
    modifies ciphertext2
    ensures match ReEncrypt(s, delta, ciphertext1[..HEADER + ctxLength], iv)
            case Done(hat2, ct2) => rc == ctxLength && hat == Some(hat2) && ciphertext2[..] == ct2
            case _ => rc == -1 && hat == None && ciphertext2[..] == old(ciphertext2[..])
  {
    if delta.length > ctxLength {
      return -1, None;
    }
    var plain := ciphertext1[..HEADER] + ciphertext1[HEADER..HEADER + delta.length] + delta.history;
    assert ciphertext1[..HEADER + ctxLength][..HEADER + delta.length]
        == ciphertext1[..HEADER] + ciphertext1[HEADER..HEADER + delta.length];
    var c := s.seal(delta.payloadKey, iv, plain);
    Append(ciphertext2, [], 0, iv);
    Append(ciphertext2, iv, IV_LEN, c.tag);
    Append(ciphertext2, iv + c.tag, HEADER, c.data);
    var pad := s.keystream(delta.seed, ctxLength - |c.data|);
    Append(ciphertext2, iv + c.tag + c.data, HEADER + |c.data|, pad);
    rc := ctxLength;
    hat := Some(delta.hat);
  }
}
