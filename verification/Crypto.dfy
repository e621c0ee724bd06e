/** Values that every part of the model shares: bytes, optional values. */
module Common {
  newtype byte = x: int | 0 <= x < 256

  type Bytes = seq<byte>

  datatype Option<+T> = None | Some(value: T)
}

/**
 The foreign cryptographic calls, as a bundle of functions and the laws they obey.

 - `seal`/`open` are AES-128-GCM with a 16-byte tag (sections 7.1 and 7.2 of NIST SP 800-38D).
 - `keystream(seed, n)` is AES-128-CTR over n zero bytes with a zero counter block
   (section 6.5 of NIST SP 800-38A).
 - `wrap`/`unwrap` are the envelope encryption of a data key under an HSM root key handle.
 */
module Crypto {
  import opened Common

  const IV_LEN := 16
  const TAG_LEN := 16
  const KEY_LEN := 16
  const SEED_LEN := 16

  datatype Sealed = Sealed(data: Bytes, tag: Bytes)

  /** A data key together with the number of re-encryptions it was made for. */
  datatype AEKey = AEKey(key: Bytes, t: nat)

  type Handle = nat

  datatype Suite = Suite(
    seal: (Bytes, Bytes, Bytes) -> Sealed,
    open: (Bytes, Bytes, Bytes, Bytes) -> Option<Bytes>,
    keystream: (Bytes, nat) -> Bytes,
    wrap: (Handle, Bytes, AEKey) -> Bytes,
    unwrap: (Handle, Bytes) -> Option<AEKey>)

  ghost predicate OpenInvertsSeal(s: Suite) {
    forall key, iv, plain ::
      var c := s.seal(key, iv, plain);
      && |c.data| == |plain|
      && |c.tag| == TAG_LEN
      && s.open(key, iv, c.data, c.tag) == Some(plain)
  }

  ghost predicate KeystreamIsPrefixClosed(s: Suite) {
    && (forall seed, n: nat :: |s.keystream(seed, n)| == n)
    && (forall seed, m: nat, n: nat :: m <= n ==> s.keystream(seed, m) <= s.keystream(seed, n))
  }

  ghost predicate UnwrapInvertsWrap(s: Suite) {
    forall handle, iv, key :: s.unwrap(handle, s.wrap(handle, iv, key)) == Some(key)
  }

  /** A successful opening is as long as what it opens. */
  ghost predicate OpenKeepsLength(s: Suite) {
    forall key, iv, data, tag :: s.open(key, iv, data, tag).Some? ==> |s.open(key, iv, data, tag).value| == |data|
  }

  /** Nothing is the wrap of a key. */
  ghost predicate EmptyWrapFails(s: Suite) {
    forall h :: s.unwrap(h, []).None?
  }

  /** What every round trip relies on. */
  ghost predicate Lawful(s: Suite) {
    && OpenInvertsSeal(s)
    && KeystreamIsPrefixClosed(s)
    && UnwrapInvertsWrap(s)
  }

  /**
   The idealisation that a tag, or a wrapped key, opens under at most one key. It is used only where
   the model shows that an update built from an outdated download cannot be decrypted.
   */
  ghost predicate KeyBinding(s: Suite) {
    && (forall k, k', iv, c, c', tag | |k| == |k'| == KEY_LEN ::
          s.open(k, iv, c, tag).Some? && s.open(k', iv, c', tag).Some? ==> k == k')
    && (forall h, h', w :: s.unwrap(h, w).Some? && s.unwrap(h', w).Some? ==> h == h')
  }

  // ---- The laws are consistent: a toy suite obeys all of them ----

  function Zeros(n: nat): (z: Bytes)
    ensures |z| == n && forall i :: 0 <= i < n ==> z[i] == 0
  {
    seq(n, _ => 0)
  }

  /** The 16-byte spelling of a key that is not 16 bytes long does not matter to the toy. */
  function ToyTag(key: Bytes): (tag: Bytes)
    ensures |tag| == TAG_LEN
  {
    if |key| == TAG_LEN then key else Zeros(TAG_LEN)
  }

  function ToySeal(key: Bytes, iv: Bytes, plain: Bytes): Sealed {
    Sealed(plain, ToyTag(key))
  }

  function ToyOpen(key: Bytes, iv: Bytes, data: Bytes, tag: Bytes): Option<Bytes> {
    if ToyTag(key) == tag then Some(data) else None
  }

  function ToyWrap(handle: Handle, iv: Bytes, key: AEKey): Bytes {
    Zeros(handle) + [1] + Zeros(key.t) + [1] + key.key
  }

  /** Length of the leading run of zero bytes. */
  function LeadingZeros(b: Bytes): (n: nat)
    ensures n <= |b|
    ensures forall i :: 0 <= i < n ==> b[i] == 0
    ensures n < |b| ==> b[n] != 0
  {
    if b == [] || b[0] != 0 then 0 else 1 + LeadingZeros(b[1..])
  }

  function ToyUnwrap(handle: Handle, w: Bytes): Option<AEKey> {
    var n := LeadingZeros(w);
    if n != handle || n == |w| then None
    else
      var rest := w[n + 1..];
      var t := LeadingZeros(rest);
      if t == |rest| then None else Some(AEKey(rest[t + 1..], t))
  }

  const TOY := Suite(ToySeal, ToyOpen, (seed: Bytes, n: nat) => Zeros(n), ToyWrap, ToyUnwrap)

  lemma {:induction false} LeadingZerosOfRun(n: nat, rest: Bytes)
    ensures LeadingZeros(Zeros(n) + [1] + rest) == n
  {
    var b := Zeros(n) + [1] + rest;
    assert b[n] == 1;
    assert forall i :: 0 <= i < n ==> b[i] == 0;
  }

  lemma ToyUnwrapInvertsWrap(handle: Handle, iv: Bytes, key: AEKey)
    ensures ToyUnwrap(handle, ToyWrap(handle, iv, key)) == Some(key)
  {
    var tail := Zeros(key.t) + [1] + key.key;
    var w := ToyWrap(handle, iv, key);
    assert w == Zeros(handle) + [1] + tail;
    LeadingZerosOfRun(handle, tail);
    LeadingZerosOfRun(key.t, key.key);
    assert w[handle + 1..] == tail;
    assert tail[key.t + 1..] == key.key;
  }

  /** The hypotheses of the round trips can be met. */
  lemma ToySuiteIsLawful()
    ensures Lawful(TOY) && OpenKeepsLength(TOY) && EmptyWrapFails(TOY) && KeyBinding(TOY)
  {
    forall h, iv, key ensures TOY.unwrap(h, TOY.wrap(h, iv, key)) == Some(key) {
      ToyUnwrapInvertsWrap(h, iv, key);
    }
  }
}
