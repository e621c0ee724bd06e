/**
 sendall and recvall over a stream socket that may take or give any number of bytes at a time. A message
 is a text that ends in NUL; the receiver stops when the last byte it has is a NUL.
 */
module Transport {
  const NUL := '\0'
  const MAX_SEND := 50000

  function Min(a: nat, b: nat): nat { if a < b then a else b }

  /**
   One direction of a connection: the bytes put on their way, how many of them have been taken off, and how
   the kernel cuts them up. A grant of 0, or no grant left, stands for a call that returns 0 or -1.
   */
  class Socket {
    var stream: string
    var taken: nat
    var grants: seq<nat>

    constructor (stream: string, grants: seq<nat>)
      ensures this.stream == stream && this.grants == grants && taken == 0
    {
      this.stream, this.grants, taken := stream, grants, 0;
    }

    /** send: accepts a prefix of bytes[at..at + n]. */
    method Send(bytes: string, at: nat, n: nat) returns (k: nat)
      requires at + n <= |bytes|
      modifies `stream, `grants
      ensures k == if old(grants) == [] then 0 else Min(old(grants)[0], n)
      ensures stream == old(stream) + bytes[at..at + k]
      ensures grants == if old(grants) == [] then [] else old(grants)[1..]
    {
      k := if grants == [] then 0 else Min(grants[0], n);
      stream := stream + bytes[at..at + k];
      grants := if grants == [] then [] else grants[1..];
    }

    /** recv: takes at most n of the bytes not yet taken and puts them at dst[at..]. */
    method Recv(dst: array<char>, at: nat, n: nat) returns (k: nat)
      requires taken <= |stream| && at + Min(n, |stream| - taken) <= dst.Length
      modifies `taken, `grants, dst
      ensures k == if old(grants) == [] then 0 else Min(old(grants)[0], Min(n, |stream| - old(taken)))
      ensures taken == old(taken) + k
      ensures forall i :: 0 <= i < at ==> dst[i] == old(dst[i])
      ensures forall i :: at <= i < at + k ==> dst[i] == stream[old(taken) + i - at]
      ensures grants == if old(grants) == [] then [] else old(grants)[1..]
    {
      k := if grants == [] then 0 else Min(grants[0], Min(n, |stream| - taken));
      forall i | 0 <= i < k {
        dst[at + i] := stream[taken + i];
      }
      taken := taken + k;
      grants := if grants == [] then [] else grants[1..];
    }
  }

  // ---- What the loops take and give ----

  /** How many of `size` bytes sendall gets rid of under these grants. */
  function Sent(size: nat, grants: seq<nat>): (n: nat)
    ensures n <= size
    decreases |grants|
  {
    if size == 0 || grants == [] then 0
    else
      var k := Min(grants[0], Min(size, MAX_SEND));
      if k == 0 then 0 else k + Sent(size - k, grants[1..])
  }

  /** How many bytes of a stream recvall has taken when it stops, having taken `at` before. */
  function Received(stream: string, at: nat, grants: seq<nat>): (n: nat)
    requires at <= |stream|
    ensures at <= n <= |stream|
    decreases |grants|
  {
    if at == |stream| || grants == [] || grants[0] == 0 then at
    else
      var next := at + Min(grants[0], |stream| - at);
      if stream[next - 1] == NUL then next else Received(stream, next, grants[1..])
  }

  lemma ReceivedStep(stream: string, at: nat, grants: seq<nat>)
    requires at <= |stream|
    ensures at == |stream| || grants == [] || grants[0] == 0 ==> Received(stream, at, grants) == at
    ensures at < |stream| && grants != [] && grants[0] > 0 ==>
      var next := at + Min(grants[0], |stream| - at);
      && at < next <= |stream|
      && Received(stream, at, grants) == if stream[next - 1] == NUL then next else Received(stream, next, grants[1..])
  {
  }

  /** A single send is offered what is left, but no more than 50000 bytes of it. */
  lemma OneSend(size: nat, grant: nat)
    ensures Sent(size, [grant])
            == if grant <= size && grant <= 50000 then grant else if size <= 50000 then size else 50000
  {
    assert [grant][1..] == [];
  }

  /** A call that returns 0 or an error ends either loop, whatever could still come. */
  lemma FailureEnds(size: nat, stream: string, at: nat, later: seq<nat>)
    requires at <= |stream|
    ensures Sent(size, [0] + later) == 0 && Sent(size, []) == 0
    ensures Received(stream, at, [0] + later) == at && Received(stream, at, []) == at
  {
  }

  /** Bytes are neither lost nor repeated: what was sent is on its way, the rest is not. */
  method SendAll(socket: Socket, bytes: string, size: nat) returns (total: nat)
    requires size <= |bytes|
    modifies socket
    ensures total == Sent(size, old(socket.grants))
    ensures socket.stream == old(socket.stream) + bytes[..total]
  {
    total := 0;
    var left: nat := size;
    var current := if left > MAX_SEND then MAX_SEND else left;
    while left > 0
      invariant total + left == size
      invariant current == Min(left, MAX_SEND)
      invariant total + Sent(left, socket.grants) == Sent(size, old(socket.grants))
      invariant socket.stream == old(socket.stream) + bytes[..total]
      decreases left
    {
      var n := socket.Send(bytes, total, current);
      assert bytes[..total] + bytes[total..total + n] == bytes[..total + n];
      if n == 0 { break; }
      total := total + n;
      left := left - n;
      current := if left > MAX_SEND then MAX_SEND else left;
    }
  }

  /**
   recvall passes the whole size to every recv, so the stream must fit as a whole. The byte after the next
   is cleared at the end, also when the size passed is that of the buffer, as in every call of the program.
   */
  method RecvAll(socket: Socket, buffer: array<char>, size: nat) returns (total: nat)
    requires socket.taken == 0 && |socket.stream| <= size && |socket.stream| + 2 <= buffer.Length
    modifies socket`taken, socket`grants, buffer
    ensures total == socket.taken == Received(socket.stream, 0, old(socket.grants))
    ensures buffer[..total] == socket.stream[..total]
    ensures buffer[total + 1] == NUL
  {
    hide Received;
    ghost var grants := socket.grants;
    total := 0;
    while total < size
      invariant total == socket.taken <= |socket.stream|
      invariant Received(socket.stream, total, socket.grants) == Received(socket.stream, 0, grants)
      invariant forall i :: 0 <= i < total ==> buffer[i] == socket.stream[i]
      decreases size - total
    {
      ReceivedStep(socket.stream, total, socket.grants);
      var n := socket.Recv(buffer, total, size);
      if n == 0 { break; }
      total := total + n;
      if buffer[total - 1] == NUL { break; }
    }
    buffer[total + 1] := NUL;
  }

  /** The byte that recvall clears lies inside a buffer under every chunking iff the buffer has two to spare. */
  lemma ClearStaysInsideIff(stream: string, length: nat)
    ensures (forall grants :: Received(stream, 0, grants) + 1 < length) <==> |stream| + 2 <= length
  {
    var whole := [|stream|];
    assert Received(stream, 0, whole) == |stream| by {
      assert whole[1..] == [];
    }
  }

  // ---- Framing ----

  predicate Terminated(message: string) {
    |message| > 0 && message[|message| - 1] == NUL
  }

  predicate NoInteriorNul(message: string) {
    forall i :: 0 <= i < |message| - 1 ==> message[i] != NUL
  }

  function Sum(grants: seq<nat>): nat {
    if grants == [] then 0 else grants[0] + Sum(grants[1..])
  }

  /** Grants that never fail and that are enough for n bytes. */
  ghost predicate Delivers(grants: seq<nat>, n: nat) {
    (forall i :: 0 <= i < |grants| ==> grants[i] > 0) && Sum(grants) >= n
  }

  lemma {:induction false} TerminatedIsReceived(message: string, at: nat, grants: seq<nat>)
    requires Terminated(message) && NoInteriorNul(message) && at <= |message|
    requires Delivers(grants, |message| - at)
    ensures Received(message, at, grants) == |message|
    decreases |grants|
  {
    if at < |message| {
      var next := at + Min(grants[0], |message| - at);
      if next < |message| {
        TerminatedIsReceived(message, next, grants[1..]);
      }
    }
  }

  lemma InteriorNulStops(message: string, i: nat)
    requires i < |message| - 1 && message[i] == NUL
    ensures Delivers([i + 1, |message|], |message|)
    ensures Received(message, 0, [i + 1, |message|]) == i + 1
  {
    var grants := [i + 1, |message|];
    assert grants[1..] == [|message|] && [|message|][1..] == [];
    assert Sum([|message|]) == |message|;
  }

  /** A terminated message arrives whole under every chunking exactly when it has no NUL inside. */
  lemma FramingIff(message: string)
    requires Terminated(message)
    ensures (forall grants :: Delivers(grants, |message|) ==> Received(message, 0, grants) == |message|)
            <==> NoInteriorNul(message)
  {
    if NoInteriorNul(message) {
      forall grants | Delivers(grants, |message|) ensures Received(message, 0, grants) == |message| {
        TerminatedIsReceived(message, 0, grants);
      }
    } else {
      var i :| 0 <= i < |message| - 1 && message[i] == NUL;
      InteriorNulStops(message, i);
    }
  }

  lemma {:induction false} EnoughGrantsSendAll(size: nat, grants: seq<nat>)
    requires Delivers(grants, size) && forall i :: 0 <= i < |grants| ==> grants[i] <= MAX_SEND
    ensures Sent(size, grants) == size
    decreases |grants|
  {
    if size > 0 {
      var k := Min(grants[0], Min(size, MAX_SEND));
      EnoughGrantsSendAll(size - k, grants[1..]);
    }
  }

  /** One message from sendall through the stream to recvall, however both ends cut it up. */
  method Exchange(message: string, sendGrants: seq<nat>, recvGrants: seq<nat>, buffer: array<char>, size: nat)
    returns (total: nat)
    requires Terminated(message) && NoInteriorNul(message)
    requires |message| <= size && |message| + 2 <= buffer.Length
    requires Delivers(sendGrants, |message|) && forall i :: 0 <= i < |sendGrants| ==> sendGrants[i] <= MAX_SEND
    requires Delivers(recvGrants, |message|)
    modifies buffer
    ensures total == |message| && buffer[..total] == message
  {
    var outgoing := new Socket("", sendGrants);
    var sent := SendAll(outgoing, message, |message|);
    EnoughGrantsSendAll(|message|, sendGrants);
    assert outgoing.stream == message;
    var incoming := new Socket(outgoing.stream, recvGrants);
    total := RecvAll(incoming, buffer, size);
    TerminatedIsReceived(message, 0, recvGrants);
    assert message[..total] == message;
  }
}
