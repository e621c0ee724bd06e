/**
 A whole GETALL between a client and the server: the command is built, sent, received, split and executed,
 and the reply goes back the same way. Both ends may cut the bytes up in any way.
 */
module Conversation {
  import opened Crypto
  import opened NestedAE
  import opened Protocol
  import opened Decryptability
  import opened ServerRefinement
  import opened WholeRun
  import Server
  import Transport
  import Wire

  predicate NulFree(s: string) {
    forall i :: 0 <= i < |s| ==> s[i] != Transport.NUL
  }

  /** Texts that survive being joined, sent and split: not empty, and without space and NUL. */
  predicate Sendable(texts: seq<string>) {
    forall i :: 0 <= i < |texts| ==> Wire.Clean(texts[i], ' ') && NulFree(texts[i])
  }

  /** How the two ends of a connection cut one message up, and the buffer it goes to. */
  datatype Link = Link(sending: seq<nat>, receiving: seq<nat>)

  /** The calls deliver n bytes and do not fail before that. */
  ghost predicate Delivered(link: Link, n: nat) {
    && Transport.Delivers(link.sending, n) && Transport.Delivers(link.receiving, n)
    && forall i :: 0 <= i < |link.sending| ==> link.sending[i] <= Transport.MAX_SEND
  }

  lemma {:induction false} JoinIsNulFree(texts: seq<string>)
    requires Sendable(texts)
    ensures NulFree(Wire.Join(texts, ' '))
    decreases |texts|
  {
    if |texts| > 1 {
      JoinIsNulFree(texts[1..]);
    }
  }

  /** Sends a text and its NUL, and splits what has arrived. */
  method Deliver(text: string, link: Link, size: nat) returns (words: array<string>)
    requires NulFree(text) && Delivered(link, |text| + 1) && |text| + 1 <= size
    ensures fresh(words) && words[..] == Wire.Tokens(text, ' ')
  {
    var message := text + [Transport.NUL];
    var buffer := new char[size + 2];
    var total := Transport.Exchange(message, link.sending, link.receiving, buffer, size);
    assert buffer[..total - 1] == message[..total - 1] == text;
    words := Wire.Split(buffer[..total - 1], ' ');
  }

  /** getall as the client and the server run it together. */
  method GetAll(server: Server.Server, keys: seq<string>, command: Link, reply: Link, size: nat)
    returns (values: array<string>)
    requires keys != [] && Sendable(keys) && Sendable(Server.Values(server.db, keys))
    requires |Wire.Join(keys, ' ')| + 8 <= size && Delivered(command, |Wire.Join(keys, ' ')| + 8)
    requires var answer := |Wire.Join(Server.Values(server.db, keys), ' ')| + 1;
             answer <= size && Delivered(reply, answer)
    ensures fresh(values) && values[..] == Server.Values(server.db, keys)
  {
    hide Delivered, Sendable, NulFree;
    var text, length := Wire.BuildGetAll(keys);
    CommandIsSendable(keys);
    var words := Deliver(text, command, size);
    CommandSplits(keys);
    var found := server.GetAll(words[1..]);
    var answer, answerLength := Wire.BuildReply(found);
    ReplySplits(found);
    values := Deliver(answer, reply, size);
  }

  lemma CommandIsSendable(keys: seq<string>)
    requires Sendable(keys)
    ensures NulFree("GETALL " + Wire.Join(keys, ' '))
  {
    JoinIsNulFree(keys);
    hide Wire.Join;
  }

  lemma CommandSplits(keys: seq<string>)
    requires keys != [] && Sendable(keys)
    ensures Wire.Tokens("GETALL " + Wire.Join(keys, ' '), ' ') == ["GETALL"] + keys
  {
    Wire.CommandRoundTrip("GETALL", keys);
    assert "GETALL " == "GETALL" + " ";
  }

  lemma ReplySplits(values: seq<string>)
    requires Sendable(values)
    ensures NulFree(Wire.Join(values, ' ')) && Wire.Tokens(Wire.Join(values, ' '), ' ') == values
  {
    JoinIsNulFree(values);
    Wire.CleanJoinSplits(values, ' ');
  }

  lemma ReadableGivesMessage(s: Suite, c: Codec, e: Entry)
    requires LawfulCodec(c) && Readable(s, e)
    ensures ClientReads(s, c, FetchTexts(c, e.rec)) == Plain(e.message)
  {
    var stored := Stored(s.unwrap(e.rec.root, e.rec.wrap).value, e.rec.hat, e.rec.data);
    hide FetchTexts, ClientReads;
    ClientReadsRecord(s, c, e.rec);
    HeldMessageDecrypts(s, stored, e.message, e.layers);
  }

  /**
   A download from the bytes on the wire to the message: the four words that the client has received are the
   texts of the stored record, and what it decodes and decrypts from them is the message of that record.
   */
  method DownloadMessage(s: Suite, c: Codec, server: Server.Server, ghost store: map<Id, Entry>, id: Id,
                         command: Link, reply: Link, size: nat) returns (message: Outcome)
    requires LawfulCodec(c) && Represents(c, server.db, store) && id in store && Readable(s, store[id])
    requires var keys := FetchKeys(id);
             && Sendable(keys) && Sendable(FetchTexts(c, store[id].rec))
             && |Wire.Join(keys, ' ')| + 8 <= size && Delivered(command, |Wire.Join(keys, ' ')| + 8)
    requires var answer := |Wire.Join(FetchTexts(c, store[id].rec), ' ')| + 1;
             answer <= size && Delivered(reply, answer)
    ensures message == Plain(store[id].message)
  {
    ghost var e := store[id];
    RepresentedTexts(c, server.db, store, id);
    var values := GetAll(server, FetchKeys(id), command, reply, size);
    hide Represents, Delivered, Sendable, FetchTexts, ClientReads, FetchKeys;
    ReadableGivesMessage(s, c, e);
    message := ClientReads(s, c, values[..]);
  }

  // ---- Such conversations exist ----

  /** The keys of an id without space and NUL can be sent. */
  lemma KeysAreSendable(id: Id)
    requires NulFree(id) && forall i :: 0 <= i < |id| ==> id[i] != ' '
    ensures Sendable(FetchKeys(id))
  {
    forall kind ensures Wire.Clean(Key(kind, id), ' ') && NulFree(Key(kind, id)) {
      PrefixIsSendable(kind);
      assert Key(kind, id)[0] == Prefix(kind)[0];
    }
    hide Key, Wire.Clean, NulFree;
  }

  lemma PrefixIsSendable(kind: Kind)
    ensures Prefix(kind) != "" && NulFree(Prefix(kind))
    ensures forall i :: 0 <= i < |Prefix(kind)| ==> Prefix(kind)[i] != ' '
  {
  }

  /** A connection that takes and gives single bytes delivers any message; so does one that gives all at once. */
  lemma {:induction false} ByteByByteDelivers(n: nat)
    ensures var ones := seq(n, _ => 1); Delivered(Link(ones, ones), n) && Delivered(Link(ones, [n + 1]), n)
  {
    var ones := seq(n, _ => 1);
    SumOfOnes(ones);
    assert [n + 1][1..] == [];
  }

  lemma {:induction false} SumOfOnes(ones: seq<nat>)
    requires forall i :: 0 <= i < |ones| ==> ones[i] == 1
    ensures Transport.Sum(ones) == |ones|
    decreases |ones|
  {
    if ones != [] {
      SumOfOnes(ones[1..]);
    }
  }
}
