/** End to end: what the receiver publishes for what the sender was asked to send. */
module EndToEnd {
  import opened Bytes
  import opened FrameCodec
  import opened FrameAssembler
  import opened TcpServer
  import opened FrameRelay
  import AaCryptor

  /** Encrypted messages so far; both TLS objects count their records this way. */
  function NextRecord(m: Message, sealer: Option<Sealer>, n: nat): nat {
    if Seals(m, sealer) then n + 1 else n
  }

  predicate AllEncodable(ms: seq<Message>, sealer: Option<Sealer>, n: nat)
    decreases |ms|
  {
    ms == [] || (Encodable(ms[0], sealer, n) && AllEncodable(ms[1..], sealer, NextRecord(ms[0], sealer, n)))
  }

  /** The frames of the messages, each message's frames back to back. */
  function SentFrames(ms: seq<Message>, sealer: Option<Sealer>, n: nat): seq<Frame>
    requires AllEncodable(ms, sealer, n)
    decreases |ms|
  {
    if ms == [] then []
    else MessageFrames(ms[0], sealer, n) + SentFrames(ms[1..], sealer, NextRecord(ms[0], sealer, n))
  }

  function Whole(m: Message, sealer: Option<Sealer>, n: nat): Assembled
    requires Encodable(m, sealer, n)
  {
    var payload := WirePayload(m, sealer, n);
    Assembled(m.channel, BULK + Bits(m, sealer), payload, if |payload| > THRESHOLD then |payload| else 0)
  }

  function Transmissions(ms: seq<Message>, sealer: Option<Sealer>, n: nat): seq<Transmission>
    requires AllEncodable(ms, sealer, n)
    decreases |ms|
  {
    if ms == [] then []
    else [Transmission(MessageFrames(ms[0], sealer, n), Whole(ms[0], sealer, n))] +
         Transmissions(ms[1..], sealer, NextRecord(ms[0], sealer, n))
  }

  lemma {:induction false} TransmissionsAreSent(ms: seq<Message>, sealer: Option<Sealer>, n: nat)
    requires AllEncodable(ms, sealer, n)
    ensures Complete(Transmissions(ms, sealer, n))
    ensures FramesOf(Transmissions(ms, sealer, n)) == SentFrames(ms, sealer, n)
    ensures AllValid(SentFrames(ms, sealer, n))
    decreases |ms|
  {
    hide WirePayload, Fragments, Carries;
    if ms == [] {
    } else {
      EncodeCarriesMessage(ms[0], sealer, n);
      MessageFramesValid(ms[0], sealer, n);
      var n' := NextRecord(ms[0], sealer, n);
      TransmissionsAreSent(ms[1..], sealer, n');
      assert Transmissions(ms, sealer, n)[1..] == Transmissions(ms[1..], sealer, n');
    }
  }

  lemma MessageFramesValid(m: Message, sealer: Option<Sealer>, n: nat)
    requires Encodable(m, sealer, n)
    ensures AllValid(MessageFrames(m, sealer, n))
  {
    FragmentsValid(m.channel, Bits(m, sealer), WirePayload(m, sealer, n));
  }

  // ---------------------------------------------------------------------------
  // The fate of each message
  // ---------------------------------------------------------------------------

  /** What the receiver does with a message once it is complete. */
  function Fate(m: Message, sealer: Option<Sealer>, opener: Option<Opener>, n: nat): Outcome
    requires Encodable(m, sealer, n)
  {
    Dispatch(opener, n, Whole(m, sealer, n))
  }

  /** Published messages in order, up to the first one that makes the callback raise. */
  function Fates(ms: seq<Message>, sealer: Option<Sealer>, opener: Option<Opener>, n: nat): (seq<Delivery>, bool)
    requires AllEncodable(ms, sealer, n)
    decreases |ms|
  {
    if ms == [] then ([], false)
    else
      var rest := Fates(ms[1..], sealer, opener, NextRecord(ms[0], sealer, n));
      match Fate(ms[0], sealer, opener, n)
      case Published(d) => ([d] + rest.0, rest.1)
      case Dropped => rest
      case Raised => ([], true)
  }

  lemma WholeIsEncrypted(m: Message, sealer: Option<Sealer>, n: nat)
    requires Encodable(m, sealer, n)
    ensures IsEncrypted(Whole(m, sealer, n).flags) <==> Seals(m, sealer)
  {
  }

  lemma {:induction false} DispatchAllIsFates(ms: seq<Message>, sealer: Option<Sealer>, opener: Option<Opener>, n: nat)
    requires AllEncodable(ms, sealer, n)
    ensures DispatchAll(opener, n, MessagesOf(Transmissions(ms, sealer, n))) == Fates(ms, sealer, opener, n)
    decreases |ms|
  {
    hide WirePayload, Dispatch, Encodable, Whole, IsEncrypted;
    if ms == [] {
    } else {
      var n' := NextRecord(ms[0], sealer, n);
      WholeIsEncrypted(ms[0], sealer, n);
      DispatchAllIsFates(ms[1..], sealer, opener, n');
      var ts := Transmissions(ms, sealer, n);
      assert ts[0].message == Whole(ms[0], sealer, n) && ts[1..] == Transmissions(ms[1..], sealer, n');
      assert MessagesOf(ts)[1..] == MessagesOf(ts[1..]);
    }
  }

  /** The bytes of the messages, sent one after another. */
  ghost function SentBytes(ms: seq<Message>, sealer: Option<Sealer>, n: nat): seq<byte>
    requires AllEncodable(ms, sealer, n)
  {
    TransmissionsAreSent(ms, sealer, n);
    Wire(SentFrames(ms, sealer, n))
  }

  /** The receiver after the bytes of all the messages have gone through. */
  ghost function Loop(ms: seq<Message>, sealer: Option<Sealer>, opener: Option<Opener>, s: Received): Received
    requires AllEncodable(ms, sealer, s.records)
  {
    HandleAll(opener, s, ParseAll(SentBytes(ms, sealer, s.records)))
  }

  /** Sending the messages back to back and reading the bytes in any pieces publishes exactly the fates,
      whatever unfinished messages the receiver held before. */
  lemma WireToFates(ms: seq<Message>, sealer: Option<Sealer>, opener: Option<Opener>, s: Received)
    requires AllEncodable(ms, sealer, s.records) && !s.raised
    ensures var got := Loop(ms, sealer, opener, s);
      && got.published == s.published + Fates(ms, sealer, opener, s.records).0
      && got.raised == Fates(ms, sealer, opener, s.records).1
  {
    var fs := SentFrames(ms, sealer, s.records);
    TransmissionsAreSent(ms, sealer, s.records);
    assert Loop(ms, sealer, opener, s) == HandleAll(opener, s, ParseAll(Wire(fs)));
    hide Wire, SentBytes, Loop, ParseAll, DispatchAll, HandleAll, Outputs,
         Fates, AllEncodable, SentFrames, Transmissions;
    ParseWholeWire(fs);
    HandleAllDispatches(opener, s, fs);
    ContiguousDelivery(s.pending, Transmissions(ms, sealer, s.records));
    DispatchAllIsFates(ms, sealer, opener, s.records);
  }

  // ---------------------------------------------------------------------------
  // Plain messages
  // ---------------------------------------------------------------------------

  function Deliver(m: Message, sealer: Option<Sealer>): Delivery
    requires m.InRange()
  {
    Delivery(m.channel, m.id, Seals(m, sealer), m.body)
  }

  predicate AllInRange(ms: seq<Message>) {
    forall i :: 0 <= i < |ms| ==> ms[i].InRange()
  }

  /** The whole list, in order. */
  function DeliverAll(ms: seq<Message>, sealer: Option<Sealer>): seq<Delivery>
    requires AllInRange(ms)
  {
    seq(|ms|, i requires 0 <= i < |ms| => Deliver(ms[i], sealer))
  }

  lemma DeliverAllCons(m: Message, rest: seq<Message>, sealer: Option<Sealer>)
    requires m.InRange() && AllInRange(rest)
    ensures AllInRange([m] + rest)
    ensures DeliverAll([m] + rest, sealer) == [Deliver(m, sealer)] + DeliverAll(rest, sealer)
  {
  }

  lemma {:induction false} EncodableInRange(ms: seq<Message>, sealer: Option<Sealer>, n: nat)
    requires AllEncodable(ms, sealer, n)
    ensures AllInRange(ms)
    decreases |ms|
  {
    if ms == [] {
    } else {
      EncodableInRange(ms[1..], sealer, NextRecord(ms[0], sealer, n));
      assert forall i :: 0 < i < |ms| ==> ms[i] == ms[1..][i - 1];
    }
  }

  lemma PlainSplits(m: Message)
    requires m.InRange()
    ensures |m.Plain()| >= 2 && FromBigEndian(m.Plain()[..2]) == m.id && m.Plain()[2..] == m.body
  {
    BigEndianRoundTrip(m.id, 2);
    assert m.Plain()[..2] == BigEndian(m.id, 2);
  }

  lemma PlainFate(m: Message, sealer: Option<Sealer>, opener: Option<Opener>, n: nat)
    requires Encodable(m, sealer, n) && !Seals(m, sealer)
    ensures Fate(m, sealer, opener, n) == Published(Deliver(m, sealer))
  {
    WholeIsEncrypted(m, sealer, n);
    PlainSplits(m);
  }

  /** If every fate is delivery, the fates are the whole list. */
  lemma {:induction false} AllDelivered(ms: seq<Message>, sealer: Option<Sealer>, opener: Option<Opener>, n: nat)
    requires AllEncodable(ms, sealer, n) && AllInRange(ms)
    requires forall i, k :: 0 <= i < |ms| && Encodable(ms[i], sealer, k) ==>
      Fate(ms[i], sealer, opener, k) == Published(Deliver(ms[i], sealer))
    ensures Fates(ms, sealer, opener, n) == (DeliverAll(ms, sealer), false)
    decreases |ms|
  {
    hide Fate, Encodable, Deliver;
    if ms == [] {
    } else {
      AllDelivered(ms[1..], sealer, opener, NextRecord(ms[0], sealer, n));
      assert DeliverAll(ms, sealer) == [Deliver(ms[0], sealer)] + DeliverAll(ms[1..], sealer);
    }
  }

  /** End-to-end delivery of messages that go out plain, for every list of them. */
  lemma PlainDelivery(ms: seq<Message>, sealer: Option<Sealer>, opener: Option<Opener>, s: Received)
    requires AllEncodable(ms, sealer, s.records) && !s.raised
    requires forall i :: 0 <= i < |ms| ==> !Seals(ms[i], sealer)
    ensures AllInRange(ms)
    ensures var got := Loop(ms, sealer, opener, s);
      got.published == s.published + DeliverAll(ms, sealer) && !got.raised
  {
    hide Loop;
    EncodableInRange(ms, sealer, s.records);
    WireToFates(ms, sealer, opener, s);
    forall i, k | 0 <= i < |ms| && Encodable(ms[i], sealer, k)
      ensures Fate(ms[i], sealer, opener, k) == Published(Deliver(ms[i], sealer))
    {
      PlainFate(ms[i], sealer, opener, k);
    }
    AllDelivered(ms, sealer, opener, s.records);
  }

  // ---------------------------------------------------------------------------
  // The objects at work
  // ---------------------------------------------------------------------------

  lemma SentBytesCons(ms: seq<Message>, sealer: Option<Sealer>, n: nat)
    requires AllEncodable(ms, sealer, n) && ms != []
    ensures Encodable(ms[0], sealer, n) && AllEncodable(ms[1..], sealer, NextRecord(ms[0], sealer, n))
    ensures AllValid(MessageFrames(ms[0], sealer, n))
    ensures SentBytes(ms, sealer, n) ==
            Wire(MessageFrames(ms[0], sealer, n)) + SentBytes(ms[1..], sealer, NextRecord(ms[0], sealer, n))
  {
    hide Wire, MessageFrames, Encodable, AllValid, NextRecord;
    TransmissionsAreSent(ms, sealer, n);
    MessageFramesValid(ms[0], sealer, n);
    var next := NextRecord(ms[0], sealer, n);
    TransmissionsAreSent(ms[1..], sealer, next);
    WireAppend(MessageFrames(ms[0], sealer, n), SentFrames(ms[1..], sealer, next));
  }

  lemma NothingSent(sealer: Option<Sealer>, n: nat)
    ensures AllEncodable([], sealer, n) && SentBytes([], sealer, n) == []
  {
  }

  /** Sends the messages through a relay whose socket takes all that is written, in pieces of any size. */
  method SendAll(relay: Relay, ms: seq<Message>, sealer: Option<Sealer>, n: nat)
    requires AllEncodable(ms, sealer, n) && Writable(relay.sendEvents)
    modifies relay`written, relay`sendEvents
    ensures relay.written == old(relay.written) + SentBytes(ms, sealer, n)
    decreases |ms|
  {
    hide *;
    if ms == [] {
      NothingSent(sealer, n);
    } else {
      SentBytesCons(ms, sealer, n);
      var sent := relay.OnFrameSend(ms[0], sealer, n);
      SendAll(relay, ms[1..], sealer, NextRecord(ms[0], sealer, n));
    }
  }

  /** One relay sends the messages, another reads what it wrote and publishes: for all ways in which the
      sockets take and give the bytes in pieces, the receiver publishes the fates of the messages. */
  method Transmit(ms: seq<Message>, sealer: Option<Sealer>, opener: Option<Opener>,
                  sendEvents: seq<SendEvent>, recvEvents: seq<RecvEvent>)
    returns (published: seq<Delivery>, raised: bool)
    requires AllEncodable(ms, sealer, 0) && Writable(sendEvents) && Undisturbed(recvEvents)
    ensures (published, raised) == Fates(ms, sealer, opener, 0)
  {
    hide *;
    var idle := new Pipeline(None);
    var sender := new Relay([], [], sendEvents, idle);
    SendAll(sender, ms, sealer, 0);
    assert sender.written == SentBytes(ms, sealer, 0);
    var pipeline := new Pipeline(opener);
    var receiver := new Relay(sender.written, recvEvents, [], pipeline);
    LoopReads(ms, sealer, opener);
    ViewShows(pipeline);
    receiver.Start();
    published, raised := pipeline.published, pipeline.raised;
    ViewShows(pipeline);
  }

  lemma LoopReads(ms: seq<Message>, sealer: Option<Sealer>, opener: Option<Opener>)
    requires AllEncodable(ms, sealer, 0)
    ensures var got := HandleAll(opener, Received(map[], 0, [], false), ParseAll(SentBytes(ms, sealer, 0)));
      (got.published, got.raised) == Fates(ms, sealer, opener, 0)
  {
    hide Fates, AllEncodable, HandleAll, ParseAll, SentBytes;
    var start := Received(map[], 0, [], false);
    WireToFates(ms, sealer, opener, start);
    var published := Fates(ms, sealer, opener, 0).0;
    assert start.published + published == published;
  }

  lemma ViewShows(pipeline: Pipeline)
    ensures pipeline.View().published == pipeline.published && pipeline.View().raised == pipeline.raised
  {
  }

  // ---------------------------------------------------------------------------
  // Encrypted messages
  // ---------------------------------------------------------------------------

  /** The receiver's TLS object opens what the sender's sealed, record by record. */
  ghost predicate Inverse(sealer: Sealer, opener: Opener) {
    forall k: nat, p: seq<byte> :: opener(k, sealer(k, p)) == Some(p)
  }

  /** The message is sealed, needs several frames, and its cipher text is not as long as its plain text. */
  predicate SizeMismatch(m: Message, sealer: Option<Sealer>, n: nat)
    requires m.InRange()
  {
    Seals(m, sealer) && |WirePayload(m, sealer, n)| > THRESHOLD && |WirePayload(m, sealer, n)| != |m.Plain()|
  }

  predicate AnyMismatch(ms: seq<Message>, sealer: Option<Sealer>, n: nat)
    requires AllEncodable(ms, sealer, n)
    decreases |ms|
  {
    ms != [] && (SizeMismatch(ms[0], sealer, n) || AnyMismatch(ms[1..], sealer, NextRecord(ms[0], sealer, n)))
  }

  lemma SealedFate(m: Message, sealer: Sealer, opener: Opener, n: nat)
    requires Encodable(m, Some(sealer), n) && Inverse(sealer, opener)
    ensures Fate(m, Some(sealer), Some(opener), n) ==
      if SizeMismatch(m, Some(sealer), n) then Raised else Published(Deliver(m, Some(sealer)))
  {
    WholeIsEncrypted(m, Some(sealer), n);
    PlainSplits(m);
  }

  lemma {:induction false} SealedFates(ms: seq<Message>, sealer: Sealer, opener: Opener, n: nat)
    requires AllEncodable(ms, Some(sealer), n) && AllInRange(ms) && Inverse(sealer, opener)
    ensures Fates(ms, Some(sealer), Some(opener), n).0 <= DeliverAll(ms, Some(sealer))
    ensures Fates(ms, Some(sealer), Some(opener), n).1 <==> AnyMismatch(ms, Some(sealer), n)
    ensures |Fates(ms, Some(sealer), Some(opener), n).0| == |ms| <==> !AnyMismatch(ms, Some(sealer), n)
    decreases |ms|
  {
    hide Fate, Encodable, Deliver, SizeMismatch;
    if ms == [] {
    } else {
      SealedFate(ms[0], sealer, opener, n);
      SealedFates(ms[1..], sealer, opener, NextRecord(ms[0], Some(sealer), n));
      assert DeliverAll(ms, Some(sealer)) == [Deliver(ms[0], Some(sealer))] + DeliverAll(ms[1..], Some(sealer));
    }
  }

  /** With TLS objects that invert each other, the list arrives whole exactly when no sealed message that
      needs several frames changes its length; otherwise the connection ends at the first such message. */
  lemma SealedDelivery(ms: seq<Message>, sealer: Sealer, opener: Opener, s: Received)
    requires AllEncodable(ms, Some(sealer), s.records) && !s.raised && Inverse(sealer, opener)
    ensures AllInRange(ms)
    ensures var got := Loop(ms, Some(sealer), Some(opener), s);
      && s.published <= got.published <= s.published + DeliverAll(ms, Some(sealer))
      && (got.published == s.published + DeliverAll(ms, Some(sealer)) <==> !AnyMismatch(ms, Some(sealer), s.records))
      && (got.raised <==> AnyMismatch(ms, Some(sealer), s.records))
  {
    hide Loop;
    EncodableInRange(ms, Some(sealer), s.records);
    WireToFates(ms, Some(sealer), Some(opener), s);
    SealedFates(ms, sealer, opener, s.records);
  }

  /** A message of 5000 bytes under TLS objects that add a byte to each record: it is split, its length changes,
      and nothing is delivered. */
  lemma SplitRecordRaises(s: Received)
    requires !s.raised
    ensures var sealer: Sealer, opener: Opener :=
        (k, p) => p + [0], (k, c: seq<byte>) => if c == [] then None else Some(c[..|c| - 1]);
      var ms := [Message(5, 0x8001, seq(5000, _ => 0), true)];
      && Inverse(sealer, opener) && AllEncodable(ms, Some(sealer), s.records)
      && Loop(ms, Some(sealer), Some(opener), s).raised
      && Loop(ms, Some(sealer), Some(opener), s).published == s.published
  {
    var sealer: Sealer, opener: Opener :=
      (k, p) => p + [0], (k, c: seq<byte>) => if c == [] then None else Some(c[..|c| - 1]);
    var m := Message(5, 0x8001, seq(5000, _ => 0), true);
    assert forall k: nat, p: seq<byte> :: opener(k, sealer(k, p)) == Some(p) by {
      assert forall p: seq<byte> :: (p + [0])[..|p + [0]| - 1] == p;
    }
    assert SizeMismatch(m, Some(sealer), s.records);
    assert [m][1..] == [];
    SealedDelivery([m], sealer, opener, s);
    WireToFates([m], Some(sealer), Some(opener), s);
  }

  /** A message that reaches a receiver without a TLS object: its wire payload is taken for the message. */
  function DeliverRaw(m: Message, sealer: Option<Sealer>, n: nat): Delivery
    requires Encodable(m, sealer, n) && |WirePayload(m, sealer, n)| >= 2
  {
    var p := WirePayload(m, sealer, n);
    Delivery(m.channel, (256 * p[0] as int + p[1] as int) as nat, Seals(m, sealer), p[2..])
  }

  lemma RawFate(m: Message, sealer: Option<Sealer>, n: nat)
    requires Encodable(m, sealer, n)
    ensures Fate(m, sealer, None, n) ==
      if |WirePayload(m, sealer, n)| < 2 then Dropped else Published(DeliverRaw(m, sealer, n))
  {
    WholeIsEncrypted(m, sealer, n);
    UnopenedOutcome(None, n, Whole(m, sealer, n));
    hide WirePayload, Seals, Bits;
  }

  /** Without a TLS object at the receiver nothing raises, and each message that has two bytes on the wire is
      published as it stands there, sealed or not. */
  lemma {:induction false} RawFates(ms: seq<Message>, sealer: Option<Sealer>, n: nat)
    requires AllEncodable(ms, sealer, n)
    ensures !Fates(ms, sealer, None, n).1
    ensures ms != [] ==>
      var rest := Fates(ms[1..], sealer, None, NextRecord(ms[0], sealer, n)).0;
      Fates(ms, sealer, None, n).0 ==
        (if |WirePayload(ms[0], sealer, n)| < 2 then [] else [DeliverRaw(ms[0], sealer, n)]) + rest
    decreases |ms|
  {
    hide Fate, DeliverRaw, Encodable, WirePayload;
    if ms == [] {
    } else {
      RawFate(ms[0], sealer, n);
      RawFates(ms[1..], sealer, NextRecord(ms[0], sealer, n));
    }
  }

  // ---------------------------------------------------------------------------
  // The cryptor as it is written
  // ---------------------------------------------------------------------------

  /** An opener that runs decrypt on whatever the TLS object does for the record. */
  ghost predicate RunsDecrypt(opener: Opener, script: (nat, seq<byte>) -> seq<AaCryptor.SslRead>) {
    forall k: nat, c: seq<byte> :: opener(k, c) == AaCryptor.DecryptResult(script(k, c))
  }

  function PlainOnes(ms: seq<Message>, sealer: Option<Sealer>): seq<Message> {
    if ms == [] then []
    else (if Seals(ms[0], sealer) then [] else [ms[0]]) + PlainOnes(ms[1..], sealer)
  }

  lemma SealedIsDropped(m: Message, sealer: Option<Sealer>, opener: Opener,
                        script: (nat, seq<byte>) -> seq<AaCryptor.SslRead>, n: nat)
    requires Encodable(m, sealer, n) && Seals(m, sealer) && RunsDecrypt(opener, script)
    ensures Fate(m, sealer, Some(opener), n) == Dropped
  {
    AaCryptor.DecryptKeepsNothing(script(n, WirePayload(m, sealer, n)));
    WholeIsEncrypted(m, sealer, n);
  }

  lemma {:induction false} PlainOnesFates(ms: seq<Message>, sealer: Option<Sealer>, opener: Opener,
                                          script: (nat, seq<byte>) -> seq<AaCryptor.SslRead>, n: nat)
    requires AllEncodable(ms, sealer, n) && AllInRange(ms) && RunsDecrypt(opener, script)
    ensures AllInRange(PlainOnes(ms, sealer))
    ensures Fates(ms, sealer, Some(opener), n) == (DeliverAll(PlainOnes(ms, sealer), sealer), false)
    decreases |ms|
  {
    if ms == [] {
      assert DeliverAll(PlainOnes(ms, sealer), sealer) == [];
    } else {
      hide Fate, Deliver, Encodable, Seals, RunsDecrypt, DeliverAll;
      var m := ms[0];
      PlainOnesFates(ms[1..], sealer, opener, script, NextRecord(m, sealer, n));
      var rest := PlainOnes(ms[1..], sealer);
      if Seals(m, sealer) {
        SealedIsDropped(m, sealer, opener, script, n);
        assert PlainOnes(ms, sealer) == rest;
      } else {
        PlainFate(m, sealer, Some(opener), n);
        assert PlainOnes(ms, sealer) == [m] + rest;
        DeliverAllCons(m, rest, sealer);
      }
    }
  }

  /** With decrypt as it is written, exactly the plain messages arrive: the list arrives whole
      if and only if none of its messages goes out encrypted. */
  lemma DeliveryAsWritten(ms: seq<Message>, sealer: Option<Sealer>, opener: Opener,
                          script: (nat, seq<byte>) -> seq<AaCryptor.SslRead>, s: Received)
    requires AllEncodable(ms, sealer, s.records) && !s.raised && RunsDecrypt(opener, script)
    ensures AllInRange(ms) && AllInRange(PlainOnes(ms, sealer))
    ensures var got := Loop(ms, sealer, Some(opener), s);
      && got.published == s.published + DeliverAll(PlainOnes(ms, sealer), sealer) && !got.raised
      && (got.published == s.published + DeliverAll(ms, sealer) <==>
          forall i :: 0 <= i < |ms| ==> !Seals(ms[i], sealer))
  {
    hide Loop;
    EncodableInRange(ms, sealer, s.records);
    WireToFates(ms, sealer, Some(opener), s);
    PlainOnesFates(ms, sealer, opener, script, s.records);
    PlainOnesCount(ms, sealer);
  }

  lemma {:induction false} PlainOnesCount(ms: seq<Message>, sealer: Option<Sealer>)
    ensures |PlainOnes(ms, sealer)| <= |ms|
    ensures |PlainOnes(ms, sealer)| == |ms| <==> forall i :: 0 <= i < |ms| ==> !Seals(ms[i], sealer)
    ensures |PlainOnes(ms, sealer)| == |ms| ==> PlainOnes(ms, sealer) == ms
  {
    if ms == [] {
    } else {
      PlainOnesCount(ms[1..], sealer);
      NoneSealedCons(ms, sealer);
      hide Seals;
      assert ms == [ms[0]] + ms[1..];
    }
  }

  lemma NoneSealedCons(ms: seq<Message>, sealer: Option<Sealer>)
    requires ms != []
    ensures (forall i :: 0 <= i < |ms| ==> !Seals(ms[i], sealer)) <==>
            !Seals(ms[0], sealer) && forall i :: 0 <= i < |ms[1..]| ==> !Seals(ms[1..][i], sealer)
  {
    hide Seals;
    var rest := ms[1..];
    assert forall i :: 0 < i < |ms| ==> ms[i] == rest[i - 1];
    assert forall i :: 0 <= i < |rest| ==> rest[i] == ms[i + 1];
  }
}
