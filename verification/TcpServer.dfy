/** The receive side of the TCP server: assemble, decrypt, strip the message id, publish. */
module TcpServer {
  import opened Bytes
  import opened FrameCodec
  import opened FrameAssembler

  /** An active TLS object: the plaintext of record number n, or None if decrypting it raises. */
  type Opener = (nat, seq<byte>) -> Option<seq<byte>>

  /** A message published on the bus topic of its channel. */
  datatype Delivery = Delivery(channel: byte, id: nat, encrypted: bool, body: seq<byte>)

  /** What becomes of an assembled message. Raised is an exception that leaves the frame callback. */
  datatype Outcome = Published(delivery: Delivery) | Dropped | Raised

  predicate IsEncrypted(flags: byte) { flags / ENCRYPTED % 2 == 1 }

  function Opened(opener: Option<Opener>, n: nat, a: Assembled): Option<seq<byte>> {
    if IsEncrypted(a.flags) && opener.Some? then opener.value(n, a.payload) else Some(a.payload)
  }

  function Dispatch(opener: Option<Opener>, n: nat, a: Assembled): Outcome {
    var plain := Opened(opener, n, a);
    if plain.None? || |plain.value| < 2 then Dropped
    else if a.total != 0 && |plain.value| != a.total then Raised
    else Published(Delivery(a.channel, FromBigEndian(plain.value[..2]), IsEncrypted(a.flags), plain.value[2..]))
  }

  function Records(n: nat, a: Assembled): nat {
    if IsEncrypted(a.flags) then n + 1 else n
  }

  /** State of a connection: unfinished messages, encrypted messages seen, messages published. */
  datatype Received = Received(pending: map<byte, Pending>, records: nat, published: seq<Delivery>, raised: bool)

  function Handle(opener: Option<Opener>, s: Received, f: Frame): Received {
    var (pending, out) := FeedTable(s.pending, f);
    if out.None? then s.(pending := pending)
    else
      var s' := s.(pending := pending, records := Records(s.records, out.value));
      match Dispatch(opener, s.records, out.value)
      case Published(d) => s'.(published := s.published + [d])
      case Dropped => s'
      case Raised => s'.(raised := true)
  }

  /** The relay hands frames on until the callback raises. */
  function HandleAll(opener: Option<Opener>, s: Received, fs: seq<Frame>): Received
    decreases |fs|
  {
    if fs == [] || s.raised then s else HandleAll(opener, Handle(opener, s, fs[0]), fs[1..])
  }

  class Pipeline {
    const assembler: Assembler
    var cryptor: Option<Opener>
    var records: nat
    var published: seq<Delivery>
    var raised: bool

    ghost function View(): Received
      reads this, assembler
    {
      Received(assembler.Contents(), records, published, raised)
    }

    constructor (cryptor: Option<Opener>)
      ensures View() == Received(map[], 0, [], false) && this.cryptor == cryptor
      ensures fresh(assembler)
    {
      this.assembler := new Assembler();
      this.cryptor := cryptor;
      this.records := 0;
      this.published := [];
      this.raised := false;
    }

    /** The callback of the relay, called for every frame off the socket. */
    method OnRawFrame(f: Frame)
      modifies this`records, this`published, this`raised, assembler
      ensures View() == Handle(cryptor, old(View()), f)
    {
      var result := assembler.Feed(f);
      if result.None? {
        return;
      }
      var assembled := result.value.payload;
      var encrypted := IsEncrypted(result.value.flags);
      if encrypted {
        var n := records;
        records := records + 1;
        if cryptor.Some? {
          var plain := cryptor.value(n, assembled);
          if plain.None? {
            return;
          }
          assembled := plain.value;
        }
      }
      if |assembled| < 2 {
        return;
      }
      if result.value.total != 0 && |assembled| != result.value.total {
        // The warning about the size is itself malformed; formatting it raises.
        raised := true;
        return;
      }
      published := published +
        [Delivery(result.value.channel, FromBigEndian(assembled[..2]), encrypted, assembled[2..])];
    }
  }

  // ---------------------------------------------------------------------------
  // Frames and messages
  // ---------------------------------------------------------------------------

  /** The messages published for a list of assembled messages, and whether one of them raised. */
  function DispatchAll(opener: Option<Opener>, n: nat, ms: seq<Assembled>): (seq<Delivery>, bool)
    decreases |ms|
  {
    if ms == [] then ([], false)
    else
      var rest := DispatchAll(opener, Records(n, ms[0]), ms[1..]);
      match Dispatch(opener, n, ms[0])
      case Published(d) => ([d] + rest.0, rest.1)
      case Dropped => rest
      case Raised => ([], true)
  }

  lemma OutputsCons(t: map<byte, Pending>, fs: seq<Frame>)
    requires fs != []
    ensures var (next, out) := FeedTable(t, fs[0]);
      var all := Outputs(t, fs);
      if out.None? then all == Outputs(next, fs[1..])
      else all != [] && all[0] == out.value && all[1..] == Outputs(next, fs[1..])
  {
    hide FeedTable;
  }

  lemma {:induction false} HandleAllDispatches(opener: Option<Opener>, s: Received, fs: seq<Frame>)
    requires !s.raised
    ensures var d := DispatchAll(opener, s.records, Outputs(s.pending, fs));
      && HandleAll(opener, s, fs).published == s.published + d.0
      && HandleAll(opener, s, fs).raised == d.1
    decreases |fs|
  {
    hide Outputs, FeedTable, Dispatch, Records;
    if fs == [] {
      NoOutputs(s.pending);
    } else {
      var (pending, out) := FeedTable(s.pending, fs[0]);
      OutputsCons(s.pending, fs);
      var s' := Handle(opener, s, fs[0]);
      if !s'.raised {
        HandleAllDispatches(opener, s', fs[1..]);
      }
    }
  }

  lemma NoOutputs(t: map<byte, Pending>)
    ensures Outputs(t, []) == []
  {
  }

  /** What becomes of a message that is not encrypted, or that is while no TLS object is active: its bytes are
      taken as they came. */
  lemma UnopenedOutcome(opener: Option<Opener>, n: nat, a: Assembled)
    requires opener.None? || a.flags / 8 % 2 == 0
    ensures Dispatch(opener, n, a) ==
      if |a.payload| < 2 then Dropped
      else if a.total != 0 && a.total != |a.payload| then Raised
      else Published(Delivery(a.channel, (256 * a.payload[0] as int + a.payload[1] as int) as nat,
                              a.flags / 8 % 2 == 1, a.payload[2..]))
  {
    if |a.payload| >= 2 {
      BigEndianWeights(a.payload[..2]);
    }
    hide FromBigEndian;
  }

  /** What becomes of an encrypted message while a TLS object is active. */
  lemma OpenedOutcome(opener: Opener, n: nat, a: Assembled)
    requires a.flags / 8 % 2 == 1
    ensures var plain := opener(n, a.payload);
      Dispatch(Some(opener), n, a) ==
        if plain.None? || |plain.value| < 2 then Dropped
        else if a.total != 0 && a.total != |plain.value| then Raised
        else Published(Delivery(a.channel, (256 * plain.value[0] as int + plain.value[1] as int) as nat,
                                true, plain.value[2..]))
  {
    var plain := opener(n, a.payload);
    if plain.Some? && |plain.value| >= 2 {
      BigEndianWeights(plain.value[..2]);
    }
    hide FromBigEndian;
  }

  /** The messages a list of assembled messages is published as, if none was opened. */
  function Unopened(ms: seq<Assembled>): seq<Delivery>
    requires forall i :: 0 <= i < |ms| ==> |ms[i].payload| >= 2
  {
    if ms == [] then []
    else
      [Delivery(ms[0].channel, (256 * ms[0].payload[0] as int + ms[0].payload[1] as int) as nat,
                ms[0].flags / 8 % 2 == 1, ms[0].payload[2..])] + Unopened(ms[1..])
  }

  /** Without a TLS object every message of proper length is published from its bytes as received, the
      encrypted ones under their flag. */
  lemma {:induction false} UnopenedPublished(n: nat, ms: seq<Assembled>)
    requires forall i :: 0 <= i < |ms| ==>
      |ms[i].payload| >= 2 && (ms[i].total == 0 || ms[i].total == |ms[i].payload|)
    ensures DispatchAll(None, n, ms) == (Unopened(ms), false)
    decreases |ms|
  {
    hide Dispatch;
    if ms == [] {
    } else {
      UnopenedOutcome(None, n, ms[0]);
      UnopenedPublished(Records(n, ms[0]), ms[1..]);
    }
  }
}
