/** What the control channel does over any sequence of events, told from the events alone. Message ids are those
    of the protobuf enumeration, in figures. */
module HandshakeRuns {
  import opened Bytes
  import opened Handshake

  predicate In(e: Event, id: int) { e.Incoming? && e.id == id }

  // ---------------------------------------------------------------------------
  // Phases
  // ---------------------------------------------------------------------------

  /** Event k of a run puts the control channel in phase p. */
  ghost predicate Entered(es: seq<Event>, k: nat, p: Phase)
    requires k < |es|
    decreases k, 1
  {
    match p
    case IDLE => false
    case VERSION_SENT => es[k].Connected?
    case TLS_IN_PROGRESS => In(es[k], 2)
    case AUTH_OK => es[k].TlsComplete? || In(es[k], 4)
    case WAITING_CHANNELS => In(es[k], 5)
    case CHANNELS_OPENING => es[k].ChannelsReady? && InPhase(es, k, WAITING_CHANNELS)
    case ACTIVE => In(es[k], 11) || (In(es[k], 18) && InPhase(es, k, CHANNELS_OPENING))
    case SHUTDOWN => In(es[k], 15)
  }

  /** Event k of a run puts it in some phase. */
  ghost predicate Enters(es: seq<Event>, k: nat)
    requires k < |es|
    decreases k, 1
  {
    || es[k].Connected? || es[k].TlsComplete?
    || In(es[k], 2) || In(es[k], 4) || In(es[k], 5) || In(es[k], 11) || In(es[k], 15)
    || (es[k].ChannelsReady? && InPhase(es, k, WAITING_CHANNELS))
    || (In(es[k], 18) && InPhase(es, k, CHANNELS_OPENING))
  }

  /** The latest of the first n events that entered a phase entered p; before any of them, p is IDLE. */
  ghost predicate InPhase(es: seq<Event>, n: nat, p: Phase)
    requires n <= |es|
    decreases n, 0
  {
    || (p == IDLE && forall k :: 0 <= k < n ==> !Enters(es, k))
    || exists j :: 0 <= j < n && Entered(es, j, p) && forall k :: j < k < n ==> !Enters(es, k)
  }

  lemma InPhaseSnoc(es: seq<Event>, n: nat, p: Phase)
    requires n < |es|
    ensures InPhase(es, n + 1, p) <==> Entered(es, n, p) || (InPhase(es, n, p) && !Enters(es, n))
  {
    hide Entered, Enters;
    if InPhase(es, n + 1, p) && !Entered(es, n, p) {
      if j :| 0 <= j < n + 1 && Entered(es, j, p) && forall k :: j < k < n + 1 ==> !Enters(es, k) {
        assert j < n;
        assert !Enters(es, n);
      }
    }
  }

  lemma MessagePhase(c: Codec, s: Control, id: int, body: seq<byte>, encrypted: bool)
    ensures OnMessage(c, s, id, body, encrypted).0.phase ==
      if id == 2 then TLS_IN_PROGRESS else if id == 4 then AUTH_OK else if id == 5 then WAITING_CHANNELS
      else if id == 11 then ACTIVE else if id == 15 then SHUTDOWN
      else if id == 18 && s.phase == CHANNELS_OPENING then ACTIVE else s.phase
  {
  }

  lemma StepPhase(c: Codec, es: seq<Event>, n: nat, s: Control, p: Phase)
    requires n < |es|
    requires s.phase == WAITING_CHANNELS <==> InPhase(es, n, WAITING_CHANNELS)
    requires s.phase == CHANNELS_OPENING <==> InPhase(es, n, CHANNELS_OPENING)
    ensures Step(c, s, es[n]).0.phase == p <==> Entered(es, n, p) || (s.phase == p && !Enters(es, n))
  {
    hide InPhase, OnMessage;
    if es[n].Incoming? {
      MessagePhase(c, s, es[n].id, es[n].body, es[n].encrypted);
    }
  }

  /** The phase is the one entered last. */
  lemma {:induction false} PhaseExactly(c: Codec, es: seq<Event>, n: nat, p: Phase)
    requires n <= |es|
    ensures After(c, es[..n]).phase == p <==> InPhase(es, n, p)
    decreases n
  {
    if n == 0 {
    } else {
      var s := After(c, es[..n - 1]);
      AfterSnoc(c, es, n);
      PhaseExactly(c, es, n - 1, p);
      PhaseExactly(c, es, n - 1, WAITING_CHANNELS);
      PhaseExactly(c, es, n - 1, CHANNELS_OPENING);
      hide After, Step, InPhase, Entered, Enters;
      StepPhase(c, es, n - 1, s, p);
      InPhaseSnoc(es, n - 1, p);
    }
  }

  // ---------------------------------------------------------------------------
  // Outputs
  // ---------------------------------------------------------------------------

  /** j is the latest discovery request before event n. */
  ghost predicate LastAsked(es: seq<Event>, n: nat, j: nat)
    requires n <= |es|
  {
    j < n && In(es[j], 5) && forall k :: j < k < n ==> !In(es[k], 5)
  }

  lemma FlagExactly(c: Codec, es: seq<Event>, n: nat, j: nat)
    requires n <= |es| && LastAsked(es, n, j)
    ensures After(c, es[..n]).sdrEncrypted == es[j].encrypted
  {
    FlagOfLatestRequest(c, es[..n], j);
  }

  lemma {:induction false} LastAskedExists(es: seq<Event>, n: nat, i: nat)
    requires i < n <= |es| && In(es[i], 5)
    ensures exists j: nat :: LastAsked(es, n, j)
    decreases n
  {
    if In(es[n - 1], 5) {
      assert LastAsked(es, n, n - 1);
    } else {
      LastAskedExists(es, n - 1, i);
      var j: nat :| LastAsked(es, n - 1, j);
      assert LastAsked(es, n, j);
    }
  }

  /** The outputs that event i of a run calls for. */
  ghost predicate Due(c: Codec, es: seq<Event>, i: nat, o: Output)
    requires i < |es|
  {
    match es[i]
    case Connected => o == Send(1, c.version, false)
    case TlsBlob(data) => o == Send(3, data, false)
    case TlsComplete => o == Send(4, c.authOk, false)
    case ChannelsReady(sdr) =>
      InPhase(es, i, WAITING_CHANNELS) && exists j: nat :: LastAsked(es, i, j) && o == Send(6, sdr, es[j].encrypted)
    case Incoming(id, body, encrypted) =>
      || (id == 2 && o == StartTls)
      || (id == 3 && o == FeedInput(body))
      || (id == 5 && o == OpenChannels(c.sdr))
      || (id == 7 && o == Send(8, c.openOk, encrypted))
      || (id == 11 && o == Send(12, c.pong(body), encrypted))
      || (id == 13 && o == Send(14, c.navReply, encrypted))
      || (id == 15 && (o == Send(16, [], encrypted) || o == ShutdownCallback))
      || (id == 18 && o == Send(19, c.focusReply(body), encrypted))
      || (o == ActiveCallback && id == 11 && !InPhase(es, i, ACTIVE))
      || (o == ActiveCallback && id == 18 && InPhase(es, i, CHANNELS_OPENING))
  }

  lemma InOne(a: Output, o: Output)
    ensures o in [a] <==> o == a
  {
  }

  lemma InTwo(a: Output, b: Output, o: Output)
    ensures o in [a, b] <==> o == a || o == b
  {
  }

  lemma MessageOutputs(c: Codec, s: Control, id: int, body: seq<byte>, encrypted: bool, o: Output)
    ensures o in OnMessage(c, s, id, body, encrypted).1 <==>
      || (id == 2 && o == StartTls)
      || (id == 3 && o == FeedInput(body))
      || (id == 5 && o == OpenChannels(c.sdr))
      || (id == 7 && o == Send(8, c.openOk, encrypted))
      || (id == 11 && o == Send(12, c.pong(body), encrypted))
      || (id == 13 && o == Send(14, c.navReply, encrypted))
      || (id == 15 && (o == Send(16, [], encrypted) || o == ShutdownCallback))
      || (id == 18 && o == Send(19, c.focusReply(body), encrypted))
      || (o == ActiveCallback && id == 11 && s.phase != ACTIVE)
      || (o == ActiveCallback && id == 18 && s.phase == CHANNELS_OPENING)
  {
    var outputs := OnMessage(c, s, id, body, encrypted).1;
    if |outputs| == 1 {
      assert outputs == [outputs[0]];
      InOne(outputs[0], o);
    } else if |outputs| == 2 {
      assert outputs == [outputs[0], outputs[1]];
      InTwo(outputs[0], outputs[1], o);
    }
  }

  lemma ReadyOutputs(c: Codec, es: seq<Event>, i: nat, o: Output)
    requires i < |es| && es[i].ChannelsReady?
    ensures o in OutputAt(c, es, i) <==> Due(c, es, i, o)
  {
    hide After, Entered, Enters;
    var s := After(c, es[..i]);
    PhaseExactly(c, es, i, WAITING_CHANNELS);
    if s.phase == WAITING_CHANNELS {
      var k :| 0 <= k < i && Entered(es, k, WAITING_CHANNELS) && forall n :: k < n < i ==> !Enters(es, n);
      EnteredByRequest(es, k);
      LastAskedExists(es, i, k);
      var j: nat :| LastAsked(es, i, j);
      FlagExactly(c, es, i, j);
      OnlyOneLatest(es, i, j);
      InOne(Send(6, es[i].sdr, es[j].encrypted), o);
    }
  }

  lemma EnteredByRequest(es: seq<Event>, k: nat)
    requires k < |es| && Entered(es, k, WAITING_CHANNELS)
    ensures In(es[k], 5)
  {
  }

  lemma OnlyOneLatest(es: seq<Event>, n: nat, j: nat)
    requires n <= |es| && LastAsked(es, n, j)
    ensures forall k: nat :: LastAsked(es, n, k) ==> k == j
  {
  }

  /** Over every run, an event emits exactly the outputs it calls for. */
  lemma OutputsExactly(c: Codec, es: seq<Event>, i: nat, o: Output)
    requires i < |es|
    ensures o in OutputAt(c, es, i) <==> Due(c, es, i, o)
  {
    if es[i].ChannelsReady? {
      ReadyOutputs(c, es, i, o);
    } else {
      hide After, InPhase, OnMessage;
      var s := After(c, es[..i]);
      match es[i]
      case Incoming(id, body, encrypted) =>
        MessageOutputs(c, s, id, body, encrypted, o);
        PhaseExactly(c, es, i, ACTIVE);
        PhaseExactly(c, es, i, CHANNELS_OPENING);
      case Connected => InOne(Send(1, c.version, false), o);
      case TlsBlob(data) => InOne(Send(3, data, false), o);
      case TlsComplete => InOne(Send(4, c.authOk, false), o);
    }
  }

  /** No event emits an output twice, and what is sent goes out before anything is called back. */
  lemma OutputsInOrder(c: Codec, es: seq<Event>, i: nat)
    requires i < |es|
    ensures var outputs := OutputAt(c, es, i);
      forall a, b :: 0 <= a < b < |outputs| ==> outputs[a] != outputs[b] && outputs[a].Send? && !outputs[b].Send?
  {
    hide After;
  }

  /** TLS is started exactly by the phone's version response, and the session is given up exactly by its
      shutdown request. */
  lemma TlsAndShutdownExactly(c: Codec, es: seq<Event>, i: nat)
    requires i < |es|
    ensures StartTls in OutputAt(c, es, i) <==> In(es[i], 2)
    ensures ShutdownCallback in OutputAt(c, es, i) <==> In(es[i], 15)
  {
    hide OutputAt, InPhase;
    OutputsExactly(c, es, i, StartTls);
    OutputsExactly(c, es, i, ShutdownCallback);
  }

  // ---------------------------------------------------------------------------
  // The TLS bytes of a run
  // ---------------------------------------------------------------------------

  /** Everything a run emits, in order. */
  function Emitted(c: Codec, es: seq<Event>): seq<Output> {
    if es == [] then [] else Emitted(c, es[..|es| - 1]) + OutputAt(c, es, |es| - 1)
  }

  function FedBy(o: Output): seq<byte> { if o.FeedInput? then o.data else [] }

  function SaidBy(o: Output): seq<byte> { if o.Send? && o.id == 3 && !o.encrypted then o.body else [] }

  /** The bytes handed to the TLS object. */
  function Fed(outputs: seq<Output>): seq<byte> {
    if outputs == [] then [] else FedBy(outputs[0]) + Fed(outputs[1..])
  }

  /** The bytes of the TLS messages sent to the phone, which go out in plain. */
  function Handshaken(outputs: seq<Output>): seq<byte> {
    if outputs == [] then [] else SaidBy(outputs[0]) + Handshaken(outputs[1..])
  }

  function TlsFromPhone(es: seq<Event>): seq<byte> {
    if es == [] then []
    else TlsFromPhone(es[..|es| - 1]) + (if In(es[|es| - 1], 3) then es[|es| - 1].body else [])
  }

  function TlsFromServer(es: seq<Event>): seq<byte> {
    if es == [] then []
    else TlsFromServer(es[..|es| - 1]) + (if es[|es| - 1].TlsBlob? then es[|es| - 1].data else [])
  }

  lemma FedCons(outputs: seq<Output>)
    ensures Fed([]) == [] && Handshaken([]) == []
    ensures outputs != [] ==> Fed(outputs) == FedBy(outputs[0]) + Fed(outputs[1..])
    ensures outputs != [] ==> Handshaken(outputs) == SaidBy(outputs[0]) + Handshaken(outputs[1..])
  {
  }

  lemma {:induction false} FedAppend(a: seq<Output>, b: seq<Output>)
    ensures Fed(a + b) == Fed(a) + Fed(b)
    ensures Handshaken(a + b) == Handshaken(a) + Handshaken(b)
  {
    hide *;
    FedCons(a);
    if a == [] {
      NothingBefore(b);
      NothingBefore(Fed(b));
      NothingBefore(Handshaken(b));
    } else {
      FedAppend(a[1..], b);
      TailOfAppend(a, b);
      FedCons(a + b);
      Associative(FedBy(a[0]), Fed(a[1..]), Fed(b));
      Associative(SaidBy(a[0]), Handshaken(a[1..]), Handshaken(b));
    }
  }

  lemma FedOfFew(a: Output, b: Output)
    ensures Fed([]) == [] && Handshaken([]) == []
    ensures Fed([a]) == if a.FeedInput? then a.data else []
    ensures Handshaken([a]) == if a.Send? && a.id == 3 && !a.encrypted then a.body else []
    ensures !b.Send? && !b.FeedInput? ==> Fed([a, b]) == Fed([a]) && Handshaken([a, b]) == Handshaken([a])
  {
    assert [a][1..] == [] && [a, b][1..] == [b] && [b][1..] == [];
  }

  lemma FedAt(c: Codec, s: Control, e: Event)
    ensures Fed(Step(c, s, e).1) == if In(e, 3) then e.body else []
    ensures Handshaken(Step(c, s, e).1) == if e.TlsBlob? then e.data else []
  {
    hide Fed, Handshaken;
    var outputs := Step(c, s, e).1;
    FedOfFew(StartTls, StartTls);
    if |outputs| == 1 {
      assert outputs == [outputs[0]];
      FedOfFew(outputs[0], outputs[0]);
    } else if |outputs| == 2 {
      assert outputs == [outputs[0], outputs[1]];
      FedOfFew(outputs[0], outputs[1]);
    }
  }

  /** The TLS object gets exactly the phone's TLS bytes and the phone exactly the TLS object's, in order. */
  lemma {:induction false} TlsBytesExactly(c: Codec, es: seq<Event>)
    ensures Fed(Emitted(c, es)) == TlsFromPhone(es)
    ensures Handshaken(Emitted(c, es)) == TlsFromServer(es)
    decreases |es|
  {
    if es == [] {
    } else {
      var front, last := es[..|es| - 1], es[|es| - 1];
      hide Step, Fed, Handshaken;
      TlsBytesExactly(c, front);
      FedAppend(Emitted(c, front), OutputAt(c, es, |es| - 1));
      FedAt(c, After(c, front), last);
    }
  }
}
