/** The state machine of the control channel (channel 0). */
module Handshake {
  import opened Bytes

  // Message ids of the control channel.
  const VERSION_REQUEST: int := 1
  const VERSION_RESPONSE: int := 2
  const SSL_HANDSHAKE: int := 3
  const AUTH_COMPLETE: int := 4
  const DISCOVERY_REQUEST: int := 5
  const DISCOVERY_RESPONSE: int := 6
  const CHANNEL_OPEN_REQUEST: int := 7
  const CHANNEL_OPEN_RESPONSE: int := 8
  const PING_REQUEST: int := 11
  const PING_RESPONSE: int := 12
  const NAV_FOCUS_REQUEST: int := 13
  const NAV_FOCUS_RESPONSE: int := 14
  const SHUTDOWN_REQUEST: int := 15
  const SHUTDOWN_RESPONSE: int := 16
  const AUDIO_FOCUS_REQUEST: int := 18
  const AUDIO_FOCUS_RESPONSE: int := 19

  datatype Phase = IDLE | VERSION_SENT | TLS_IN_PROGRESS | AUTH_OK
    | WAITING_CHANNELS | CHANNELS_OPENING | ACTIVE | SHUTDOWN

  /** What the protobuf classes and the configuration contribute. */
  datatype Codec = Codec(
    version: seq<byte>, authOk: seq<byte>, sdr: seq<byte>, openOk: seq<byte>, navReply: seq<byte>,
    channelOf: seq<byte> -> int, pong: seq<byte> -> seq<byte>, focusReply: seq<byte> -> seq<byte>)

  datatype Event =
    | Connected
    | Incoming(id: int, body: seq<byte>, encrypted: bool)
    | TlsBlob(data: seq<byte>)
    | TlsComplete
    | ChannelsReady(sdr: seq<byte>)

  datatype Output =
    | Send(id: int, body: seq<byte>, encrypted: bool)
    | StartTls
    | FeedInput(data: seq<byte>)
    | OpenChannels(sdr: seq<byte>)
    | ActiveCallback
    | ShutdownCallback

  datatype Control = Control(phase: Phase, openChannels: set<int>, sdrEncrypted: bool)

  const INITIAL: Control := Control(IDLE, {}, false)

  function OnMessage(c: Codec, s: Control, id: int, body: seq<byte>, encrypted: bool): (Control, seq<Output>) {
    if id == VERSION_RESPONSE then (s.(phase := TLS_IN_PROGRESS), [StartTls])
    else if id == SSL_HANDSHAKE then (s, [FeedInput(body)])
    else if id == AUTH_COMPLETE then (s.(phase := AUTH_OK), [])
    else if id == DISCOVERY_REQUEST then
      (s.(phase := WAITING_CHANNELS, sdrEncrypted := encrypted), [OpenChannels(c.sdr)])
    else if id == CHANNEL_OPEN_REQUEST then
      (s.(openChannels := s.openChannels + {c.channelOf(body)}), [Send(CHANNEL_OPEN_RESPONSE, c.openOk, encrypted)])
    else if id == PING_REQUEST then
      var pong := Send(PING_RESPONSE, c.pong(body), encrypted);
      if s.phase != ACTIVE then (s.(phase := ACTIVE), [pong, ActiveCallback]) else (s, [pong])
    else if id == AUDIO_FOCUS_REQUEST then
      var reply := Send(AUDIO_FOCUS_RESPONSE, c.focusReply(body), encrypted);
      if s.phase == CHANNELS_OPENING then (s.(phase := ACTIVE), [reply, ActiveCallback]) else (s, [reply])
    else if id == NAV_FOCUS_REQUEST then (s, [Send(NAV_FOCUS_RESPONSE, c.navReply, encrypted)])
    else if id == SHUTDOWN_REQUEST then
      (s.(phase := SHUTDOWN), [Send(SHUTDOWN_RESPONSE, [], encrypted), ShutdownCallback])
    else (s, [])
  }

  function Step(c: Codec, s: Control, e: Event): (Control, seq<Output>) {
    match e
    case Connected => (s.(phase := VERSION_SENT), [Send(VERSION_REQUEST, c.version, false)])
    case Incoming(id, body, encrypted) => OnMessage(c, s, id, body, encrypted)
    case TlsBlob(data) => (s, [Send(SSL_HANDSHAKE, data, false)])
    case TlsComplete => (s.(phase := AUTH_OK), [Send(AUTH_COMPLETE, c.authOk, false)])
    case ChannelsReady(sdr) =>
      if s.phase != WAITING_CHANNELS then (s, [])
      else (s.(phase := CHANNELS_OPENING), [Send(DISCOVERY_RESPONSE, sdr, s.sdrEncrypted)])
  }

  /** The handshake object; outputs records its sends, its bus messages and its callbacks in order. */
  class ControlChannelHandshake {
    const codec: Codec
    var phase: Phase
    var openChannels: set<int>
    var sdrEncrypted: bool
    var outputs: seq<Output>

    ghost function View(): Control
      reads this
    {
      Control(phase, openChannels, sdrEncrypted)
    }

    ghost predicate Stepped(before: Control, outputsBefore: seq<Output>, e: Event)
      reads this
    {
      View() == Step(codec, before, e).0 && outputs == outputsBefore + Step(codec, before, e).1
    }

    constructor (codec: Codec)
      ensures View() == INITIAL && outputs == [] && this.codec == codec
    {
      this.codec := codec;
      phase, openChannels, sdrEncrypted, outputs := IDLE, {}, false, [];
    }

    method SendVersionRequest()
      modifies this
      ensures Stepped(old(View()), old(outputs), Connected)
    {
      outputs := outputs + [Send(VERSION_REQUEST, codec.version, false)];
      phase := VERSION_SENT;
    }

    method OnTlsHandshakeBlob(data: seq<byte>)
      modifies this
      ensures Stepped(old(View()), old(outputs), TlsBlob(data))
    {
      outputs := outputs + [Send(SSL_HANDSHAKE, data, false)];
    }

    method OnTlsComplete()
      modifies this
      ensures Stepped(old(View()), old(outputs), TlsComplete)
    {
      outputs := outputs + [Send(AUTH_COMPLETE, codec.authOk, false)];
      phase := AUTH_OK;
    }

    method OnChannelsReady(sdr: seq<byte>)
      modifies this
      ensures Stepped(old(View()), old(outputs), ChannelsReady(sdr))
    {
      if phase != WAITING_CHANNELS {
        return;
      }
      outputs := outputs + [Send(DISCOVERY_RESPONSE, sdr, sdrEncrypted)];
      phase := CHANNELS_OPENING;
    }

    method OnMessage(id: int, body: seq<byte>, encrypted: bool)
      modifies this
      ensures Stepped(old(View()), old(outputs), Incoming(id, body, encrypted))
    {
      if id == VERSION_RESPONSE {
        outputs := outputs + [StartTls];
        phase := TLS_IN_PROGRESS;
      } else if id == SSL_HANDSHAKE {
        outputs := outputs + [FeedInput(body)];
      } else if id == AUTH_COMPLETE {
        phase := AUTH_OK;
      } else if id == DISCOVERY_REQUEST {
        sdrEncrypted := encrypted;
        outputs := outputs + [OpenChannels(codec.sdr)];
        phase := WAITING_CHANNELS;
      } else if id == CHANNEL_OPEN_REQUEST {
        openChannels := openChannels + {codec.channelOf(body)};
        outputs := outputs + [Send(CHANNEL_OPEN_RESPONSE, codec.openOk, encrypted)];
      } else if id == PING_REQUEST {
        outputs := outputs + [Send(PING_RESPONSE, codec.pong(body), encrypted)];
        if phase != ACTIVE {
          phase := ACTIVE;
          outputs := outputs + [ActiveCallback];
        }
      } else if id == AUDIO_FOCUS_REQUEST {
        outputs := outputs + [Send(AUDIO_FOCUS_RESPONSE, codec.focusReply(body), encrypted)];
        if phase == CHANNELS_OPENING {
          phase := ACTIVE;
          outputs := outputs + [ActiveCallback];
        }
      } else if id == NAV_FOCUS_REQUEST {
        outputs := outputs + [Send(NAV_FOCUS_RESPONSE, codec.navReply, encrypted)];
      } else if id == SHUTDOWN_REQUEST {
        phase := SHUTDOWN;
        outputs := outputs + [Send(SHUTDOWN_RESPONSE, [], encrypted), ShutdownCallback];
      }
    }
  }

  // ---------------------------------------------------------------------------
  // Runs
  // ---------------------------------------------------------------------------

  /** The state after any sequence of events from the start. */
  function After(c: Codec, es: seq<Event>): Control {
    if es == [] then INITIAL else Step(c, After(c, es[..|es| - 1]), es[|es| - 1]).0
  }

  /** What event i of a run makes the handshake emit. */
  function OutputAt(c: Codec, es: seq<Event>, i: nat): seq<Output>
    requires i < |es|
  {
    Step(c, After(c, es[..i]), es[i]).1
  }

  predicate IsRequest(e: Event) { e.Incoming? && e.id == DISCOVERY_REQUEST }

  /** The events that end the wait for the channel modules, or would end it. */
  predicate EndsWait(e: Event) {
    || e.Connected? || e.TlsComplete? || e.ChannelsReady?
    || (e.Incoming? && (e.id == VERSION_RESPONSE || e.id == AUTH_COMPLETE ||
                          e.id == PING_REQUEST || e.id == SHUTDOWN_REQUEST))
  }

  /** The latest discovery request of a run. */
  ghost predicate LatestRequest(es: seq<Event>, j: nat) {
    j < |es| && IsRequest(es[j]) && forall k :: j < k < |es| ==> !IsRequest(es[k])
  }

  ghost predicate Waits(es: seq<Event>) {
    exists j :: 0 <= j < |es| && IsRequest(es[j]) && forall k :: j < k < |es| ==> !EndsWait(es[k])
  }

  /** A request starts the wait, whatever the state; nothing else does. */
  lemma StepWaits(c: Codec, s: Control, e: Event)
    ensures Step(c, s, e).0.phase == WAITING_CHANNELS <==>
            IsRequest(e) || (s.phase == WAITING_CHANNELS && !EndsWait(e))
  {
  }

  lemma RequestWaits(front: seq<Event>, last: Event)
    requires IsRequest(last)
    ensures Waits(front + [last])
  {
    assert IsRequest((front + [last])[|front|]);
  }

  /** The handshake waits exactly when some request was followed by nothing that ends the wait. */
  lemma {:induction false} WaitingCharacterised(c: Codec, es: seq<Event>)
    ensures After(c, es).phase == WAITING_CHANNELS <==> Waits(es)
    decreases |es|
  {
    if es == [] {
    } else {
      hide Step, Waits, IsRequest, EndsWait;
      var front, last := es[..|es| - 1], es[|es| - 1];
      WaitingCharacterised(c, front);
      StepWaits(c, After(c, front), last);
      assert front + [last] == es;
      if IsRequest(last) {
        RequestWaits(front, last);
      } else {
        WaitsSnoc(front, last);
      }
    }
  }

  lemma WaitsSnoc(front: seq<Event>, last: Event)
    requires !IsRequest(last)
    ensures Waits(front + [last]) <==> Waits(front) && !EndsWait(last)
  {
    hide IsRequest, EndsWait;
    var es := front + [last];
    assert forall k :: 0 <= k < |front| ==> es[k] == front[k];
    if Waits(es) {
      var j :| 0 <= j < |es| && IsRequest(es[j]) && forall k :: j < k < |es| ==> !EndsWait(es[k]);
      assert IsRequest(front[j]) && forall k :: j < k < |front| ==> !EndsWait(front[k]);
      assert !EndsWait(es[|front|]);
    }
    if Waits(front) && !EndsWait(last) {
      var j :| 0 <= j < |front| && IsRequest(front[j]) && forall k :: j < k < |front| ==> !EndsWait(front[k]);
      assert IsRequest(es[j]);
    }
  }

  lemma {:induction false} FlagOfLatestRequest(c: Codec, es: seq<Event>, j: nat)
    requires LatestRequest(es, j)
    ensures After(c, es).sdrEncrypted == es[j].encrypted
    decreases |es|
  {
    var front := es[..|es| - 1];
    if j == |es| - 1 {
    } else {
      FlagOfLatestRequest(c, front, j);
    }
  }

  /** A discovery response goes out exactly when the modules are reported ready while the handshake waits,
      and it carries the encrypted flag of the latest request. */
  lemma ResponsesAnswerRequests(c: Codec, es: seq<Event>, i: nat, j: nat)
    requires i < |es|
    ensures (exists o :: o in OutputAt(c, es, i) && o.Send? && o.id == DISCOVERY_RESPONSE) <==>
            es[i].ChannelsReady? && Waits(es[..i])
    ensures es[i].ChannelsReady? && Waits(es[..i]) && LatestRequest(es[..i], j) ==>
            OutputAt(c, es, i) == [Send(DISCOVERY_RESPONSE, es[i].sdr, es[j].encrypted)]
  {
    WaitingCharacterised(c, es[..i]);
    if LatestRequest(es[..i], j) {
      FlagOfLatestRequest(c, es[..i], j);
    }
    if es[i].ChannelsReady? && After(c, es[..i]).phase == WAITING_CHANNELS {
      assert OutputAt(c, es, i)[0].id == DISCOVERY_RESPONSE;
    }
  }

  ghost predicate Responds(c: Codec, es: seq<Event>, i: nat) {
    i < |es| && exists o :: o in OutputAt(c, es, i) && o.Send? && o.id == DISCOVERY_RESPONSE
  }

  /** Between two discovery responses there is a discovery request. */
  lemma RequestBetweenResponses(c: Codec, es: seq<Event>, i: nat, k: nat)
    requires i < k && Responds(c, es, i) && Responds(c, es, k)
    ensures exists j :: i < j < k && IsRequest(es[j])
  {
    ResponsesAnswerRequests(c, es, i, 0);
    ResponsesAnswerRequests(c, es, k, 0);
    var front := es[..k];
    var j :| 0 <= j < |front| && IsRequest(front[j]) && forall n :: j < n < |front| ==> !EndsWait(front[n]);
    assert EndsWait(front[i]);
    assert IsRequest(es[j]);
  }

  // ---------------------------------------------------------------------------
  // Requests and replies
  // ---------------------------------------------------------------------------

  /** The protocol's pairs of a request and its reply, but for discovery, whose reply has to wait. */
  predicate Pairs(request: int, reply: int) {
    || (request == CHANNEL_OPEN_REQUEST && reply == CHANNEL_OPEN_RESPONSE)
    || (request == PING_REQUEST && reply == PING_RESPONSE)
    || (request == NAV_FOCUS_REQUEST && reply == NAV_FOCUS_RESPONSE)
    || (request == SHUTDOWN_REQUEST && reply == SHUTDOWN_RESPONSE)
    || (request == AUDIO_FOCUS_REQUEST && reply == AUDIO_FOCUS_RESPONSE)
  }

  function Sends(outputs: seq<Output>): seq<Output> {
    if outputs == [] then [] else (if outputs[0].Send? then [outputs[0]] else []) + Sends(outputs[1..])
  }

  lemma {:induction false} NothingSent(outputs: seq<Output>)
    requires forall i :: 0 <= i < |outputs| ==> !outputs[i].Send?
    ensures Sends(outputs) == []
  {
    if outputs == [] {
    } else {
      NothingSent(outputs[1..]);
    }
  }

  lemma RepliesComeFirst(c: Codec, s: Control, id: int, body: seq<byte>, encrypted: bool)
    ensures var outputs := Step(c, s, Incoming(id, body, encrypted)).1;
      && (forall i :: 1 <= i < |outputs| ==> !outputs[i].Send?)
      && if exists reply :: Pairs(id, reply)
         then outputs != [] && outputs[0].Send? && Pairs(id, outputs[0].id) && outputs[0].encrypted == encrypted
         else outputs == [] || !outputs[0].Send?
  {
    var outputs := Step(c, s, Incoming(id, body, encrypted)).1;
    if outputs != [] && outputs[0].Send? {
      assert Pairs(id, outputs[0].id);
    }
  }

  /** In every state a message from the phone is answered at once by its one reply, under the same encrypted
      flag, if it is a request of such a pair, and by nothing otherwise. */
  lemma RepliesPairUp(c: Codec, s: Control, id: int, body: seq<byte>, encrypted: bool)
    ensures var sent := Sends(Step(c, s, Incoming(id, body, encrypted)).1);
      if exists reply :: Pairs(id, reply)
      then |sent| == 1 && Pairs(id, sent[0].id) && sent[0].encrypted == encrypted
      else sent == []
  {
    RepliesComeFirst(c, s, id, body, encrypted);
    var outputs := Step(c, s, Incoming(id, body, encrypted)).1;
    hide Step, Pairs;
    if outputs != [] {
      NothingSent(outputs[1..]);
    }
  }

  /** The set of open channels holds those the phone asked to open, and no others. */
  lemma {:induction false} OpenChannelsAsRequested(c: Codec, es: seq<Event>, channel: int)
    ensures channel in After(c, es).openChannels <==>
            exists i :: 0 <= i < |es| && OpensChannel(c, es[i], channel)
    decreases |es|
  {
    if es == [] {
    } else {
      var front := es[..|es| - 1];
      OpenChannelsAsRequested(c, front, channel);
      assert forall i :: 0 <= i < |front| ==> front[i] == es[i];
      assert OpensChannel(c, es[|es| - 1], channel) ==> channel in After(c, es).openChannels;
    }
  }

  predicate OpensChannel(c: Codec, e: Event, channel: int) {
    e.Incoming? && e.id == CHANNEL_OPEN_REQUEST && c.channelOf(e.body) == channel
  }

  // ---------------------------------------------------------------------------
  // Becoming active
  // ---------------------------------------------------------------------------

  predicate Triggers(e: Event) { e.Incoming? && (e.id == PING_REQUEST || e.id == AUDIO_FOCUS_REQUEST) }

  /** What a phone sends once it has the discovery response: anything but a new start or a shutdown. */
  predicate Traffic(e: Event) {
    || e.TlsBlob?
    || (e.Incoming? && e.id != VERSION_RESPONSE && e.id != AUTH_COMPLETE
                       && e.id != DISCOVERY_REQUEST && e.id != SHUTDOWN_REQUEST)
  }

  /** The active callback marks the entries into the active phase, and nothing else. */
  lemma CallbackMarksEntry(c: Codec, s: Control, e: Event)
    ensures ActiveCallback in Step(c, s, e).1 <==> s.phase != ACTIVE && Step(c, s, e).0.phase == ACTIVE
  {
    if e.Incoming? && e.id == PING_REQUEST && s.phase != ACTIVE {
      assert Step(c, s, e).1[1] == ActiveCallback;
    }
    if e.Incoming? && e.id == AUDIO_FOCUS_REQUEST && s.phase == CHANNELS_OPENING {
      assert Step(c, s, e).1[1] == ActiveCallback;
    }
  }

  /** How often the active callback fires in the first n events. */
  function Activations(c: Codec, es: seq<Event>, n: nat): nat
    requires n <= |es|
  {
    if n == 0 then 0
    else Activations(c, es, n - 1) + (if ActiveCallback in OutputAt(c, es, n - 1) then 1 else 0)
  }

  lemma {:induction false} NoTriggerNoActivation(c: Codec, es: seq<Event>, n: nat)
    requires n <= |es| && forall k :: 0 <= k < n ==> !Triggers(es[k])
    ensures Activations(c, es, n) == 0
  {
    if n == 0 {
    } else {
      NoTriggerNoActivation(c, es, n - 1);
    }
  }

  lemma TrafficStep(c: Codec, s: Control, e: Event)
    requires Traffic(e) && (s.phase == CHANNELS_OPENING || s.phase == ACTIVE)
    ensures Step(c, s, e).0.phase == if Triggers(e) then ACTIVE else s.phase
    ensures ActiveCallback in Step(c, s, e).1 <==> Triggers(e) && s.phase == CHANNELS_OPENING
  {
    CallbackMarksEntry(c, s, e);
  }

  lemma AfterSnoc(c: Codec, es: seq<Event>, n: nat)
    requires 0 < n <= |es|
    ensures After(c, es[..n]) == Step(c, After(c, es[..n - 1]), es[n - 1]).0
  {
    assert es[..n][..n - 1] == es[..n - 1];
  }

  /** A phone that keeps to the documented order: no ping and no audio focus request before the discovery
      response, which answers a request at position p, and only traffic after it. The active callback
      fires exactly once, at the first ping or audio focus request, whichever comes first. */
  lemma {:induction false} ActiveExactlyOnce(c: Codec, es: seq<Event>, p: nat, n: nat)
    requires p < n <= |es|
    requires Waits(es[..p]) && es[p].ChannelsReady?
    requires forall k :: 0 <= k < p ==> !Triggers(es[k])
    requires forall k :: p < k < |es| ==> Traffic(es[k])
    ensures Activations(c, es, n) == if exists k :: p < k < n && Triggers(es[k]) then 1 else 0
    ensures After(c, es[..n]).phase == if exists k :: p < k < n && Triggers(es[k]) then ACTIVE else CHANNELS_OPENING
    decreases n
  {
    hide After, Step, Waits, Traffic, Triggers;
    AfterSnoc(c, es, n);
    if n == p + 1 {
      WaitingCharacterised(c, es[..p]);
      NoTriggerNoActivation(c, es, p);
      ReadyStep(c, After(c, es[..p]), es[p]);
    } else {
      ActiveExactlyOnce(c, es, p, n - 1);
      TrafficStep(c, After(c, es[..n - 1]), es[n - 1]);
      if Triggers(es[n - 1]) {
        assert p < n - 1 < n && Triggers(es[n - 1]);
      } else {
        assert forall k :: p < k < n && Triggers(es[k]) ==> k < n - 1;
      }
    }
  }

  lemma ReadyStep(c: Codec, s: Control, e: Event)
    requires e.ChannelsReady? && s.phase == WAITING_CHANNELS
    ensures Step(c, s, e).0.phase == CHANNELS_OPENING && ActiveCallback !in Step(c, s, e).1
  {
  }

  /** A ping that comes too early makes the session active and leaves the request without an answer. */
  lemma EarlyPingLosesResponse(c: Codec)
    ensures var es := [Connected, Incoming(DISCOVERY_REQUEST, [], true),
                       Incoming(PING_REQUEST, [], true), ChannelsReady(c.sdr)];
      After(c, es).phase == ACTIVE && OutputAt(c, es, 3) == []
  {
    var es := [Connected, Incoming(DISCOVERY_REQUEST, [], true),
               Incoming(PING_REQUEST, [], true), ChannelsReady(c.sdr)];
    assert es[..3][..2] == es[..2] && es[..2][..1] == es[..1];
    assert After(c, es[..2]).phase == WAITING_CHANNELS;
    assert After(c, es[..3]).phase == ACTIVE;
  }
}
