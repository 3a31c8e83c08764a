/** Who owns the RFCOMM socket, and when the Bluetooth handshake starts. */
module RfcommHandshake {
  import opened Bytes

  type Payload = map<string, string>

  /** The module's globals; closed counts how often each socket was closed. */
  datatype State = State(
    credentials: Option<Payload>, device: string, pending: Option<nat>, running: bool, closed: multiset<nat>)

  const INITIAL: State := State(None, "", None, false, multiset{})

  function ClosePending(s: State): State {
    if s.pending.Some? then s.(pending := None, closed := s.closed + multiset{s.pending.value}) else s
  }

  /** The accepting section up to the clearing of the credentials, and the rest of it. */
  function AcceptBegin(s: State, sock: nat): State {
    (if s.pending.Some? && s.pending.value != sock then ClosePending(s) else s).(credentials := None)
  }

  function AcceptEnd(s: State, sock: nat, device: string): State { s.(device := device, pending := Some(sock)) }

  function Refuse(s: State, sock: nat): State { s.(closed := s.closed + multiset{sock}) }

  /** An empty credentials dictionary and an empty address count as missing. */
  predicate CanStart(s: State) {
    !s.running && s.device != "" && s.credentials.Some? && s.credentials.value != map[] && s.pending.Some?
  }

  function TryStart(s: State): State { if CanStart(s) then s.(running := true) else s }

  /** The end of a handshake thread; picked says whether it found a socket when it started. */
  function Finish(s: State, picked: bool): State {
    (if picked then ClosePending(s) else s).(running := false)
  }

  /** The module. Each method is one section of the code that runs without another thread getting between. */
  class RfcommModule {
    var credentials: Option<Payload>
    var device: string
    var pending: Option<nat>
    var running: bool
    var closed: multiset<nat>

    ghost function View(): State
      reads this
    {
      State(credentials, device, pending, running, closed)
    }

    constructor ()
      ensures View() == INITIAL
    {
      credentials, device, pending, running, closed := None, "", None, false, multiset{};
    }

    method ClosePendingSock()
      modifies `pending, `closed
      ensures View() == ClosePending(old(View()))
    {
      if pending.Some? {
        closed := closed + multiset{pending.value};
        pending := None;
      }
    }

    /** Takes the lock for a new connection; accepted is false if a handshake is running. */
    method OnConnectedBegin(sock: nat) returns (accepted: bool)
      modifies this
      ensures accepted == !old(running)
      ensures View() == if accepted then AcceptBegin(old(View()), sock) else Refuse(old(View()), sock)
    {
      if running {
        closed := closed + multiset{sock};
        return false;
      }
      if pending.Some? && pending.value != sock {
        ClosePendingSock();
      }
      credentials := None;
      return true;
    }

    method OnConnectedEnd(sock: nat, address: string)
      modifies `device, `pending
      ensures View() == AcceptEnd(old(View()), sock, address)
    {
      device := address;
      pending := Some(sock);
    }

    method OnHostapdReady(payload: Payload)
      modifies `credentials
      ensures View() == old(View()).(credentials := Some(payload))
    {
      credentials := Some(payload);
    }

    method TryStartHandshake() returns (started: bool)
      modifies `running
      ensures started == CanStart(old(View())) && View() == TryStart(old(View()))
    {
      if running || device == "" || credentials.None? || credentials.value == map[] || pending.None? {
        return false;
      }
      running := true;
      return true;
    }

    /** What a new handshake thread picks up. */
    method PickUp() returns (sock: Option<nat>, creds: Payload)
      ensures sock == pending && creds == if credentials.Some? then credentials.value else map[]
    {
      sock := pending;
      match credentials
      case Some(c) => creds := c;
      case None => creds := map[];
    }

    method FinishHandshake(sock: Option<nat>)
      modifies `pending, `closed, `running
      ensures View() == Finish(old(View()), sock.Some?)
    {
      if sock.Some? {
        ClosePendingSock();
      }
      running := false;
    }
  }

  // ---------------------------------------------------------------------------
  // All interleavings
  // ---------------------------------------------------------------------------

  /** A handshake thread; credentialsAt is when the credentials it picked up were received. */
  datatype Thread = Launched | Working(sock: Option<nat>, credentials: Payload, credentialsAt: nat)

  /** A start of a handshake, with what it was decided on. */
  datatype Trigger = Trigger(sock: nat, device: string, credentials: Payload, credentialsAt: nat)

  datatype Holder = Free | Accepting(sock: nat, device: string)

  /** The module with its threads: the holder of the lock between two steps, the calls of the start check that
      are still to come, the live handshake threads, whether one died of an exception, and the starts so far.
      Time counts steps. */
  datatype World = World(
    state: State, holder: Holder, tries: nat, threads: seq<Thread>, crashed: bool, triggers: seq<Trigger>,
    deliveredAt: map<nat, nat>, credentialsAt: nat, now: nat)

  const BEGIN: World := World(INITIAL, Free, 0, [], false, [], map[], 0, 0)

  datatype Action =
    | Deliver(sock: nat, device: string)
    | AcceptDone(published: bool)
    | Ready(payload: Payload)
    | Try
    | PickUp(i: nat)
    | End(i: nat)
    | Crash(i: nat)
    | Stop

  /** Sections that take the lock wait for it; the credentials are written without it. Every connection brings
      a socket of its own. A publication that raises ends the callback or the thread that makes it. */
  predicate Enabled(w: World, a: Action) {
    match a
    case Deliver(sock, device) => w.holder.Free? && sock !in w.deliveredAt
    case AcceptDone(published) => w.holder.Accepting?
    case Ready(payload) => true
    case Try => w.holder.Free? && w.tries > 0
    case PickUp(i) => w.holder.Free? && i < |w.threads| && w.threads[i].Launched?
    case End(i) => w.holder.Free? && i < |w.threads| && w.threads[i].Working?
    case Crash(i) => i < |w.threads| && w.threads[i].Working?
    case Stop => w.holder.Free?
  }

  function TriggerOf(w: World): Trigger
    requires CanStart(w.state)
  {
    Trigger(w.state.pending.value, w.state.device, w.state.credentials.value, w.credentialsAt)
  }

  function Apply(w: World, a: Action): World
    requires Enabled(w, a)
  {
    match a
    case Deliver(sock, device) =>
      if w.state.running then w.(state := Refuse(w.state, sock), deliveredAt := w.deliveredAt[sock := w.now])
      else
        w.(state := AcceptBegin(w.state, sock), holder := Accepting(sock, device),
           deliveredAt := w.deliveredAt[sock := w.now])
    case AcceptDone(published) =>
      w.(state := AcceptEnd(w.state, w.holder.sock, w.holder.device), holder := Free,
         tries := if published then w.tries + 1 else w.tries)
    case Ready(payload) =>
      w.(state := w.state.(credentials := Some(payload)), credentialsAt := w.now, tries := w.tries + 1)
    case Try =>
      if CanStart(w.state) then
        w.(tries := w.tries - 1, state := TryStart(w.state), threads := w.threads + [Launched],
           triggers := w.triggers + [TriggerOf(w)])
      else w.(tries := w.tries - 1)
    case PickUp(i) =>
      var creds := if w.state.credentials.Some? then w.state.credentials.value else map[];
      w.(threads := w.threads[i := Working(w.state.pending, creds, w.credentialsAt)])
    case End(i) =>
      w.(state := Finish(w.state, w.threads[i].sock.Some?), threads := w.threads[..i] + w.threads[i + 1..])
    case Crash(i) => w.(crashed := true, threads := w.threads[..i] + w.threads[i + 1..])
    case Stop => w.(state := ClosePending(w.state))
  }

  function Tick(w: World): World { w.(now := w.now + 1) }

  /** The state after any interleaving; a step that cannot happen changes nothing. */
  function After(run: seq<Action>): World {
    if run == [] then BEGIN
    else
      var w, a := After(run[..|run| - 1]), run[|run| - 1];
      Tick(if Enabled(w, a) then Apply(w, a) else w)
  }

  /** A delivered socket is the pending one, or on its way there, or it was closed once. */
  ghost predicate Ownership(pending: Option<nat>, closed: multiset<nat>, holder: Holder, deliveredAt: map<nat, nat>) {
    && (holder.Accepting? ==> pending == None && holder.sock in deliveredAt)
    && (pending.Some? ==> pending.value in deliveredAt)
    && forall k: nat :: closed[k] ==
         if k in deliveredAt && pending != Some(k) && !(holder.Accepting? && holder.sock == k) then 1 else 0
  }

  ghost predicate Owned(w: World) { Ownership(w.state.pending, w.state.closed, w.holder, w.deliveredAt) }

  /** The running flag counts the threads, and keeps new connections away from them. A thread that died leaves
      it set. */
  ghost predicate Exclusive(w: World) {
    && |w.threads| == (if w.state.running && !w.crashed then 1 else 0)
    && (w.crashed ==> w.state.running)
    && (w.state.running ==> w.holder.Free? && w.state.credentials.Some?)
    && forall t :: t in w.threads && t.Working? ==> w.state.pending == None || w.state.pending == t.sock
  }

  /** Whatever is paired with a socket was received after it. */
  ghost predicate Fresh(w: World) {
    && (forall k :: k in w.deliveredAt ==> w.deliveredAt[k] < w.now)
    && (w.state.credentials.Some? && w.state.pending.Some? && w.state.pending.value in w.deliveredAt ==>
          w.deliveredAt[w.state.pending.value] < w.credentialsAt)
    && (w.state.credentials.Some? && w.holder.Accepting? && w.holder.sock in w.deliveredAt ==>
          w.deliveredAt[w.holder.sock] < w.credentialsAt)
  }

  /** The same for what handshakes were given. */
  ghost predicate Newer(threads: seq<Thread>, triggers: seq<Trigger>, deliveredAt: map<nat, nat>) {
    && (forall t :: t in threads && t.Working? && t.sock.Some? ==>
          t.sock.value in deliveredAt && deliveredAt[t.sock.value] < t.credentialsAt)
    && (forall t :: t in triggers ==> t.sock in deliveredAt && deliveredAt[t.sock] < t.credentialsAt)
  }

  ghost predicate FreshStarts(w: World) { Newer(w.threads, w.triggers, w.deliveredAt) }

  /** No socket was given to two handshakes, and one that is waiting was given to none. */
  ghost predicate UsedOnce(w: World) {
    && (forall i, j :: 0 <= i < j < |w.triggers| ==> w.triggers[i].sock != w.triggers[j].sock)
    && (forall t :: t in w.triggers ==>
          && t.sock in w.deliveredAt
          && (!w.state.running ==> w.state.pending != Some(t.sock))
          && (w.holder.Accepting? ==> w.holder.sock != t.sock))
  }

  /** When everything for a start is there, the check is still to come. */
  ghost predicate NoLostWakeUp(w: World) {
    && (CanStart(w.state) && w.holder.Free? ==> w.tries > 0)
    && (w.holder.Accepting? && w.state.credentials.Some? ==> w.tries > 0)
  }

  ghost predicate Inv(w: World) {
    Owned(w) && Exclusive(w) && Fresh(w) && FreshStarts(w) && UsedOnce(w) && NoLostWakeUp(w)
  }

  lemma ClosingKeepsOwnership(s: State, holder: Holder, deliveredAt: map<nat, nat>)
    requires Ownership(s.pending, s.closed, holder, deliveredAt)
    ensures Ownership(ClosePending(s).pending, ClosePending(s).closed, holder, deliveredAt)
  {
  }

  lemma DeliveryKeepsOwnership(s: State, deliveredAt: map<nat, nat>, sock: nat, device: string, now: nat)
    requires Ownership(s.pending, s.closed, Free, deliveredAt) && sock !in deliveredAt
    ensures Ownership(Refuse(s, sock).pending, Refuse(s, sock).closed, Free, deliveredAt[sock := now])
    ensures var t := AcceptBegin(s, sock);
      Ownership(t.pending, t.closed, Accepting(sock, device), deliveredAt[sock := now])
  {
    ClosingKeepsOwnership(s, Free, deliveredAt);
    assert AcceptBegin(s, sock).closed == ClosePending(s).closed;
    hide ClosePending;
  }

  lemma AcceptKeepsOwnership(s: State, holder: Holder, deliveredAt: map<nat, nat>)
    requires Ownership(s.pending, s.closed, holder, deliveredAt) && holder.Accepting?
    ensures Ownership(Some(holder.sock), s.closed, Free, deliveredAt)
  {
  }

  lemma KeepsOwned(w: World, a: Action)
    requires Inv(w) && Enabled(w, a)
    ensures Owned(Tick(Apply(w, a)))
  {
    hide Fresh, FreshStarts, UsedOnce, NoLostWakeUp, Exclusive, Ownership, ClosePending, AcceptBegin, Refuse;
    ClosingKeepsOwnership(w.state, w.holder, w.deliveredAt);
    match a
    case Deliver(sock, device) => DeliveryKeepsOwnership(w.state, w.deliveredAt, sock, device, w.now);
    case AcceptDone(published) => AcceptKeepsOwnership(w.state, w.holder, w.deliveredAt);
    case _ =>
  }

  lemma KeepsExclusive(w: World, a: Action)
    requires Inv(w) && Enabled(w, a)
    ensures Exclusive(Tick(Apply(w, a))) && NoLostWakeUp(Tick(Apply(w, a)))
  {
    hide Fresh, FreshStarts, UsedOnce, Owned;
  }

  lemma KeepsFresh(w: World, a: Action)
    requires Inv(w) && Enabled(w, a)
    ensures Fresh(Tick(Apply(w, a)))
  {
    hide NoLostWakeUp, FreshStarts, UsedOnce, Exclusive;
  }

  lemma DeliveryKeepsNewer(threads: seq<Thread>, triggers: seq<Trigger>, deliveredAt: map<nat, nat>,
                           sock: nat, now: nat)
    requires Newer(threads, triggers, deliveredAt) && sock !in deliveredAt
    ensures Newer(threads, triggers, deliveredAt[sock := now])
  {
  }

  /** A thread is added, picks up what it works with, or ends. */
  lemma ThreadsKeepNewer(threads: seq<Thread>, triggers: seq<Trigger>, deliveredAt: map<nat, nat>, i: nat, t: Thread)
    requires Newer(threads, triggers, deliveredAt)
    requires t.Working? && t.sock.Some? ==> t.sock.value in deliveredAt && deliveredAt[t.sock.value] < t.credentialsAt
    ensures Newer(threads + [t], triggers, deliveredAt)
    ensures i < |threads| ==> Newer(threads[i := t], triggers, deliveredAt)
    ensures i < |threads| ==> Newer(threads[..i] + threads[i + 1..], triggers, deliveredAt)
  {
  }

  lemma TriggerKeepsNewer(threads: seq<Thread>, triggers: seq<Trigger>, deliveredAt: map<nat, nat>, t: Trigger)
    requires Newer(threads, triggers, deliveredAt) && t.sock in deliveredAt && deliveredAt[t.sock] < t.credentialsAt
    ensures Newer(threads, triggers + [t], deliveredAt)
  {
  }

  lemma KeepsFreshStarts(w: World, a: Action)
    requires Inv(w) && Enabled(w, a)
    ensures FreshStarts(Tick(Apply(w, a)))
  {
    hide NoLostWakeUp, UsedOnce, Newer, ClosePending, AcceptBegin, Refuse;
    match a
    case Deliver(sock, device) => DeliveryKeepsNewer(w.threads, w.triggers, w.deliveredAt, sock, w.now);
    case Try =>
      if CanStart(w.state) {
        ThreadsKeepNewer(w.threads, w.triggers, w.deliveredAt, 0, Launched);
        TriggerKeepsNewer(w.threads + [Launched], w.triggers, w.deliveredAt, TriggerOf(w));
      }
    case PickUp(i) =>
      var creds := if w.state.credentials.Some? then w.state.credentials.value else map[];
      ThreadsKeepNewer(w.threads, w.triggers, w.deliveredAt, i, Working(w.state.pending, creds, w.credentialsAt));
    case End(i) => ThreadsKeepNewer(w.threads, w.triggers, w.deliveredAt, i, Launched);
    case Crash(i) => ThreadsKeepNewer(w.threads, w.triggers, w.deliveredAt, i, Launched);
    case _ =>
  }

  lemma KeepsUsedOnce(w: World, a: Action)
    requires Inv(w) && Enabled(w, a)
    ensures UsedOnce(Tick(Apply(w, a)))
  {
    hide NoLostWakeUp, Fresh, FreshStarts;
  }

  lemma IdleKeepsInv(w: World)
    requires Inv(w)
    ensures Inv(Tick(w))
  {
  }

  lemma {:induction false} Invariant(run: seq<Action>)
    ensures Inv(After(run))
    decreases |run|
  {
    if run == [] {
    } else {
      var w, a := After(run[..|run| - 1]), run[|run| - 1];
      Invariant(run[..|run| - 1]);
      if Enabled(w, a) {
        KeepsOwned(w, a);
        KeepsExclusive(w, a);
        KeepsFresh(w, a);
        KeepsFreshStarts(w, a);
        KeepsUsedOnce(w, a);
      } else {
        IdleKeepsInv(w);
      }
      hide Apply, Enabled, Owned, Exclusive, Fresh, FreshStarts, UsedOnce, NoLostWakeUp;
    }
  }

  /** In every interleaving at most one handshake runs; the flag says so, unless a thread died of an exception. */
  lemma AtMostOneHandshake(run: seq<Action>)
    ensures |After(run).threads| <= 1
    ensures After(run).state.running <==> |After(run).threads| == 1 || After(run).crashed
  {
    Invariant(run);
  }

  lemma CrashedStep(w: World, a: Action)
    requires w.crashed && w.state.running && w.threads == []
    ensures var u := if Enabled(w, a) then Apply(w, a) else w;
      u.crashed && u.state.running && u.threads == [] && u.triggers == w.triggers
  {
  }

  lemma CrashedNow(run: seq<Action>)
    requires After(run).crashed
    ensures After(run).state.running && After(run).threads == []
  {
    Invariant(run);
  }

  /** A handshake thread that dies of an exception takes the module with it: the flag stays up without a
      thread, and nothing is ever started again. */
  lemma {:induction false} CrashIsFinal(run: seq<Action>, more: seq<Action>)
    requires After(run).crashed
    ensures var w := After(run + more);
      w.crashed && w.state.running && w.threads == [] && w.triggers == After(run).triggers
    decreases |more|
  {
    hide Enabled, Apply;
    if more == [] {
      assert run + more == run;
      CrashedNow(run);
    } else {
      var front, a := more[..|more| - 1], more[|more| - 1];
      CrashIsFinal(run, front);
      assert (run + more)[..|run + more| - 1] == run + front && (run + more)[|run + more| - 1] == a;
      CrashedStep(After(run + front), a);
    }
  }

  /** No socket is ever given to two handshakes. */
  lemma OneHandshakePerSocket(run: seq<Action>, i: nat, j: nat)
    requires i < j < |After(run).triggers|
    ensures After(run).triggers[i].sock != After(run).triggers[j].sock
  {
    Invariant(run);
  }

  /** Every delivered socket is closed exactly once unless it is the pending one, and no other is closed. */
  lemma SocketsAccountedFor(run: seq<Action>, sock: nat)
    ensures var w := After(run);
      && (w.state.pending == Some(sock) ==> sock in w.deliveredAt && w.state.closed[sock] == 0)
      && (w.holder.Free? && sock in w.deliveredAt && w.state.pending != Some(sock) ==> w.state.closed[sock] == 1)
      && (sock !in w.deliveredAt ==> w.state.closed[sock] == 0)
  {
    Invariant(run);
  }

  /** A handshake is triggered, and works, only with credentials received after its socket was delivered; its
      socket stays the pending one until it is closed. */
  lemma CredentialsAreNewer(run: seq<Action>)
    ensures var w := After(run);
      && (forall t :: t in w.triggers ==> t.sock in w.deliveredAt && w.deliveredAt[t.sock] < t.credentialsAt)
      && (forall t :: t in w.threads && t.Working? && t.sock.Some? ==>
            && t.sock.value in w.deliveredAt && w.deliveredAt[t.sock.value] < t.credentialsAt
            && (w.state.pending == t.sock || w.state.closed[t.sock.value] == 1))
  {
    Invariant(run);
  }

  /** Whenever a socket, its address and credentials are all there, a handshake runs or is about to be tried,
      unless an earlier one died: a publication that raises when the socket is accepted loses no start. */
  lemma StartsAreNotLost(run: seq<Action>)
    ensures var w := After(run);
      var s := w.state;
      w.holder.Free? && s.pending.Some? && s.device != "" && s.credentials.Some? && s.credentials.value != map[] ==>
        |w.threads| == 1 || w.tries > 0 || w.crashed
  {
    Invariant(run);
  }

  // ---------------------------------------------------------------------------
  // What a handshake is started with
  // ---------------------------------------------------------------------------

  ghost predicate Delivered(run: seq<Action>, deliveredAt: map<nat, nat>, sock: nat, device: string) {
    sock in deliveredAt && deliveredAt[sock] < |run| && run[deliveredAt[sock]] == Deliver(sock, device)
  }

  ghost predicate Received(run: seq<Action>, at: nat, credentials: Payload) {
    at < |run| && run[at] == Ready(credentials)
  }

  /** A start with an address, the one delivered with its socket, and with credentials that were received. */
  ghost predicate Complete(run: seq<Action>, deliveredAt: map<nat, nat>, t: Trigger) {
    && t.device != "" && t.credentials != map[]
    && Delivered(run, deliveredAt, t.sock, t.device) && Received(run, t.credentialsAt, t.credentials)
  }

  ghost predicate AllComplete(run: seq<Action>, deliveredAt: map<nat, nat>, triggers: seq<Trigger>) {
    forall t :: t in triggers ==> Complete(run, deliveredAt, t)
  }

  /** The state holds what the run brought. */
  ghost predicate Recorded(run: seq<Action>, w: World) {
    && w.now == |run|
    && (w.state.credentials.Some? ==> Received(run, w.credentialsAt, w.state.credentials.value))
    && (w.holder.Accepting? ==> Delivered(run, w.deliveredAt, w.holder.sock, w.holder.device))
    && (w.holder.Free? && w.state.pending.Some? ==>
          Delivered(run, w.deliveredAt, w.state.pending.value, w.state.device))
  }

  /** What a run brought stays brought; a socket keeps its time, and another one may come. */
  lemma StillBrought(run: seq<Action>, a: Action, deliveredAt: map<nat, nat>, later: map<nat, nat>)
    requires forall k :: k in deliveredAt ==> k in later && later[k] == deliveredAt[k]
    ensures forall sock, device ::
      Delivered(run, deliveredAt, sock, device) ==> Delivered(run + [a], later, sock, device)
    ensures forall at, credentials :: Received(run, at, credentials) ==> Received(run + [a], at, credentials)
    ensures Received(run + [a], |run|, if a.Ready? then a.payload else map[]) <==> a.Ready?
    ensures a.Deliver? && a.sock in later && later[a.sock] == |run| ==>
      Delivered(run + [a], later, a.sock, a.device)
  {
  }

  lemma RecordStep(run: seq<Action>, w: World, a: Action)
    requires Recorded(run, w) && Enabled(w, a) && Inv(w)
    ensures Recorded(run + [a], Tick(Apply(w, a)))
  {
    StillBrought(run, a, w.deliveredAt, Apply(w, a).deliveredAt);
    hide Delivered, Received, Fresh, FreshStarts, UsedOnce, NoLostWakeUp, Owned;
  }

  lemma CompleteStep(run: seq<Action>, w: World, a: Action)
    requires Recorded(run, w) && Enabled(w, a) && AllComplete(run, w.deliveredAt, w.triggers)
    ensures var t := Apply(w, a); AllComplete(run + [a], t.deliveredAt, t.triggers)
  {
    StillBrought(run, a, w.deliveredAt, Apply(w, a).deliveredAt);
    hide Delivered, Received;
  }

  lemma {:induction false} Records(run: seq<Action>)
    ensures Recorded(run, After(run)) && AllComplete(run, After(run).deliveredAt, After(run).triggers)
    decreases |run|
  {
    if run == [] {
    } else {
      var front, a := run[..|run| - 1], run[|run| - 1];
      Records(front);
      Invariant(front);
      assert run == front + [a];
      hide Inv, Apply, Enabled;
      if Enabled(After(front), a) {
        RecordStep(front, After(front), a);
        CompleteStep(front, After(front), a);
      } else {
        StillBrought(front, a, After(front).deliveredAt, After(front).deliveredAt);
        hide Delivered, Received;
      }
    }
  }

  /** Every handshake was started with a non-empty address, the one that its socket came with, and with non-empty
      credentials, received later than the socket. */
  lemma StartedComplete(run: seq<Action>, t: Trigger)
    requires t in After(run).triggers
    ensures t.device != "" && t.credentials != map[]
    ensures exists i, j :: 0 <= i < j < |run| && run[i] == Deliver(t.sock, t.device) && run[j] == Ready(t.credentials)
  {
    Records(run);
    CredentialsAreNewer(run);
    hide After;
    var i, j := After(run).deliveredAt[t.sock], t.credentialsAt;
    assert Complete(run, After(run).deliveredAt, t);
    assert i < j && run[i] == Deliver(t.sock, t.device) && run[j] == Ready(t.credentials);
  }
}
