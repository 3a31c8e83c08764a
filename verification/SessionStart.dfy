/** The start of one session: the control channel, the channel manager and the channel modules as separate
    processes that exchange messages. Every message may be delayed and overtaken by any other. */
module SessionStart {
  import opened Bytes
  import opened ChannelManager
  import ChannelModule
  import Handshake

  /** The modules launched for the session. */
  type Conf = map<string, ChannelModule.Settings>

  /** Where the channel manager's waiting thread is; i is an index into its list of priorities. */
  datatype Pc =
    | NotStarted
    | BootWait
    | NextLevel(i: nat)
    | LevelWait(i: nat)
    | LevelClear(i: nat)
    | Done
    | Failed

  datatype Phone = Phone(control: Handshake.Control, requested: bool, responded: bool)

  /** The channel manager; starts and openings are what it published, timedOut says that some wait failed. */
  datatype Manager = Manager(
    session: Session, pc: Pc, ok: bool, priorities: seq<int>, starts: set<int>, openings: set<string>, timedOut: bool)

  /** The module processes, and the messages they have on the way. */
  datatype Modules = Modules(
    gates: map<string, ChannelModule.Gate>, unannounced: set<string>, announcing: set<string>, readying: set<string>)

  datatype System = System(
    phone: Phone, openInFlight: bool, channelsReadyInFlight: bool, manager: Manager, modules: Modules)

  function Initial(conf: Conf): System {
    System(Phone(Handshake.INITIAL, false, false), false, false,
           Manager(FRESH, NotStarted, false, [], {}, {}, false),
           Modules(map m | m in conf :: ChannelModule.CLOSED, {}, {}, {}))
  }

  /** What the waiting thread does next. */
  datatype Wait =
    | BootOk(priorities: seq<int>)
    | BootTimeout
    | PublishStart
    | LevelOk
    | LevelTimeout
    | ClearFlag
    | Finish

  datatype Action =
    | Control(e: Handshake.Event)
    | OpenDelivered
    | ChannelsReadyDelivered
    | Announce(m: string)
    | AnnounceDelivered(m: string)
    | ModuleEvent(m: string, me: ChannelModule.Event)
    | ReadyDelivered(m: string)
    | Waiting(w: Wait)

  predicate Emits(outputs: seq<Handshake.Output>) {
    exists o :: o in outputs && o.Send? && o.id == Handshake.DISCOVERY_RESPONSE
  }

  /** A wait returns with success only if its event is set, and times out only if it is not. */
  ghost predicate WaitEnabled(g: Manager, w: Wait) {
    match w
    case BootOk(priorities) =>
      g.pc.BootWait? && g.session.allReadyToStart && ListsPriorities(priorities, g.session.announced)
    case BootTimeout => g.pc.BootWait? && !g.session.allReadyToStart
    case PublishStart => g.pc.NextLevel? && g.pc.i < |g.priorities|
    case LevelOk => g.pc.LevelWait? && g.session.allReady
    case LevelTimeout => g.pc.LevelWait? && !g.session.allReady
    case ClearFlag => g.pc.LevelClear?
    case Finish => g.pc.NextLevel? && g.pc.i >= |g.priorities|
  }

  /** When an action can happen. The phone asks for discovery once. */
  ghost predicate Enabled(conf: Conf, s: System, a: Action) {
    match a
    case Control(e) => !e.ChannelsReady? && (Handshake.IsRequest(e) ==> !s.phone.requested)
    case OpenDelivered => s.openInFlight && s.manager.pc.NotStarted?
    case ChannelsReadyDelivered => s.channelsReadyInFlight
    case Announce(m) => m in s.modules.unannounced
    case AnnounceDelivered(m) => m in s.modules.announcing && m in conf
    case ModuleEvent(m, e) =>
      m in s.modules.gates && m in conf && !s.manager.pc.NotStarted? && (e.Started? ==> e.priority in s.manager.starts)
    case ReadyDelivered(m) => m in s.modules.readying
    case Waiting(w) => WaitEnabled(s.manager, w)
  }

  function PhoneStep(c: Handshake.Codec, p: Phone, e: Handshake.Event): Phone {
    var (control, outputs) := Handshake.Step(c, p.control, e);
    Phone(control, p.requested || Handshake.IsRequest(e), p.responded || Emits(outputs))
  }

  /** A module whose gate changed reports readiness when the gate says so for the first time. */
  function SetGate(ms: Modules, m: string, gate: ChannelModule.Gate): Modules
    requires m in ms.gates
  {
    ms.(gates := ms.gates[m := gate],
        readying := if gate.readyPublished && !ms.gates[m].readyPublished then ms.readying + {m} else ms.readying)
  }

  function WaitStep(g: Manager, w: Wait): Manager
    requires WaitEnabled(g, w)
  {
    match w
    case BootOk(priorities) => g.(priorities := priorities, ok := true, pc := NextLevel(0))
    case BootTimeout => g.(ok := false, timedOut := true, pc := NextLevel(0))
    case PublishStart => g.(starts := g.starts + {g.priorities[g.pc.i]}, pc := LevelWait(g.pc.i))
    case LevelOk =>
      g.(ok := true, openings := g.openings + (set n | n in g.session.active), pc := LevelClear(g.pc.i))
    case LevelTimeout => g.(ok := false, timedOut := true, pc := LevelClear(g.pc.i))
    case ClearFlag => g.(session := g.session.(allReady := false), pc := NextLevel(g.pc.i + 1))
    case Finish => g.(pc := if g.ok then Done else Failed)
  }

  function Apply(c: Handshake.Codec, conf: Conf, s: System, a: Action): System
    requires Enabled(conf, s, a)
  {
    var g, ms := s.manager, s.modules;
    match a
    case Control(e) =>
      s.(phone := PhoneStep(c, s.phone, e), openInFlight := s.openInFlight || Handshake.IsRequest(e))
    case OpenDelivered =>
      s.(openInFlight := false,
         manager := g.(session := Start(g.session, conf.Keys), pc := BootWait),
         modules := ms.(unannounced := conf.Keys))
    case ChannelsReadyDelivered =>
      s.(channelsReadyInFlight := false, phone := PhoneStep(c, s.phone, Handshake.ChannelsReady(c.sdr)))
    case Announce(m) =>
      s.(modules := ms.(unannounced := ms.unannounced - {m}, announcing := ms.announcing + {m}))
    case AnnounceDelivered(m) =>
      s.(modules := ms.(announcing := ms.announcing - {m}),
         manager := g.(session := OnReadyToStart(g.session, m, conf[m].priority)))
    case ModuleEvent(m, e) => s.(modules := SetGate(ms, m, ChannelModule.Step(conf[m], ms.gates[m], e)))
    case ReadyDelivered(m) =>
      s.(modules := ms.(readying := ms.readying - {m}), manager := g.(session := OnReady(g.session, m)))
    case Waiting(w) =>
      s.(manager := WaitStep(g, w), channelsReadyInFlight := s.channelsReadyInFlight || (w.Finish? && g.ok))
  }

  // ---------------------------------------------------------------------------
  // The invariant
  // ---------------------------------------------------------------------------

  function Names(announced: seq<Announced>): set<string> { set a | a in announced :: a.name }

  ghost predicate Launched(conf: Conf, g: Manager, ms: Modules) {
    && ms.gates.Keys == conf.Keys
    && ms.unannounced <= conf.Keys && ms.announcing <= conf.Keys
    && (if g.pc.NotStarted? then g.session == FRESH && ms.unannounced + ms.announcing == {}
        else g.session.expected == conf.Keys)
  }

  /** What the session object knows about the modules is true of them. */
  ghost predicate Known(conf: Conf, session: Session) {
    && (forall a :: a in session.announced ==> a.name in conf && a.priority == conf[a.name].priority)
    && session.readyToStart == Names(session.announced)
    && (session.allReadyToStart ==> session.readyToStart == conf.Keys)
    && session.ready == (set n | n in session.active)
  }

  /** A module that reported readiness was started at its own level, is configured, and its report is either
      on its way or counted, never both. */
  ghost predicate Gated(conf: Conf, gates: map<string, ChannelModule.Gate>, readying: set<string>,
                        starts: set<int>, ready: set<string>)
    requires gates.Keys == conf.Keys
  {
    && (forall m :: m in conf && gates[m].initDone ==> conf[m].priority in starts)
    && (forall m :: m in conf && gates[m].readyPublished ==>
          gates[m].initDone && conf[m].hasChannel && (conf[m].hasSchema ==> gates[m].configLoaded))
    && (forall m :: m in readying || m in ready ==> m in conf && gates[m].readyPublished)
    && readying !! ready
  }

  /** How many levels were started, and how many of them went by. */
  function Begun(g: Manager): nat {
    match g.pc
    case NextLevel(i) => i
    case LevelWait(i) => i + 1
    case LevelClear(i) => i + 1
    case Done => |g.priorities|
    case Failed => |g.priorities|
    case _ => 0
  }

  function Passed(g: Manager): nat {
    match g.pc
    case NextLevel(i) => i
    case LevelWait(i) => i
    case LevelClear(i) => i + 1
    case Done => |g.priorities|
    case Failed => |g.priorities|
    case _ => 0
  }

  predicate Early(pc: Pc) { pc.NotStarted? || pc.BootWait? }

  /** The list of levels is the set of the modules' priorities, unless the boot wait failed. */
  ghost predicate Planned(g: Manager) {
    && Begun(g) <= |g.priorities|
    && (forall p :: p in g.starts ==> exists k :: 0 <= k < Begun(g) && g.priorities[k] == p)
    && (if Early(g.pc) then g.priorities == []
        else
          || (g.priorities == [] && g.timedOut && !g.ok)
          || (g.session.allReadyToStart && ListsPriorities(g.priorities, g.session.announced)))
  }

  ghost predicate LevelIn(conf: Conf, priority: int, ms: set<string>) {
    forall m :: m in conf && conf[m].priority == priority ==> m in ms
  }

  /** While nothing timed out, every level that went by is ready and its channels are open, and the flag of
      the current level is set only when that level is ready. */
  ghost predicate InOrder(conf: Conf, g: Manager) {
    !g.timedOut ==>
      && (g.ok || Early(g.pc)) && !g.pc.Failed?
      && (forall k :: 0 <= k < Passed(g) && k < |g.priorities| ==>
            LevelIn(conf, g.priorities[k], g.session.ready * g.openings))
      && (g.pc.BootWait? && g.session.allReady ==> conf.Keys == {})
      && (g.pc.NextLevel? && g.pc.i < |g.priorities| ==> !g.session.allReady)
      && (g.pc.LevelWait? && g.pc.i < |g.priorities| && g.session.allReady ==>
            LevelIn(conf, g.priorities[g.pc.i], g.session.ready))
  }

  /** Until the first level is over, a time-out is remembered. */
  ghost predicate Remembered(g: Manager) {
    match g.pc
    case NextLevel(i) => (i == 0 && g.timedOut ==> g.priorities == [] && !g.ok) && (i == 1 && g.ok ==> !g.timedOut)
    case LevelWait(i) => i == 0 ==> !g.timedOut
    case LevelClear(i) => i == 0 && g.ok ==> !g.timedOut
    case Done => g.ok && (|g.priorities| <= 1 ==> !g.timedOut)
    case Failed => true
    case _ => !g.timedOut
  }

  ghost predicate Inv(conf: Conf, s: System) {
    && Launched(conf, s.manager, s.modules)
    && Known(conf, s.manager.session)
    && Gated(conf, s.modules.gates, s.modules.readying, s.manager.starts, s.manager.session.ready)
    && Planned(s.manager) && InOrder(conf, s.manager) && Remembered(s.manager)
    && (s.channelsReadyInFlight || s.phone.responded ==> s.manager.pc.Done?)
  }

  lemma InitialInv(conf: Conf)
    ensures Inv(conf, Initial(conf))
  {
  }

  /** Only the report that the channels are ready makes the control channel answer the discovery request. */
  lemma OnlyReadyAnswers(c: Handshake.Codec, s: Handshake.Control, e: Handshake.Event)
    ensures Emits(Handshake.Step(c, s, e).1) <==> e.ChannelsReady? && s.phase == Handshake.WAITING_CHANNELS
    ensures (exists o :: o in Handshake.Step(c, s, e).1 && o.OpenChannels?) <==> Handshake.IsRequest(e)
  {
    if Handshake.IsRequest(e) {
      assert Handshake.Step(c, s, e).1[0].OpenChannels?;
    }
    if e.ChannelsReady? && s.phase == Handshake.WAITING_CHANNELS {
      assert Handshake.Step(c, s, e).1[0].id == Handshake.DISCOVERY_RESPONSE;
    }
  }

  lemma {:induction false} PriorityAnnounced(conf: Conf, announced: seq<Announced>, m: string)
    requires forall a :: a in announced ==> a.name in conf && a.priority == conf[a.name].priority
    requires m in Names(announced)
    ensures m in conf && PriorityOf(announced, m) == Some(conf[m].priority)
  {
    if announced[0].name != m {
      PriorityAnnounced(conf, announced[1..], m);
    } else {
      assert announced[0] in announced;
    }
  }

  /** Once every module is announced, the names announced at a priority are that level. */
  lemma PeersAreLevel(conf: Conf, session: Session, m: string)
    requires Known(conf, session) && session.allReadyToStart && m in conf
    ensures forall n :: n in Peers(session.announced, m) <==> n in conf && conf[n].priority == conf[m].priority
  {
    PriorityAnnounced(conf, session.announced, m);
    forall n | n in conf && conf[n].priority == conf[m].priority
      ensures n in NamesAt(session.announced, conf[m].priority)
    {
      assert n in Names(session.announced);
    }
  }

  lemma GateKeepsInv(conf: Conf, ms: Modules, starts: set<int>, ready: set<string>, m: string, e: ChannelModule.Event)
    requires ms.gates.Keys == conf.Keys && m in conf && Gated(conf, ms.gates, ms.readying, starts, ready)
    requires e.Started? ==> e.priority in starts
    ensures var ns := SetGate(ms, m, ChannelModule.Step(conf[m], ms.gates[m], e));
      ns.gates.Keys == conf.Keys && Gated(conf, ns.gates, ns.readying, starts, ready)
  {
    assert ms.readying !! ready;
  }

  /** A report, delivered while nothing has timed out, comes from the level being waited for. */
  lemma ReportInOrder(conf: Conf, g: Manager, ms: Modules, m: string)
    requires ms.gates.Keys == conf.Keys && Gated(conf, ms.gates, ms.readying, g.starts, g.session.ready)
      && m in ms.readying
    requires g.session.expected == conf.Keys && Known(conf, g.session)
    requires Planned(g) && InOrder(conf, g) && Remembered(g)
    ensures InOrder(conf, g.(session := OnReady(g.session, m)))
  {
    hide Peers, ListsPriorities;
    if !g.timedOut {
      var k :| 0 <= k < Begun(g) && g.priorities[k] == conf[m].priority;
      assert forall j :: 0 <= j < Passed(g) ==> g.priorities[j] != conf[m].priority;
      PeersAreLevel(conf, g.session, m);
    }
  }

  lemma ReportKeepsInv(conf: Conf, g: Manager, ms: Modules, m: string)
    requires Launched(conf, g, ms) && Known(conf, g.session) && Planned(g)
    requires Gated(conf, ms.gates, ms.readying, g.starts, g.session.ready) && m in ms.readying
    ensures !Early(g.pc)
    ensures var h, ns := g.(session := OnReady(g.session, m)), ms.(readying := ms.readying - {m});
      && Launched(conf, h, ns) && Known(conf, h.session) && Planned(h) && (Remembered(g) ==> Remembered(h))
      && Gated(conf, ns.gates, ns.readying, h.starts, h.session.ready)
  {
    hide Peers, ListsPriorities;
    var active := g.session.active;
    assert (active + [m])[|active|] == m;
    assert forall n :: n in active + [m] <==> n in active || n == m;
    assert ms.gates[m].initDone;
    assert conf[m].priority in g.starts;
  }

  lemma AnnouncementKeepsInv(conf: Conf, g: Manager, ms: Modules, m: string)
    requires Launched(conf, g, ms) && Known(conf, g.session) && Planned(g) && m in ms.announcing
    ensures var h, ns := g.(session := OnReadyToStart(g.session, m, conf[m].priority)),
        ms.(announcing := ms.announcing - {m});
      && Launched(conf, h, ns) && Known(conf, h.session) && Planned(h)
      && (InOrder(conf, g) ==> InOrder(conf, h)) && (Remembered(g) ==> Remembered(h))
      && (Gated(conf, ms.gates, ms.readying, g.starts, g.session.ready) ==>
          Gated(conf, ns.gates, ns.readying, h.starts, h.session.ready))
  {
  }

  lemma WaitKeepsPlan(conf: Conf, g: Manager, w: Wait)
    requires WaitEnabled(g, w) && Planned(g) && Remembered(g)
    ensures Planned(WaitStep(g, w)) && Remembered(WaitStep(g, w))
  {
  }

  lemma WaitKeepsOrder(conf: Conf, g: Manager, w: Wait)
    requires WaitEnabled(g, w) && Planned(g) && InOrder(conf, g) && Known(conf, g.session)
    ensures InOrder(conf, WaitStep(g, w))
  {
    if w.BootOk? && w.priorities != [] {
      var p := w.priorities[0];
      assert p in w.priorities;
      assert exists a :: a in g.session.announced && a.priority == p;
      var a :| a in g.session.announced && a.priority == w.priorities[0];
      assert a.name in conf.Keys;
    }
  }

  lemma WaitKeepsModules(conf: Conf, g: Manager, ms: Modules, w: Wait)
    requires WaitEnabled(g, w) && Launched(conf, g, ms) && Known(conf, g.session)
    requires Gated(conf, ms.gates, ms.readying, g.starts, g.session.ready)
    ensures var h := WaitStep(g, w);
      Launched(conf, h, ms) && Known(conf, h.session) && Gated(conf, ms.gates, ms.readying, h.starts, h.session.ready)
  {
  }

  lemma OpenKeepsInv(conf: Conf, g: Manager, ms: Modules)
    requires g.pc.NotStarted? && Launched(conf, g, ms) && Planned(g) && Remembered(g)
    requires Gated(conf, ms.gates, ms.readying, g.starts, g.session.ready)
    ensures var h, ns := g.(session := Start(g.session, conf.Keys), pc := BootWait), ms.(unannounced := conf.Keys);
      && Launched(conf, h, ns) && Known(conf, h.session)
      && Gated(conf, ns.gates, ns.readying, h.starts, h.session.ready)
      && Planned(h) && InOrder(conf, h) && Remembered(h)
  {
  }

  lemma StepKeepsInv(c: Handshake.Codec, conf: Conf, s: System, a: Action)
    requires Inv(conf, s) && Enabled(conf, s, a)
    ensures Inv(conf, Apply(c, conf, s, a))
  {
    hide Known, Gated, Planned, InOrder, Remembered, ListsPriorities, Handshake.Step;
    var g, ms := s.manager, s.modules;
    match a
    case Control(e) => OnlyReadyAnswers(c, s.phone.control, e);
    case ModuleEvent(m, e) => GateKeepsInv(conf, ms, g.starts, g.session.ready, m, e);
    case ReadyDelivered(m) =>
      ReportKeepsInv(conf, g, ms, m);
      ReportInOrder(conf, g, ms, m);
    case AnnounceDelivered(m) => AnnouncementKeepsInv(conf, g, ms, m);
    case Waiting(w) =>
      WaitKeepsModules(conf, g, ms, w);
      WaitKeepsPlan(conf, g, w);
      WaitKeepsOrder(conf, g, w);
    case OpenDelivered => OpenKeepsInv(conf, g, ms);
    case _ =>
  }

  // ---------------------------------------------------------------------------
  // Safety over every run
  // ---------------------------------------------------------------------------

  /** The state after any sequence of actions; an action that cannot happen changes nothing. */
  ghost function After(c: Handshake.Codec, conf: Conf, run: seq<Action>): System {
    if run == [] then Initial(conf)
    else
      var s, a := After(c, conf, run[..|run| - 1]), run[|run| - 1];
      if Enabled(conf, s, a) then Apply(c, conf, s, a) else s
  }

  lemma {:induction false} Invariant(c: Handshake.Codec, conf: Conf, run: seq<Action>)
    ensures Inv(conf, After(c, conf, run))
    decreases |run|
  {
    hide Inv, Initial, Enabled, Apply;
    if run == [] {
      InitialInv(conf);
    } else {
      var s, a := After(c, conf, run[..|run| - 1]), run[|run| - 1];
      Invariant(c, conf, run[..|run| - 1]);
      if Enabled(conf, s, a) {
        StepKeepsInv(c, conf, s, a);
      }
    }
  }

  ghost predicate OneLevel(conf: Conf) {
    forall m, n :: m in conf && n in conf ==> conf[m].priority == conf[n].priority
  }

  /** Module m is up: started at its own level, configured if it has a schema, its report counted by the
      channel manager and its channel opened. */
  ghost predicate Up(conf: Conf, s: System, m: string) {
    && m in conf && m in s.modules.gates
    && s.modules.gates[m].initDone && conf[m].hasChannel && (conf[m].hasSchema ==> s.modules.gates[m].configLoaded)
    && m in s.manager.session.ready && m in s.manager.openings
  }

  lemma AtMostOneLevel(conf: Conf, g: Manager)
    requires Planned(g) && Known(conf, g.session) && !Early(g.pc) && OneLevel(conf)
    ensures |g.priorities| <= 1
  {
    assert SamePriorities(g.priorities) by {
      hide Distinct;
      forall i, j | 0 <= i < |g.priorities| && 0 <= j < |g.priorities|
        ensures g.priorities[i] == g.priorities[j]
      {
        var p, q := g.priorities[i], g.priorities[j];
        assert p in g.priorities && q in g.priorities;
        var a :| a in g.session.announced && a.priority == p;
        var b :| b in g.session.announced && b.priority == q;
        assert a.name in conf && b.name in conf;
      }
    }
    SameDistinct(g.priorities);
  }

  lemma SameDistinct(xs: seq<int>)
    requires SamePriorities(xs)
    ensures Distinct(xs) ==> |xs| <= 1
  {
    if |xs| > 1 {
      assert xs[0] == xs[1];
    }
  }

  ghost predicate SamePriorities(xs: seq<int>) {
    forall i, j :: 0 <= i < |xs| && 0 <= j < |xs| ==> xs[i] == xs[j]
  }

  /** The discovery response goes out only when every launched module is up, in every run in which no wait
      times out, and, if all modules share one level, in every run at all. */
  lemma ResponseOnlyWhenUp(c: Handshake.Codec, conf: Conf, run: seq<Action>)
    ensures var s := After(c, conf, run);
      s.phone.responded && (!s.manager.timedOut || OneLevel(conf)) ==> forall m :: m in conf ==> Up(conf, s, m)
  {
    var s := After(c, conf, run);
    Invariant(c, conf, run);
    hide After;
    if s.phone.responded && (!s.manager.timedOut || OneLevel(conf)) {
      if OneLevel(conf) {
        AtMostOneLevel(conf, s.manager);
      }
      forall m | m in conf
        ensures Up(conf, s, m)
      {
        LevelListed(conf, s.manager, m);
      }
    }
  }

  /** While nothing has timed out, a level is started only when every module of the levels listed before it is
      ready and has its channel open. */
  lemma LevelsStartInOrder(c: Handshake.Codec, conf: Conf, run: seq<Action>, i: nat, j: nat)
    requires var g := After(c, conf, run).manager;
      !g.timedOut && i < j < |g.priorities| && g.priorities[j] in g.starts
    ensures var g := After(c, conf, run).manager;
      LevelIn(conf, g.priorities[i], g.session.ready * g.openings)
  {
    Invariant(c, conf, run);
    hide After, LevelIn;
    var g := After(c, conf, run).manager;
    var k :| 0 <= k < Begun(g) && g.priorities[k] == g.priorities[j];
    assert k == j;
  }

  lemma LevelListed(conf: Conf, g: Manager, m: string)
    requires Planned(g) && Known(conf, g.session) && !Early(g.pc) && g.ok && m in conf
    ensures exists k :: 0 <= k < |g.priorities| && g.priorities[k] == conf[m].priority
  {
    PriorityAnnounced(conf, g.session.announced, m);
    var a :| a in g.session.announced && a.name == m;
    assert conf[m].priority in g.priorities;
  }

  // ---------------------------------------------------------------------------
  // Exactly when the guarantee survives time-outs
  // ---------------------------------------------------------------------------

  /** Some level can become ready as a whole while there is a module outside it. */
  ghost predicate CanMislead(conf: Conf) {
    exists m, n :: m in conf && n in conf && conf[m].priority != conf[n].priority && Capable(conf, conf[m].priority)
  }

  ghost predicate Capable(conf: Conf, priority: int) {
    forall m :: m in conf && conf[m].priority == priority ==> conf[m].hasChannel
  }

  /** No level was ever reported ready. */
  ghost predicate Stuck(g: Manager) {
    && !g.session.allReady && !g.pc.Done?
    && (g.pc.LevelClear? || (g.pc.NextLevel? && g.pc.i > 0) ==> !g.ok)
  }

  ghost predicate Hopeless(conf: Conf) {
    conf.Keys != {} && forall m :: m in conf ==> !Capable(conf, conf[m].priority)
  }

  lemma StuckReport(conf: Conf, s: System, m: string)
    requires Inv(conf, s) && Stuck(s.manager) && m in s.modules.readying && Hopeless(conf)
    ensures Stuck(s.manager.(session := OnReady(s.manager.session, m)))
  {
    hide Peers, ListsPriorities, InOrder, Remembered;
    ReportKeepsInv(conf, s.manager, s.modules, m);
    PeersAreLevel(conf, s.manager.session, m);
    var n :| n in conf && conf[n].priority == conf[m].priority && !conf[n].hasChannel;
    assert n in Peers(s.manager.session.announced, m);
    assert n !in s.manager.session.ready + {m};
  }

  lemma StuckStep(c: Handshake.Codec, conf: Conf, s: System, a: Action)
    requires Inv(conf, s) && Stuck(s.manager) && Hopeless(conf) && Enabled(conf, s, a)
    ensures Stuck(Apply(c, conf, s, a).manager)
  {
    hide Capable, Known, Gated, Planned, InOrder, Remembered, ListsPriorities, Peers, Handshake.Step, PhoneStep;
    match a
    case ReadyDelivered(m) => StuckReport(conf, s, m);
    case Waiting(w) =>
      if w.Finish? && s.manager.ok {
        var m :| m in conf;
        LevelListed(conf, s.manager, m);
      }
    case _ =>
  }

  lemma {:induction false} HopelessStaysStuck(c: Handshake.Codec, conf: Conf, run: seq<Action>)
    requires Hopeless(conf)
    ensures Stuck(After(c, conf, run).manager)
    decreases |run|
  {
    hide Inv, Hopeless, Apply, Enabled;
    if run == [] {
    } else {
      var s, a := After(c, conf, run[..|run| - 1]), run[|run| - 1];
      Invariant(c, conf, run[..|run| - 1]);
      HopelessStaysStuck(c, conf, run[..|run| - 1]);
      if Enabled(conf, s, a) {
        StuckStep(c, conf, s, a);
      }
    }
  }
}
