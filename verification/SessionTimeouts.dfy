/** Session starts for every order of the levels: one without time-outs always answers the phone if it can, and
    with time-outs the start guarantee is lost exactly for some sets of modules. */
module SessionTimeouts {
  import opened Bytes
  import opened ChannelManager
  import opened SessionStart
  import ChannelModule
  import Handshake

  ghost predicate IsLevel(conf: Conf, p: int) { exists m :: m in conf && conf[m].priority == p }

  /** ps lists the levels of the modules, each once. The order is that of a hash set of integers: fixed, and
      not of anyone's choosing. */
  ghost predicate OrderOf(conf: Conf, ps: seq<int>) {
    Distinct(ps) && forall p :: p in ps <==> IsLevel(conf, p)
  }

  /** The waiting thread goes through the levels in the order ps. */
  ghost predicate Follows(run: seq<Action>, ps: seq<int>) {
    forall i :: 0 <= i < |run| && run[i].Waiting? && run[i].w.BootOk? ==> run[i].w.priorities == ps
  }

  lemma Extend(c: Handshake.Codec, conf: Conf, run: seq<Action>, ps: seq<int>, a: Action)
    requires Follows(run, ps) && (a.Waiting? && a.w.BootOk? ==> a.w.priorities == ps)
    requires Enabled(conf, After(c, conf, run), a)
    ensures After(c, conf, run + [a]) == Apply(c, conf, After(c, conf, run), a)
    ensures Follows(run + [a], ps)
  {
    assert (run + [a])[..|run|] == run;
    hide Enabled, Apply;
  }

  function Level(conf: Conf, p: int): set<string> { set m | m in conf && conf[m].priority == p }

  // ---------------------------------------------------------------------------
  // Up to the first level
  // ---------------------------------------------------------------------------

  /** The control channel waits and no module has been started. */
  ghost predicate Quiet(s: System) {
    && s.phone.control.phase == Handshake.WAITING_CHANNELS && !s.manager.timedOut
    && s.manager.session.ready == {} && s.modules.readying == {}
    && forall m :: m in s.modules.gates ==> s.modules.gates[m] == ChannelModule.CLOSED
  }

  /** Waiting for the announcements of the modules in todo. */
  ghost predicate Booting(conf: Conf, s: System, todo: set<string>) {
    && Quiet(s) && s.manager.pc.BootWait? && s.modules.unannounced == todo
    && s.manager.session.readyToStart + todo == conf.Keys
    && (s.manager.session.readyToStart == conf.Keys ==> s.manager.session.allReadyToStart)
    && (s.manager.session.allReady ==> conf.Keys == {})
  }

  lemma Open(c: Handshake.Codec, conf: Conf, ps: seq<int>) returns (run: seq<Action>)
    ensures Follows(run, ps) && Booting(conf, After(c, conf, run), conf.Keys)
  {
    var ask := Control(Handshake.Incoming(Handshake.DISCOVERY_REQUEST, [], true));
    assert After(c, conf, []) == Initial(conf);
    Extend(c, conf, [], ps, ask);
    Extend(c, conf, [] + [ask], ps, OpenDelivered);
    run := [] + [ask] + [OpenDelivered];
    hide After;
  }

  lemma AnnounceStep(c: Handshake.Codec, conf: Conf, s: System, todo: set<string>, m: string)
    requires Inv(conf, s) && Booting(conf, s, todo) && m in todo
    ensures Enabled(conf, s, Announce(m)) && Enabled(conf, Apply(c, conf, s, Announce(m)), AnnounceDelivered(m))
    ensures Booting(conf, Apply(c, conf, Apply(c, conf, s, Announce(m)), AnnounceDelivered(m)), todo - {m})
  {
    hide Known, Gated, Planned, InOrder, Remembered;
  }

  lemma {:induction false} AnnounceAll(c: Handshake.Codec, conf: Conf, run: seq<Action>, ps: seq<int>,
                                       todo: set<string>)
    returns (longer: seq<Action>)
    requires Follows(run, ps) && Booting(conf, After(c, conf, run), todo)
    ensures Follows(longer, ps) && Booting(conf, After(c, conf, longer), {})
    decreases |todo|
  {
    hide *;
    if todo == {} {
      longer := run;
    } else {
      var m :| m in todo;
      Invariant(c, conf, run);
      AnnounceStep(c, conf, After(c, conf, run), todo, m);
      Extend(c, conf, run, ps, Announce(m));
      Extend(c, conf, run + [Announce(m)], ps, AnnounceDelivered(m));
      longer := AnnounceAll(c, conf, run + [Announce(m)] + [AnnounceDelivered(m)], ps, todo - {m});
    }
  }

  /** The priorities announced are those of the modules. */
  lemma OrderIsAnnounced(conf: Conf, session: Session, ps: seq<int>)
    requires Known(conf, session) && session.readyToStart == conf.Keys && OrderOf(conf, ps)
    ensures ListsPriorities(ps, session.announced)
  {
    forall p
      ensures IsLevel(conf, p) <==> exists a :: a in session.announced && a.priority == p
    {
      if m :| m in conf && conf[m].priority == p {
        assert m in Names(session.announced);
      }
    }
    hide Known, IsLevel;
  }

  lemma Boot(c: Handshake.Codec, conf: Conf, run: seq<Action>, ps: seq<int>) returns (longer: seq<Action>)
    requires Follows(run, ps) && Booting(conf, After(c, conf, run), {}) && OrderOf(conf, ps)
    ensures Follows(longer, ps)
    ensures var s := After(c, conf, longer);
      Quiet(s) && s.manager.ok && Before(s, ps, 0) && (s.manager.session.allReady ==> conf.Keys == {})
  {
    Invariant(c, conf, run);
    OrderIsAnnounced(conf, After(c, conf, run).manager.session, ps);
    hide After, Gated, Known, Planned, InOrder, Remembered, ListsPriorities, OrderOf, Follows;
    Extend(c, conf, run, ps, Waiting(BootOk(ps)));
    longer := run + [Waiting(BootOk(ps))];
  }

  /** Announced, booted and started up to level n. */
  lemma ToFirstLevel(c: Handshake.Codec, conf: Conf, ps: seq<int>) returns (run: seq<Action>)
    requires OrderOf(conf, ps)
    ensures Follows(run, ps)
    ensures var s := After(c, conf, run);
      Quiet(s) && s.manager.ok && Before(s, ps, 0) && (s.manager.session.allReady ==> conf.Keys == {})
  {
    hide *;
    run := Open(c, conf, ps);
    run := AnnounceAll(c, conf, run, ps, conf.Keys);
    run := Boot(c, conf, run, ps);
  }

  /** Between two levels, n of them having been started. */
  ghost predicate Before(s: System, ps: seq<int>, n: nat) {
    && s.phone.control.phase == Handshake.WAITING_CHANNELS && s.manager.session.allReadyToStart
    && s.manager.priorities == ps && s.manager.pc == NextLevel(n) && n <= |ps|
    && forall k :: 0 <= k < n ==> ps[k] in s.manager.starts
  }

  // ---------------------------------------------------------------------------
  // A level comes up
  // ---------------------------------------------------------------------------

  /** In the wait of some level, after the start of level p; its modules in todo have not come up yet. */
  ghost predicate Rising(conf: Conf, s: System, p: int, todo: set<string>) {
    && s.phone.control.phase == Handshake.WAITING_CHANNELS && s.manager.session.allReadyToStart
    && s.manager.pc.LevelWait? && p in s.manager.starts
    && todo <= Level(conf, p) <= s.manager.session.ready + todo && todo !! s.manager.session.ready
    && (Level(conf, p) <= s.manager.session.ready ==> s.manager.session.allReady)
    && forall m :: m in todo && m in s.modules.gates ==> s.modules.gates[m] == ChannelModule.CLOSED
  }

  /** t is s but for the modules in ms, which have come up. */
  ghost predicate CameUp(s: System, t: System, ms: set<string>) {
    && t.manager == s.manager.(session := t.manager.session)
    && t.manager.session.ready == s.manager.session.ready + ms
    && t.modules.gates.Keys == s.modules.gates.Keys
    && forall m :: m in s.modules.gates && m !in ms ==> t.modules.gates[m] == s.modules.gates[m]
  }

  /** A module is started, configured if it has a schema, and reports. */
  lemma ModuleComesUp(c: Handshake.Codec, conf: Conf, run: seq<Action>, ps: seq<int>, m: string)
    returns (longer: seq<Action>)
    requires m in conf && conf[m].hasChannel && Follows(run, ps)
    requires var s := After(c, conf, run);
      && m in s.modules.gates && s.modules.gates[m] == ChannelModule.CLOSED
      && conf[m].priority in s.manager.starts && !s.manager.pc.NotStarted?
    ensures Follows(longer, ps)
    ensures var s, gate := After(c, conf, run), ChannelModule.Gate(true, conf[m].hasSchema, true);
      After(c, conf, longer) ==
        s.(modules := s.modules.(gates := s.modules.gates[m := gate], readying := s.modules.readying + {m}))
  {
    hide After, Follows;
    var s := After(c, conf, run);
    var start := ModuleEvent(m, ChannelModule.Started(conf[m].priority, true));
    Extend(c, conf, run, ps, start);
    longer := run + [start];
    if conf[m].hasSchema {
      var configure := ModuleEvent(m, ChannelModule.Configured(true));
      Extend(c, conf, longer, ps, configure);
      longer := longer + [configure];
      var half, whole := ChannelModule.Gate(true, false, false), ChannelModule.Gate(true, true, true);
      assert s.modules.gates[m := half][m := whole] == s.modules.gates[m := whole];
    }
  }

  /** The report that completes the level sets the flag. */
  lemma LastReport(conf: Conf, session: Session, p: int, todo: set<string>, m: string)
    requires Known(conf, session) && session.allReadyToStart && session.expected == conf.Keys && m in todo
    requires todo <= Level(conf, p) <= session.ready + todo && todo !! session.ready
    ensures var t := OnReady(session, m);
      && t == session.(ready := session.ready + {m}, active := session.active + [m], allReady := t.allReady)
      && todo - {m} <= Level(conf, p) <= t.ready + (todo - {m}) && todo - {m} !! t.ready
      && (Level(conf, p) <= t.ready ==> t.allReady)
  {
    assert m in Level(conf, p);
    PeersAreLevel(conf, session, m);
    hide Peers, Known;
    forall n | n in Peers(session.announced, m)
      ensures n in Level(conf, p)
    {
    }
  }

  lemma ReportRises(conf: Conf, s: System, p: int, todo: set<string>, m: string, gate: ChannelModule.Gate)
    requires Rising(conf, s, p, todo) && m in todo && s.modules.gates.Keys == conf.Keys
    requires Known(conf, s.manager.session) && s.manager.session.expected == conf.Keys
    ensures var t := s.(modules := s.modules.(gates := s.modules.gates[m := gate],
                                                readying := s.modules.readying + {m} - {m}),
                        manager := s.manager.(session := OnReady(s.manager.session, m)));
      Rising(conf, t, p, todo - {m}) && CameUp(s, t, {m})
  {
    LastReport(conf, s.manager.session, p, todo, m);
    hide Known, Level, OnReady;
  }

  lemma RiseStep(c: Handshake.Codec, conf: Conf, run: seq<Action>, ps: seq<int>, p: int, todo: set<string>, m: string)
    returns (longer: seq<Action>)
    requires Rising(conf, After(c, conf, run), p, todo) && Follows(run, ps)
    requires m in todo && m in conf && conf[m].priority == p && conf[m].hasChannel
    ensures Follows(longer, ps)
    ensures Rising(conf, After(c, conf, longer), p, todo - {m})
    ensures CameUp(After(c, conf, run), After(c, conf, longer), {m})
  {
    Invariant(c, conf, run);
    hide After, Gated, Known, Planned, InOrder, Remembered, Follows;
    var s := After(c, conf, run);
    ReportRises(conf, s, p, todo, m, ChannelModule.Gate(true, conf[m].hasSchema, true));
    longer := ModuleComesUp(c, conf, run, ps, m);
    Extend(c, conf, longer, ps, ReadyDelivered(m));
    longer := longer + [ReadyDelivered(m)];
    hide Rising, CameUp, Level, OnReady;
  }

  lemma CameUpTwice(s: System, t: System, u: System, a: set<string>, b: set<string>)
    requires CameUp(s, t, a) && CameUp(t, u, b)
    ensures CameUp(s, u, a + b)
  {
  }

  lemma {:induction false} RiseAll(c: Handshake.Codec, conf: Conf, run: seq<Action>, ps: seq<int>,
                                   p: int, todo: set<string>)
    returns (longer: seq<Action>)
    requires Rising(conf, After(c, conf, run), p, todo) && Follows(run, ps) && Capable(conf, p)
    ensures Follows(longer, ps)
    ensures Rising(conf, After(c, conf, longer), p, {}) && CameUp(After(c, conf, run), After(c, conf, longer), todo)
    decreases |todo|
  {
    hide After, Follows, Rising, CameUp;
    if todo == {} {
      longer := run;
      NothingCameUp(After(c, conf, run));
    } else {
      var m :| m in todo;
      InLevel(conf, After(c, conf, run), p, todo, m);
      longer := RiseStep(c, conf, run, ps, p, todo, m);
      var next := longer;
      longer := RiseAll(c, conf, next, ps, p, todo - {m});
      CameUpTwice(After(c, conf, run), After(c, conf, next), After(c, conf, longer), {m}, todo - {m});
      assert {m} + (todo - {m}) == todo;
    }
  }

  lemma NothingCameUp(s: System)
    ensures CameUp(s, s, {})
  {
  }

  lemma InLevel(conf: Conf, s: System, p: int, todo: set<string>, m: string)
    requires Rising(conf, s, p, todo) && m in todo
    ensures m in conf && conf[m].priority == p
  {
    assert m in Level(conf, p);
  }

  /** All levels are over and the last wait succeeded: the phone is answered. */
  lemma Conclude(c: Handshake.Codec, conf: Conf, run: seq<Action>, ps: seq<int>) returns (longer: seq<Action>)
    requires Follows(run, ps) && Before(After(c, conf, run), ps, |ps|) && After(c, conf, run).manager.ok
    ensures Follows(longer, ps)
    ensures var s, t := After(c, conf, run), After(c, conf, longer);
      t.phone.responded && t.manager == s.manager.(pc := Done)
  {
    hide After, Follows, Handshake.Step, Emits;
    Extend(c, conf, run, ps, Waiting(Finish));
    longer := run + [Waiting(Finish)];
    OnlyReadyAnswers(c, After(c, conf, longer).phone.control, Handshake.ChannelsReady(c.sdr));
    Extend(c, conf, longer, ps, ChannelsReadyDelivered);
    longer := longer + [ChannelsReadyDelivered];
  }

  /** The wait of level n succeeds. */
  lemma PassLevel(c: Handshake.Codec, conf: Conf, run: seq<Action>, ps: seq<int>, n: nat) returns (longer: seq<Action>)
    requires Follows(run, ps) && n < |ps|
    requires var s := After(c, conf, run);
      && s.phone.control.phase == Handshake.WAITING_CHANNELS && s.manager.session.allReadyToStart
      && s.manager.session.allReady && s.manager.priorities == ps && s.manager.pc == LevelWait(n)
      && forall k :: 0 <= k <= n ==> ps[k] in s.manager.starts
    ensures Follows(longer, ps)
    ensures var s, t := After(c, conf, run), After(c, conf, longer);
      && Before(t, ps, n + 1) && t.manager.ok && !t.manager.session.allReady && t.modules == s.modules
      && t.manager.timedOut == s.manager.timedOut && t.manager.session.ready == s.manager.session.ready
  {
    hide After, Follows;
    Extend(c, conf, run, ps, Waiting(LevelOk));
    longer := run + [Waiting(LevelOk)];
    Extend(c, conf, longer, ps, Waiting(ClearFlag));
    longer := longer + [Waiting(ClearFlag)];
  }

  // ---------------------------------------------------------------------------
  // Without time-outs
  // ---------------------------------------------------------------------------

  /** The modules of the first n levels are ready, the others have not been started. */
  ghost predicate Climbing(conf: Conf, s: System, ps: seq<int>, n: nat) {
    && Before(s, ps, n) && s.manager.ok && !s.manager.timedOut && (s.manager.session.allReady ==> n == |ps|)
    && (forall m :: m in s.manager.session.ready ==> m in conf && conf[m].priority in ps[..n])
    && (forall m :: m in conf && m in s.modules.gates && conf[m].priority !in ps[..n] ==>
          s.modules.gates[m] == ChannelModule.CLOSED)
  }

  lemma StartClimb(c: Handshake.Codec, conf: Conf, run: seq<Action>, ps: seq<int>, n: nat) returns (longer: seq<Action>)
    requires Follows(run, ps) && Climbing(conf, After(c, conf, run), ps, n) && n < |ps| && OrderOf(conf, ps)
    ensures Follows(longer, ps)
    ensures var s, t := After(c, conf, run), After(c, conf, longer);
      && Rising(conf, t, ps[n], Level(conf, ps[n])) && t.manager.pc == LevelWait(n)
      && t.manager.priorities == ps && (forall k :: 0 <= k <= n ==> ps[k] in t.manager.starts)
      && t.manager.timedOut == s.manager.timedOut && t.manager.session == s.manager.session && t.modules == s.modules
  {
    hide After, Follows;
    var p := ps[n];
    assert p in ps && p !in ps[..n];
    assert IsLevel(conf, p);
    var m :| m in conf && conf[m].priority == p;
    assert m in Level(conf, p);
    hide OrderOf;
    Extend(c, conf, run, ps, Waiting(PublishStart));
    longer := run + [Waiting(PublishStart)];
    hide Enabled, Apply;
  }

  lemma ClimbStep(conf: Conf, s: System, t: System, ps: seq<int>, n: nat)
    requires Climbing(conf, s, ps, n) && n < |ps| && Before(t, ps, n + 1) && t.manager.ok && !t.manager.timedOut
    requires !t.manager.session.allReady
    requires t.manager.session.ready == s.manager.session.ready + Level(conf, ps[n])
    requires t.modules.gates.Keys == s.modules.gates.Keys
    requires forall m :: m in s.modules.gates && m !in Level(conf, ps[n]) ==> t.modules.gates[m] == s.modules.gates[m]
    ensures Climbing(conf, t, ps, n + 1)
  {
    assert ps[..n + 1] == ps[..n] + [ps[n]];
    assert forall p :: p in ps[..n + 1] <==> p in ps[..n] || p == ps[n];
    hide Before;
  }

  lemma {:induction false} Climb(c: Handshake.Codec, conf: Conf, run: seq<Action>, ps: seq<int>, n: nat)
    returns (longer: seq<Action>)
    requires Follows(run, ps) && Climbing(conf, After(c, conf, run), ps, n) && OrderOf(conf, ps)
    requires forall m :: m in conf ==> conf[m].hasChannel
    ensures Follows(longer, ps) && Climbing(conf, After(c, conf, longer), ps, |ps|)
    decreases |ps| - n
  {
    assert n <= |ps| by {
      assert Before(After(c, conf, run), ps, n);
    }
    if n == |ps| {
      longer := run;
    } else {
      hide After, Follows, Climbing, Before, Rising, Level, OrderOf;
      var started := StartClimb(c, conf, run, ps, n);
      var up := RiseAll(c, conf, started, ps, ps[n], Level(conf, ps[n]));
      assert After(c, conf, up).manager.session.allReady
             && After(c, conf, up).phone.control.phase == Handshake.WAITING_CHANNELS
             && After(c, conf, up).manager.session.allReadyToStart by {
        assert Rising(conf, After(c, conf, up), ps[n], {});
        Risen(conf, After(c, conf, up), ps[n]);
      }
      var passed := PassLevel(c, conf, up, ps, n);
      ClimbStep(conf, After(c, conf, run), After(c, conf, passed), ps, n);
      longer := Climb(c, conf, passed, ps, n + 1);
    }
  }

  lemma Risen(conf: Conf, s: System, p: int)
    requires Rising(conf, s, p, {})
    ensures s.manager.session.allReady && s.manager.session.allReadyToStart
    ensures s.phone.control.phase == Handshake.WAITING_CHANNELS
  {
  }

  /** For every order of the levels: some run without a time-out answers the phone if and only if the discovery
      response describes the channel of every module. */
  lemma AnswerableExactly(c: Handshake.Codec, conf: Conf, ps: seq<int>)
    requires OrderOf(conf, ps)
    ensures (exists run :: Follows(run, ps) && After(c, conf, run).phone.responded
                && !After(c, conf, run).manager.timedOut) <==>
            forall m :: m in conf ==> conf[m].hasChannel
  {
    if forall m :: m in conf ==> conf[m].hasChannel {
      var run := AnsweringRun(c, conf, ps);
    } else if run :| Follows(run, ps) && After(c, conf, run).phone.responded && !After(c, conf, run).manager.timedOut {
      ResponseOnlyWhenUp(c, conf, run);
      hide After;
    }
  }

  lemma AnsweringRun(c: Handshake.Codec, conf: Conf, ps: seq<int>) returns (run: seq<Action>)
    requires OrderOf(conf, ps) && forall m :: m in conf ==> conf[m].hasChannel
    ensures Follows(run, ps) && After(c, conf, run).phone.responded && !After(c, conf, run).manager.timedOut
  {
    run := ToFirstLevel(c, conf, ps);
    StartsClimbing(conf, After(c, conf, run), ps);
    run := Climb(c, conf, run, ps, 0);
    ClimbEnds(conf, After(c, conf, run), ps);
    hide After, Follows, Climbing;
    run := Conclude(c, conf, run, ps);
  }

  lemma StartsClimbing(conf: Conf, s: System, ps: seq<int>)
    requires OrderOf(conf, ps) && Quiet(s) && s.manager.ok && Before(s, ps, 0)
    requires s.manager.session.allReady ==> conf.Keys == {}
    ensures Climbing(conf, s, ps, 0)
  {
    if ps != [] {
      var p := ps[0];
      assert p in ps;
      assert IsLevel(conf, p);
    }
  }

  lemma ClimbEnds(conf: Conf, s: System, ps: seq<int>)
    requires Climbing(conf, s, ps, |ps|)
    ensures Before(s, ps, |ps|) && s.manager.ok && !s.manager.timedOut
  {
  }

  // ---------------------------------------------------------------------------
  // With time-outs
  // ---------------------------------------------------------------------------

  /** Before level n, every earlier level having timed out. */
  ghost predicate Skipping(s: System, ps: seq<int>, n: nat) {
    && Before(s, ps, n) && s.manager.session.ready == {} && !s.manager.session.allReady
    && forall m :: m in s.modules.gates ==> s.modules.gates[m] == ChannelModule.CLOSED
  }

  lemma SkipStep(c: Handshake.Codec, conf: Conf, run: seq<Action>, ps: seq<int>, n: nat) returns (longer: seq<Action>)
    requires Follows(run, ps) && n < |ps| && Skipping(After(c, conf, run), ps, n)
    ensures Follows(longer, ps) && Skipping(After(c, conf, longer), ps, n + 1)
  {
    hide After, Follows;
    Extend(c, conf, run, ps, Waiting(PublishStart));
    longer := run + [Waiting(PublishStart)];
    Extend(c, conf, longer, ps, Waiting(LevelTimeout));
    longer := longer + [Waiting(LevelTimeout)];
    Extend(c, conf, longer, ps, Waiting(ClearFlag));
    longer := longer + [Waiting(ClearFlag)];
  }

  lemma {:induction false} SkipLevels(c: Handshake.Codec, conf: Conf, run: seq<Action>, ps: seq<int>, n: nat)
    returns (longer: seq<Action>)
    requires Follows(run, ps) && n < |ps| && Skipping(After(c, conf, run), ps, 0)
    ensures Follows(longer, ps) && Skipping(After(c, conf, longer), ps, n)
  {
    hide *;
    if n == 0 {
      longer := run;
    } else {
      longer := SkipLevels(c, conf, run, ps, n - 1);
      longer := SkipStep(c, conf, longer, ps, n - 1);
    }
  }

  /** The last level is started; level p, started now or before, can still come up. */
  lemma StartLast(c: Handshake.Codec, conf: Conf, run: seq<Action>, ps: seq<int>, p: int) returns (longer: seq<Action>)
    requires Follows(run, ps) && ps != [] && Skipping(After(c, conf, run), ps, |ps| - 1)
      && p in ps && Level(conf, p) != {}
    ensures Follows(longer, ps)
    ensures var s := After(c, conf, longer);
      && Rising(conf, s, p, Level(conf, p)) && s.manager.pc == LevelWait(|ps| - 1) && s.manager.priorities == ps
      && s.manager.session.ready == {} && forall k :: 0 <= k < |ps| ==> ps[k] in s.manager.starts
  {
    hide After, Follows, Level;
    Extend(c, conf, run, ps, Waiting(PublishStart));
    longer := run + [Waiting(PublishStart)];
  }

  /** All waits but the last time out, and the level of m alone comes up, late unless it is the last: the phone
      is answered all the same, whatever the order of the levels. */
  lemma MisleadingRun(c: Handshake.Codec, conf: Conf, ps: seq<int>, m: string) returns (run: seq<Action>)
    requires OrderOf(conf, ps) && m in conf && Capable(conf, conf[m].priority)
    ensures Follows(run, ps) && After(c, conf, run).phone.responded
    ensures After(c, conf, run).manager.session.ready == Level(conf, conf[m].priority)
  {
    var p := conf[m].priority;
    assert p in ps && m in Level(conf, p);
    run := ToFirstLevel(c, conf, ps);
    StartsSkipping(conf, After(c, conf, run), ps, m);
    hide After, Follows, Skipping, Quiet, Before, Rising, Level, OrderOf, Capable;
    run := SkipLevels(c, conf, run, ps, |ps| - 1);
    run := StartLast(c, conf, run, ps, p);
    run := RiseAll(c, conf, run, ps, p, Level(conf, p));
    Risen(conf, After(c, conf, run), p);
    run := PassLevel(c, conf, run, ps, |ps| - 1);
    run := Conclude(c, conf, run, ps);
  }

  lemma StartsSkipping(conf: Conf, s: System, ps: seq<int>, m: string)
    requires Quiet(s) && Before(s, ps, 0) && (s.manager.session.allReady ==> conf.Keys == {}) && m in conf
    ensures Skipping(s, ps, 0)
  {
  }

  ghost predicate Safe(conf: Conf, s: System) {
    s.phone.responded ==> conf.Keys <= s.manager.session.ready
  }

  /** With time-outs, and for every order of the levels: the phone is answered too early in some run exactly if
      some level can become ready as a whole while there is a module outside it. */
  lemma GuaranteeExact(c: Handshake.Codec, conf: Conf, ps: seq<int>)
    requires OrderOf(conf, ps)
    ensures (forall run :: Follows(run, ps) ==> Safe(conf, After(c, conf, run))) <==> !CanMislead(conf)
  {
    if CanMislead(conf) {
      var m, n :| m in conf && n in conf && conf[m].priority != conf[n].priority && Capable(conf, conf[m].priority);
      var run := MisleadingRun(c, conf, ps, m);
      hide After, Follows;
      assert n !in Level(conf, conf[m].priority);
      assert !Safe(conf, After(c, conf, run));
    } else {
      forall run
        ensures Safe(conf, After(c, conf, run))
      {
        SafeUnlessMisled(c, conf, run);
      }
    }
  }

  lemma SafeUnlessMisled(c: Handshake.Codec, conf: Conf, run: seq<Action>)
    requires !CanMislead(conf)
    ensures Safe(conf, After(c, conf, run))
  {
    if OneLevel(conf) {
      ResponseOnlyWhenUp(c, conf, run);
    } else {
      HopelessStaysStuck(c, conf, run);
      Invariant(c, conf, run);
    }
  }
}
