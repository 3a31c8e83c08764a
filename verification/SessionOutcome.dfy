/** Session starts told from their actions alone: what the last wait decides, what is started and what is opened. */
module SessionOutcome {
  import opened Bytes
  import opened ChannelManager
  import opened SessionStart
  import Handshake

  /** Action i of the run was possible when its turn came, and so took effect. */
  ghost predicate Happens(c: Handshake.Codec, conf: Conf, run: seq<Action>, i: nat) {
    i < |run| && Enabled(conf, After(c, conf, run[..i]), run[i])
  }

  /** The end of a wait, for the announcements or for a level. */
  predicate EndsWait(a: Action) {
    a.Waiting? && (a.w.BootOk? || a.w.BootTimeout? || a.w.LevelOk? || a.w.LevelTimeout?)
  }

  predicate EndsLevel(a: Action) { a.Waiting? && (a.w.LevelOk? || a.w.LevelTimeout?) }

  predicate InTime(a: Action) { a.Waiting? && (a.w.BootOk? || a.w.LevelOk?) }

  /** Wait j is the latest that came to an end. */
  ghost predicate Latest(c: Handshake.Codec, conf: Conf, run: seq<Action>, j: nat) {
    && Happens(c, conf, run, j) && EndsWait(run[j])
    && forall i: nat :: j < i < |run| && EndsWait(run[i]) ==> !Happens(c, conf, run, i)
  }

  lemma HappensEarlier(c: Handshake.Codec, conf: Conf, run: seq<Action>, n: nat)
    requires n <= |run|
    ensures forall i: nat :: i < n ==> (Happens(c, conf, run[..n], i) <==> Happens(c, conf, run, i))
  {
    hide After, Enabled;
    forall i: nat | i < n
      ensures run[..n][..i] == run[..i]
    {
    }
  }

  /** The state of the run is that of its front, or one step further. */
  lemma LastStep(c: Handshake.Codec, conf: Conf, run: seq<Action>)
    requires run != []
    ensures var s, a, t := After(c, conf, run[..|run| - 1]), run[|run| - 1], After(c, conf, run);
      if Happens(c, conf, run, |run| - 1) then Enabled(conf, s, a) && t == Apply(c, conf, s, a) else t == s
  {
    hide Enabled, Apply;
  }

  lemma HappensInFront(c: Handshake.Codec, conf: Conf, run: seq<Action>, i: nat)
    requires run != []
    ensures Happens(c, conf, run[..|run| - 1], i) <==> Happens(c, conf, run, i) && i < |run| - 1
    ensures Happens(c, conf, run, i) ==> i < |run|
  {
    HappensEarlier(c, conf, run, |run| - 1);
    hide After, Enabled;
  }

  lemma LatestOfFront(c: Handshake.Codec, conf: Conf, run: seq<Action>, j: nat)
    requires run != []
    ensures var last := |run| - 1;
      Latest(c, conf, run, j) <==>
        if Happens(c, conf, run, last) && EndsWait(run[last]) then j == last else Latest(c, conf, run[..last], j)
  {
    var last := |run| - 1;
    forall i: nat
      ensures Happens(c, conf, run[..last], i) <==> Happens(c, conf, run, i) && i < last
      ensures Happens(c, conf, run, i) ==> i <= last
    {
      HappensInFront(c, conf, run, i);
    }
    hide Happens, EndsWait;
  }

  lemma LatestInside(c: Handshake.Codec, conf: Conf, run: seq<Action>, j: nat)
    ensures Latest(c, conf, run, j) ==> j < |run|
  {
    hide After, Enabled;
  }

  // ---------------------------------------------------------------------------
  // The last wait decides
  // ---------------------------------------------------------------------------

  /** The wait for the first level is over. */
  predicate PastLevel(g: Manager) {
    match g.pc
    case NextLevel(i) => i > 0
    case LevelWait(i) => i > 0
    case LevelClear(_) => true
    case Done => g.priorities != []
    case Failed => g.priorities != []
    case _ => false
  }

  lemma WaitStepDecides(c: Handshake.Codec, conf: Conf, s: System, a: Action)
    requires Inv(conf, s) && Enabled(conf, s, a)
    ensures var g, h := s.manager, Apply(c, conf, s, a).manager;
      if EndsWait(a) then !Early(h.pc) && h.ok == InTime(a) && PastLevel(h) == EndsLevel(a)
      else Early(h.pc) == Early(g.pc) && h.ok == g.ok && PastLevel(h) == PastLevel(g)
  {
    hide Launched, Known, Gated, InOrder, Remembered, ListsPriorities, Handshake.Step, OnReady, OnReadyToStart, SetGate;
  }

  /** The waiting thread's flag says how the latest wait ended, and nothing else does. */
  lemma {:induction false} LastWaitDecides(c: Handshake.Codec, conf: Conf, run: seq<Action>)
    ensures var g := After(c, conf, run).manager;
      && (Early(g.pc) <==> forall j: nat :: !Latest(c, conf, run, j))
      && (forall j: nat :: Latest(c, conf, run, j) ==>
            (g.ok <==> InTime(run[j])) && (PastLevel(g) <==> EndsLevel(run[j])))
    decreases |run|
  {
    if run == [] {
      hide Enabled;
    } else {
      hide *;
      var front, a := run[..|run| - 1], run[|run| - 1];
      LastWaitDecides(c, conf, front);
      LastStep(c, conf, run);
      Invariant(c, conf, front);
      if Happens(c, conf, run, |front|) {
        WaitStepDecides(c, conf, After(c, conf, front), a);
      }
      forall j: nat
        ensures Latest(c, conf, run, j) <==>
          if Happens(c, conf, run, |front|) && EndsWait(a) then j == |front| else Latest(c, conf, front, j)
        ensures Latest(c, conf, front, j) ==> j < |front| && run[j] == front[j]
      {
        LatestOfFront(c, conf, run, j);
        LatestInside(c, conf, front, j);
      }
      assert EndsWait(a) && Happens(c, conf, run, |front|) ==> Latest(c, conf, run, |front|);
    }
  }

  // ---------------------------------------------------------------------------
  // The rest of the state, told from the actions
  // ---------------------------------------------------------------------------

  /** Some action of this kind took effect. */
  ghost predicate Occurred(c: Handshake.Codec, conf: Conf, run: seq<Action>, kind: Action -> bool) {
    exists i: nat :: Happens(c, conf, run, i) && kind(run[i])
  }

  lemma OccurredSnoc(c: Handshake.Codec, conf: Conf, run: seq<Action>, kind: Action -> bool)
    requires run != []
    ensures Occurred(c, conf, run, kind) <==>
      || Occurred(c, conf, run[..|run| - 1], kind)
      || (Happens(c, conf, run, |run| - 1) && kind(run[|run| - 1]))
  {
    forall i: nat
      ensures Happens(c, conf, run[..|run| - 1], i) <==> Happens(c, conf, run, i) && i < |run| - 1
      ensures Happens(c, conf, run, i) ==> i < |run|
    {
      HappensInFront(c, conf, run, i);
    }
    hide Happens;
  }

  predicate Finished(g: Manager) { g.pc.Done? || g.pc.Failed? }

  predicate Settled(g: Manager) { (g.pc.Done? ==> g.ok) && (g.pc.Failed? ==> !g.ok) }

  predicate TimesOut(a: Action) { EndsWait(a) && !InTime(a) }

  /** A report that arrives is counted and opens nothing. */
  lemma ReportTells(conf: Conf, s: System, m: string)
    requires Inv(conf, s) && m in s.modules.readying
    ensures OnReady(s.manager.session, m).active == s.manager.session.active + [m]
  {
    ReportKeepsInv(conf, s.manager, s.modules, m);
    hide Known, Planned, InOrder, Remembered, Peers;
  }

  lemma WaitTells(g: Manager, w: Wait)
    requires WaitEnabled(g, w)
    ensures var h := WaitStep(g, w);
      && (h.timedOut <==> g.timedOut || TimesOut(Waiting(w)))
      && (Finished(h) <==> Finished(g) || w.Finish?)
      && (h.pc.Done? <==> g.pc.Done? || (w.Finish? && g.ok))
      && h.session.active == g.session.active && (Settled(g) ==> Settled(h))
      && (forall n :: n in h.openings <==> n in g.openings || (w.LevelOk? && n in g.session.active))
  {
    hide ListsPriorities;
  }

  lemma StepTells(c: Handshake.Codec, conf: Conf, s: System, a: Action)
    requires Inv(conf, s) && Enabled(conf, s, a)
    ensures var g, t := s.manager, Apply(c, conf, s, a);
      && (Settled(g) ==> Settled(t.manager)) && (t.manager.timedOut <==> g.timedOut || TimesOut(a))
      && (Finished(t.manager) <==> Finished(g) || a == Waiting(Finish))
      && (t.manager.pc.Done? <==> g.pc.Done? || (a == Waiting(Finish) && g.ok))
      && (t.channelsReadyInFlight <==>
            (s.channelsReadyInFlight && a != ChannelsReadyDelivered) || (a == Waiting(Finish) && g.ok))
      && (forall n :: n in t.manager.session.active <==> n in g.session.active || a == ReadyDelivered(n))
      && (forall n :: n in t.manager.openings <==> n in g.openings || (a == Waiting(LevelOk) && n in g.session.active))
  {
    match a
    case ReadyDelivered(m) =>
      ReportTells(conf, s, m);
      hide Inv, OnReady;
    case Waiting(w) =>
      WaitTells(s.manager, w);
      hide Inv, WaitEnabled, WaitStep;
    case _ =>
      hide Inv, PhoneStep, SetGate;
  }

  /** What a run has done, told from its actions that took effect. */
  lemma {:induction false} RunTells(c: Handshake.Codec, conf: Conf, run: seq<Action>)
    ensures var s := After(c, conf, run);
      && Settled(s.manager) && (s.manager.timedOut <==> Occurred(c, conf, run, TimesOut))
      && (Finished(s.manager) <==> Occurred(c, conf, run, a => a == Waiting(Finish)))
      && (s.manager.pc.Done? <==> s.channelsReadyInFlight || Occurred(c, conf, run, a => a == ChannelsReadyDelivered))
      && (forall n :: n in s.manager.session.active <==> Occurred(c, conf, run, a => a == ReadyDelivered(n)))
    decreases |run|
  {
    if run == [] {
    } else {
      var front, a := run[..|run| - 1], run[|run| - 1];
      RunTells(c, conf, front);
      LastStep(c, conf, run);
      Invariant(c, conf, front);
      if Happens(c, conf, run, |front|) {
        StepTells(c, conf, After(c, conf, front), a);
      }
      OccurredSnoc(c, conf, run, TimesOut);
      OccurredSnoc(c, conf, run, a => a == Waiting(Finish));
      OccurredSnoc(c, conf, run, a => a == ChannelsReadyDelivered);
      forall n
        ensures Occurred(c, conf, run, a => a == ReadyDelivered(n)) <==>
          || Occurred(c, conf, front, a => a == ReadyDelivered(n))
          || (Happens(c, conf, run, |front|) && a == ReadyDelivered(n))
      {
        OccurredSnoc(c, conf, run, a => a == ReadyDelivered(n));
      }
      hide After, Occurred, Happens, Inv, Enabled, Apply, TimesOut, Finished, Settled;
    }
  }

  // ---------------------------------------------------------------------------
  // Main results
  // ---------------------------------------------------------------------------

  lemma Inhabited(xs: seq<int>)
    ensures xs == [] || exists x :: x in xs
  {
    if xs != [] {
      var x := xs[0];
      assert x in xs;
    }
  }

  lemma NoModulesNoLevels(conf: Conf, g: Manager)
    requires conf.Keys == {} && Known(conf, g.session) && ListsPriorities(g.priorities, g.session.announced)
    ensures g.priorities == []
  {
    assert forall a :: a in g.session.announced ==> a.name in conf.Keys;
    assert forall p :: p !in g.priorities;
    Inhabited(g.priorities);
  }

  /** With the thread's flag set, levels were waited for if and only if there are modules. */
  lemma LevelsWaitedFor(conf: Conf, g: Manager)
    requires Planned(g) && Known(conf, g.session) && g.pc.Done? && g.ok
    ensures PastLevel(g) <==> conf.Keys != {}
  {
    if m :| m in conf {
      LevelListed(conf, g, m);
    } else {
      NoModulesNoLevels(conf, g);
    }
  }

  /** The channels are reported ready, and the phone is answered, only after a latest wait that ended in time:
      the wait for a level if there are modules, the wait for the announcements if there are none. */
  lemma ReportedOnlyInTime(c: Handshake.Codec, conf: Conf, run: seq<Action>)
    ensures var s := After(c, conf, run);
      s.channelsReadyInFlight || s.phone.responded ==>
        exists j: nat :: Latest(c, conf, run, j) && InTime(run[j]) && (EndsLevel(run[j]) <==> conf.Keys != {})
  {
    var s := After(c, conf, run);
    LastWaitDecides(c, conf, run);
    Invariant(c, conf, run);
    hide After, Latest, Known, Gated, InOrder, Planned, Launched;
    if s.channelsReadyInFlight || s.phone.responded {
      LevelsWaitedFor(conf, s.manager);
    }
  }

  /** Once the thread has finished, it failed, shutting the session down, exactly if the latest wait timed out;
      otherwise the report that the channels are ready is on its way or was delivered. */
  lemma FinishedExactly(c: Handshake.Codec, conf: Conf, run: seq<Action>, j: nat)
    requires Latest(c, conf, run, j) && Occurred(c, conf, run, a => a == Waiting(Finish))
    ensures var s := After(c, conf, run);
      && (s.manager.pc.Failed? <==> TimesOut(run[j]))
      && (s.channelsReadyInFlight || Occurred(c, conf, run, a => a == ChannelsReadyDelivered) <==> InTime(run[j]))
  {
    RunTells(c, conf, run);
    LastWaitDecides(c, conf, run);
    hide After, Occurred, Happens, EndsWait, InTime;
  }

  /** A channel is opened exactly by a level wait that ends in time after the module's report. */
  ghost predicate Opens(c: Handshake.Codec, conf: Conf, run: seq<Action>, n: string, i: nat) {
    && Happens(c, conf, run, i) && run[i] == Waiting(LevelOk)
    && Occurred(c, conf, run[..i], a => a == ReadyDelivered(n))
  }

  lemma OpensInFront(c: Handshake.Codec, conf: Conf, run: seq<Action>, n: string, i: nat)
    requires run != []
    ensures Opens(c, conf, run[..|run| - 1], n, i) <==> Opens(c, conf, run, n, i) && i < |run| - 1
    ensures Opens(c, conf, run, n, i) ==> i < |run|
  {
    HappensInFront(c, conf, run, i);
    assert i < |run| ==> run[..|run| - 1][..i] == run[..i];
    hide After, Occurred, Happens;
  }

  lemma OpensNow(c: Handshake.Codec, conf: Conf, run: seq<Action>, n: string, i: nat)
    requires i < |run|
    ensures Opens(c, conf, run, n, i) <==>
      Happens(c, conf, run, i) && run[i] == Waiting(LevelOk) && n in After(c, conf, run[..i]).manager.session.active
  {
    RunTells(c, conf, run[..i]);
    hide After, Enabled, Occurred, Happens, TimesOut, Finished, Settled;
  }

  lemma OpensLast(c: Handshake.Codec, conf: Conf, run: seq<Action>, n: string)
    requires run != []
    ensures var g, h := After(c, conf, run[..|run| - 1]).manager, After(c, conf, run).manager;
      n in h.openings <==> n in g.openings || Opens(c, conf, run, n, |run| - 1)
  {
    hide *;
    var last: nat := |run| - 1;
    LastStep(c, conf, run);
    OpensNow(c, conf, run, n, last);
    if Happens(c, conf, run, last) {
      Invariant(c, conf, run[..last]);
      StepTells(c, conf, After(c, conf, run[..last]), run[last]);
    }
  }

  lemma {:induction false} OpenedExactly(c: Handshake.Codec, conf: Conf, run: seq<Action>, n: string)
    ensures n in After(c, conf, run).manager.openings <==> exists i: nat :: Opens(c, conf, run, n, i)
    decreases |run|
  {
    if run == [] {
      hide Enabled, Occurred;
    } else {
      var front := run[..|run| - 1];
      OpenedExactly(c, conf, front, n);
      OpensLast(c, conf, run, n);
      forall i: nat
        ensures Opens(c, conf, front, n, i) <==> Opens(c, conf, run, n, i) && i < |front|
        ensures Opens(c, conf, run, n, i) ==> i <= |front|
      {
        OpensInFront(c, conf, run, n, i);
      }
      hide After, Opens;
      assert Opens(c, conf, run, n, |front|) ==> n in After(c, conf, run).manager.openings;
    }
  }

  /** How many level starts were published. */
  ghost function StartsPublished(c: Handshake.Codec, conf: Conf, run: seq<Action>): nat {
    if run == [] then 0
    else
      StartsPublished(c, conf, run[..|run| - 1]) +
      if Happens(c, conf, run, |run| - 1) && run[|run| - 1] == Waiting(PublishStart) then 1 else 0
  }

  predicate IsBootOk(a: Action) { a.Waiting? && a.w.BootOk? }

  lemma StartTells(c: Handshake.Codec, conf: Conf, s: System, a: Action)
    requires Inv(conf, s) && Enabled(conf, s, a)
    ensures var g, h := s.manager, Apply(c, conf, s, a).manager;
      && Begun(h) == Begun(g) + (if a == Waiting(PublishStart) then 1 else 0)
      && h.priorities == (if IsBootOk(a) then a.w.priorities else g.priorities)
      && (if IsBootOk(a) then Early(g.pc) && !Early(h.pc) else Early(h.pc) ==> Early(g.pc))
      && (Early(g.pc) ==> Begun(g) == 0)
      && h.starts == g.starts + (if a == Waiting(PublishStart) then {h.priorities[Begun(g)]} else {})
  {
    hide Launched, Known, Gated, InOrder, Remembered, ListsPriorities, Handshake.Step, OnReady, OnReadyToStart, SetGate;
  }

  /** The order of the levels is the one that the boot wait found. */
  lemma {:induction false} OrderExactly(c: Handshake.Codec, conf: Conf, run: seq<Action>)
    ensures var g := After(c, conf, run).manager;
      forall i: nat :: Happens(c, conf, run, i) && IsBootOk(run[i]) ==>
        !Early(g.pc) && g.priorities == run[i].w.priorities
    decreases |run|
  {
    if run == [] {
      hide Enabled;
    } else {
      var front, a := run[..|run| - 1], run[|run| - 1];
      OrderExactly(c, conf, front);
      LastStep(c, conf, run);
      Invariant(c, conf, front);
      hide After, Happens, Inv, Enabled, Apply, Early, IsBootOk;
      if Happens(c, conf, run, |front|) {
        StartTells(c, conf, After(c, conf, front), a);
      }
      forall i: nat | Happens(c, conf, run, i)
        ensures i == |front| || (i < |front| && Happens(c, conf, front, i) && front[i] == run[i])
      {
        HappensInFront(c, conf, run, i);
      }
    }
  }

  function FirstLevels(ps: seq<int>, n: nat): set<int>
    requires n <= |ps|
  {
    set k | 0 <= k < n :: ps[k]
  }

  lemma NextLevelStarted(ps: seq<int>, n: nat)
    requires n < |ps|
    ensures FirstLevels(ps, n + 1) == FirstLevels(ps, n) + {ps[n]}
  {
  }

  /** The levels are started one by one in that order. */
  lemma {:induction false} StartsExactly(c: Handshake.Codec, conf: Conf, run: seq<Action>)
    ensures var g, n := After(c, conf, run).manager, StartsPublished(c, conf, run);
      n == Begun(g) <= |g.priorities| && g.starts == FirstLevels(g.priorities, n)
    decreases |run|
  {
    if run == [] {
      hide Enabled;
    } else {
      var front, a := run[..|run| - 1], run[|run| - 1];
      StartsExactly(c, conf, front);
      LastStep(c, conf, run);
      Invariant(c, conf, front);
      Invariant(c, conf, run);
      var s, t := After(c, conf, front), After(c, conf, run);
      hide After, Happens, Enabled, Apply;
      if Happens(c, conf, run, |front|) {
        StartTells(c, conf, s, a);
        LevelsStarted(s.manager, t.manager, a);
      }
      hide Inv, FirstLevels;
    }
  }

  lemma LevelsStarted(g: Manager, h: Manager, a: Action)
    requires Begun(h) == Begun(g) + (if a == Waiting(PublishStart) then 1 else 0) <= |h.priorities|
    requires Begun(g) <= |g.priorities| && g.starts == FirstLevels(g.priorities, Begun(g))
    requires h.priorities == g.priorities || Begun(g) == 0
    requires h.starts == g.starts + (if a == Waiting(PublishStart) then {h.priorities[Begun(g)]} else {})
    ensures h.starts == FirstLevels(h.priorities, Begun(h))
  {
    if a == Waiting(PublishStart) {
      NextLevelStarted(h.priorities, Begun(g));
    }
    hide Begun;
  }

  // ---------------------------------------------------------------------------
  // A wait times out only if a module is missing
  // ---------------------------------------------------------------------------

  /** The announcements set their flag when complete; so does a level that is ready, while nothing timed out. */
  ghost predicate Prompt(conf: Conf, g: Manager) {
    && (!g.pc.NotStarted? && conf.Keys <= g.session.readyToStart ==> g.session.allReadyToStart)
    && (!g.timedOut && g.pc.LevelWait? && g.pc.i < |g.priorities|
        && LevelIn(conf, g.priorities[g.pc.i], g.session.ready) ==>
          g.session.allReady)
  }

  /** A level that is started has modules, none of which has reported before. */
  lemma StartFindsNobody(conf: Conf, s: System)
    requires Inv(conf, s) && s.manager.pc.NextLevel? && s.manager.pc.i < |s.manager.priorities|
    ensures !LevelIn(conf, s.manager.priorities[s.manager.pc.i], s.manager.session.ready)
  {
    var g := s.manager;
    var p := g.priorities[g.pc.i];
    assert p in g.priorities;
    var a :| a in g.session.announced && a.priority == p;
    assert a.name in conf && conf[a.name].priority == p;
    hide InOrder, Remembered;
  }

  lemma PromptReport(conf: Conf, s: System, m: string)
    requires Inv(conf, s) && Prompt(conf, s.manager) && m in s.modules.readying
    ensures Prompt(conf, s.manager.(session := OnReady(s.manager.session, m)))
  {
    var g := s.manager;
    ReportKeepsInv(conf, g, s.modules, m);
    assert m in conf;
    if !g.timedOut && g.pc.LevelWait? && g.pc.i < |g.priorities| {
      PeersAreLevel(conf, g.session, m);
    }
    hide Peers, Gated, InOrder, Remembered;
  }

  lemma PromptWait(conf: Conf, s: System, w: Wait)
    requires Inv(conf, s) && Prompt(conf, s.manager) && WaitEnabled(s.manager, w)
    ensures Prompt(conf, WaitStep(s.manager, w))
  {
    if w.PublishStart? {
      StartFindsNobody(conf, s);
    }
    hide Inv, LevelIn, ListsPriorities;
  }

  lemma PromptStep(c: Handshake.Codec, conf: Conf, s: System, a: Action)
    requires Inv(conf, s) && Prompt(conf, s.manager) && Enabled(conf, s, a)
    ensures Prompt(conf, Apply(c, conf, s, a).manager)
  {
    match a
    case ReadyDelivered(m) =>
      PromptReport(conf, s, m);
      hide Inv, OnReady, Prompt;
    case Waiting(w) =>
      PromptWait(conf, s, w);
      hide Inv, Prompt, WaitStep, WaitEnabled;
    case _ =>
      hide Inv, PhoneStep, SetGate, LevelIn;
  }

  lemma {:induction false} AlwaysPrompt(c: Handshake.Codec, conf: Conf, run: seq<Action>)
    ensures Prompt(conf, After(c, conf, run).manager)
    decreases |run|
  {
    if run == [] {
      hide LevelIn;
    } else {
      AlwaysPrompt(c, conf, run[..|run| - 1]);
      Invariant(c, conf, run[..|run| - 1]);
      LastStep(c, conf, run);
      hide *;
      if Happens(c, conf, run, |run| - 1) {
        PromptStep(c, conf, After(c, conf, run[..|run| - 1]), run[|run| - 1]);
      }
    }
  }

  /** As long as nothing has timed out, a wait ends in time if all the modules it waits for have come, and times
      out if one of them has not. */
  lemma WaitsEndExactly(c: Handshake.Codec, conf: Conf, run: seq<Action>, i: nat)
    requires Happens(c, conf, run, i) && EndsWait(run[i]) && !Occurred(c, conf, run[..i], TimesOut)
    ensures var g := After(c, conf, run[..i]).manager;
      InTime(run[i]) <==>
        if EndsLevel(run[i]) then
          g.pc.LevelWait? && g.pc.i < |g.priorities| && LevelIn(conf, g.priorities[g.pc.i], g.session.ready)
        else
          conf.Keys <= g.session.readyToStart
  {
    Invariant(c, conf, run[..i]);
    AlwaysPrompt(c, conf, run[..i]);
    RunTells(c, conf, run[..i]);
    hide After, Occurred, LevelIn, Remembered;
  }
}