/** The readiness gate of a channel module. */
module ChannelModule {

  /** What is fixed for a module: its boot priority, whether it has a configuration schema, and whether
      the discovery response it was started with describes its channel. */
  datatype Settings = Settings(priority: int, hasSchema: bool, hasChannel: bool)

  datatype Gate = Gate(initDone: bool, configLoaded: bool, readyPublished: bool)

  const CLOSED: Gate := Gate(false, false, false)

  /** The gate after an attempt to announce readiness; resource says whether what the module needs is open. */
  function TryPublish(c: Settings, g: Gate, resource: bool): Gate {
    if g.readyPublished || !c.hasChannel then g
    else if g.initDone && (!c.hasSchema || g.configLoaded) && resource then g.(readyPublished := true)
    else g
  }

  function OnStart(c: Settings, g: Gate, priority: int, resource: bool): Gate {
    if priority != c.priority then g else TryPublish(c, g.(initDone := true), resource)
  }

  function OnConfig(c: Settings, g: Gate, resource: bool): Gate {
    TryPublish(c, g.(configLoaded := true), resource)
  }

  /** A module process; announcements counts its channel_manager.module_ready messages. */
  class BaseChannelModule {
    const settings: Settings
    var initDone: bool
    var configLoaded: bool
    var readyPublished: bool
    var announcements: nat

    ghost function View(): Gate
      reads this
    {
      Gate(initDone, configLoaded, readyPublished)
    }

    /** Readiness is announced once, and the flag remembers it. */
    ghost predicate Valid()
      reads this
    {
      announcements == if readyPublished then 1 else 0
    }

    constructor (settings: Settings)
      ensures Valid() && View() == CLOSED && this.settings == settings
    {
      this.settings := settings;
      initDone, configLoaded, readyPublished, announcements := false, false, false, 0;
    }

    method TryPublishReady(resource: bool)
      requires Valid()
      modifies this
      ensures Valid() && View() == TryPublish(settings, old(View()), resource)
    {
      if readyPublished {
        return;
      }
      if !settings.hasChannel {
        return;
      }
      var configOk := !settings.hasSchema || configLoaded;
      if !(initDone && configOk && resource) {
        return;
      }
      readyPublished := true;
      announcements := announcements + 1;
    }

    method OnConfigLoaded(resource: bool)
      requires Valid()
      modifies this
      ensures Valid() && View() == OnConfig(settings, old(View()), resource)
    {
      configLoaded := true;
      TryPublishReady(resource);
    }

    method OnModuleStart(priority: int, resource: bool)
      requires Valid()
      modifies this
      ensures Valid() && View() == OnStart(settings, old(View()), priority, resource)
    {
      if priority != settings.priority {
        return;
      }
      initDone := true;
      TryPublishReady(resource);
    }
  }

  datatype Event = Started(priority: int, resource: bool) | Configured(resource: bool) | Retried(resource: bool)

  function Step(c: Settings, g: Gate, e: Event): Gate {
    match e
    case Started(priority, resource) => OnStart(c, g, priority, resource)
    case Configured(resource) => OnConfig(c, g, resource)
    case Retried(resource) => TryPublish(c, g, resource)
  }

  function After(c: Settings, es: seq<Event>): Gate {
    if es == [] then CLOSED else Step(c, After(c, es[..|es| - 1]), es[|es| - 1])
  }

  /** All conditions for readiness hold in some state of the run, at a moment the module looks at them. */
  ghost predicate Qualifies(c: Settings, es: seq<Event>, n: nat)
    requires n < |es|
  {
    && c.hasChannel && es[n].resource
    && (es[n].Started? ==> es[n].priority == c.priority)
    && (exists i :: 0 <= i <= n && es[i].Started? && es[i].priority == c.priority)
    && (c.hasSchema ==> exists i :: 0 <= i <= n && es[i].Configured?)
  }

  lemma {:induction false} GateRemembers(c: Settings, es: seq<Event>)
    ensures After(c, es).initDone <==> exists i :: 0 <= i < |es| && es[i].Started? && es[i].priority == c.priority
    ensures After(c, es).configLoaded <==> exists i :: 0 <= i < |es| && es[i].Configured?
    decreases |es|
  {
    if es == [] {
    } else {
      var front, last := es[..|es| - 1], es[|es| - 1];
      GateRemembers(c, front);
      assert last == es[|es| - 1];
      assert forall i :: 0 <= i < |front| ==> front[i] == es[i];
    }
  }

  /** A module has announced itself exactly when, at some event, it had been started at its own priority,
      was configured if it has a schema, knew its channel and had its resource. */
  lemma {:induction false} ReadyExactlyWhenQualified(c: Settings, es: seq<Event>)
    ensures After(c, es).readyPublished <==> exists n :: 0 <= n < |es| && Qualifies(c, es, n)
    decreases |es|
  {
    if es == [] {
    } else {
      var m := |es| - 1;
      var front := es[..m];
      ReadyExactlyWhenQualified(c, front);
      GateRemembers(c, front);
      forall n | 0 <= n < m
        ensures Qualifies(c, front, n) <==> Qualifies(c, es, n)
      {
        assert forall i :: 0 <= i <= n ==> front[i] == es[i];
      }
      QualifiesNow(c, es);
      assert (exists n :: 0 <= n < |es| && Qualifies(c, es, n)) <==>
             (exists n :: 0 <= n < m && Qualifies(c, es, n)) || Qualifies(c, es, m);
      assert (exists n :: 0 <= n < m && Qualifies(c, front, n)) <==> (exists n :: 0 <= n < m && Qualifies(c, es, n));
    }
  }

  lemma QualifiesNow(c: Settings, es: seq<Event>)
    requires es != []
    ensures var g, e := After(c, es[..|es| - 1]), es[|es| - 1];
      Qualifies(c, es, |es| - 1) ==> Step(c, g, e).readyPublished
    ensures var g, e := After(c, es[..|es| - 1]), es[|es| - 1];
      Step(c, g, e).readyPublished ==> g.readyPublished || Qualifies(c, es, |es| - 1)
  {
    GateRemembers(c, es);
  }
}
