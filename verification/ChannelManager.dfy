/** The bookkeeping of one session of the channel manager. */
module ChannelManager {
  import opened Bytes

  datatype Announced = Announced(name: string, priority: int)

  datatype Session = Session(
    expected: set<string>, readyToStart: set<string>, ready: set<string>,
    allReadyToStart: bool, allReady: bool,
    announced: seq<Announced>, active: seq<string>)

  const FRESH: Session := Session({}, {}, {}, false, false, [], [])

  function Start(s: Session, launched: set<string>): Session {
    s.(expected := launched, ready := {}, allReady := launched == {}, allReadyToStart := launched == {})
  }

  /** The priority under which a name was announced first. */
  function PriorityOf(announced: seq<Announced>, name: string): Option<int> {
    if announced == [] then None
    else if announced[0].name == name then Some(announced[0].priority)
    else PriorityOf(announced[1..], name)
  }

  function NamesAt(announced: seq<Announced>, priority: int): set<string> {
    set a | a in announced && a.priority == priority :: a.name
  }

  function OnReadyToStart(s: Session, name: string, priority: int): Session {
    if name !in s.expected then s
    else
      s.(readyToStart := s.readyToStart + {name},
         announced := s.announced + [Announced(name, priority)],
         allReadyToStart := s.allReadyToStart || s.expected <= s.readyToStart + {name})
  }

  /** The modules that a readiness report has to wait for: those announced at the same priority. */
  function Peers(announced: seq<Announced>, name: string): set<string> {
    match PriorityOf(announced, name)
    case Some(p) => NamesAt(announced, p)
    case None => {}
  }

  function OnReady(s: Session, name: string): Session {
    if name !in s.expected then s
    else
      s.(ready := s.ready + {name},
         active := s.active + [name],
         allReady := s.allReady || Peers(s.announced, name) <= s.ready + {name})
  }

  /** xs lists exactly the priorities announced, each once; the order is that of a hash set, so any. */
  ghost predicate ListsPriorities(xs: seq<int>, announced: seq<Announced>) {
    Distinct(xs) && forall p :: p in xs <==> exists a :: a in announced && a.priority == p
  }

  /** The session object; openings records its aa.channel.open messages. */
  class ChannelManagerSession {
    var expected: set<string>
    var readyToStart: set<string>
    var ready: set<string>
    var allReadyToStart: bool
    var allReady: bool
    var announced: seq<Announced>
    var active: seq<string>
    var priorities: seq<int>
    var openings: seq<string>

    ghost function View(): Session
      reads this
    {
      Session(expected, readyToStart, ready, allReadyToStart, allReady, announced, active)
    }

    constructor ()
      ensures View() == FRESH && priorities == [] && openings == []
    {
      expected, readyToStart, ready := {}, {}, {};
      allReadyToStart, allReady := false, false;
      announced, active, priorities, openings := [], [], [], [];
    }

    method StartChildren(launched: set<string>)
      modifies `expected, `ready, `allReady, `allReadyToStart
      ensures View() == Start(old(View()), launched)
    {
      expected := launched;
      ready := {};
      allReady := false;
      allReadyToStart := false;
      if expected == {} {
        allReady := true;
        allReadyToStart := true;
      }
    }

    method OnModuleReadyToStart(name: string, priority: int)
      modifies `readyToStart, `announced, `allReadyToStart
      ensures View() == OnReadyToStart(old(View()), name, priority)
    {
      if name !in expected {
        return;
      }
      readyToStart := readyToStart + {name};
      announced := announced + [Announced(name, priority)];
      if expected - readyToStart == {} {
        allReadyToStart := true;
      }
    }

    /** Finds the first announcement of a name. */
    method FindPriority(name: string) returns (priority: Option<int>)
      ensures priority == PriorityOf(announced, name)
    {
      var i := 0;
      while i < |announced|
        invariant 0 <= i <= |announced|
        invariant PriorityOf(announced, name) == PriorityOf(announced[i..], name)
      {
        if announced[i].name == name {
          return Some(announced[i].priority);
        }
        assert announced[i..][1..] == announced[i + 1..];
        i := i + 1;
      }
      return None;
    }

    method OnModuleReady(name: string)
      modifies `ready, `active, `allReady
      ensures View() == OnReady(old(View()), name)
    {
      if name !in expected {
        return;
      }
      ready := ready + {name};
      active := active + [name];
      var target := FindPriority(name);
      var samePriority := if target.Some? then NamesAt(announced, target.value) else {};
      if samePriority - ready == {} {
        allReady := true;
      }
    }

    /** The outcome of the wait for the announcements; signalled is what the event wait returned. */
    method WaitAllReadyToStart(signalled: bool) returns (ok: bool)
      modifies `priorities
      ensures ok == signalled
      ensures ok ==> ListsPriorities(priorities, announced)
      ensures !ok ==> priorities == old(priorities)
    {
      if !signalled {
        return false;
      }
      var found: seq<int> := [];
      for i := 0 to |announced|
        invariant Distinct(found)
        invariant forall p :: p in found <==> exists k :: 0 <= k < i && announced[k].priority == p
      {
        if announced[i].priority !in found {
          found := found + [announced[i].priority];
        }
      }
      priorities := found;
      return true;
    }

    method WaitAllReady(signalled: bool) returns (ok: bool)
      modifies `openings
      ensures ok == signalled
      ensures openings == old(openings) + (if ok then active else [])
    {
      if !signalled {
        return false;
      }
      for i := 0 to |active|
        invariant openings == old(openings) + active[..i]
      {
        openings := openings + [active[i]];
      }
      return true;
    }
  }
}
