/** A session of the channel manager over any messages: unexpected names, repetitions, any order. */
module ManagerRuns {
  import opened Bytes
  import opened ChannelManager

  datatype Message = ToStart(name: string, priority: int) | Ready(name: string)

  function Receive(s: Session, m: Message): Session {
    match m
    case ToStart(name, priority) => OnReadyToStart(s, name, priority)
    case Ready(name) => OnReady(s, name)
  }

  function After(launched: set<string>, ms: seq<Message>): Session {
    if ms == [] then Start(FRESH, launched) else Receive(After(launched, ms[..|ms| - 1]), ms[|ms| - 1])
  }

  /** The announcements of launched modules, in the order of arrival. */
  function Announcements(launched: set<string>, ms: seq<Message>): seq<Announced> {
    if ms == [] then []
    else
      var last := ms[|ms| - 1];
      Announcements(launched, ms[..|ms| - 1]) +
      (if last.ToStart? && last.name in launched then [Announced(last.name, last.priority)] else [])
  }

  /** The launched modules that reported readiness, in the order of arrival. */
  function Reports(launched: set<string>, ms: seq<Message>): seq<string> {
    if ms == [] then []
    else
      var last := ms[|ms| - 1];
      Reports(launched, ms[..|ms| - 1]) + (if last.Ready? && last.name in launched then [last.name] else [])
  }

  /** The announcement at j is the first that names this module. */
  ghost predicate IsFirst(announced: seq<Announced>, name: string, j: nat) {
    && j < |announced| && announced[j].name == name
    && forall n :: 0 <= n < j ==> announced[n].name != name
  }

  /** Every module announced at this priority is among those ready. */
  ghost predicate LevelReady(announced: seq<Announced>, priority: int, ready: seq<string>) {
    forall k :: 0 <= k < |announced| && announced[k].priority == priority ==> announced[k].name in ready
  }

  /** Message i is a report that finds all modules ready that were announced so far at its module's priority,
      which is that of its first announcement. */
  ghost predicate Completes(launched: set<string>, ms: seq<Message>, i: nat)
    requires i < |ms|
  {
    var announced, ready := Announcements(launched, ms[..i]), Reports(launched, ms[..i + 1]);
    && ms[i].Ready? && ms[i].name in launched
    && forall j: nat :: IsFirst(announced, ms[i].name, j) ==> LevelReady(announced, announced[j].priority, ready)
  }

  lemma {:induction false} PriorityIsFirst(announced: seq<Announced>, name: string)
    ensures PriorityOf(announced, name) == None <==> forall j: nat :: !IsFirst(announced, name, j)
    ensures forall j: nat :: IsFirst(announced, name, j) ==> PriorityOf(announced, name) == Some(announced[j].priority)
  {
    if announced == [] {
    } else {
      var rest := announced[1..];
      PriorityIsFirst(rest, name);
      if announced[0].name == name {
        assert IsFirst(announced, name, 0);
      } else {
        forall j: nat | IsFirst(announced, name, j)
          ensures 0 < j && IsFirst(rest, name, j - 1) && rest[j - 1] == announced[j]
        {
        }
        forall j: nat | IsFirst(rest, name, j)
          ensures IsFirst(announced, name, j + 1)
        {
        }
      }
    }
  }

  /** The test that a report makes, on the announcements so far and the reports including it. */
  lemma PeersReady(announced: seq<Announced>, name: string, ready: seq<string>)
    ensures Peers(announced, name) <= (set n | n in ready) <==>
      forall j: nat :: IsFirst(announced, name, j) ==> LevelReady(announced, announced[j].priority, ready)
  {
    PriorityIsFirst(announced, name);
    hide PriorityOf, IsFirst;
    forall p
      ensures NamesAt(announced, p) <= (set n | n in ready) <==> LevelReady(announced, p, ready)
    {
      forall k | 0 <= k < |announced| && announced[k].priority == p
        ensures announced[k].name in NamesAt(announced, p)
      {
      }
    }
  }

  lemma CompletesEarlier(launched: set<string>, ms: seq<Message>, n: nat, i: nat)
    requires i < n <= |ms|
    ensures Completes(launched, ms[..n], i) <==> Completes(launched, ms, i)
  {
    assert ms[..n][..i] == ms[..i] && ms[..n][..i + 1] == ms[..i + 1];
    hide Announcements, Reports;
  }

  lemma ReportCompletes(launched: set<string>, ms: seq<Message>)
    requires ms != [] && ms[|ms| - 1].Ready? && ms[|ms| - 1].name in launched
    ensures var announced, ready := Announcements(launched, ms[..|ms| - 1]), Reports(launched, ms);
      Completes(launched, ms, |ms| - 1) <==> Peers(announced, ms[|ms| - 1].name) <= set n | n in ready
  {
    assert ms[..|ms|] == ms;
    PeersReady(Announcements(launched, ms[..|ms| - 1]), ms[|ms| - 1].name, Reports(launched, ms));
    hide Announcements, Reports, Peers;
  }

  /** What a session has counted is what was announced and reported. */
  lemma {:induction false} CountsExactly(launched: set<string>, ms: seq<Message>)
    ensures var s := After(launched, ms);
      && s.expected == launched && s.announced == Announcements(launched, ms) && s.active == Reports(launched, ms)
      && s.readyToStart == (set a | a in s.announced :: a.name) && s.ready == (set n | n in s.active)
      && (s.allReadyToStart <==> launched <= s.readyToStart)
    decreases |ms|
  {
    hide Peers;
    if ms == [] {
    } else {
      var s, last := After(launched, ms[..|ms| - 1]), ms[|ms| - 1];
      CountsExactly(launched, ms[..|ms| - 1]);
      NewestNames(s.announced, s.active, last);
    }
  }

  /** What a message does to the flag of the current level. */
  lemma FlagStep(launched: set<string>, ms: seq<Message>)
    requires ms != []
    ensures After(launched, ms).allReady <==>
      After(launched, ms[..|ms| - 1]).allReady || Completes(launched, ms, |ms| - 1)
  {
    var front, last := ms[..|ms| - 1], ms[|ms| - 1];
    CountsExactly(launched, front);
    CountsExactly(launched, ms);
    if last.Ready? && last.name in launched {
      ReportCompletes(launched, ms);
      hide Announcements, Reports, Completes, Peers;
    } else {
      NoReport(launched, ms);
      hide Announcements, Reports, Completes, Peers;
    }
  }

  /** Until the waiting thread clears it, the flag of a level is set exactly if some report completed a level. */
  lemma {:induction false} FlagExactly(launched: set<string>, ms: seq<Message>)
    ensures After(launched, ms).allReady <==>
      launched == {} || exists i :: 0 <= i < |ms| && Completes(launched, ms, i)
    decreases |ms|
  {
    hide Completes;
    if ms == [] {
    } else {
      var front := ms[..|ms| - 1];
      hide After, Announcements, Reports;
      FlagExactly(launched, front);
      FlagStep(launched, ms);
      forall i | 0 <= i < |front|
        ensures Completes(launched, front, i) <==> Completes(launched, ms, i)
      {
        CompletesEarlier(launched, ms, |front|, i);
      }
    }
  }

  lemma NoReport(launched: set<string>, ms: seq<Message>)
    requires ms != [] && !(ms[|ms| - 1].Ready? && ms[|ms| - 1].name in launched)
    ensures !Completes(launched, ms, |ms| - 1)
  {
  }

  lemma NewestNames(announced: seq<Announced>, active: seq<string>, m: Message)
    ensures m.ToStart? ==>
      (set a | a in announced + [Announced(m.name, m.priority)] :: a.name) ==
      (set a | a in announced :: a.name) + {m.name}
    ensures (set n | n in active + [m.name]) == (set n | n in active) + {m.name}
  {
    if m.ToStart? {
      var all := announced + [Announced(m.name, m.priority)];
      assert all[|announced|] == Announced(m.name, m.priority);
      assert forall a :: a in all <==> a in announced || a == Announced(m.name, m.priority);
    }
    assert (active + [m.name])[|active|] == m.name;
  }
}
