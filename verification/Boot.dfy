/** The priority boot of the main process. */
module Boot {
  import opened Bytes

  /** What one poll of the socket yields before the deadline: nothing, a message that cannot be used, or a
      message that names a module and a priority. */
  datatype Poll = Silence | Garbage | Report(name: string, priority: int)

  predicate Names(p: Poll) { p.Report? && p.name != "" }

  /** The names that replied. */
  function Repliers(polls: seq<Poll>): set<string> {
    set p | p in polls && Names(p) :: p.name
  }

  /** The priority in the first reply of a module. */
  function FirstReply(polls: seq<Poll>, name: string): Option<int> {
    if polls == [] then None
    else if Names(polls[0]) && polls[0].name == name then Some(polls[0].priority)
    else FirstReply(polls[1..], name)
  }

  type Levels = map<int, seq<string>>

  function At(levels: Levels, priority: int): seq<string> {
    if priority in levels then levels[priority] else []
  }

  /** Every module that replied stands at the priority of its first reply, every discovered one that did not
      stands at priority 1, and no level lists a name twice. */
  ghost predicate Planned(names: seq<string>, polls: seq<Poll>, levels: Levels) {
    && (forall p, n :: n in At(levels, p) <==>
          match FirstReply(polls, n) case Some(q) => p == q case None => p == 1 && n in names)
    && forall p :: Distinct(At(levels, p))
  }

  /** The replies are collected until the polls end at the deadline or as many names as there are modules have
      replied. */
  ghost predicate WindowEnds(names: seq<string>, polls: seq<Poll>, used: nat) {
    && used <= |polls|
    && (used < |polls| ==> |Repliers(polls[..used])| >= |names|)
    && forall k :: 0 <= k < used ==> |Repliers(polls[..k])| < |names|
  }

  lemma {:induction false} FirstReplySnoc(polls: seq<Poll>, p: Poll, name: string)
    ensures FirstReply(polls + [p], name) ==
            if FirstReply(polls, name).Some? then FirstReply(polls, name)
            else if Names(p) && p.name == name then Some(p.priority) else None
  {
    if polls == [] {
      assert ([p])[1..] == [];
    } else {
      FirstReplySnoc(polls[1..], p, name);
      assert (polls + [p])[1..] == polls[1..] + [p];
    }
  }

  lemma {:induction false} RepliedIffFirst(polls: seq<Poll>, name: string)
    ensures FirstReply(polls, name).Some? <==> name in Repliers(polls)
  {
    if polls == [] {
    } else {
      RepliedIffFirst(polls[1..], name);
      assert polls == [polls[0]] + polls[1..];
    }
  }

  lemma RepliersSnoc(polls: seq<Poll>, p: Poll)
    ensures Repliers(polls + [p]) == Repliers(polls) + if Names(p) then {p.name} else {}
  {
    assert (polls + [p])[|polls|] == p;
  }

  /** The plan after the replies alone, before the fallback. */
  ghost predicate Collected(polls: seq<Poll>, levels: Levels) {
    && (forall p, n :: n in At(levels, p) <==> FirstReply(polls, n) == Some(p))
    && forall p :: Distinct(At(levels, p))
  }

  function Append(levels: Levels, priority: int, name: string): Levels {
    levels[priority := At(levels, priority) + [name]]
  }

  lemma AppendAt(levels: Levels, priority: int, name: string)
    ensures var after := Append(levels, priority, name);
      && (forall p, n :: n in At(after, p) <==> n in At(levels, p) || (p == priority && n == name))
      && (name !in At(levels, priority) && (forall p :: Distinct(At(levels, p))) ==> forall p :: Distinct(At(after, p)))
  {
    var xs := At(levels, priority);
    DistinctSnoc(xs, name);
    var after := Append(levels, priority, name);
    assert At(after, priority) == xs + [name];
    hide Distinct;
    if name !in xs && forall p :: Distinct(At(levels, p)) {
      forall p
        ensures Distinct(At(after, p))
      {
        assert Distinct(At(levels, p));
        assert p != priority ==> At(after, p) == At(levels, p);
      }
    }
  }

  lemma DistinctSnoc(xs: seq<string>, x: string)
    ensures Distinct(xs) && x !in xs ==> Distinct(xs + [x])
    ensures forall y :: y in xs + [x] <==> y in xs || y == x
  {
    assert (xs + [x])[|xs|] == x;
  }

  lemma CollectedSnoc(polls: seq<Poll>, p: Poll, levels: Levels)
    requires Collected(polls, levels)
    ensures Collected(polls + [p],
                      if Names(p) && p.name !in Repliers(polls) then Append(levels, p.priority, p.name) else levels)
  {
    forall n
      ensures FirstReply(polls + [p], n) ==
              if FirstReply(polls, n).Some? then FirstReply(polls, n)
              else if Names(p) && p.name == n then Some(p.priority) else None
    {
      FirstReplySnoc(polls, p, n);
    }
    if Names(p) {
      RepliedIffFirst(polls, p.name);
      AppendAt(levels, p.priority, p.name);
    }
    hide FirstReply, Append, At, Distinct;
  }

  /** Collects the replies to system.readytostart. Module names are directory names, so each comes once. */
  method CollectModuleReady(names: seq<string>, polls: seq<Poll>) returns (levels: Levels, used: nat)
    requires Distinct(names)
    ensures WindowEnds(names, polls, used)
    ensures Planned(names, polls[..used], levels)
  {
    hide Collected, FirstReply, Repliers;
    levels := map[];
    var replied: set<string> := {};
    var ready, i := 0, 0;
    CollectedNothing();
    while i < |polls| && ready < |names|
      invariant 0 <= i <= |polls|
      invariant replied == Repliers(polls[..i]) && ready == |replied|
      invariant Collected(polls[..i], levels)
      invariant forall k :: 0 <= k < i ==> |Repliers(polls[..k])| < |names|
    {
      var poll := polls[i];
      CollectedSnoc(polls[..i], poll, levels);
      RepliersSnoc(polls[..i], poll);
      assert polls[..i] + [poll] == polls[..i + 1];
      i := i + 1;
      if Names(poll) && poll.name !in replied {
        ready := ready + 1;
        levels := Append(levels, poll.priority, poll.name);
        replied := replied + {poll.name};
      }
    }
    used := i;
    levels := Fallback(names, polls[..used], replied, levels);
  }

  lemma CollectedNothing()
    ensures Collected([], map[]) && Repliers([]) == {}
  {
  }

  lemma PlannedSnoc(names: seq<string>, name: string, polls: seq<Poll>, levels: Levels)
    requires Planned(names, polls, levels) && name !in names
    ensures Planned(names + [name], polls, if FirstReply(polls, name).Some? then levels else Append(levels, 1, name))
  {
    AppendAt(levels, 1, name);
    DistinctSnoc(names, name);
    hide Append, At, Distinct, FirstReply;
  }

  lemma PlannedStarts(polls: seq<Poll>, levels: Levels)
    requires Collected(polls, levels)
    ensures Planned([], polls, levels)
  {
    hide FirstReply, At, Distinct;
  }

  lemma NextName(names: seq<string>, i: nat)
    requires Distinct(names) && i < |names|
    ensures names[i] !in names[..i] && names[..i] + [names[i]] == names[..i + 1]
  {
  }

  /** Modules that never replied get priority 1. */
  method Fallback(names: seq<string>, ghost polls: seq<Poll>, replied: set<string>, before: Levels)
    returns (levels: Levels)
    requires Distinct(names) && Collected(polls, before) && replied == Repliers(polls)
    ensures Planned(names, polls, levels)
  {
    levels := before;
    hide *;
    PlannedStarts(polls, levels);
    assert names[..0] == [];
    for i := 0 to |names|
      invariant Planned(names[..i], polls, levels)
    {
      RepliedIffFirst(polls, names[i]);
      NextName(names, i);
      PlannedSnoc(names[..i], names[i], polls, levels);
      if names[i] !in replied {
        levels := Append(levels, 1, names[i]);
      }
    }
    assert names[..|names|] == names;
  }

  /** Every discovered module stands in exactly one level, exactly once. */
  lemma EveryModuleOnce(names: seq<string>, polls: seq<Poll>, levels: Levels, name: string)
    requires Planned(names, polls, levels) && name in names
    ensures exists p ::
      && p in levels && multiset(levels[p])[name] == 1
      && forall q :: q in levels && q != p ==> multiset(levels[q])[name] == 0
  {
    var p := match FirstReply(polls, name) case Some(q) => q case None => 1;
    assert name in At(levels, p);
    DistinctOnce(levels[p], name);
    forall q | q in levels && q != p
      ensures multiset(levels[q])[name] == 0
    {
      assert name !in At(levels, q);
    }
  }

  lemma {:induction false} DistinctOnce(xs: seq<string>, x: string)
    requires Distinct(xs) && x in xs
    ensures multiset(xs)[x] == 1
  {
    var rest := xs[1..];
    assert xs == [xs[0]] + rest;
    if xs[0] == x {
      assert x !in rest;
    } else {
      assert forall i :: 0 <= i < |rest| ==> rest[i] == xs[i + 1];
      DistinctOnce(rest, x);
    }
  }

  lemma {:induction false} FirstReplyPrefix(polls: seq<Poll>, used: nat, name: string)
    requires used <= |polls| && FirstReply(polls[..used], name).Some?
    ensures FirstReply(polls, name) == FirstReply(polls[..used], name)
  {
    if !(Names(polls[0]) && polls[0].name == name) {
      assert polls[..used][1..] == polls[1..][..used - 1];
      FirstReplyPrefix(polls[1..], used - 1, name);
    }
  }

  /** If only discovered modules reply, the window never closes on one of them: each that replies before the
      deadline stands at the priority it asked for first. */
  lemma RepliesHonoured(names: seq<string>, polls: seq<Poll>, used: nat, levels: Levels, name: string, p: int)
    requires WindowEnds(names, polls, used) && Planned(names, polls[..used], levels)
    requires Distinct(names) && forall n :: n in Repliers(polls) ==> n in names
    requires FirstReply(polls, name) == Some(p)
    ensures name in At(levels, p)
  {
    RepliedIffFirst(polls, name);
    if used < |polls| {
      var early := Repliers(polls[..used]);
      assert early <= Repliers(polls);
      DistinctCount(names);
      SubsetFull(early, set n | n in names);
      RepliedIffFirst(polls[..used], name);
      FirstReplyPrefix(polls, used, name);
    } else {
      assert polls[..used] == polls;
    }
  }

  lemma {:induction false} DistinctCount(xs: seq<string>)
    requires Distinct(xs)
    ensures |set x | x in xs| == |xs|
  {
    if xs == [] {
    } else {
      var front, last := xs[..|xs| - 1], xs[|xs| - 1];
      DistinctCount(front);
      assert (set x | x in xs) == (set x | x in front) + {last};
      assert last !in front;
    }
  }

  lemma SubsetFull(a: set<string>, b: set<string>)
    requires a <= b && |a| >= |b|
    ensures a == b
  {
    assert |b| == |a| + |b - a| by {
      assert b == a + (b - a);
    }
    assert b - a == {};
  }

  lemma {:induction false} FirstReplyAt(polls: seq<Poll>, name: string, at: nat, k: nat)
    requires at < k <= |polls| && Names(polls[at]) && polls[at].name == name && FirstReply(polls[..at], name) == None
    ensures FirstReply(polls[..k], name) == Some(polls[at].priority)
    decreases k
  {
    assert polls[..k] == polls[..k - 1] + [polls[k - 1]];
    FirstReplySnoc(polls[..k - 1], polls[k - 1], name);
    if at < k - 1 {
      FirstReplyAt(polls, name, at, k - 1);
    }
  }

  /** The exact condition: a module whose first reply arrives in time stands at the level it asked for just if
      fewer names than there are modules had replied before it. Replies of unknown names count here. */
  lemma ReplyHonouredExactly(names: seq<string>, polls: seq<Poll>, used: nat, levels: Levels, name: string, at: nat)
    requires WindowEnds(names, polls, used) && Planned(names, polls[..used], levels) && name in names
    requires at < |polls| && Names(polls[at]) && polls[at].name == name && FirstReply(polls[..at], name) == None
    ensures name in At(levels, polls[at].priority) <==>
            polls[at].priority == 1 || |Repliers(polls[..at])| < |names|
  {
    if at < used {
      FirstReplyAt(polls, name, at, used);
      assert polls[..used][..at] == polls[..at];
    } else {
      assert polls[..at][..used] == polls[..used];
      NoReplyPrefix(polls[..at], used, name);
      assert Repliers(polls[..used]) <= Repliers(polls[..at]);
      SubsetCount(Repliers(polls[..used]), Repliers(polls[..at]));
    }
  }

  /** A reply that asked for level 2 in time, and lost to that of a stranger. */
  lemma StrangerClosesWindow(used: nat, levels: Levels)
    requires var polls := [Report("x", 1), Report("a", 2)];
      WindowEnds(["a"], polls, used) && Planned(["a"], polls[..used], levels)
    ensures "a" !in At(levels, 2) && "a" in At(levels, 1)
  {
    var polls := [Report("x", 1), Report("a", 2)];
    assert polls[..1] == [Report("x", 1)];
    RepliersSnoc([], Report("x", 1));
    assert [] + [Report("x", 1)] == polls[..1];
    CollectedNothing();
    assert Repliers(polls[..1]) == {"x"};
    assert FirstReply(polls[..1], "a") == None;
    ReplyHonouredExactly(["a"], polls, used, levels, "a", 1);
    EveryModuleOnce(["a"], polls[..used], levels, "a");
  }

  lemma NoReplyPrefix(polls: seq<Poll>, used: nat, name: string)
    requires used <= |polls| && FirstReply(polls, name) == None
    ensures FirstReply(polls[..used], name) == None
  {
    if FirstReply(polls[..used], name).Some? {
      FirstReplyPrefix(polls, used, name);
    }
  }

  lemma SubsetCount(a: set<string>, b: set<string>)
    requires a <= b
    ensures |a| <= |b|
  {
    assert b == a + (b - a);
  }

  // ---------------------------------------------------------------------------
  // Starting the levels
  // ---------------------------------------------------------------------------

  /** The start of a level, the first report of one of its modules, or the end of its time with reports missing. */
  datatype Event = Started(level: int) | Reported(level: int, name: string) | TimedOut(level: int)

  /** What starting one level leaves in the log. */
  ghost predicate LevelLog(level: int, expected: seq<string>, polls: seq<Poll>, log: seq<Event>) {
    if expected == [] then log == []
    else
      && |log| > 0 && log[0] == Started(level)
      && (forall i :: 1 <= i < |log| ==> !log[i].Started? && log[i].level == level)
      && (forall i, j :: 0 <= i < j < |log| ==> log[i] != log[j])
      && (forall n :: Reported(level, n) in log <==> n in expected && Report(n, level) in polls)
      && (TimedOut(level) in log <==> exists n :: n in expected && Report(n, level) !in polls)
      && (TimedOut(level) in log ==> log[|log| - 1] == TimedOut(level))
  }

  lemma InSnoc<T>(xs: seq<T>, x: T)
    ensures forall y :: y in xs + [x] <==> y in xs || y == x
  {
    assert (xs + [x])[|xs|] == x;
  }

  /** Starts one level and waits until all its modules have reported at it, or its time is up. */
  method WaitForLevelReady(level: int, expected: seq<string>, polls: seq<Poll>) returns (log: seq<Event>)
    ensures LevelLog(level, expected, polls, log)
  {
    if expected == [] {
      return [];
    }
    log := [Started(level)];
    var pending := set n | n in expected;
    var i := 0;
    while pending != {} && i < |polls|
      invariant 0 <= i <= |polls|
      invariant |log| > 0 && log[0] == Started(level)
      invariant forall k :: 1 <= k < |log| ==> !log[k].Started? && log[k].level == level
      invariant TimedOut(level) !in log && Distinct(log)
      invariant forall n :: n in expected <==> n in pending || Reported(level, n) in log
      invariant forall n :: Reported(level, n) in log ==> n in expected && Report(n, level) in polls[..i]
      invariant forall n :: n in pending ==> n in expected && Report(n, level) !in polls[..i]
    {
      var poll := polls[i];
      InSnoc(polls[..i], poll);
      assert polls[..i] + [poll] == polls[..i + 1];
      i := i + 1;
      if poll.Report? && poll.name in pending && poll.priority == level {
        pending := pending - {poll.name};
        InSnoc(log, Reported(level, poll.name));
        log := log + [Reported(level, poll.name)];
      }
    }
    if pending != {} {
      assert polls[..i] == polls;
      InSnoc(log, TimedOut(level));
      log := log + [TimedOut(level)];
    } else {
      assert forall n :: n in expected ==> Report(n, level) in polls[..i];
    }
  }

  /** Every module of a level reported, or its time ran out. */
  ghost predicate Settled(log: seq<Event>, level: int, expected: seq<string>) {
    forall n :: n in expected ==> Reported(level, n) in log || TimedOut(level) in log
  }

  /** The levels start in ascending order, each when all lower ones are settled. */
  ghost predicate Ascending(levels: Levels, log: seq<Event>) {
    && (forall i, j :: 0 <= i < j < |log| && log[i].Started? && log[j].Started? ==> log[i].level < log[j].level)
    && (forall j, p :: 0 <= j < |log| && log[j].Started? && p in levels && p < log[j].level ==>
          Settled(log[..j], p, levels[p]))
  }

  /** A level was gone through: it was started, its modules reported as the log says, and its time ran out just if
      some of them did not. */
  ghost predicate Completed(level: int, expected: seq<string>, polls: seq<Poll>, log: seq<Event>) {
    && (expected != [] ==> Started(level) in log)
    && Settled(log, level, expected)
    && (forall n :: Reported(level, n) in log <==> n in expected && Report(n, level) in polls)
    && (TimedOut(level) in log <==> exists n :: n in expected && Report(n, level) !in polls)
  }

  /** The log of a boot that has come through the levels in done. */
  ghost predicate Ordered(levels: Levels, polls: int -> seq<Poll>, done: set<int>, log: seq<Event>) {
    && done <= levels.Keys
    && (forall e :: e in log ==> e.level in done)
    && Ascending(levels, log)
    && (forall p :: p in done ==> Completed(p, levels[p], polls(p), log))
  }

  lemma AscendingAppend(levels: Levels, log: seq<Event>, p: int, part: seq<Event>)
    requires Ascending(levels, log) && (forall e :: e in log ==> e.level < p)
    requires (forall i :: 0 <= i < |part| ==> part[i].level == p && (part[i].Started? ==> i == 0))
    requires forall q :: q in levels && q < p ==> Settled(log, q, levels[q])
    ensures Ascending(levels, log + part)
  {
    hide Settled;
    var whole := log + part;
    forall j, q | 0 <= j < |whole| && whole[j].Started? && q in levels && q < whole[j].level
      ensures Settled(whole[..j], q, levels[q])
    {
      if j < |log| {
        assert whole[..j] == log[..j];
      } else {
        assert whole[j] == part[j - |log|];
        assert whole[..j] == log;
      }
    }
  }

  lemma CompletedAppend(level: int, expected: seq<string>, polls: seq<Poll>, log: seq<Event>, part: seq<Event>)
    requires Completed(level, expected, polls, log) && forall e :: e in part ==> e.level != level
    ensures Completed(level, expected, polls, log + part)
  {
    assert forall e :: e in log + part <==> e in log || e in part;
  }

  lemma LogCompletes(level: int, expected: seq<string>, polls: seq<Poll>, log: seq<Event>, part: seq<Event>)
    requires LevelLog(level, expected, polls, part) && forall e :: e in log ==> e.level != level
    ensures Completed(level, expected, polls, log + part)
    ensures forall i :: 0 <= i < |part| ==> part[i].level == level && (part[i].Started? ==> i == 0)
  {
    assert forall e :: e in log + part <==> e in log || e in part;
  }

  lemma OrderedAppend(levels: Levels, polls: int -> seq<Poll>, done: set<int>, log: seq<Event>,
                      p: int, part: seq<Event>)
    requires Ordered(levels, polls, done, log) && p in levels && LevelLog(p, levels[p], polls(p), part)
    requires (forall q :: q in done ==> q < p) && forall q :: q in levels && q < p ==> q in done
    ensures Ordered(levels, polls, done + {p}, log + part)
  {
    LogCompletes(p, levels[p], polls(p), log, part);
    hide LevelLog;
    assert forall q :: q in done ==> Settled(log, q, levels[q]);
    hide Settled;
    AscendingAppend(levels, log, p, part);
    hide Ascending;
    forall q | q in done
      ensures Completed(q, levels[q], polls(q), log + part)
    {
      CompletedAppend(q, levels[q], polls(q), log, part);
    }
    hide Completed;
    assert forall e :: e in log + part <==> e in log || e in part;
  }

  lemma LeastBelow(s: set<int>, x: int)
    requires x in s
    ensures exists m :: m in s && forall y :: y in s ==> m <= y
    decreases |s|
  {
    if y :| y in s && y < x {
      LeastBelow(s - {x}, y);
      var m :| m in s - {x} && forall z :: z in s - {x} ==> m <= z;
      assert forall z :: z in s ==> z == x || z in s - {x};
      assert m in s && forall z :: z in s ==> m <= z;
    } else {
      assert x in s && forall z :: z in s ==> x <= z;
    }
  }

  lemma LeastExists(s: set<int>)
    requires s != {}
    ensures exists m :: m in s && forall y :: y in s ==> m <= y
  {
    assert (forall x :: x !in s) ==> s == {};
    var x :| x in s;
    LeastBelow(s, x);
  }

  /** Starts the levels one by one, lowest first. */
  method StartLevels(levels: Levels, polls: int -> seq<Poll>) returns (log: seq<Event>)
    ensures Ordered(levels, polls, levels.Keys, log)
  {
    log := [];
    var todo := levels.Keys;
    while todo != {}
      invariant todo <= levels.Keys
      invariant forall p, q :: p in levels.Keys - todo && q in todo ==> p < q
      invariant Ordered(levels, polls, levels.Keys - todo, log)
    {
      hide Ordered;
      LeastExists(todo);
      var level :| level in todo && forall p :: p in todo ==> level <= p;
      var part := WaitForLevelReady(level, levels[level], polls(level));
      OrderedAppend(levels, polls, levels.Keys - todo, log, level, part);
      assert levels.Keys - (todo - {level}) == levels.Keys - todo + {level};
      log := log + part;
      todo := todo - {level};
    }
    assert levels.Keys - todo == levels.Keys;
  }

  /** The boot: every discovered module stands in one level, and that level was started. */
  method Run(names: seq<string>, replies: seq<Poll>, polls: int -> seq<Poll>)
    returns (levels: Levels, log: seq<Event>, used: nat)
    requires Distinct(names)
    ensures WindowEnds(names, replies, used) && Planned(names, replies[..used], levels)
    ensures Ordered(levels, polls, levels.Keys, log)
    ensures forall n :: n in names ==> exists p :: n in At(levels, p) && Started(p) in log
  {
    levels, used := CollectModuleReady(names, replies);
    log := StartLevels(levels, polls);
    forall n | n in names
      ensures exists p :: n in At(levels, p) && Started(p) in log
    {
      EveryModuleOnce(names, replies[..used], levels, n);
      var p :| p in levels && multiset(levels[p])[n] == 1;
      assert n in At(levels, p);
    }
  }
}
