/** Sequence numbers and loss accounting of the message bus client. */
module BusClient {
  import opened Bytes

  /** How one publish call ended: handed to the socket, dropped because the socket is full, or an exception
      from encoding or sending. */
  datatype Outcome = Sent | Dropped | Failed

  datatype Publication = Publication(topic: string, outcome: Outcome)

  predicate Traced(blacklist: seq<string>, topic: string) {
    forall p :: p in blacklist ==> !(p <= topic)
  }

  /** How many publications a history has on a topic. */
  function Count(history: seq<Publication>, topic: string): nat {
    if history == [] then 0
    else Count(history[..|history| - 1], topic) + (if history[|history| - 1].topic == topic then 1 else 0)
  }

  function Ended(history: seq<Publication>, outcome: Outcome): nat {
    if history == [] then 0
    else Ended(history[..|history| - 1], outcome) + (if history[|history| - 1].outcome == outcome then 1 else 0)
  }

  function DroppedOn(history: seq<Publication>, topic: string): nat {
    if history == [] then 0
    else
      DroppedOn(history[..|history| - 1], topic)
      + (if history[|history| - 1] == Publication(topic, Dropped) then 1 else 0)
  }

  lemma HistorySnoc(h: seq<Publication>, p: Publication)
    ensures forall topic :: Count(h + [p], topic) == Count(h, topic) + if p.topic == topic then 1 else 0
    ensures forall topic ::
      DroppedOn(h + [p], topic) == DroppedOn(h, topic) + if p == Publication(topic, Dropped) then 1 else 0
    ensures Ended(h + [p], Sent) == Ended(h, Sent) + if p.outcome.Sent? then 1 else 0
    ensures Ended(h + [p], Dropped) == Ended(h, Dropped) + if p.outcome.Dropped? then 1 else 0
  {
    assert (h + [p])[..|h|] == h;
  }

  /** The source module and the topic of a message. */
  datatype Key = Key(src: string, topic: string)

  datatype Receipt = Receipt(key: Key, seqNo: int)

  datatype Report = Report(gap: nat, duplicate: bool, rewind: bool)

  const NOTHING: Report := Report(0, false, false)

  /** What a receiver reports about a sequence number, given the last one it remembers. */
  function Track(last: Option<int>, seqNo: int): Report {
    match last
    case None => NOTHING
    case Some(n) =>
      if seqNo == n then Report(0, true, false)
      else if seqNo > n + 1 then Report(seqNo - n - 1, false, false)
      else Report(0, false, seqNo < n)
  }

  function Lookup<K(==), V>(m: map<K, V>, k: K): Option<V> { if k in m then Some(m[k]) else None }

  function Get(m: map<string, nat>, topic: string): nat { if topic in m then m[topic] else 0 }

  lemma GetUpdated(m: map<string, nat>, topic: string)
    ensures var after := m[topic := Get(m, topic) + 1];
      forall t :: Get(after, t) == Get(m, t) + if t == topic then 1 else 0
  {
  }

  /** What arrives on the subscriber socket. */
  datatype Incoming =
    | Malformed
    | InvalidJson
    | Message(topic: string, src: string, seqNo: Option<int>)

  predicate Tracked(m: Incoming) { m.Message? && m.seqNo.Some? && m.src != "" }

  function ReceiptOf(m: Incoming): Receipt
    requires Tracked(m)
  {
    Receipt(Key(m.src, m.topic), m.seqNo.value)
  }

  /** The sender's counters are what the history says. */
  ghost predicate Counted(blacklist: seq<string>, traceSeq: map<string, nat>, pubOk: nat, pubDrop: nat,
                          dropByTopic: map<string, nat>, history: seq<Publication>) {
    && (forall topic :: Get(traceSeq, topic) == if Traced(blacklist, topic) then Count(history, topic) else 0)
    && pubOk == Ended(history, Sent) && pubDrop == Ended(history, Dropped)
    && (forall topic :: Get(dropByTopic, topic) == DroppedOn(history, topic))
  }

  lemma CountedSnoc(blacklist: seq<string>, traceSeq: map<string, nat>, pubOk: nat, pubDrop: nat,
                    dropByTopic: map<string, nat>, history: seq<Publication>, p: Publication)
    requires Counted(blacklist, traceSeq, pubOk, pubDrop, dropByTopic, history)
    ensures Get(traceSeq, p.topic) + 1 == Count(history + [p], p.topic) || !Traced(blacklist, p.topic)
    ensures Counted(blacklist,
                    if Traced(blacklist, p.topic) then traceSeq[p.topic := Get(traceSeq, p.topic) + 1] else traceSeq,
                    if p.outcome.Sent? then pubOk + 1 else pubOk,
                    if p.outcome.Dropped? then pubDrop + 1 else pubDrop,
                    if p.outcome.Dropped? then dropByTopic[p.topic := Get(dropByTopic, p.topic) + 1] else dropByTopic,
                    history + [p])
  {
    HistorySnoc(history, p);
    GetUpdated(traceSeq, p.topic);
    GetUpdated(dropByTopic, p.topic);
    hide Traced, Count, Ended, DroppedOn, Get;
  }

  /** A bus client; history lists its publish calls and receipts the traced messages it received. */
  class Client {
    const blacklist: seq<string>
    var traceSeq: map<string, nat>
    var pubOk: nat
    var pubDrop: nat
    var dropByTopic: map<string, nat>
    var lastSeq: map<Key, int>
    var recv: nat
    ghost var history: seq<Publication>
    ghost var receipts: seq<Receipt>

    /** Every counter is what the history and the receipts say. */
    ghost predicate Valid()
      reads this
    {
      && Counted(blacklist, traceSeq, pubOk, pubDrop, dropByTopic, history)
      && (forall key :: Lookup(lastSeq, key) == LastOf(Project(receipts, key)))
    }

    constructor (blacklist: seq<string>)
      ensures Valid() && this.blacklist == blacklist && history == [] && receipts == []
    {
      this.blacklist := blacklist;
      traceSeq, dropByTopic, lastSeq := map[], map[], map[];
      pubOk, pubDrop, recv := 0, 0, 0;
      history, receipts := [], [];
    }

    /** Publishes one message; outcome is what encoding and sending do. The message carries the number of
        publications on its topic, whatever becomes of it; blacklisted topics carry none. */
    method Publish(topic: string, outcome: Outcome) returns (seqNo: Option<nat>, r: Result<bool, Outcome>)
      requires Valid()
      modifies `traceSeq, `pubOk, `pubDrop, `dropByTopic, `history
      ensures Valid() && history == old(history) + [Publication(topic, outcome)]
      ensures seqNo == if Traced(blacklist, topic) then Some(Count(history, topic)) else None
      ensures r == if outcome.Failed? then Err(Failed) else Ok(outcome.Sent?)
    {
      hide Counted, Traced, Count, Lookup, LastOf, Project, Get;
      CountedSnoc(blacklist, traceSeq, pubOk, pubDrop, dropByTopic, history, Publication(topic, outcome));
      history := history + [Publication(topic, outcome)];
      seqNo := None;
      if Traced(blacklist, topic) {
        traceSeq := traceSeq[topic := Get(traceSeq, topic) + 1];
        seqNo := Some(traceSeq[topic]);
      }
      match outcome
      case Failed =>
        r := Err(Failed);
      case Sent =>
        pubOk := pubOk + 1;
        r := Ok(true);
      case Dropped =>
        pubDrop := pubDrop + 1;
        dropByTopic := dropByTopic[topic := Get(dropByTopic, topic) + 1];
        r := Ok(false);
    }

    /** Takes one message from the socket and reports what its sequence number says. */
    method HandleReceived(m: Incoming) returns (report: Report)
      requires Valid()
      modifies `lastSeq, `recv, `receipts
      ensures Valid() && recv == old(recv) + if m.Message? then 1 else 0
      ensures receipts == old(receipts) + if Tracked(m) then [ReceiptOf(m)] else []
      ensures report == if Tracked(m) then ReportAt(receipts, |receipts| - 1) else NOTHING
    {
      hide Counted, Project;
      report := NOTHING;
      if !m.Message? {
        return;
      }
      recv := recv + 1;
      if m.seqNo.None? || m.src == "" {
        return;
      }
      var key, seqNo := Key(m.src, m.topic), m.seqNo.value;
      var gap, duplicate, rewind := 0, false, false;
      if key in lastSeq {
        var last := lastSeq[key];
        if seqNo == last {
          duplicate := true;
        } else if seqNo > last + 1 {
          gap := seqNo - last - 1;
        } else if seqNo < last {
          rewind := true;
        }
      }
      report := Report(gap, duplicate, rewind);
      assert report == Track(Lookup(lastSeq, key), seqNo);
      ProjectSnoc(receipts, Receipt(key, seqNo));
      receipts := receipts + [Receipt(key, seqNo)];
      if key !in lastSeq || seqNo > lastSeq[key] || rewind {
        lastSeq := lastSeq[key := seqNo];
      }
    }
  }

  // ---------------------------------------------------------------------------
  // Loss accounting
  // ---------------------------------------------------------------------------

  /** The sequence numbers received for one key, whatever came in between. */
  function Project(receipts: seq<Receipt>, key: Key): seq<int> {
    if receipts == [] then []
    else
      var front, last := receipts[..|receipts| - 1], receipts[|receipts| - 1];
      Project(front, key) + (if last.key == key then [last.seqNo] else [])
  }

  lemma ProjectSnoc(receipts: seq<Receipt>, r: Receipt)
    ensures forall key ::
      Project(receipts + [r], key) == Project(receipts, key) + if r.key == key then [r.seqNo] else []
    ensures ReportAt(receipts + [r], |receipts|) == Track(LastOf(Project(receipts, r.key)), r.seqNo)
  {
    assert (receipts + [r])[..|receipts|] == receipts;
  }

  function LastOf(seqNos: seq<int>): Option<int> {
    if seqNos == [] then None else Some(seqNos[|seqNos| - 1])
  }

  /** The report about receipt i. */
  function ReportAt(receipts: seq<Receipt>, i: nat): Report
    requires i < |receipts|
  {
    Track(LastOf(Project(receipts[..i], receipts[i].key)), receipts[i].seqNo)
  }

  /** Receipt j is the latest on this key among the first n. */
  ghost predicate LatestOn(receipts: seq<Receipt>, key: Key, n: nat, j: nat) {
    && j < n <= |receipts| && receipts[j].key == key
    && forall k :: j < k < n ==> receipts[k].key != key
  }

  lemma LatestSnoc(receipts: seq<Receipt>, key: Key, n: nat, j: nat)
    requires n < |receipts|
    ensures LatestOn(receipts, key, n + 1, j) <==>
      if receipts[n].key == key then j == n else LatestOn(receipts, key, n, j)
  {
  }

  lemma ProjectNext(receipts: seq<Receipt>, key: Key, n: nat)
    requires n < |receipts|
    ensures LastOf(Project(receipts[..n + 1], key)) ==
      if receipts[n].key == key then Some(receipts[n].seqNo) else LastOf(Project(receipts[..n], key))
  {
    ProjectSnoc(receipts[..n], receipts[n]);
    assert receipts[..n + 1] == receipts[..n] + [receipts[n]];
    hide Project;
  }

  /** The number remembered for a key is that of the latest receipt on it. */
  lemma {:induction false} RememberedIsLatest(receipts: seq<Receipt>, key: Key, n: nat)
    requires n <= |receipts|
    ensures var last := LastOf(Project(receipts[..n], key));
      && (forall j: nat :: LatestOn(receipts, key, n, j) ==> last == Some(receipts[j].seqNo))
      && ((forall j: nat :: !LatestOn(receipts, key, n, j)) ==> last == None)
    decreases n
  {
    if n == 0 {
    } else {
      var m: nat := n - 1;
      RememberedIsLatest(receipts, key, m);
      ProjectNext(receipts, key, m);
      forall j: nat
        ensures LatestOn(receipts, key, n, j) <==>
          if receipts[m].key == key then j == m else LatestOn(receipts, key, m, j)
      {
        LatestSnoc(receipts, key, m, j);
      }
      assert receipts[m].key == key ==> LatestOn(receipts, key, n, m);
      hide LatestOn, Project, LastOf;
    }
  }

  /** A receipt is a duplicate exactly if it repeats the number before it on its key, a rewind exactly if it is
      below that, and a gap of as many numbers as it skips; the first receipt on a key is none of these. */
  lemma ReportsExactly(receipts: seq<Receipt>, i: nat)
    requires i < |receipts|
    ensures var r, key, seqNo := ReportAt(receipts, i), receipts[i].key, receipts[i].seqNo;
      && ((forall j: nat :: !LatestOn(receipts, key, i, j)) ==> r.gap == 0 && !r.duplicate && !r.rewind)
      && (forall j: nat :: LatestOn(receipts, key, i, j) ==>
            var last := receipts[j].seqNo;
            && (r.duplicate <==> seqNo == last) && (r.rewind <==> seqNo < last)
            && r.gap == if seqNo > last + 1 then seqNo - last - 1 else 0)
  {
    RememberedIsLatest(receipts, receipts[i].key, i);
    hide Project, LatestOn;
  }

  ghost predicate BeginsWith(topic: string, prefix: string) { exists rest :: topic == prefix + rest }

  /** A topic carries no number exactly if it begins with a blacklisted prefix. */
  lemma TracedExactly(blacklist: seq<string>, topic: string)
    ensures !Traced(blacklist, topic) <==> exists p :: p in blacklist && BeginsWith(topic, p)
  {
    forall p | p in blacklist
      ensures p <= topic <==> BeginsWith(topic, p)
    {
      assert p <= topic ==> topic == p + topic[|p|..];
    }
    hide BeginsWith;
  }

  /** The gaps reported for one key over a whole run. */
  function GapsReported(receipts: seq<Receipt>, key: Key, n: nat): nat
    requires n <= |receipts|
  {
    if n == 0 then 0
    else
      GapsReported(receipts, key, n - 1) + (if receipts[n - 1].key == key then ReportAt(receipts, n - 1).gap else 0)
  }

  /** By how much a list of numbers fails to increase. */
  function Regress(seqNos: seq<int>): nat {
    if |seqNos| <= 1 then 0
    else
      var n := |seqNos|;
      Regress(seqNos[..n - 1]) + (if seqNos[n - 1] <= seqNos[n - 2] then 1 + seqNos[n - 2] - seqNos[n - 1] else 0)
  }

  ghost predicate Increasing(seqNos: seq<int>) {
    forall i, j :: 0 <= i < j < |seqNos| ==> seqNos[i] < seqNos[j]
  }

  /** The received numbers s and the gaps g balance. */
  ghost predicate Balanced(s: seq<int>, g: nat) {
    if s == [] then g == 0 else |s| + g == s[|s| - 1] - s[0] + 1 + Regress(s)
  }

  lemma BalanceSnoc(front: seq<int>, g: nat, x: int)
    requires Balanced(front, g)
    ensures Balanced(front + [x], g + Track(LastOf(front), x).gap)
  {
    assert (front + [x])[..|front|] == front;
  }

  lemma GapsStep(receipts: seq<Receipt>, key: Key, n: nat)
    requires n < |receipts|
    ensures GapsReported(receipts, key, 0) == 0
    ensures GapsReported(receipts, key, n + 1) == GapsReported(receipts, key, n) +
      if receipts[n].key == key then Track(LastOf(Project(receipts[..n], key)), receipts[n].seqNo).gap else 0
  {
    hide Project, Track, LastOf;
  }

  /** For every interleaving of keys: received plus reported gaps is the span of the numbers, plus what
      duplicates and rewinds count twice. */
  lemma {:induction false} Accounting(receipts: seq<Receipt>, key: Key, n: nat)
    requires n <= |receipts|
    ensures Balanced(Project(receipts[..n], key), GapsReported(receipts, key, n))
  {
    hide *;
    if n == 0 {
      BalanceStarts(receipts, key);
    } else {
      var front, last := receipts[..n - 1], receipts[n - 1];
      Accounting(receipts, key, n - 1);
      SplitsAt(receipts, n - 1);
      GapsStep(receipts, key, n - 1);
      ProjectKey(front, last, key);
      BalanceSnoc(Project(front, key), GapsReported(receipts, key, n - 1), last.seqNo);
    }
  }

  lemma BalanceStarts(receipts: seq<Receipt>, key: Key)
    ensures Balanced(Project(receipts[..0], key), GapsReported(receipts, key, 0))
  {
  }

  lemma ProjectKey(front: seq<Receipt>, last: Receipt, key: Key)
    ensures last.key == key ==> Project(front + [last], key) == Project(front, key) + [last.seqNo]
    ensures last.key != key ==> Project(front + [last], key) == Project(front, key)
  {
    ProjectSnoc(front, last);
    hide Project;
  }

  lemma IncreasingSnoc(front: seq<int>, x: int)
    ensures Increasing(front + [x]) <==> Increasing(front) && (front == [] || front[|front| - 1] < x)
  {
    var s := front + [x];
    assert forall i :: 0 <= i < |front| ==> s[i] == front[i];
    if Increasing(s) && front != [] {
      assert s[|front| - 1] < s[|front|];
    }
  }

  lemma {:induction false} RegressIffNotIncreasing(s: seq<int>)
    ensures Regress(s) == 0 <==> Increasing(s)
  {
    if |s| > 1 {
      var front := s[..|s| - 1];
      RegressIffNotIncreasing(front);
      IncreasingSnoc(front, s[|s| - 1]);
      assert front + [s[|s| - 1]] == s;
    }
  }

  /** The accounting is exact precisely when the numbers of that key arrive in increasing order. */
  lemma AccountingExact(receipts: seq<Receipt>, key: Key)
    ensures var s := Project(receipts, key);
      s != [] ==>
        (|s| + GapsReported(receipts, key, |receipts|) == s[|s| - 1] - s[0] + 1 <==> Increasing(s))
  {
    Accounting(receipts, key, |receipts|);
    assert receipts[..|receipts|] == receipts;
    RegressIffNotIncreasing(Project(receipts, key));
  }

  /** s are the numbers of those publications on a topic that arrived, picked in order by at: a channel that
      may lose messages but neither reorders nor repeats them. Only publications that were sent arrive. */
  ghost predicate Arrives(history: seq<Publication>, topic: string, at: seq<nat>, s: seq<int>) {
    && |at| == |s|
    && (forall i, j :: 0 <= i < j < |at| ==> at[i] < at[j])
    && (forall i :: 0 <= i < |at| ==>
          at[i] < |history| && history[at[i]] == Publication(topic, Sent) && s[i] == Count(history[..at[i] + 1], topic))
  }

  lemma {:induction false} CountSplits(history: seq<Publication>, topic: string, i: nat, j: nat)
    requires i <= j <= |history|
    ensures Count(history[..j], topic) == Count(history[..i], topic) + Count(history[i..j], topic)
    decreases j
  {
    if i < j {
      CountSplits(history, topic, i, j - 1);
      assert history[..j][..j - 1] == history[..j - 1];
      assert history[i..j][..j - 1 - i] == history[i..j - 1];
    } else {
      assert history[i..j] == [];
    }
  }

  lemma ArrivalsIncrease(history: seq<Publication>, topic: string, at: seq<nat>, s: seq<int>)
    requires Arrives(history, topic, at, s)
    ensures Increasing(s)
  {
    hide Count;
    forall i, j | 0 <= i < j < |s|
      ensures s[i] < s[j]
    {
      CountSplits(history, topic, at[i] + 1, at[j]);
      CountStep(history, topic, at[j]);
    }
  }

  /** From the first message of a topic that arrives to the last, every publication is either received or
      reported in a gap: lost, dropped and failed ones alike. */
  lemma LossAccounting(receipts: seq<Receipt>, key: Key, history: seq<Publication>, at: seq<nat>)
    requires at != [] && Arrives(history, key.topic, at, Project(receipts, key))
    ensures |Project(receipts, key)| + GapsReported(receipts, key, |receipts|) ==
            Count(history[at[0]..at[|at| - 1] + 1], key.topic)
  {
    var n := |at| - 1;
    ArrivalsIncrease(history, key.topic, at, Project(receipts, key));
    AccountingExact(receipts, key);
    hide Count, Project, GapsReported, Increasing;
    assert n > 0 ==> at[0] < at[n];
    CountSplits(history, key.topic, at[0], at[n] + 1);
    CountStep(history, key.topic, at[0]);
  }

  lemma CountStep(history: seq<Publication>, topic: string, i: nat)
    requires i < |history|
    ensures Count(history[..i + 1], topic) == Count(history[..i], topic) + if history[i].topic == topic then 1 else 0
  {
    assert history[..i + 1][..i] == history[..i];
  }
}
