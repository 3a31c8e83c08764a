/** Reassembly of interleaved frame sequences, and what it delivers. */
module FrameAssembler {
  import opened Bytes
  import opened FrameCodec

  // ---------------------------------------------------------------------------
  // Reference: an assembler that knows a single channel
  // ---------------------------------------------------------------------------

  /** What one channel has received so far of an unfinished message. */
  datatype Pending = Idle | Collecting(firstFlags: byte, total: nat, data: seq<byte>)

  /** Flags of an assembled message: those of its FIRST frame, with the BULK type. */
  function AsBulk(flags: byte): (r: byte)
    ensures r % 4 == BULK && r / 4 == flags / 4
  {
    flags - flags % 4 + BULK
  }

  function Step(p: Pending, f: Frame): (Pending, Option<Assembled>) {
    if f.Type() == BULK then (p, Some(Assembled(f.channel, f.flags, f.payload, f.total)))
    else if f.Type() == FIRST then (Collecting(f.flags, f.total, f.payload), None)
    else if p.Idle? then (Idle, None)
    else if f.Type() == LAST then
      (Idle, Some(Assembled(f.channel, AsBulk(p.firstFlags), p.data + f.payload, p.total)))
    else (Collecting(p.firstFlags, p.total, p.data + f.payload), None)
  }

  function ToSeq(o: Option<Assembled>): seq<Assembled> {
    if o.Some? then [o.value] else []
  }

  function SingleOutputs(p: Pending, fs: seq<Frame>): seq<Assembled>
    decreases |fs|
  {
    if fs == [] then [] else ToSeq(Step(p, fs[0]).1) + SingleOutputs(Step(p, fs[0]).0, fs[1..])
  }

  function SingleAfter(p: Pending, fs: seq<Frame>): Pending
    decreases |fs|
  {
    if fs == [] then p else SingleAfter(Step(p, fs[0]).0, fs[1..])
  }

  // ---------------------------------------------------------------------------
  // The assembler of a connection: one pending message per channel
  // ---------------------------------------------------------------------------

  function Get(t: map<byte, Pending>, c: byte): Pending {
    if c in t then t[c] else Idle
  }

  function Put(t: map<byte, Pending>, c: byte, p: Pending): map<byte, Pending> {
    if p.Idle? then t - {c} else t[c := p]
  }

  function FeedTable(t: map<byte, Pending>, f: Frame): (map<byte, Pending>, Option<Assembled>) {
    var (p, out) := Step(Get(t, f.channel), f);
    (Put(t, f.channel, p), out)
  }

  function Outputs(t: map<byte, Pending>, fs: seq<Frame>): seq<Assembled>
    decreases |fs|
  {
    if fs == [] then [] else ToSeq(FeedTable(t, fs[0]).1) + Outputs(FeedTable(t, fs[0]).0, fs[1..])
  }

  function After(t: map<byte, Pending>, fs: seq<Frame>): map<byte, Pending>
    decreases |fs|
  {
    if fs == [] then t else After(FeedTable(t, fs[0]).0, fs[1..])
  }

  /** The chunks of an unfinished message as they are stored. */
  datatype ChannelBuffer = ChannelBuffer(chunks: seq<seq<byte>>, totalSize: nat, firstFlags: byte)

  class Assembler {
    var buffers: map<byte, ChannelBuffer>

    /** The pending messages, chunks joined. */
    ghost function Contents(): map<byte, Pending>
      reads this
    {
      map c | c in buffers :: Collecting(buffers[c].firstFlags, buffers[c].totalSize, Flatten(buffers[c].chunks))
    }

    constructor ()
      ensures Contents() == map[]
    {
      buffers := map[];
    }

    method Reset(channel: Option<byte>)
      modifies this
      ensures Contents() == if channel.None? then map[] else old(Contents()) - {channel.value}
    {
      if channel.None? {
        buffers := map[];
      } else {
        buffers := buffers - {channel.value};
      }
    }

    /** Takes one frame off the wire; hands on the message it completes, if any. */
    method Feed(f: Frame) returns (r: Option<Assembled>)
      modifies this
      ensures (Contents(), r) == FeedTable(old(Contents()), f)
    {
      if f.Type() == BULK {
        assert Put(Contents(), f.channel, Get(Contents(), f.channel)) == Contents();
        return Some(Assembled(f.channel, f.flags, f.payload, f.total));
      }
      if f.Type() == FIRST {
        buffers := buffers[f.channel := ChannelBuffer([f.payload], f.total, f.flags)];
        assert Flatten([f.payload]) == f.payload;
        assert Contents() == Put(old(Contents()), f.channel, Collecting(f.flags, f.total, f.payload));
        return None;
      }
      if f.channel !in buffers {
        assert Put(Contents(), f.channel, Idle) == Contents();
        return None;
      }
      var buf := buffers[f.channel];
      buf := buf.(chunks := buf.chunks + [f.payload]);
      FlattenSnoc(buffers[f.channel].chunks, f.payload);
      buffers := buffers[f.channel := buf];
      if f.Type() == LAST {
        var assembled := Flatten(buf.chunks);
        buffers := buffers - {f.channel};
        assert Contents() == Put(old(Contents()), f.channel, Idle);
        return Some(Assembled(f.channel, AsBulk(buf.firstFlags), assembled, buf.totalSize));
      }
      assert Contents() == Put(old(Contents()), f.channel,
                               Collecting(buf.firstFlags, buf.totalSize, Flatten(buf.chunks)));
      return None;
    }
  }

  // ---------------------------------------------------------------------------
  // Channels do not disturb one another
  // ---------------------------------------------------------------------------

  function OnChannel(fs: seq<Frame>, c: byte): seq<Frame> {
    if fs == [] then []
    else (if fs[0].channel == c then [fs[0]] else []) + OnChannel(fs[1..], c)
  }

  function MessagesOn(ms: seq<Assembled>, c: byte): seq<Assembled> {
    if ms == [] then []
    else (if ms[0].channel == c then [ms[0]] else []) + MessagesOn(ms[1..], c)
  }

  lemma MessagesOnPrepend(o: Option<Assembled>, rest: seq<Assembled>, c: byte)
    ensures MessagesOn(ToSeq(o) + rest, c) ==
            (if o.Some? && o.value.channel == c then [o.value] else []) + MessagesOn(rest, c)
  {
    if o.Some? {
      assert ([o.value] + rest)[1..] == rest;
    } else {
      assert ToSeq(o) + rest == rest;
    }
  }

  /** What comes out on a channel is what a single-channel assembler makes of that channel's frames. */
  lemma {:induction false} ChannelsAreIndependent(t: map<byte, Pending>, fs: seq<Frame>, c: byte)
    ensures MessagesOn(Outputs(t, fs), c) == SingleOutputs(Get(t, c), OnChannel(fs, c))
    ensures Get(After(t, fs), c) == SingleAfter(Get(t, c), OnChannel(fs, c))
    decreases |fs|
  {
    if fs == [] {
    } else {
      var f := fs[0];
      var (t', out) := FeedTable(t, f);
      ChannelsAreIndependent(t', fs[1..], c);
      MessagesOnPrepend(out, Outputs(t', fs[1..]), c);
      if f.channel == c {
        assert OnChannel(fs, c)[0] == f && OnChannel(fs, c)[1..] == OnChannel(fs[1..], c);
        assert Get(t', c) == Step(Get(t, c), f).0;
      } else {
        assert OnChannel(fs, c) == OnChannel(fs[1..], c);
        assert Get(t', c) == Get(t, c);
      }
    }
  }

  // ---------------------------------------------------------------------------
  // Whole messages
  // ---------------------------------------------------------------------------

  /** FIRST, any number of MIDDLE, LAST, all on one channel; the split points are arbitrary. */
  ghost predicate IsRun(fs: seq<Frame>) {
    && |fs| >= 2
    && fs[0].Type() == FIRST && fs[|fs| - 1].Type() == LAST
    && (forall i :: 0 < i < |fs| - 1 ==> fs[i].Type() == MIDDLE)
    && (forall i :: 0 <= i < |fs| ==> fs[i].channel == fs[0].channel)
  }

  /** The frames are a complete transmission of the message. */
  ghost predicate Carries(fs: seq<Frame>, a: Assembled) {
    || (|fs| == 1 && fs[0].Type() == BULK && a == Assembled(fs[0].channel, fs[0].flags, fs[0].payload, fs[0].total))
    || (IsRun(fs) && a == Assembled(fs[0].channel, AsBulk(fs[0].flags), Flatten(Payloads(fs)), fs[0].total))
  }

  lemma {:induction false} CollectTail(first: Frame, data: seq<byte>, fs: seq<Frame>)
    requires |fs| >= 1 && fs[|fs| - 1].Type() == LAST
    requires forall i :: 0 <= i < |fs| - 1 ==> fs[i].Type() == MIDDLE
    requires forall i :: 0 <= i < |fs| ==> fs[i].channel == first.channel
    ensures var p := Collecting(first.flags, first.total, data);
      && SingleOutputs(p, fs) ==
         [Assembled(first.channel, AsBulk(first.flags), data + Flatten(Payloads(fs)), first.total)]
      && SingleAfter(p, fs) == Idle
    decreases |fs|
  {
    assert Payloads(fs) == [fs[0].payload] + Payloads(fs[1..]);
    assert data + Flatten(Payloads(fs)) == (data + fs[0].payload) + Flatten(Payloads(fs[1..]));
    if |fs| == 1 {
      assert data + fs[0].payload + [] == data + fs[0].payload;
    } else {
      CollectTail(first, data + fs[0].payload, fs[1..]);
    }
  }

  /** From whatever an earlier transmission left behind, a complete run yields exactly its message. */
  lemma Resynchronises(p: Pending, fs: seq<Frame>, a: Assembled)
    requires Carries(fs, a)
    ensures SingleOutputs(p, fs) == [a]
    ensures SingleAfter(p, fs) == if IsRun(fs) then Idle else p
  {
    if IsRun(fs) {
      assert Payloads(fs) == [fs[0].payload] + Payloads(fs[1..]);
      CollectTail(fs[0], fs[0].payload, fs[1..]);
    } else {
      assert fs[1..] == [];
    }
  }

  // ---------------------------------------------------------------------------
  // Every frame sequence on a channel, complete or not
  // ---------------------------------------------------------------------------

  /** Frame j is the FIRST of a message that is still unfinished after n frames. */
  ghost predicate Began(fs: seq<Frame>, n: nat, j: nat) {
    j < n <= |fs| && fs[j].flags % 4 == 1 && forall k :: j < k < n ==> fs[k].flags % 4 != 1 && fs[k].flags % 4 != 2
  }

  /** The payload bytes from frame j up to frame n, those of single-frame messages left out. */
  function Collected(fs: seq<Frame>, j: nat, n: nat): seq<byte>
    requires j <= n <= |fs|
  {
    if n == j then [] else Collected(fs, j, n - 1) + (if fs[n - 1].flags % 4 == 3 then [] else fs[n - 1].payload)
  }

  lemma AfterSnoc(p: Pending, fs: seq<Frame>, n: nat)
    requires n < |fs|
    ensures SingleAfter(p, fs[..n + 1]) == Step(SingleAfter(p, fs[..n]), fs[n]).0
    ensures SingleOutputs(p, fs[..n + 1]) == SingleOutputs(p, fs[..n]) + ToSeq(Step(SingleAfter(p, fs[..n]), fs[n]).1)
  {
    SplitsAt(fs, n);
    SingleAppend(p, fs[..n], [fs[n]]);
    SingleOfOne(SingleAfter(p, fs[..n]), fs[n]);
  }

  lemma SingleOfOne(p: Pending, f: Frame)
    ensures SingleAfter(p, [f]) == Step(p, f).0 && SingleOutputs(p, [f]) == ToSeq(Step(p, f).1)
  {
    hide Step;
    assert [f][1..] == [];
  }

  lemma BeganSnoc(fs: seq<Frame>, n: nat, j: nat)
    requires n < |fs|
    ensures Began(fs, n + 1, j) <==>
            if j == n then fs[n].flags % 4 == 1
            else Began(fs, n, j) && fs[n].flags % 4 != 1 && fs[n].flags % 4 != 2
  {
  }

  /** The channel is in the middle of a message exactly if one began and did not end, and then holds its bytes. */
  lemma {:induction false} PendingExactly(fs: seq<Frame>, n: nat)
    requires n <= |fs|
    ensures SingleAfter(Idle, fs[..n]) == Idle <==> forall j: nat :: !Began(fs, n, j)
    ensures forall j: nat :: Began(fs, n, j) ==>
      SingleAfter(Idle, fs[..n]) == Collecting(fs[j].flags, fs[j].total, Collected(fs, j, n))
    decreases n
  {
    if n == 0 {
    } else {
      PendingExactly(fs, n - 1);
      AfterSnoc(Idle, fs, n - 1);
      hide SingleAfter, SingleOutputs, Began, Collected;
      var p, f := SingleAfter(Idle, fs[..n - 1]), fs[n - 1];
      forall j: nat
        ensures Began(fs, n, j) <==>
                if j == n - 1 then f.flags % 4 == 1 else Began(fs, n - 1, j) && f.flags % 4 != 1 && f.flags % 4 != 2
        ensures Began(fs, n, j) ==> Step(p, f).0 == Collecting(fs[j].flags, fs[j].total, Collected(fs, j, n))
      {
        BeganSnoc(fs, n - 1, j);
        BeganInside(fs, n, j);
        if Began(fs, n, j) {
          CollectedSnoc(fs, j, n);
        }
      }
      if f.flags % 4 == 1 {
        assert Began(fs, n, n - 1);
      }
    }
  }

  lemma BeganInside(fs: seq<Frame>, n: nat, j: nat)
    ensures Began(fs, n, j) ==> j < n <= |fs|
  {
  }

  lemma CollectedSnoc(fs: seq<Frame>, j: nat, n: nat)
    requires j < n <= |fs|
    ensures Collected(fs, j, j) == []
    ensures Collected(fs, j, n) == Collected(fs, j, n - 1) + if fs[n - 1].flags % 4 == 3 then [] else fs[n - 1].payload
    ensures j == n - 1 && fs[j].flags % 4 == 1 ==> Collected(fs, j, n) == fs[j].payload
  {
    NothingBefore(fs[j].payload);
  }

  /** What frame n of a channel delivers: a single-frame message as it is; a LAST frame the message that began
      with the FIRST frame before it, under that frame's bits and total; anything else, and a LAST frame without
      a FIRST, nothing. */
  lemma DeliversExactly(fs: seq<Frame>, n: nat)
    requires n < |fs|
    ensures var f, out := fs[n], Step(SingleAfter(Idle, fs[..n]), fs[n]).1;
      && SingleOutputs(Idle, fs[..n + 1]) == SingleOutputs(Idle, fs[..n]) + ToSeq(out)
      && (f.flags % 4 == 3 ==> out == Some(Assembled(f.channel, f.flags, f.payload, f.total)))
      && (f.flags % 4 == 2 ==>
            forall j: nat :: Began(fs, n, j) ==>
              out == Some(Assembled(f.channel, fs[j].flags + 2, Collected(fs, j, n) + f.payload, fs[j].total)))
      && (f.flags % 4 != 3 && (f.flags % 4 != 2 || forall j: nat :: !Began(fs, n, j)) ==> out == None)
  {
    PendingExactly(fs, n);
    AfterSnoc(Idle, fs, n);
    FirstIsMarked(fs, n);
    hide SingleAfter, SingleOutputs, Began, Collected;
  }

  lemma FirstIsMarked(fs: seq<Frame>, n: nat)
    ensures forall j: nat :: Began(fs, n, j) ==>
      j < |fs| && fs[j].flags % 4 == 1 && AsBulk(fs[j].flags) == fs[j].flags + 2
  {
  }

  /** MIDDLE and LAST frames without a FIRST deliver nothing and leave nothing behind. */
  lemma {:induction false} StrayFramesVanish(fs: seq<Frame>)
    requires forall i :: 0 <= i < |fs| ==> fs[i].flags % 4 == 0 || fs[i].flags % 4 == 2
    ensures SingleOutputs(Idle, fs) == [] && SingleAfter(Idle, fs) == Idle
  {
    if fs == [] {
    } else {
      StrayFramesVanish(fs[1..]);
    }
  }

  datatype Transmission = Transmission(frames: seq<Frame>, message: Assembled)

  ghost predicate Complete(ts: seq<Transmission>) {
    forall i :: 0 <= i < |ts| ==> Carries(ts[i].frames, ts[i].message)
  }

  function FramesOf(ts: seq<Transmission>): seq<Frame> {
    if ts == [] then [] else ts[0].frames + FramesOf(ts[1..])
  }

  function MessagesOf(ts: seq<Transmission>): seq<Assembled> {
    if ts == [] then [] else [ts[0].message] + MessagesOf(ts[1..])
  }

  lemma {:induction false} SingleAppend(p: Pending, a: seq<Frame>, b: seq<Frame>)
    ensures SingleOutputs(p, a + b) == SingleOutputs(p, a) + SingleOutputs(SingleAfter(p, a), b)
    ensures SingleAfter(p, a + b) == SingleAfter(SingleAfter(p, a), b)
    decreases |a|
  {
    hide Step, ToSeq;
    if a == [] {
      NothingBefore(b);
    } else {
      var (next, out) := Step(p, a[0]);
      SingleAppend(next, a[1..], b);
      TailOfAppend(a, b);
      Associative(ToSeq(out), SingleOutputs(next, a[1..]), SingleOutputs(SingleAfter(p, a), b));
    }
  }

  lemma {:induction false} SingleDelivery(p: Pending, ts: seq<Transmission>)
    requires Complete(ts)
    ensures SingleOutputs(p, FramesOf(ts)) == MessagesOf(ts)
    decreases |ts|
  {
    if ts == [] {
    } else {
      SingleAppend(p, ts[0].frames, FramesOf(ts[1..]));
      Resynchronises(p, ts[0].frames, ts[0].message);
      SingleDelivery(SingleAfter(p, ts[0].frames), ts[1..]);
    }
  }

  /** Any interleaving of the transmissions of any channels, from any earlier state: each channel
      delivers exactly its own messages, whole and in order. */
  lemma Demultiplexing(t: map<byte, Pending>, fs: seq<Frame>, sent: byte -> seq<Transmission>)
    requires forall c: byte :: Complete(sent(c))
    requires forall c: byte :: OnChannel(fs, c) == FramesOf(sent(c))
    ensures forall c: byte :: MessagesOn(Outputs(t, fs), c) == MessagesOf(sent(c))
  {
    forall c: byte
      ensures MessagesOn(Outputs(t, fs), c) == MessagesOf(sent(c))
    {
      ChannelsAreIndependent(t, fs, c);
      SingleDelivery(Get(t, c), sent(c));
    }
  }

  // ---------------------------------------------------------------------------
  // Contiguous transmissions, the way a sender holding the write lock emits them
  // ---------------------------------------------------------------------------

  lemma {:induction false} OutputsAppend(t: map<byte, Pending>, a: seq<Frame>, b: seq<Frame>)
    ensures Outputs(t, a + b) == Outputs(t, a) + Outputs(After(t, a), b)
    ensures After(t, a + b) == After(After(t, a), b)
    decreases |a|
  {
    hide FeedTable, ToSeq;
    if a == [] {
      NothingBefore(b);
    } else {
      var (next, out) := FeedTable(t, a[0]);
      OutputsAppend(next, a[1..], b);
      TailOfAppend(a, b);
      Associative(ToSeq(out), Outputs(next, a[1..]), Outputs(After(t, a), b));
    }
  }

  lemma {:induction false} OneChannelAtATime(t: map<byte, Pending>, fs: seq<Frame>, c: byte)
    requires forall i :: 0 <= i < |fs| ==> fs[i].channel == c
    ensures Outputs(t, fs) == SingleOutputs(Get(t, c), fs)
    decreases |fs|
  {
    if fs == [] {
    } else {
      OneChannelAtATime(FeedTable(t, fs[0]).0, fs[1..], c);
    }
  }

  /** Transmissions sent one after another come out in exactly the order they were sent, over all channels. */
  lemma {:induction false} ContiguousDelivery(t: map<byte, Pending>, ts: seq<Transmission>)
    requires Complete(ts)
    ensures Outputs(t, FramesOf(ts)) == MessagesOf(ts)
    decreases |ts|
  {
    if ts == [] {
    } else {
      var fs := ts[0].frames;
      OutputsAppend(t, fs, FramesOf(ts[1..]));
      OneChannelAtATime(t, fs, fs[0].channel);
      Resynchronises(Get(t, fs[0].channel), fs, ts[0].message);
      ContiguousDelivery(After(t, fs), ts[1..]);
    }
  }

  /** The frames encode builds are a complete transmission of the wire payload, with its own bits. */
  lemma EncodeCarriesMessage(m: Message, cryptor: Option<Sealer>, n: nat)
    requires Encodable(m, cryptor, n)
    ensures var payload := WirePayload(m, cryptor, n);
      Carries(MessageFrames(m, cryptor, n),
              Assembled(m.channel, BULK + Bits(m, cryptor), payload, if |payload| > THRESHOLD then |payload| else 0))
  {
    var payload := WirePayload(m, cryptor, n);
    if |payload| > THRESHOLD {
      FragmentsCarryPayload(m.channel, Bits(m, cryptor), payload);
    }
  }
}
