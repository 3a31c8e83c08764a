/** The byte-stream side of a connection: reading frames from recv chunks, writing with partial sends. */
module FrameRelay {
  import opened Bytes
  import opened FrameCodec
  import opened TcpServer

  // ---------------------------------------------------------------------------
  // Parsing, as a function of the byte stream alone
  // ---------------------------------------------------------------------------

  function HeaderSize(flags: byte): nat { if flags % 4 == FIRST then 8 else 4 }

  /** The first frame of a stream and what follows it; None if the stream ends before the frame does. */
  function ParseOne(s: seq<byte>): (r: Option<(Frame, seq<byte>)>)
    ensures r.Some? ==> |r.value.1| < |s|
  {
    if |s| < 4 || |s| < HeaderSize(s[1]) then None
    else
      var header := HeaderSize(s[1]);
      var length := FromBigEndian(s[2..4]);
      if |s| < header + length then None
      else Some((Frame(s[0], s[1], s[header..header + length],
                       if header == 8 then FromBigEndian(s[4..8]) else 0), s[header + length..]))
  }

  function ParseAll(s: seq<byte>): seq<Frame>
    decreases |s|
  {
    var p := ParseOne(s);
    if p.None? then [] else [p.value.0] + ParseAll(p.value.1)
  }

  /** The bytes after the last whole frame. */
  function Leftover(s: seq<byte>): seq<byte>
    decreases |s|
  {
    var p := ParseOne(s);
    if p.None? then s else Leftover(p.value.1)
  }

  lemma ParseOneReadsFrame(f: Frame, rest: seq<byte>)
    requires f.Valid()
    ensures ParseOne(FrameBytes(f) + rest) == Some((f, rest))
  {
    var s := FrameBytes(f) + rest;
    var header := HeaderSize(f.flags);
    BigEndianRoundTrip(|f.payload|, 2);
    assert s[2..4] == BigEndian(|f.payload|, 2);
    if header == 8 {
      BigEndianRoundTrip(f.total, 4);
      assert s[4..8] == BigEndian(f.total, 4);
    }
    assert s[header..header + |f.payload|] == f.payload;
    assert s[header + |f.payload|..] == rest;
  }

  lemma ParseOneInverts(s: seq<byte>)
    requires ParseOne(s).Some?
    ensures ParseOne(s).value.0.Valid()
    ensures s == FrameBytes(ParseOne(s).value.0) + ParseOne(s).value.1
  {
    FromBigEndianRoundTrip(s[2..4]);
    if HeaderSize(s[1]) == 8 {
      FromBigEndianRoundTrip(s[4..8]);
    }
  }

  lemma ParseAllReadsFrame(f: Frame, rest: seq<byte>)
    requires f.Valid()
    ensures ParseAll(FrameBytes(f) + rest) == [f] + ParseAll(rest)
  {
    ParseOneReadsFrame(f, rest);
  }

  /** Parsing undoes framing, whatever follows the frames. */
  lemma {:induction false} ParseUndoesWire(fs: seq<Frame>, rest: seq<byte>)
    requires AllValid(fs)
    ensures ParseAll(Wire(fs) + rest) == fs + ParseAll(rest)
    decreases |fs|
  {
    if fs == [] {
      assert Wire(fs) + rest == rest;
    } else {
      hide FrameBytes, ParseAll, ParseOne;
      Associative(FrameBytes(fs[0]), Wire(fs[1..]), rest);
      ParseAllReadsFrame(fs[0], Wire(fs[1..]) + rest);
      ParseUndoesWire(fs[1..], rest);
      Associative([fs[0]], fs[1..], ParseAll(rest));
      assert [fs[0]] + fs[1..] == fs;
    }
  }

  lemma ParseWholeWire(fs: seq<Frame>)
    requires AllValid(fs)
    ensures ParseAll(Wire(fs)) == fs
  {
    ParseUndoesWire(fs, []);
    assert Wire(fs) + [] == Wire(fs) && fs + ParseAll([]) == fs;
  }

  /** Every stream is the wire form of the frames read from it, followed by part of one more frame. */
  lemma {:induction false} WireUndoesParse(s: seq<byte>)
    ensures AllValid(ParseAll(s))
    ensures s == Wire(ParseAll(s)) + Leftover(s)
    ensures ParseOne(Leftover(s)).None?
    decreases |s|
  {
    hide FrameBytes, ParseOne;
    var p := ParseOne(s);
    if p.Some? {
      ParseOneInverts(s);
      WireUndoesParse(p.value.1);
      assert ParseAll(s)[1..] == ParseAll(p.value.1);
    }
  }

  lemma ParseOneOfPrefix(s: seq<byte>, k: nat)
    requires k <= |s|
    ensures ParseOne(s[..k]).Some? ==>
      ParseOne(s) == Some((ParseOne(s[..k]).value.0, ParseOne(s[..k]).value.1 + s[k..]))
    ensures ParseOne(s).Some? && ParseOne(s[..k]).None? ==> |s| - |ParseOne(s).value.1| > k
  {
    if k >= 4 {
      SliceOfPrefix(s, k, 2, 4);
      if k >= 8 {
        SliceOfPrefix(s, k, 4, 8);
      }
      var header := HeaderSize(s[1]);
      var size := header + FromBigEndian(s[2..4]);
      if k >= size {
        SliceOfPrefix(s, k, header, size);
      }
    }
  }

  lemma SliceOfPrefix<T>(s: seq<T>, k: nat, i: nat, j: nat)
    requires i <= j <= k <= |s|
    ensures s[..k][i..j] == s[i..j]
    ensures s[j..] == s[..k][j..] + s[k..]
  {
  }

  /** A stream cut at byte k yields exactly the frames that lie wholly before the cut. */
  lemma {:induction false} CutAnywhere(s: seq<byte>, k: nat)
    requires k <= |s|
    ensures var fs, cut := ParseAll(s), ParseAll(s[..k]);
      && AllValid(fs) && AllValid(cut) && cut <= fs && |Wire(cut)| <= k
      && (|cut| < |fs| ==> AllValid(fs[..|cut| + 1]) && |Wire(fs[..|cut| + 1])| > k)
    decreases |s|
  {
    hide FrameBytes, ParseOne;
    WireUndoesParse(s);
    WireUndoesParse(s[..k]);
    ParseOneOfPrefix(s, k);
    var p := ParseOne(s[..k]);
    var fs, cut := ParseAll(s), ParseAll(s[..k]);
    if p.Some? {
      ParseOneInverts(s[..k]);
      var rest := ParseOne(s).value.1;
      var j := |p.value.1|;
      assert rest[..j] == p.value.1;
      CutAnywhere(rest, j);
      assert cut[1..] == ParseAll(p.value.1) && fs[1..] == ParseAll(rest);
      if |cut| < |fs| {
        assert fs[..|cut| + 1][1..] == fs[1..][..|cut[1..]| + 1];
      }
    } else if fs != [] {
      ParseOneInverts(s);
      assert fs[..1] == [fs[0]];
      assert [fs[0]][1..] == [];
    }
  }

  // ---------------------------------------------------------------------------
  // The relay
  // ---------------------------------------------------------------------------

  lemma TooShort(s: seq<byte>)
    ensures |s| < 4 ==> ParseOne(s).None?
  {
  }

  /** After the first four bytes, what is missing decides. */
  lemma FrameIsCut(s: seq<byte>, header: seq<byte>, sizeField: seq<byte>, rest: seq<byte>)
    requires |header| == 2 && |sizeField| == 2 && s == header + sizeField + rest
    ensures ParseOne(s).None? <==> |rest| < HeaderSize(header[1]) - 4 + FromBigEndian(sizeField)
  {
    hide FromBigEndian;
    assert s[2..4] == sizeField;
  }

  lemma FrameIsRead(s: seq<byte>, header: seq<byte>, sizeField: seq<byte>, totalField: seq<byte>,
                    payload: seq<byte>, rest: seq<byte>)
    requires |header| == 2 && |sizeField| == 2 && |totalField| == HeaderSize(header[1]) - 4
    requires |payload| == FromBigEndian(sizeField) && s == header + sizeField + totalField + payload + rest
    ensures var total := if totalField == [] then 0 else FromBigEndian(totalField);
      ParseOne(s) == Some((Frame(header[0], header[1], payload, total), rest))
  {
    hide FromBigEndian;
    var n := HeaderSize(header[1]);
    assert s[2..4] == sizeField && s[4..n] == totalField;
    assert s[n..n + |payload|] == payload && s[n + |payload|..] == rest;
  }

  /** One recv: at most so many bytes arrive, the call raises, or another thread calls stop() first. */
  datatype RecvEvent = Arrives(limit: nat) | RecvFault | StopCalled

  /** One send: at most so many bytes are taken, none are, or the call raises. */
  datatype SendEvent = Takes(limit: nat) | TakesNothing | SendFault

  ghost predicate Undisturbed(events: seq<RecvEvent>) {
    forall i :: 0 <= i < |events| ==> events[i].Arrives?
  }

  ghost predicate Writable(events: seq<SendEvent>) {
    forall i :: 0 <= i < |events| ==> events[i].Takes?
  }

  /** A relay and the socket it owns. Once the scripted events are used up, calls succeed in full. */
  class Relay {
    var incoming: seq<byte>
    var recvEvents: seq<RecvEvent>
    var written: seq<byte>
    var sendEvents: seq<SendEvent>
    var running: bool
    var closedCalls: nat
    const pipeline: Pipeline
    ghost var handedOn: seq<Frame>

    constructor (incoming: seq<byte>, recvEvents: seq<RecvEvent>, sendEvents: seq<SendEvent>, pipeline: Pipeline)
      ensures this.incoming == incoming && this.recvEvents == recvEvents && this.sendEvents == sendEvents
      ensures this.pipeline == pipeline && written == [] && closedCalls == 0 && !running && handedOn == []
    {
      this.incoming := incoming;
      this.recvEvents := recvEvents;
      this.sendEvents := sendEvents;
      this.pipeline := pipeline;
      written, closedCalls, running, handedOn := [], 0, false, [];
    }

    /** socket.recv(max): None if it raises, no bytes once the peer or stop() has closed the stream. */
    method Recv(max: nat) returns (r: Option<seq<byte>>)
      requires max > 0
      modifies this`incoming, this`recvEvents, this`running
      ensures r.Some? ==> |r.value| <= max && old(incoming) == r.value + incoming
      ensures r.None? ==> incoming == old(incoming)
      ensures Undisturbed(old(recvEvents)) ==>
        && r.Some? && running == old(running) && Undisturbed(recvEvents)
        && (r.value == [] ==> old(incoming) == [])
    {
      var event := if recvEvents == [] then Arrives(max) else recvEvents[0];
      if recvEvents != [] {
        recvEvents := recvEvents[1..];
      }
      if event.RecvFault? {
        return None;
      }
      if event.StopCalled? {
        running := false;
        return Some([]);
      }
      var size := Min(Min(if event.limit == 0 then 1 else event.limit, max), |incoming|);
      r := Some(incoming[..size]);
      incoming := incoming[size..];
    }

    /** Reads exactly n bytes, or None if the stream ends or faults first. */
    method RecvExact(n: nat) returns (r: Option<seq<byte>>)
      modifies this`incoming, this`recvEvents, this`running
      ensures r.Some? ==> |r.value| == n && old(incoming) == r.value + incoming
      ensures Undisturbed(old(recvEvents)) ==>
        && running == old(running) && Undisturbed(recvEvents)
        && (r.None? <==> |old(incoming)| < n)
    {
      var buf: seq<byte> := [];
      while |buf| < n
        invariant |buf| <= n && old(incoming) == buf + incoming
        invariant Undisturbed(old(recvEvents)) ==> running == old(running) && Undisturbed(recvEvents)
        decreases n - |buf|
      {
        ghost var before := incoming;
        var chunk := Recv(n - |buf|);
        if chunk.None? || chunk.value == [] {
          return None;
        }
        assert buf + before == (buf + chunk.value) + incoming;
        buf := buf + chunk.value;
      }
      return Some(buf);
    }

    /** Reads one frame; what it is depends on the bytes alone. */
    method ReadFrame() returns (r: Option<Frame>)
      modifies this`incoming, this`recvEvents, this`running
      ensures r.Some? ==> ParseOne(old(incoming)) == Some((r.value, incoming))
      ensures Undisturbed(old(recvEvents)) ==>
        && running == old(running) && Undisturbed(recvEvents)
        && (r.None? <==> ParseOne(old(incoming)).None?)
    {
      hide ParseOne, FromBigEndian;
      ghost var s := incoming;
      TooShort(s);
      var header := RecvExact(2);
      if header.None? {
        return None;
      }
      var flags := header.value[1];
      var sizeField := RecvExact(2);
      if sizeField.None? {
        return None;
      }
      Associative(header.value, sizeField.value, incoming);
      FrameIsCut(s, header.value, sizeField.value, incoming);
      ghost var front := header.value + sizeField.value;
      ghost var totalBytes: seq<byte> := [];
      var length := FromBigEndian(sizeField.value);
      var total := 0;
      if flags % 4 == FIRST {
        var totalField := RecvExact(4);
        if totalField.None? {
          return None;
        }
        Associative(front, totalField.value, incoming);
        totalBytes := totalField.value;
        total := FromBigEndian(totalField.value);
      }
      var payload: Option<seq<byte>> := Some([]);
      if length != 0 {
        payload := RecvExact(length);
      }
      if payload.None? {
        return None;
      }
      assert s == front + totalBytes + payload.value + incoming;
      FrameIsRead(s, header.value, sizeField.value, totalBytes, payload.value, incoming);
      return Some(Frame(header.value[0], flags, payload.value, total));
    }

    /** The receive loop: every frame goes to the pipeline, in order, until the stream ends. */
    method Start()
      requires !pipeline.raised
      modifies this, pipeline`records, pipeline`published, pipeline`raised, pipeline.assembler
      ensures handedOn <= ParseAll(old(incoming))
      ensures pipeline.View() == HandleAll(pipeline.cryptor, old(pipeline.View()), handedOn)
      ensures Undisturbed(old(recvEvents)) ==>
        pipeline.View() == HandleAll(pipeline.cryptor, old(pipeline.View()), ParseAll(old(incoming)))
      ensures !running && closedCalls == old(closedCalls) + 1 && written == old(written)
    {
      hide ParseOne, Handle, ParseAll;
      running := true;
      handedOn := [];
      ghost var all := ParseAll(incoming);
      ghost var v0 := pipeline.View();
      assert HandleAll(pipeline.cryptor, v0, []) == v0;
      hide HandleAll;
      while running
        invariant all == handedOn + ParseAll(incoming)
        invariant !pipeline.raised
        invariant pipeline.View() == HandleAll(pipeline.cryptor, v0, handedOn)
        invariant Undisturbed(old(recvEvents)) ==> Undisturbed(recvEvents) && running
        invariant closedCalls == old(closedCalls) && written == old(written)
        decreases |incoming|, running
      {
        ghost var before := incoming;
        var frame := ReadFrame();
        ParseAllStep(handedOn, before);
        if frame.None? {
          break;
        }
        HandleAllSnoc(pipeline.cryptor, v0, handedOn, frame.value);
        handedOn := handedOn + [frame.value];
        pipeline.OnRawFrame(frame.value);
        if pipeline.raised {
          break;
        }
      }
      running := false;
      closedCalls := closedCalls + 1;
      if Undisturbed(old(recvEvents)) {
        HandleAllStops(pipeline.cryptor, v0, handedOn, all);
      }
    }

    /** Writes the data, or part of it before the socket fails. */
    method SendRaw(data: seq<byte>) returns (ok: bool)
      modifies this`written, this`sendEvents
      ensures old(written) <= written <= old(written) + data
      ensures ok <==> written == old(written) + data
      ensures Writable(old(sendEvents)) ==> ok && Writable(sendEvents)
    {
      var total := 0;
      while total < |data|
        invariant total <= |data| && written == old(written) + data[..total]
        invariant Writable(old(sendEvents)) ==> Writable(sendEvents)
      {
        var event := if sendEvents == [] then Takes(|data|) else sendEvents[0];
        if sendEvents != [] {
          sendEvents := sendEvents[1..];
        }
        if !event.Takes? {
          return false;
        }
        var sent := Min(if event.limit == 0 then 1 else event.limit, |data| - total);
        written := written + data[total..total + sent];
        assert data[..total + sent] == data[..total] + data[total..total + sent];
        total := total + sent;
      }
      return true;
    }

    /** Encodes a message and writes its frames back to back, as the holder of the write lock. */
    method OnFrameSend(m: Message, cryptor: Option<Sealer>, n: nat) returns (sent: bool)
      modifies this`written, this`sendEvents
      ensures !Encodable(m, cryptor, n) ==> !sent && written == old(written)
      ensures Encodable(m, cryptor, n) ==> AllValid(MessageFrames(m, cryptor, n))
      ensures Encodable(m, cryptor, n) ==>
        old(written) <= written <= old(written) + Wire(MessageFrames(m, cryptor, n))
      ensures sent ==> written == old(written) + Wire(MessageFrames(m, cryptor, n))
      ensures Writable(old(sendEvents)) ==> Writable(sendEvents) && (sent <==> Encodable(m, cryptor, n))
    {
      hide FrameBytes, MessageFrames, Encodable;
      var encoded := Encode(m, cryptor, n);
      if encoded.Err? {
        return false;
      }
      var frames := encoded.value;
      var i := 0;
      while i < |frames|
        invariant 0 <= i <= |frames| && AllValid(frames[..i])
        invariant written == old(written) + Wire(frames[..i])
        invariant Writable(old(sendEvents)) ==> Writable(sendEvents)
      {
        WireSplit(frames, i);
        ghost var before := written;
        var ok := SendRaw(FrameBytes(frames[i]));
        if !ok {
          assert before + FrameBytes(frames[i]) <= old(written) + Wire(frames);
          return false;
        }
        i := i + 1;
      }
      assert frames[..i] == frames;
      return true;
    }
  }

  lemma WireOfOne(f: Frame)
    requires f.Valid()
    ensures AllValid([f]) && Wire([f]) == FrameBytes(f)
  {
    assert [f][1..] == [];
    assert Wire([f][1..]) == [];
  }

  lemma PartsValid(fs: seq<Frame>, i: nat)
    requires AllValid(fs) && i < |fs|
    ensures AllValid(fs[..i]) && fs[i].Valid() && AllValid(fs[i + 1..])
  {
    hide Frame.Valid;
    var rest := fs[i + 1..];
    assert forall k :: 0 <= k < |rest| ==> rest[k] == fs[i + 1 + k];
  }

  /** The next frame, and the frames still to be sent, on the wire. */
  lemma WireSnoc(sent: seq<Frame>, f: Frame, rest: seq<Frame>)
    requires AllValid(sent) && f.Valid() && AllValid(rest)
    ensures AllValid(sent + [f]) && Wire(sent + [f]) == Wire(sent) + FrameBytes(f)
    ensures AllValid((sent + [f]) + rest) && Wire((sent + [f]) + rest) == Wire(sent + [f]) + Wire(rest)
  {
    hide *;
    WireOfOne(f);
    WireAppend(sent, [f]);
    WireAppend(sent + [f], rest);
  }

  lemma WireSplit(fs: seq<Frame>, i: nat)
    requires AllValid(fs) && i < |fs|
    ensures AllValid(fs[..i]) && AllValid(fs[..i + 1])
    ensures Wire(fs[..i + 1]) == Wire(fs[..i]) + FrameBytes(fs[i])
    ensures Wire(fs[..i + 1]) <= Wire(fs)
  {
    hide *;
    PartsValid(fs, i);
    SplitsAt(fs, i);
    WireSnoc(fs[..i], fs[i], fs[i + 1..]);
  }

  lemma {:induction false} HandleAllSnoc(opener: Option<Opener>, s: Received, fs: seq<Frame>, f: Frame)
    requires !HandleAll(opener, s, fs).raised
    ensures HandleAll(opener, s, fs + [f]) == Handle(opener, HandleAll(opener, s, fs), f)
    decreases |fs|
  {
    if fs == [] {
      assert fs + [f] == [f];
    } else {
      assert (fs + [f])[1..] == fs[1..] + [f];
      HandleAllSnoc(opener, Handle(opener, s, fs[0]), fs[1..], f);
    }
  }

  /** Frames after the one that raised make no difference. */
  lemma {:induction false} HandleAllStops(opener: Option<Opener>, s: Received, fs: seq<Frame>, all: seq<Frame>)
    requires fs <= all && (fs == all || HandleAll(opener, s, fs).raised)
    ensures HandleAll(opener, s, all) == HandleAll(opener, s, fs)
    decreases |fs|
  {
    if fs != [] && !s.raised {
      HandleAllStops(opener, Handle(opener, s, fs[0]), fs[1..], all[1..]);
    }
  }

  lemma ParseAllStep(fs: seq<Frame>, s: seq<byte>)
    ensures ParseOne(s).None? ==> ParseAll(s) == []
    ensures ParseOne(s).Some? ==> fs + ParseAll(s) == (fs + [ParseOne(s).value.0]) + ParseAll(ParseOne(s).value.1)
  {
  }
}
