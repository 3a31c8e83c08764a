/** Wire frames of the Android Auto link: policy bits, framing, fragmentation and reassembly. */
module FrameCodec {
  import opened Bytes

  const THRESHOLD: nat := 4096

  // Frame type, the two low bits of the flags byte.
  const MIDDLE: byte := 0
  const FIRST: byte := 1
  const LAST: byte := 2
  const BULK: byte := 3

  // Message type bit and encryption bit.
  const CONTROL: byte := 4
  const ENCRYPTED: byte := 8

  const CHANNEL_OPEN_RESPONSE: int := 0x0008
  const CH0_PLAIN_IDS: set<int> := {0x0001, 0x0002, 0x0003, 0x0004, 0x000B, 0x000C}

  /** One frame as it stands on the wire. Only a FIRST frame has a total-size field. */
  datatype Frame = Frame(channel: byte, flags: byte, payload: seq<byte>, total: nat) {
    function Type(): byte { flags % 4 }

    predicate Valid() {
      && |payload| < 0x1_0000
      && total < 0x1_0000_0000
      && (Type() != FIRST ==> total == 0)
    }
  }

  /** A complete message, as the assembler hands it on. */
  datatype Assembled = Assembled(channel: byte, flags: byte, payload: seq<byte>, total: nat)

  datatype EncodeError = ChannelOutOfRange | MessageIdOutOfRange | LengthOutOfRange | TotalOutOfRange

  /** The bytes of a frame. */
  function FrameBytes(f: Frame): (r: seq<byte>)
    requires f.Valid()
    ensures |r| == 4 + (if f.Type() == FIRST then 4 else 0) + |f.payload|
  {
    [f.channel, f.flags] + BigEndian(|f.payload|, 2) +
    (if f.Type() == FIRST then BigEndian(f.total, 4) else []) + f.payload
  }

  ghost predicate AllValid(fs: seq<Frame>) {
    forall i :: 0 <= i < |fs| ==> fs[i].Valid()
  }

  /** The bytes of a list of frames sent back to back. */
  ghost function Wire(fs: seq<Frame>): seq<byte>
    requires AllValid(fs)
  {
    if fs == [] then [] else FrameBytes(fs[0]) + Wire(fs[1..])
  }

  lemma ValidAppend(a: seq<Frame>, b: seq<Frame>)
    requires AllValid(a) && AllValid(b)
    ensures AllValid(a + b) && (a != [] ==> AllValid(a[1..]) && a[0].Valid())
  {
  }

  lemma {:induction false} WireAppend(a: seq<Frame>, b: seq<Frame>)
    requires AllValid(a) && AllValid(b)
    ensures AllValid(a + b)
    ensures Wire(a + b) == Wire(a) + Wire(b)
  {
    ValidAppend(a, b);
    hide AllValid, FrameBytes;
    if a == [] {
      NothingBefore(b);
      NothingBefore(Wire(b));
    } else {
      WireAppend(a[1..], b);
      TailOfAppend(a, b);
      Associative(FrameBytes(a[0]), Wire(a[1..]), Wire(b));
    }
  }

  // ---------------------------------------------------------------------------
  // Policy
  // ---------------------------------------------------------------------------

  function MessageType(channel: int, id: int): (r: byte)
    ensures r == CONTROL <==> channel != 0 && id == CHANNEL_OPEN_RESPONSE
    ensures r in {0, CONTROL}
  {
    if channel != 0 && id == CHANNEL_OPEN_RESPONSE then CONTROL else 0
  }

  function EncryptionType(channel: int, id: int, sslActive: bool): (r: byte)
    ensures r == ENCRYPTED <==> sslActive && !(channel == 0 && id in CH0_PLAIN_IDS)
    ensures r in {0, ENCRYPTED}
  {
    if !sslActive then 0
    else if channel == 0 && id in CH0_PLAIN_IDS then 0
    else ENCRYPTED
  }

  // ---------------------------------------------------------------------------
  // Fragmentation
  // ---------------------------------------------------------------------------

  /** How many frames a payload of n bytes needs. */
  function FrameCount(n: nat): nat {
    if n <= THRESHOLD then 1 else (n + 4095) / 4096
  }

  function Min(a: int, b: int): int { if a <= b then a else b }

  /** Frame number i of a payload that is sent with the given message and encryption bits. */
  function Fragment(channel: byte, bits: byte, payload: seq<byte>, i: nat): Frame
    requires bits % 4 == 0
    requires |payload| > THRESHOLD && i < FrameCount(|payload|)
  {
    var kind := if i == 0 then FIRST else if i == FrameCount(|payload|) - 1 then LAST else MIDDLE;
    Frame(channel, kind + bits, payload[4096 * i..Min(4096 * (i + 1), |payload|)],
          if i == 0 then |payload| else 0)
  }

  /** All frames of a payload, in transmission order. */
  function Fragments(channel: byte, bits: byte, payload: seq<byte>): (fs: seq<Frame>)
    requires bits % 4 == 0
    ensures |fs| == FrameCount(|payload|)
    ensures |payload| <= 4096 * |fs| && (|fs| > 1 ==> 4096 * (|fs| - 1) < |payload|)
  {
    if |payload| <= THRESHOLD then [Frame(channel, BULK + bits, payload, 0)]
    else seq(FrameCount(|payload|), i requires 0 <= i < FrameCount(|payload|) => Fragment(channel, bits, payload, i))
  }

  function Payloads(fs: seq<Frame>): (r: seq<seq<byte>>)
    ensures |r| == |fs|
  {
    seq(|fs|, i requires 0 <= i < |fs| => fs[i].payload)
  }

  lemma PayloadsSnoc(fs: seq<Frame>, k: nat)
    requires k < |fs|
    ensures Payloads(fs[..k + 1]) == Payloads(fs[..k]) + [fs[k].payload]
  {
  }

  lemma FragmentOf(channel: byte, bits: byte, payload: seq<byte>, k: nat)
    requires bits % 4 == 0 && |payload| > THRESHOLD && k < FrameCount(|payload|)
    ensures Fragments(channel, bits, payload)[k].payload == payload[4096 * k..Min(4096 * (k + 1), |payload|)]
    ensures payload[..4096 * k] + payload[4096 * k..Min(4096 * (k + 1), |payload|)] ==
            payload[..Min(4096 * (k + 1), |payload|)]
  {
  }

  /** The first k fragments hold the first min(4096 k, n) payload bytes. */
  lemma {:induction false} FragmentsPrefix(channel: byte, bits: byte, payload: seq<byte>, k: nat)
    requires bits % 4 == 0
    requires |payload| > THRESHOLD && k <= FrameCount(|payload|)
    ensures Flatten(Payloads(Fragments(channel, bits, payload)[..k])) == payload[..Min(4096 * k, |payload|)]
  {
    var fs := Fragments(channel, bits, payload);
    if k == 0 {
      assert Payloads(fs[..0]) == [];
    } else {
      FragmentsPrefix(channel, bits, payload, k - 1);
      FragmentOf(channel, bits, payload, k - 1);
      PayloadsSnoc(fs, k - 1);
      hide Fragments, Payloads, Flatten;
      FlattenSnoc(Payloads(fs[..k - 1]), fs[k - 1].payload);
    }
  }

  /** The fragmentation arithmetic, for every payload that does not fit in one frame. */
  lemma FragmentsCarryPayload(channel: byte, bits: byte, payload: seq<byte>)
    requires bits % 4 == 0
    requires |payload| > THRESHOLD
    ensures var fs := Fragments(channel, bits, payload);
      && 4096 * (|fs| - 1) < |payload| <= 4096 * |fs|
      && |fs| >= 2
      && fs[0].Type() == FIRST && fs[0].total == |payload|
      && fs[|fs| - 1].Type() == LAST
      && (forall i :: 0 < i < |fs| - 1 ==> fs[i].Type() == MIDDLE)
      && (forall i :: 0 <= i < |fs| ==>
            && 0 < |fs[i].payload| <= THRESHOLD
            && fs[i].channel == channel
            && fs[i].flags - fs[i].Type() == bits
            && (i > 0 ==> fs[i].total == 0))
      && Flatten(Payloads(fs)) == payload
  {
    var fs := Fragments(channel, bits, payload);
    FragmentsPrefix(channel, bits, payload, |fs|);
    assert fs[..|fs|] == fs;
    assert payload[..|payload|] == payload;
  }

  lemma FragmentsValid(channel: byte, bits: byte, payload: seq<byte>)
    requires bits % 4 == 0
    requires |payload| > THRESHOLD ==> |payload| < 0x1_0000_0000
    ensures AllValid(Fragments(channel, bits, payload))
  {
    if |payload| > THRESHOLD {
      FragmentsCarryPayload(channel, bits, payload);
    }
  }

  // ---------------------------------------------------------------------------
  // encode
  // ---------------------------------------------------------------------------

  /** One frame; packing it fails for a channel, a length or a total size that does not fit its field. The
      total is written in FIRST frames only. */
  function BuildFrame(channel: int, flags: byte, payload: seq<byte>, total: Option<nat>)
    : (r: Result<Frame, EncodeError>)
    requires flags % 4 == FIRST ==> total.Some?
    ensures r.Ok? <==>
      0 <= channel < 256 && |payload| < 0x1_0000 && (flags % 4 == FIRST ==> total.value < 0x1_0000_0000)
    ensures r.Ok? ==> r.value.Valid()
  {
    if !(0 <= channel < 256) then Err(ChannelOutOfRange)
    else if |payload| >= 0x1_0000 then Err(LengthOutOfRange)
    else if flags % 4 != FIRST then Ok(Frame(channel, flags, payload, 0))
    else if total.value >= 0x1_0000_0000 then Err(TotalOutOfRange)
    else Ok(Frame(channel, flags, payload, total.value))
  }

  /** The payload from a fragment boundary on, cut at the next boundary. */
  lemma FragmentAt(channel: byte, bits: byte, payload: seq<byte>, k: nat)
    requires bits % 4 == 0
    requires |payload| > THRESHOLD && 0 < k && 4096 * k < |payload|
    ensures k < FrameCount(|payload|)
    ensures Fragment(channel, bits, payload, k) ==
      if |payload| - 4096 * k > THRESHOLD
      then Frame(channel, MIDDLE + bits, payload[4096 * k..4096 * k + THRESHOLD], 0)
      else Frame(channel, LAST + bits, payload[4096 * k..], 0)
    ensures k == FrameCount(|payload|) - 1 <==> |payload| - 4096 * k <= THRESHOLD
  {
  }

  /** The frames of the multi-frame path; a payload that needs no second frame still gets an empty LAST. */
  function SplitFrames(channel: byte, bits: byte, payload: seq<byte>): seq<Frame>
    requires bits % 4 == 0
  {
    if |payload| > THRESHOLD then Fragments(channel, bits, payload)
    else [Frame(channel, FIRST + bits, payload, |payload|), Frame(channel, LAST + bits, [], 0)]
  }

  lemma SplitFirst(channel: byte, bits: byte, payload: seq<byte>)
    requires bits % 4 == 0
    ensures var fs := SplitFrames(channel, bits, payload);
      |fs| >= 2 && fs[..1] == [Frame(channel, FIRST + bits, payload[..Min(THRESHOLD, |payload|)], |payload|)]
  {
    var fs := SplitFrames(channel, bits, payload);
    assert payload[..|payload|] == payload;
    if |payload| > THRESHOLD {
      assert fs[0] == Fragment(channel, bits, payload, 0);
    }
    assert fs[..1] == [fs[0]];
  }

  /** What the loop adds after k frames: a MIDDLE frame while more than a chunk is left, and then the LAST. */
  lemma SplitNext(channel: byte, bits: byte, payload: seq<byte>, k: nat)
    requires bits % 4 == 0 && 0 < k && (k == 1 || 4096 * k < |payload|)
    ensures var fs := SplitFrames(channel, bits, payload);
      if |payload| - 4096 * k > THRESHOLD
      then k + 1 < |fs|
        && fs[..k + 1] == fs[..k] + [Frame(channel, MIDDLE + bits, payload[4096 * k..4096 * k + THRESHOLD], 0)]
      else k + 1 == |fs| && fs == fs[..k] + [Frame(channel, LAST + bits, payload[Min(4096 * k, |payload|)..], 0)]
  {
    var fs := SplitFrames(channel, bits, payload);
    if |payload| > THRESHOLD {
      FragmentAt(channel, bits, payload, k);
      assert fs[k] == Fragment(channel, bits, payload, k);
      hide Fragments, Fragment;
    } else {
      assert payload[Min(4096, |payload|)..] == [];
    }
    assert fs[..k + 1] == fs[..k] + [fs[k]];
    assert fs[..|fs|] == fs;
  }

  /** Splits a payload into FIRST, any number of MIDDLE, and LAST. */
  method BuildMultiFrame(channel: int, bits: byte, payload: seq<byte>) returns (r: Result<seq<Frame>, EncodeError>)
    requires bits % 4 == 0
    ensures r.Ok? <==> 0 <= channel < 256 && |payload| < 0x1_0000_0000
    ensures r.Ok? ==> r.value == SplitFrames(channel, bits, payload)
  {
    hide SplitFrames;
    var total := |payload|;
    var offset := 0;
    var first := BuildFrame(channel, FIRST + bits, payload[offset..Min(offset + THRESHOLD, total)], Some(total));
    if first.Err? {
      return Err(first.error);
    }
    SplitFirst(channel, bits, payload);
    var frames := [first.value];
    offset := offset + THRESHOLD;
    ghost var fs := SplitFrames(channel, bits, payload);
    while total - offset > THRESHOLD
      invariant offset == 4096 * |frames| && 1 <= |frames| < |fs|
      invariant |frames| == 1 || offset < total
      invariant frames == fs[..|frames|]
    {
      SplitNext(channel, bits, payload, |frames|);
      var middle := BuildFrame(channel, MIDDLE + bits, payload[offset..offset + THRESHOLD], None);
      frames := frames + [middle.value];
      offset := offset + THRESHOLD;
    }
    SplitNext(channel, bits, payload, |frames|);
    var last := BuildFrame(channel, LAST + bits, payload[Min(offset, total)..], None);
    frames := frames + [last.value];
    return Ok(frames);
  }

  /** A message handed to encode, and what its wire payload is. */
  datatype Message = Message(channel: int, id: int, body: seq<byte>, sslActive: bool) {
    /** The values struct.pack accepts. */
    predicate InRange() { 0 <= channel < 256 && 0 <= id < 0x1_0000 }

    /** The message id, big-endian, followed by the body. */
    function Plain(): (r: seq<byte>)
      requires InRange()
      ensures |r| == 2 + |body|
    {
      BigEndian(id, 2) + body
    }
  }

  /** An active TLS object: what record number n looks like for a given plaintext. */
  type Sealer = (nat, seq<byte>) -> seq<byte>

  /** True if the message is encrypted; without an active cryptor encode falls back to plain. */
  predicate Seals(m: Message, cryptor: Option<Sealer>) {
    EncryptionType(m.channel, m.id, m.sslActive) == ENCRYPTED && cryptor.Some?
  }

  function WirePayload(m: Message, cryptor: Option<Sealer>, n: nat): seq<byte>
    requires m.InRange()
  {
    if Seals(m, cryptor) then cryptor.value(n, m.Plain()) else m.Plain()
  }

  function Bits(m: Message, cryptor: Option<Sealer>): (r: byte)
    ensures r in {0, CONTROL, ENCRYPTED, CONTROL + ENCRYPTED}
    ensures r >= ENCRYPTED <==> Seals(m, cryptor)
  {
    MessageType(m.channel, m.id) + (if Seals(m, cryptor) then ENCRYPTED else 0)
  }

  /** A message that encode turns into frames: everything fits its wire field. */
  predicate Encodable(m: Message, cryptor: Option<Sealer>, n: nat) {
    m.InRange() && (|WirePayload(m, cryptor, n)| > THRESHOLD ==> |WirePayload(m, cryptor, n)| < 0x1_0000_0000)
  }

  /** The frames of a message, in transmission order. */
  function MessageFrames(m: Message, cryptor: Option<Sealer>, n: nat): seq<Frame>
    requires Encodable(m, cryptor, n)
  {
    Fragments(m.channel, Bits(m, cryptor), WirePayload(m, cryptor, n))
  }

  lemma SealsExactly(m: Message, cryptor: Option<Sealer>)
    ensures Seals(m, cryptor) <==>
      && m.sslActive && cryptor.Some?
      && !(m.channel == 0 && (m.id == 1 || m.id == 2 || m.id == 3 || m.id == 4 || m.id == 11 || m.id == 12))
  {
  }

  lemma BitsShow(m: Message, cryptor: Option<Sealer>, flags: byte)
    requires flags - flags % 4 == Bits(m, cryptor)
    ensures flags < 16
    ensures flags / 4 % 2 == 1 <==> m.channel != 0 && m.id == 8
    ensures flags / 8 % 2 == 1 <==> Seals(m, cryptor)
  {
  }

  /** How a message shows on the wire: every one of its frames names its channel, carries the control bit just
      for channel open responses off channel 0, and the encrypted bit just if the message is sealed, which with
      an active TLS object is all but the handshake messages of channel 0. */
  lemma MessageFollowsPolicy(m: Message, cryptor: Option<Sealer>, n: nat)
    requires Encodable(m, cryptor, n)
    ensures var fs := MessageFrames(m, cryptor, n);
      var handshake :=
        m.channel == 0 && (m.id == 1 || m.id == 2 || m.id == 3 || m.id == 4 || m.id == 11 || m.id == 12);
      var sealed := m.sslActive && cryptor.Some? && !handshake;
      && (forall i :: 0 <= i < |fs| ==>
            && fs[i].channel == m.channel && fs[i].flags < 16
            && (fs[i].flags / 4 % 2 == 1 <==> m.channel != 0 && m.id == 8)
            && (fs[i].flags / 8 % 2 == 1 <==> sealed))
      && Flatten(Payloads(fs)) == if sealed then cryptor.value(n, m.Plain()) else m.Plain()
  {
    SealsExactly(m, cryptor);
    hide Seals;
    var payload, bits := WirePayload(m, cryptor, n), Bits(m, cryptor);
    var fs := MessageFrames(m, cryptor, n);
    if |payload| > THRESHOLD {
      FragmentsCarryPayload(m.channel, bits, payload);
      hide Fragments, Bits;
    } else {
      assert fs == [Frame(m.channel, BULK + bits, payload, 0)];
      assert Payloads(fs) == [] + [payload];
      FlattenSnoc([], payload);
      hide Fragments, Bits;
    }
    forall i | 0 <= i < |fs|
      ensures fs[i].flags - fs[i].flags % 4 == bits
    {
    }
    forall i | 0 <= i < |fs| {
      BitsShow(m, cryptor, fs[i].flags);
    }
  }

  /** Where a message begins and ends on the wire: bit 0 marks its first frame and bit 1 its last. Only the first
      of several frames declares the total, and all but the last are full. */
  lemma MessageIsMarked(m: Message, cryptor: Option<Sealer>, n: nat)
    requires Encodable(m, cryptor, n)
    ensures var fs, size := MessageFrames(m, cryptor, n), |WirePayload(m, cryptor, n)|;
      && |fs| >= 1 && (|fs| == 1 <==> size <= 4096)
      && forall i :: 0 <= i < |fs| ==>
           && (fs[i].flags % 2 == 1 <==> i == 0)
           && (fs[i].flags / 2 % 2 == 1 <==> i == |fs| - 1)
           && fs[i].total == (if i == 0 < |fs| - 1 then size else 0)
           && (i < |fs| - 1 ==> |fs[i].payload| == 4096)
           && (i == |fs| - 1 ==> |fs[i].payload| == size - 4096 * i)
  {
    var payload, bits := WirePayload(m, cryptor, n), Bits(m, cryptor);
    var fs := MessageFrames(m, cryptor, n);
    if |payload| > THRESHOLD {
      forall i | 0 <= i < |fs|
        ensures fs[i] == Fragment(m.channel, bits, payload, i)
      {
      }
      hide Fragments, Bits;
    }
  }

  /** The bytes of a frame, one by one. */
  lemma FrameLayout(f: Frame)
    requires f.Valid()
    ensures var b := FrameBytes(f);
      && |b| >= 4 && b[0] == f.channel && b[1] == f.flags && 256 * b[2] as int + b[3] as int == |f.payload|
      && if f.flags % 4 == 1
         then
           && |b| >= 8 && b[8..] == f.payload
           && 0x100_0000 * b[4] as int + 0x1_0000 * b[5] as int + 256 * b[6] as int + b[7] as int == f.total
         else b[4..] == f.payload
  {
    var b := FrameBytes(f);
    BigEndianRoundTrip(|f.payload|, 2);
    BigEndianWeights(BigEndian(|f.payload|, 2));
    BigEndianRoundTrip(f.total, 4);
    BigEndianWeights(BigEndian(f.total, 4));
    hide BigEndian, FromBigEndian;
  }

  /** The plain payload, byte by byte. */
  lemma PlainLayout(m: Message)
    requires m.InRange()
    ensures 256 * m.Plain()[0] as int + m.Plain()[1] as int == m.id && m.Plain()[2..] == m.body
  {
    BigEndianRoundTrip(m.id, 2);
    BigEndianWeights(BigEndian(m.id, 2));
    hide BigEndian, FromBigEndian;
  }

  /** Serialises a message; fails exactly when some value does not fit its field. */
  method Encode(m: Message, cryptor: Option<Sealer>, n: nat) returns (r: Result<seq<Frame>, EncodeError>)
    ensures r.Ok? <==> Encodable(m, cryptor, n)
    ensures r.Ok? ==> r.value == MessageFrames(m, cryptor, n) && AllValid(r.value)
  {
    var msgType := MessageType(m.channel, m.id);
    var encType := EncryptionType(m.channel, m.id, m.sslActive);
    if !(0 <= m.id < 0x1_0000) {
      return Err(MessageIdOutOfRange);
    }
    var payload := BigEndian(m.id, 2) + m.body;
    if encType == ENCRYPTED {
      if cryptor.None? {
        encType := 0;
      } else {
        payload := cryptor.value(n, payload);
      }
    }
    if |payload| <= THRESHOLD {
      var frame := BuildFrame(m.channel, BULK + msgType + encType, payload, None);
      if frame.Err? {
        return Err(frame.error);
      }
      return Ok([frame.value]);
    }
    r := BuildMultiFrame(m.channel, msgType + encType, payload);
    if r.Ok? {
      FragmentsValid(m.channel, msgType + encType, payload);
    }
  }
}
