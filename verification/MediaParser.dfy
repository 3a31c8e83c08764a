/** The parser of timestamped media bodies and its counterpart for outgoing ones. */
module MediaParser {
  import opened Bytes
  import opened Varint

  /** The position after an unknown field; None if it cannot be skipped. */
  function SkipField(buf: seq<byte>, pos: nat, wire: nat): (r: Option<nat>)
    requires pos <= |buf|
    ensures r.Some? ==> pos <= r.value <= |buf|
  {
    if wire == 0 then
      ReadClassified(buf, pos, MAX_BYTES);
      Some(ReadAt(buf, pos, MAX_BYTES).next)
    else if wire == 1 then
      if pos + 8 <= |buf| then Some(pos + 8) else None
    else if wire == 2 then
      ReadClassified(buf, pos, MAX_BYTES);
      var length := ReadAt(buf, pos, MAX_BYTES);
      if length.value.None? then None
      else if length.next + length.value.value <= |buf| then Some(length.next + length.value.value) else None
    else if wire == 5 then
      if pos + 4 <= |buf| then Some(pos + 4) else None
    else None
  }

  datatype Media = Media(ts: nat, data: seq<byte>)

  function Clip(buf: seq<byte>, from: nat, length: nat): seq<byte>
    requires from <= |buf|
  {
    if from + length <= |buf| then buf[from..from + length] else buf[from..]
  }

  /** One turn of the field scan: the fields found so far and where to go on; None ends the scan. */
  function ScanField(body: seq<byte>, pos: nat, found: Media): (r: (Media, Option<nat>))
    requires pos < |body|
    ensures r.1.Some? ==> r.1.value > pos
  {
    var number, wire, p := body[pos] / 8, body[pos] % 8, pos + 1;
    if number == 1 && wire == 1 then
      if p + 8 > |body| then (found, None)
      else (found.(ts := FromLittleEndian(body[p..p + 8])), Some(p + 8))
    else if number == 2 && wire == 2 then
      ReadClassified(body, p, MAX_BYTES);
      var length := ReadAt(body, p, MAX_BYTES);
      if length.value.None? then (found, None)
      else (found.(data := Clip(body, length.next, length.value.value)), Some(length.next + length.value.value))
    else (found, SkipField(body, p, wire))
  }

  function Scan(body: seq<byte>, pos: nat, found: Media): Media
    decreases if pos < |body| then |body| - pos else 0
  {
    if pos >= |body| then found
    else
      var (found', next) := ScanField(body, pos, found);
      if next.None? then found' else Scan(body, next.value, found')
  }

  function ScanAll(body: seq<byte>): Media { Scan(body, 0, Media(0, [])) }

  /** How a body is read: by its fields if they end with a payload, else as eight timestamp bytes and data. */
  function Parse(body: seq<byte>): Media {
    var found := ScanAll(body);
    if found.data != [] then found
    else if |body| > 8 then Media(FromBigEndian(body[..8]), body[8..])
    else found
  }

  /** Eight big-endian bytes, then the data; packing a timestamp out of range raises. */
  function Build(ts: int, data: seq<byte>): (r: Option<seq<byte>>)
    ensures r.Some? <==> 0 <= ts < Limit(8)
  {
    if 0 <= ts < Limit(8) then Some(BigEndian(ts, 8) + data) else None
  }

  lemma ScanEnds(body: seq<byte>, pos: nat, found: Media)
    ensures pos >= |body| ==> Scan(body, pos, found) == found
    ensures pos == 0 && found == Media(0, []) ==> Scan(body, pos, found) == ScanAll(body)
  {
  }

  lemma TimestampTurn(body: seq<byte>, pos: nat, found: Media)
    requires pos < |body| && body[pos] / 8 == 1 && body[pos] % 8 == 1
    ensures Scan(body, pos, found) ==
      if pos + 9 > |body| then found
      else Scan(body, pos + 9, found.(ts := FromLittleEndian(body[pos + 1..pos + 9])))
  {
    hide FromLittleEndian;
  }

  lemma PayloadTurn(body: seq<byte>, pos: nat, found: Media)
    requires pos < |body| && body[pos] / 8 == 2 && body[pos] % 8 == 2
    ensures var length := ReadAt(body, pos + 1, MAX_BYTES);
      && pos < length.next <= |body|
      && Scan(body, pos, found) ==
         if length.value.None? then found
         else Scan(body, length.next + length.value.value, found.(data := Clip(body, length.next, length.value.value)))
  {
    ReadClassified(body, pos + 1, MAX_BYTES);
    hide ReadAt, Clip;
  }

  lemma OtherTurn(body: seq<byte>, pos: nat, found: Media)
    requires pos < |body| && !(body[pos] / 8 == 1 && body[pos] % 8 == 1) && !(body[pos] / 8 == 2 && body[pos] % 8 == 2)
    ensures var next := SkipField(body, pos + 1, body[pos] % 8);
      Scan(body, pos, found) == if next.None? then found else Scan(body, next.value, found)
  {
    hide SkipField;
  }

  lemma ParseIs(body: seq<byte>, found: Media, raw: Media)
    requires found == ScanAll(body)
    requires raw == if |body| >= 8 then Media(FromBigEndian(body[..8]), body[8..]) else Media(0, [])
    ensures Parse(body) == if found.data != [] then found else if raw.data != [] then raw else found
  {
    hide ScanAll, FromBigEndian;
  }

  method ParseMediaWithTimestamp(body: seq<byte>) returns (r: Media)
    ensures r == Parse(body)
  {
    hide *;
    var ts, data := 0, [];
    var rawTs, rawData := 0, [];
    if |body| >= 8 {
      rawTs := FromBigEndian(body[..8]);
      rawData := body[8..];
    }
    var pos := 0;
    ScanEnds(body, pos, Media(ts, data));
    while pos < |body|
      invariant Scan(body, pos, Media(ts, data)) == ScanAll(body)
      decreases |body| - pos
    {
      ghost var start := pos;
      var tag := body[pos];
      pos := pos + 1;
      var number, wire := tag / 8, tag % 8;
      if number == 1 && wire == 1 {
        TimestampTurn(body, start, Media(ts, data));
        if pos + 8 > |body| {
          break;
        }
        ts := FromLittleEndian(body[pos..pos + 8]);
        pos := pos + 8;
      } else if number == 2 && wire == 2 {
        PayloadTurn(body, start, Media(ts, data));
        var length, next := ReadVarint(body, pos);
        if length.None? {
          break;
        }
        data := Clip(body, next, length.value);
        pos := next + length.value;
      } else {
        OtherTurn(body, start, Media(ts, data));
        var next := SkipField(body, pos, wire);
        if next.None? {
          break;
        }
        pos := next.value;
      }
    }
    ScanEnds(body, pos, Media(ts, data));
    ParseIs(body, Media(ts, data), Media(rawTs, rawData));
    if data != [] {
      return Media(ts, data);
    }
    if rawData != [] {
      return Media(rawTs, rawData);
    }
    return Media(ts, data);
  }

  // ---------------------------------------------------------------------------
  // Well-formed protobuf bodies
  // ---------------------------------------------------------------------------

  /** A field of a protobuf message: the two that matter, and others of every wire type in use. A varint that is
      skipped may be overlong: ten bytes that all carry the continuation bit. */
  datatype Field =
    | Timestamp(ts: nat)
    | Payload(length: seq<byte>, data: seq<byte>)
    | OtherVarint(number: nat, digits: seq<byte>)
    | Overlong(number: nat, digits: seq<byte>)
    | OtherFixed64(number: nat, bytes: seq<byte>)
    | OtherBytes(number: nat, length: seq<byte>, data: seq<byte>)
    | OtherFixed32(number: nat, bytes: seq<byte>)
  {
    ghost predicate Valid() {
      match this
      case Timestamp(ts) => ts < Limit(8)
      case Payload(length, data) => IsVarint(length) && Base128(length) == |data|
      case OtherVarint(number, digits) => number < 32 && IsVarint(digits)
      case Overlong(number, digits) => number < 32 && |digits| == 10 && Continues(digits, 0, 10)
      case OtherFixed64(number, bytes) => number < 32 && number != 1 && |bytes| == 8
      case OtherBytes(number, length, data) =>
        number < 32 && number != 2 && IsVarint(length) && Base128(length) == |data|
      case OtherFixed32(number, bytes) => number < 32 && |bytes| == 4
    }

    ghost function Encode(): (b: seq<byte>)
      requires Valid()
      ensures |b| >= 1
    {
      match this
      case Timestamp(ts) => [9] + LittleEndian(ts, 8)
      case Payload(length, data) => [18] + length + data
      case OtherVarint(number, digits) => [8 * number] + digits
      case Overlong(number, digits) => [8 * number] + digits
      case OtherFixed64(number, bytes) => [8 * number + 1] + bytes
      case OtherBytes(number, length, data) => [8 * number + 2] + length + data
      case OtherFixed32(number, bytes) => [8 * number + 5] + bytes
    }

    ghost function Apply(found: Media): Media {
      match this
      case Timestamp(ts) => found.(ts := ts)
      case Payload(_, data) => found.(data := data)
      case _ => found
    }
  }

  ghost predicate AllValid(fs: seq<Field>) {
    forall i :: 0 <= i < |fs| ==> fs[i].Valid()
  }

  ghost function EncodeAll(fs: seq<Field>): seq<byte>
    requires AllValid(fs)
  {
    if fs == [] then [] else fs[0].Encode() + EncodeAll(fs[1..])
  }

  ghost function ApplyAll(fs: seq<Field>, found: Media): Media
    decreases |fs|
  {
    if fs == [] then found else ApplyAll(fs[1..], fs[0].Apply(found))
  }

  ghost predicate StandsAt(body: seq<byte>, pos: nat, b: seq<byte>) {
    pos + |b| <= |body| && body[pos..pos + |b|] == b
  }

  /** Two strings next to each other. */
  lemma StandsBoth(body: seq<byte>, p: nat, a: seq<byte>, b: seq<byte>)
    requires StandsAt(body, p, a + b)
    ensures StandsAt(body, p, a) && StandsAt(body, p + |a|, b)
  {
    var part := body[p..p + |a + b|];
    assert part[..|a|] == a && part[|a|..] == b;
  }

  /** Reading a length prefix and the bytes it announces. */
  lemma ReadsPrefixed(body: seq<byte>, p: nat, length: seq<byte>, data: seq<byte>)
    requires IsVarint(length) && Base128(length) == |data| && StandsAt(body, p, length + data)
    ensures p + |length| + |data| <= |body|
    ensures ReadAt(body, p, MAX_BYTES) == Read(Some(|data|), p + |length|)
    ensures Clip(body, p + |length|, |data|) == data
  {
    hide ReadAt, Base128;
    StandsBoth(body, p, length, data);
    ReadsAnyVarint(body, p, length, MAX_BYTES);
  }

  lemma ScanReadsTimestamp(body: seq<byte>, pos: nat, f: Field, found: Media)
    requires f.Timestamp? && f.Valid() && StandsAt(body, pos, f.Encode())
    ensures ScanField(body, pos, found) == (f.Apply(found), Some(pos + |f.Encode()|))
  {
    SliceTail(body, pos, pos + 9);
    hide LittleEndian, FromLittleEndian, Limit;
    assert f.Encode()[1..] == LittleEndian(f.ts, 8);
    LittleEndianRoundTrip(f.ts, 8);
  }

  /** What stands behind a tag byte. */
  lemma AfterTag(body: seq<byte>, pos: nat, tag: byte, rest: seq<byte>)
    requires StandsAt(body, pos, [tag] + rest)
    ensures pos < |body| && body[pos] == tag && StandsAt(body, pos + 1, rest)
  {
    StandsBoth(body, pos, [tag], rest);
    assert body[pos] == body[pos..pos + 1][0];
  }

  lemma PayloadTag(body: seq<byte>, pos: nat, found: Media)
    requires pos < |body| && body[pos] == 18
    ensures var length := ReadAt(body, pos + 1, MAX_BYTES);
      length.value.Some? && length.next <= |body| ==>
        ScanField(body, pos, found) ==
        (found.(data := Clip(body, length.next, length.value.value)), Some(length.next + length.value.value))
  {
    hide ReadAt, Clip, SkipField;
  }

  lemma PayloadShape(f: Field, found: Media)
    requires f.Payload? && f.Valid()
    ensures f.Encode() == [18] + (f.length + f.data) && f.Apply(found) == found.(data := f.data)
    ensures IsVarint(f.length) && Base128(f.length) == |f.data|
  {
    hide IsVarint, Base128;
  }

  lemma ScanReadsPayload(body: seq<byte>, pos: nat, f: Field, found: Media)
    requires f.Payload? && f.Valid() && StandsAt(body, pos, f.Encode())
    ensures ScanField(body, pos, found) == (f.Apply(found), Some(pos + |f.Encode()|))
  {
    hide *;
    PayloadShape(f, found);
    AfterTag(body, pos, 18, f.length + f.data);
    PayloadTag(body, pos, found);
    ReadsPrefixed(body, pos + 1, f.length, f.data);
  }

  /** The tag of any other field leads to the skip of its wire type. */
  lemma OtherTag(body: seq<byte>, pos: nat, number: nat, wire: nat, found: Media)
    requires pos < |body| && number < 32 && wire < 8 && body[pos] == 8 * number + wire
    requires !(number == 1 && wire == 1) && !(number == 2 && wire == 2)
    ensures ScanField(body, pos, found) == (found, SkipField(body, pos + 1, wire))
  {
    hide ReadAt, Clip, SkipField;
    assert body[pos] / 8 == number && body[pos] % 8 == wire;
  }

  lemma SkipsVarint(body: seq<byte>, p: nat, digits: seq<byte>)
    requires IsVarint(digits) && StandsAt(body, p, digits)
    ensures SkipField(body, p, 0) == Some(p + |digits|)
  {
    hide ReadAt;
    ReadsAnyVarint(body, p, digits, MAX_BYTES);
  }

  lemma SkipsOverlong(body: seq<byte>, p: nat, digits: seq<byte>)
    requires |digits| == 10 && Continues(digits, 0, 10) && StandsAt(body, p, digits)
    ensures SkipField(body, p, 0) == Some(p + 10)
  {
    ReadClassified(body, p, MAX_BYTES);
    hide ReadAt;
    assert Continues(body, p, p + 10) by {
      forall i | p <= i < p + 10
        ensures body[i] >= 128
      {
        assert digits[i - p] >= 128;
      }
    }
  }

  lemma SkipsBytes(body: seq<byte>, p: nat, length: seq<byte>, data: seq<byte>)
    requires IsVarint(length) && Base128(length) == |data| && StandsAt(body, p, length + data)
    ensures SkipField(body, p, 2) == Some(p + |length| + |data|)
  {
    hide ReadAt, IsVarint, Base128, Clip, StandsAt;
    ReadsPrefixed(body, p, length, data);
  }

  lemma SkipsFixed(body: seq<byte>, p: nat, bytes: seq<byte>)
    requires StandsAt(body, p, bytes)
    ensures |bytes| == 8 ==> SkipField(body, p, 1) == Some(p + 8)
    ensures |bytes| == 4 ==> SkipField(body, p, 5) == Some(p + 4)
  {
    hide ReadAt;
  }

  /** The number and the wire type of a field that is skipped, and what is skipped. */
  lemma OtherShape(f: Field, number: nat, wire: nat, rest: seq<byte>, found: Media)
    requires f.Valid() && match f
      case OtherVarint(n, digits) => n == number && wire == 0 && rest == digits
      case Overlong(n, digits) => n == number && wire == 0 && rest == digits
      case OtherFixed64(n, bytes) => n == number && wire == 1 && rest == bytes
      case OtherBytes(n, length, data) => n == number && wire == 2 && rest == length + data
      case OtherFixed32(n, bytes) => n == number && wire == 5 && rest == bytes
      case _ => false
    ensures number < 32 && wire < 8 && !(number == 1 && wire == 1) && !(number == 2 && wire == 2)
    ensures f.Encode() == [8 * number + wire] + rest && f.Apply(found) == found
    ensures f.OtherVarint? ==> IsVarint(f.digits)
    ensures f.Overlong? ==> |f.digits| == 10 && Continues(f.digits, 0, 10)
    ensures f.OtherBytes? ==> IsVarint(f.length) && Base128(f.length) == |f.data|
    ensures f.OtherFixed64? ==> |f.bytes| == 8
    ensures f.OtherFixed32? ==> |f.bytes| == 4
  {
    hide IsVarint, Base128;
  }

  lemma ScanSkipsOther(body: seq<byte>, pos: nat, f: Field, found: Media)
    requires !f.Timestamp? && !f.Payload? && f.Valid() && StandsAt(body, pos, f.Encode())
    ensures ScanField(body, pos, found) == (f.Apply(found), Some(pos + |f.Encode()|))
  {
    hide *;
    match f
    case OtherVarint(number, digits) =>
      OtherShape(f, number, 0, digits, found);
      AfterTag(body, pos, 8 * number, digits);
      OtherTag(body, pos, number, 0, found);
      SkipsVarint(body, pos + 1, digits);
    case Overlong(number, digits) =>
      OtherShape(f, number, 0, digits, found);
      AfterTag(body, pos, 8 * number, digits);
      OtherTag(body, pos, number, 0, found);
      SkipsOverlong(body, pos + 1, digits);
    case OtherBytes(number, length, data) =>
      OtherShape(f, number, 2, length + data, found);
      AfterTag(body, pos, 8 * number + 2, length + data);
      OtherTag(body, pos, number, 2, found);
      SkipsBytes(body, pos + 1, length, data);
    case OtherFixed64(number, bytes) =>
      OtherShape(f, number, 1, bytes, found);
      AfterTag(body, pos, 8 * number + 1, bytes);
      OtherTag(body, pos, number, 1, found);
      SkipsFixed(body, pos + 1, bytes);
    case OtherFixed32(number, bytes) =>
      OtherShape(f, number, 5, bytes, found);
      AfterTag(body, pos, 8 * number + 5, bytes);
      OtherTag(body, pos, number, 5, found);
      SkipsFixed(body, pos + 1, bytes);
  }

  lemma ScanReadsField(body: seq<byte>, pos: nat, f: Field, found: Media)
    requires f.Valid() && StandsAt(body, pos, f.Encode())
    ensures ScanField(body, pos, found) == (f.Apply(found), Some(pos + |f.Encode()|))
  {
    hide Field.Encode, ScanField;
    if f.Timestamp? {
      ScanReadsTimestamp(body, pos, f, found);
    } else if f.Payload? {
      ScanReadsPayload(body, pos, f, found);
    } else {
      ScanSkipsOther(body, pos, f, found);
    }
  }

  lemma SliceTail<T>(s: seq<T>, i: nat, j: nat)
    requires i < j <= |s|
    ensures s[i] == s[i..j][0] && s[i + 1..j] == s[i..j][1..]
  {
  }

  lemma SuffixSlices<T>(s: seq<T>, i: nat, a: seq<T>, b: seq<T>)
    requires i <= |s| && s[i..] == a + b
    ensures i + |a| <= |s| && s[i..i + |a|] == a && s[i + |a|..] == b
  {
    assert s[i..][..|a|] == a && s[i..][|a|..] == b;
  }

  /** Well-formed fields are read one after the other, whatever follows them. */
  lemma {:induction false} ScanReadsFields(body: seq<byte>, pos: nat, fs: seq<Field>, rest: seq<byte>, found: Media)
    requires AllValid(fs) && pos <= |body| && body[pos..] == EncodeAll(fs) + rest
    ensures var end := pos + |EncodeAll(fs)|;
      end <= |body| && body[end..] == rest && Scan(body, pos, found) == Scan(body, end, ApplyAll(fs, found))
    decreases |fs|
  {
    hide ScanField, Field.Encode, Field.Apply, Field.Valid;
    if fs == [] {
    } else {
      var b, bs := fs[0].Encode(), EncodeAll(fs[1..]);
      Associative(b, bs, rest);
      SuffixSlices(body, pos, b, bs + rest);
      ScanReadsField(body, pos, fs[0], found);
      ScanReadsFields(body, pos + |b|, fs[1..], rest, fs[0].Apply(found));
    }
  }

  lemma {:induction false} LastFieldWins(fs: seq<Field>, found: Media, i: nat, j: nat)
    requires i < |fs| && fs[i].Timestamp? && forall k :: i < k < |fs| ==> !fs[k].Timestamp?
    requires j < |fs| && fs[j].Payload? && forall k :: j < k < |fs| ==> !fs[k].Payload?
    ensures ApplyAll(fs, found) == Media(fs[i].ts, fs[j].data)
    decreases |fs|
  {
    if i > 0 && j > 0 {
      LastFieldWins(fs[1..], fs[0].Apply(found), i - 1, j - 1);
    } else if i > 0 {
      LastTimestamp(fs[1..], fs[0].Apply(found), i - 1);
    } else {
      LastPayload(fs[1..], fs[0].Apply(found), j - 1);
    }
  }

  lemma {:induction false} LastTimestamp(fs: seq<Field>, found: Media, i: nat)
    requires i < |fs| && fs[i].Timestamp? && forall k :: i < k < |fs| ==> !fs[k].Timestamp?
    requires forall k :: 0 <= k < |fs| ==> !fs[k].Payload?
    ensures ApplyAll(fs, found) == Media(fs[i].ts, found.data)
    decreases |fs|
  {
    if i > 0 {
      LastTimestamp(fs[1..], fs[0].Apply(found), i - 1);
    } else {
      OthersChangeNothing(fs[1..], fs[0].Apply(found));
    }
  }

  lemma {:induction false} LastPayload(fs: seq<Field>, found: Media, j: nat)
    requires j < |fs| && fs[j].Payload? && forall k :: j < k < |fs| ==> !fs[k].Payload?
    requires forall k :: 0 <= k < |fs| ==> !fs[k].Timestamp?
    ensures ApplyAll(fs, found) == Media(found.ts, fs[j].data)
    decreases |fs|
  {
    if j > 0 {
      LastPayload(fs[1..], fs[0].Apply(found), j - 1);
    } else {
      OthersChangeNothing(fs[1..], fs[0].Apply(found));
    }
  }

  lemma {:induction false} OthersChangeNothing(fs: seq<Field>, found: Media)
    requires forall k :: 0 <= k < |fs| ==> !fs[k].Payload? && !fs[k].Timestamp?
    ensures ApplyAll(fs, found) == found
    decreases |fs|
  {
    if fs == [] {
    } else {
      OthersChangeNothing(fs[1..], found);
    }
  }

  /** A well-formed body parses to its last timestamp and its last payload, whatever else it holds
      and in whatever order. */
  lemma ParsesProtobufBody(fs: seq<Field>, i: nat, j: nat)
    requires AllValid(fs)
    requires i < |fs| && fs[i].Timestamp? && forall k :: i < k < |fs| ==> !fs[k].Timestamp?
    requires j < |fs| && fs[j].Payload? && forall k :: j < k < |fs| ==> !fs[k].Payload?
    requires fs[j].data != []
    ensures Parse(EncodeAll(fs)) == Media(fs[i].ts, fs[j].data)
  {
    var body := EncodeAll(fs);
    assert body[0..] == body + [];
    ScanReadsFields(body, 0, fs, [], Media(0, []));
    LastFieldWins(fs, Media(0, []), i, j);
  }

  // ---------------------------------------------------------------------------
  // Every body
  // ---------------------------------------------------------------------------

  /** A timestamp field takes nine bytes. */
  lemma {:induction false} TimestampNeedsNine(body: seq<byte>, pos: nat, found: Media)
    requires |body| - pos < 9
    ensures Scan(body, pos, found).ts == found.ts
    decreases if pos < |body| then |body| - pos else 0
  {
    if pos >= |body| {
    } else {
      var (found', next) := ScanField(body, pos, found);
      hide ReadAt;
      if next.Some? {
        TimestampNeedsNine(body, next.value, found');
      }
    }
  }

  /** The three ways a body can be read; the last one is malformed input. */
  lemma ParseClassified(body: seq<byte>)
    ensures ScanAll(body).data != [] ==> Parse(body) == ScanAll(body)
    ensures ScanAll(body).data == [] && |body| > 8 ==>
      Build(Parse(body).ts, Parse(body).data) == Some(body)
    ensures ScanAll(body).data == [] && |body| <= 8 ==> Parse(body) == Media(0, [])
  {
    if |body| <= 8 {
      TimestampNeedsNine(body, 0, Media(0, []));
    } else {
      FromBigEndianRoundTrip(body[..8]);
      assert body[..8] + body[8..] == body;
    }
  }

  // ---------------------------------------------------------------------------
  // Parsing what build_media_with_timestamp packs
  // ---------------------------------------------------------------------------

  /** What one turn can change: a timestamp moves on by nine bytes, a payload lies two bytes or more ahead. */
  lemma ScanFieldEffect(body: seq<byte>, pos: nat, found: Media)
    requires pos < |body|
    ensures var (found', next) := ScanField(body, pos, found);
      || found' == found
      || (found'.data == found.data && next == Some(pos + 9))
      || (found'.ts == found.ts && next.Some? && |found'.data| <= |body| - pos - 2 &&
          next.value >= pos + 2 + |found'.data|)
  {
    ReadClassified(body, pos + 1, MAX_BYTES);
  }

  /** A payload that the scan finds from byte 7 on is shorter than the body less its first eight bytes. */
  lemma {:induction false} LatePayloadIsShort(body: seq<byte>, pos: nat, found: Media)
    requires |body| > 8 && pos >= 7
    ensures Scan(body, pos, found).data == found.data || |Scan(body, pos, found).data| < |body| - 8
    decreases if pos < |body| then |body| - pos else 0
  {
    if pos >= |body| {
    } else {
      var (found', next) := ScanField(body, pos, found);
      ScanFieldEffect(body, pos, found);
      hide ScanField;
      if next.Some? {
        LatePayloadIsShort(body, next.value, found');
      }
    }
  }

  /** If the scan ends with as many payload bytes as follow the first eight, it found no timestamp. */
  lemma {:induction false} LongPayloadHasNoTimestamp(body: seq<byte>, pos: nat, found: Media)
    requires |body| > 8 && |found.data| != |body| - 8
    ensures |Scan(body, pos, found).data| == |body| - 8 ==> Scan(body, pos, found).ts == found.ts
    decreases if pos < |body| then |body| - pos else 0
  {
    if pos >= 7 {
      LatePayloadIsShort(body, pos, found);
    } else {
      var (found', next) := ScanField(body, pos, found);
      ScanFieldEffect(body, pos, found);
      hide ScanField;
      if next.Some? {
        if found'.ts != found.ts {
          LatePayloadIsShort(body, next.value, found');
        } else if |found'.data| == |body| - 8 {
          TimestampNeedsNine(body, next.value, found');
        } else {
          LongPayloadHasNoTimestamp(body, next.value, found');
        }
      }
    }
  }

  /** Eight zero bytes are four unknown varint fields. */
  lemma ScanSkipsZeros(body: seq<byte>)
    requires |body| >= 8 && forall i :: 0 <= i < 8 ==> body[i] == 0
    ensures ScanAll(body) == Scan(body, 8, Media(0, []))
  {
    assert Scan(body, 6, Media(0, [])) == Scan(body, 8, Media(0, []));
    assert Scan(body, 4, Media(0, [])) == Scan(body, 6, Media(0, []));
    assert Scan(body, 2, Media(0, [])) == Scan(body, 4, Media(0, []));
  }

  lemma {:induction false} BigEndianZero(width: nat)
    ensures forall i :: 0 <= i < width ==> BigEndian(0, width)[i] == 0
  {
    if width == 0 {
    } else {
      BigEndianZero(width - 1);
    }
  }

  /** Parsing undoes building exactly when the scan finds no payload in what was built; without data,
      exactly when the timestamp is zero. */
  lemma ParseUndoesBuild(ts: nat, data: seq<byte>)
    requires ts < Limit(8)
    ensures var body := Build(ts, data).value;
      Parse(body) == Media(ts, data) <==> if data == [] then ts == 0 else ScanAll(body).data == []
  {
    var body := Build(ts, data).value;
    BigEndianRoundTrip(ts, 8);
    assert body[..8] == BigEndian(ts, 8) && body[8..] == data;
    if ts == 0 {
      BigEndianZero(8);
      assert forall i :: 0 <= i < 8 ==> body[i] == body[..8][i];
      ScanSkipsZeros(body);
      if data != [] {
        LatePayloadIsShort(body, 8, Media(0, []));
      }
    } else if data == [] {
      TimestampNeedsNine(body, 0, Media(0, []));
    } else {
      LongPayloadHasNoTimestamp(body, 0, Media(0, []));
    }
  }

  /** A timestamp of about 229 days and one byte of data that do not come back. */
  lemma BuiltBodyMisread()
    ensures var header: seq<byte> := [0, 0, 0x12, 0x01, 0x41, 0, 0, 0];
      && Build(FromBigEndian(header), [0]) == Some(header + [0])
      && Parse(header + [0]) == Media(0, [0x41])
  {
    var header: seq<byte> := [0, 0, 0x12, 0x01, 0x41, 0, 0, 0];
    FromBigEndianRoundTrip(header);
    var body := header + [0];
    assert Scan(body, 7, Media(0, [0x41])) == Media(0, [0x41]);
    assert Scan(body, 5, Media(0, [0x41])) == Media(0, [0x41]);
    assert Clip(body, 4, 1) == [0x41];
    assert Scan(body, 2, Media(0, [])) == Media(0, [0x41]);
  }
}
