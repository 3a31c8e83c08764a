/** Every media body, byte by byte: well-formed fields up to a place where the scan stops. */
module MediaBodies {
  import opened Bytes
  import opened Varint
  import opened MediaParser

  /** Bytes that a varint reader looks at all carry the continuation bit: ten of them, or fewer at the end. */
  ghost predicate Unending(b: seq<byte>) {
    forall i :: 0 <= i < |b| && i < 10 ==> b[i] >= 128
  }

  /** The length prefix up to n announces more bytes than there are. */
  ghost predicate TooLong(rest: seq<byte>, n: nat) {
    1 < n <= |rest| && IsVarint(rest[1..n]) && |rest| - n < Base128(rest[1..n])
  }

  /** Where the scan stops and adds nothing: at the end, at a wire type not in use, at a fixed-width field that is
      cut, at a varint that is cut, at a length that is refused, at an unknown field longer than the body. */
  ghost predicate Stops(rest: seq<byte>) {
    || rest == []
    || rest[0] % 8 in {3, 4, 6, 7}
    || (rest[0] % 8 == 1 && |rest| < 9)
    || (rest[0] % 8 == 5 && |rest| < 5)
    || (rest[0] % 8 == 0 && |rest| < 11 && Unending(rest[1..]))
    || (rest[0] % 8 == 2 && Unending(rest[1..]))
    || (rest[0] % 8 == 2 && rest[0] != 18 && exists n: nat :: TooLong(rest, n))
  }

  /** A payload that announces more bytes than there are; its data start at n. */
  ghost predicate IsClipped(rest: seq<byte>, n: nat) {
    rest != [] && rest[0] == 18 && TooLong(rest, n)
  }

  // ---------------------------------------------------------------------------
  // What the scan makes of such an end
  // ---------------------------------------------------------------------------

  lemma UnendingRead(body: seq<byte>, p: nat)
    requires p <= |body| && Unending(body[p..])
    ensures ReadAt(body, p, 10) == Read(None, if |body| - p < 10 then |body| else p + 10)
  {
    ReadClassified(body, p, 10);
    hide ReadAt;
    forall i | p <= i < p + Window(body, p, 10)
      ensures body[i] >= 128
    {
      assert body[p..][i - p] >= 128;
    }
  }

  lemma TooLongRead(body: seq<byte>, pos: nat, n: nat)
    requires pos < |body| && TooLong(body[pos..], n)
    ensures var length := Base128(body[pos..][1..n]);
      && ReadAt(body, pos + 1, 10) == Read(Some(length), pos + n) && pos + n + length > |body|
  {
    var digits := body[pos..][1..n];
    assert body[pos + 1..pos + 1 + |digits|] == digits;
    ReadsAnyVarint(body, pos + 1, digits, 10);
    hide ReadAt, Base128;
  }

  /** A tag that belongs to neither field that matters, or a cut timestamp. */
  lemma StopsAtSkip(body: seq<byte>, pos: nat, found: Media)
    requires pos < |body| && !(body[pos] == 18) && (body[pos] == 9 ==> |body| - pos < 9)
    requires var next := SkipField(body, pos + 1, body[pos] % 8); next.None? || next == Some(|body|)
    ensures Scan(body, pos, found) == found
  {
    hide SkipField, Clip, FromLittleEndian, ReadAt;
    ScanEnds(body, |body|, found);
    if body[pos] == 9 {
      TimestampTurn(body, pos, found);
    } else {
      OtherTurn(body, pos, found);
    }
  }

  lemma SkipStops(body: seq<byte>, pos: nat)
    requires pos < |body| && Stops(body[pos..])
    ensures var next := SkipField(body, pos + 1, body[pos] % 8); next.None? || next == Some(|body|)
  {
    var rest := body[pos..];
    assert rest[1..] == body[pos + 1..] && rest[0] == body[pos];
    if (rest[0] % 8 == 0 || rest[0] % 8 == 2) && Unending(rest[1..]) {
      UnendingRead(body, pos + 1);
    } else if rest[0] % 8 == 2 {
      var n: nat :| TooLong(rest, n);
      TooLongRead(body, pos, n);
    }
    hide ReadAt, Unending, TooLong;
  }

  lemma StopsAtPayload(body: seq<byte>, pos: nat, found: Media)
    requires pos < |body| && body[pos] == 18 && Stops(body[pos..])
    ensures Scan(body, pos, found) == found
  {
    assert body[pos..][1..] == body[pos + 1..];
    UnendingRead(body, pos + 1);
    hide ReadAt, Clip, SkipField;
    PayloadTurn(body, pos, found);
  }

  lemma StopsHere(body: seq<byte>, pos: nat, found: Media)
    requires pos <= |body| && Stops(body[pos..])
    ensures Scan(body, pos, found) == found
  {
    ScanEnds(body, pos, found);
    if pos < |body| {
      if body[pos] == 18 {
        StopsAtPayload(body, pos, found);
      } else {
        SkipStops(body, pos);
        hide SkipField, Scan;
        StopsAtSkip(body, pos, found);
      }
    }
  }

  lemma ClipsHere(body: seq<byte>, pos: nat, n: nat, found: Media)
    requires pos <= |body| && IsClipped(body[pos..], n)
    ensures Scan(body, pos, found) == found.(data := body[pos..][n..])
  {
    TooLongRead(body, pos, n);
    PayloadTurn(body, pos, found);
    hide ReadAt, Scan;
    var length := Base128(body[pos..][1..n]);
    assert Clip(body, pos + n, length) == body[pos..][n..];
    ScanEnds(body, pos + n + length, found.(data := body[pos..][n..]));
  }

  // ---------------------------------------------------------------------------
  // The scan of fields followed by such an end
  // ---------------------------------------------------------------------------

  /** Fields followed by a place where the scan stops yield what the fields hold, whatever stands there. */
  lemma ScanStops(fs: seq<Field>, rest: seq<byte>)
    requires AllValid(fs) && Stops(rest)
    ensures ScanAll(EncodeAll(fs) + rest) == ApplyAll(fs, Media(0, []))
  {
    var body := EncodeAll(fs) + rest;
    assert body[0..] == body;
    hide Stops, EncodeAll, AllValid, ApplyAll, Scan;
    ScanReadsFields(body, 0, fs, rest, Media(0, []));
    StopsHere(body, |EncodeAll(fs)|, ApplyAll(fs, Media(0, [])));
  }

  /** A payload longer than the body yields what there is of it, in place of any payload before. */
  lemma ScanClips(fs: seq<Field>, rest: seq<byte>, n: nat)
    requires AllValid(fs) && IsClipped(rest, n)
    ensures ScanAll(EncodeAll(fs) + rest) == ApplyAll(fs, Media(0, [])).(data := rest[n..])
  {
    var body := EncodeAll(fs) + rest;
    assert body[0..] == body;
    hide IsClipped, EncodeAll, AllValid, ApplyAll, Scan;
    ScanReadsFields(body, 0, fs, rest, Media(0, []));
    ClipsHere(body, |EncodeAll(fs)|, n, ApplyAll(fs, Media(0, [])));
  }

  // ---------------------------------------------------------------------------
  // Every body is such
  // ---------------------------------------------------------------------------

  /** f stands at the start of these bytes. */
  ghost predicate Starts(body: seq<byte>, f: Field) {
    f.Valid() && |f.Encode()| <= |body| && body[..|f.Encode()|] == f.Encode()
  }

  /** The digits of a varint at the start: read whole, or overlong. */
  lemma FirstDigits(body: seq<byte>) returns (n: nat, whole: bool)
    requires body != [] && body[0] % 8 == 0 && !Stops(body)
    ensures 1 < n <= |body|
    ensures if whole then IsVarint(body[1..n]) else n == 11 && Continues(body[1..n], 0, 10)
  {
    ReadClassified(body, 1, 10);
    var r := ReadAt(body, 1, 10);
    hide ReadAt, Base128;
    whole := r.value.Some?;
    n := r.next;
  }

  lemma VarintStarts(body: seq<byte>, n: nat, whole: bool) returns (f: Field)
    requires 1 < n <= |body| && body[0] % 8 == 0
    requires if whole then IsVarint(body[1..n]) else n == 11 && Continues(body[1..n], 0, 10)
    ensures Starts(body, f)
  {
    hide IsVarint, Continues;
    f := if whole then OtherVarint(body[0] / 8, body[1..n]) else Overlong(body[0] / 8, body[1..n]);
    assert f.Valid();
    OtherShape(f, body[0] / 8, 0, body[1..n], Media(0, []));
    assert body[..n] == [body[0]] + body[1..n];
    hide Field.Encode, Field.Valid;
  }

  lemma FirstFixed(body: seq<byte>) returns (f: Field)
    requires body != [] && (body[0] % 8 == 1 || body[0] % 8 == 5) && !Stops(body)
    ensures Starts(body, f)
  {
    hide Base128, IsVarint, FromLittleEndian, LittleEndian;
    if body[0] == 9 {
      FromLittleEndianRoundTrip(body[1..9]);
      f := Timestamp(FromLittleEndian(body[1..9]));
      assert f.Encode() == body[..9];
    } else if body[0] % 8 == 1 {
      f := OtherFixed64(body[0] / 8, body[1..9]);
      assert f.Encode() == body[..9];
    } else {
      f := OtherFixed32(body[0] / 8, body[1..5]);
      assert f.Encode() == body[..5];
    }
  }

  /** A length prefix at the start that is neither refused nor too long. */
  lemma FirstLength(body: seq<byte>) returns (n: nat)
    requires body != [] && body[0] % 8 == 2 && !Stops(body) && forall n: nat :: !IsClipped(body, n)
    ensures 1 < n <= |body| && IsVarint(body[1..n]) && Base128(body[1..n]) <= |body| - n
  {
    ReadClassified(body, 1, 10);
    var r := ReadAt(body, 1, 10);
    hide ReadAt, Base128;
    assert !Unending(body[1..]);
    assert r.value.Some?;
    n := r.next;
    assert !TooLong(body, n) by {
      assert !IsClipped(body, n);
    }
    hide Stops, Unending;
  }

  /** The field that such a length prefix opens. */
  lemma PayloadStarts(body: seq<byte>, digits: seq<byte>, data: seq<byte>)
    requires IsVarint(digits) && Base128(digits) == |data|
    requires |digits + data| < |body| && body[..1 + |digits + data|] == [18] + (digits + data)
    ensures Starts(body, Payload(digits, data))
  {
    hide IsVarint, Base128;
    var f := Payload(digits, data);
    assert f.Valid();
    PayloadShape(f, Media(0, []));
    hide Field.Encode, Field.Valid;
  }

  lemma BytesStart(body: seq<byte>, digits: seq<byte>, data: seq<byte>)
    requires IsVarint(digits) && Base128(digits) == |data| && body != [] && body[0] % 8 == 2 && body[0] != 18
    requires |digits + data| < |body| && body[..1 + |digits + data|] == [body[0]] + (digits + data)
    ensures Starts(body, OtherBytes(body[0] / 8, digits, data))
  {
    hide IsVarint, Base128;
    var f := OtherBytes(body[0] / 8, digits, data);
    assert f.Valid();
    OtherShape(f, body[0] / 8, 2, digits + data, Media(0, []));
    hide Field.Encode, Field.Valid;
  }

  lemma FirstBytes(body: seq<byte>) returns (f: Field)
    requires body != [] && body[0] % 8 == 2 && !Stops(body) && forall n: nat :: !IsClipped(body, n)
    ensures Starts(body, f)
  {
    hide *;
    var n := FirstLength(body);
    var digits, data := body[1..n], body[n..n + Base128(body[1..n])];
    assert body[..1 + |digits + data|] == [body[0]] + (digits + data);
    if body[0] == 18 {
      PayloadStarts(body, digits, data);
      f := Payload(digits, data);
    } else {
      BytesStart(body, digits, data);
      f := OtherBytes(body[0] / 8, digits, data);
    }
  }

  lemma FirstField(body: seq<byte>) returns (f: Field)
    requires !Stops(body) && forall n: nat :: !IsClipped(body, n)
    ensures Starts(body, f)
  {
    hide Starts, IsClipped;
    if body[0] % 8 == 0 {
      var n, whole := FirstDigits(body);
      f := VarintStarts(body, n, whole);
    } else if body[0] % 8 == 2 {
      f := FirstBytes(body);
    } else {
      f := FirstFixed(body);
    }
  }

  ghost predicate Splits(body: seq<byte>, fs: seq<Field>, rest: seq<byte>) {
    AllValid(fs) && body == EncodeAll(fs) + rest
  }

  lemma SplitsCons(body: seq<byte>, f: Field, fs: seq<Field>, rest: seq<byte>)
    requires Starts(body, f) && Splits(body[|f.Encode()|..], fs, rest)
    ensures Splits(body, [f] + fs, rest)
  {
    var b := f.Encode();
    assert body == b + body[|b|..];
    hide Field.Valid, Field.Encode;
    EncodeCons(f, fs);
    hide EncodeAll, AllValid;
    Associative(b, EncodeAll(fs), rest);
  }

  lemma EncodeCons(f: Field, fs: seq<Field>)
    requires f.Valid() && AllValid(fs)
    ensures AllValid([f] + fs) && EncodeAll([f] + fs) == f.Encode() + EncodeAll(fs)
  {
    hide Field.Valid, Field.Encode;
    assert ([f] + fs)[1..] == fs;
  }

  /** Every body is made of fields and an end of one of these kinds, so the two results above say how any body is
      read. */
  lemma {:induction false} EveryBodySplits(body: seq<byte>) returns (fs: seq<Field>, rest: seq<byte>)
    ensures Splits(body, fs, rest) && (Stops(rest) || exists n: nat :: IsClipped(rest, n))
    decreases |body|
  {
    hide *;
    if Stops(body) || exists n: nat :: IsClipped(body, n) {
      fs, rest := [], body;
      SplitsAtOnce(body);
    } else {
      var f := FirstField(body);
      StartShrinks(body, f);
      fs, rest := EveryBodySplits(body[|f.Encode()|..]);
      SplitsCons(body, f, fs, rest);
      fs := [f] + fs;
    }
  }

  lemma SplitsAtOnce(body: seq<byte>)
    ensures Splits(body, [], body)
  {
  }

  lemma StartShrinks(body: seq<byte>, f: Field)
    requires Starts(body, f)
    ensures f.Valid() && 1 <= |f.Encode()| <= |body|
  {
    hide Field.Encode;
  }
}
