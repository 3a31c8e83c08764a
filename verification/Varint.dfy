/** Base 128 varints, as the hand-written reader of proto_utils takes them off a buffer. */
module Varint {
  import opened Bytes

  const MAX_BYTES: nat := 10

  /** The value of base-128 digits, least significant first; the top bit of each byte is ignored. */
  function Base128(b: seq<byte>): nat {
    if b == [] then 0 else b[0] % 128 + 128 * Base128(b[1..])
  }

  /** The bytes from one position up to another all carry the continuation bit. */
  ghost predicate Continues(b: seq<byte>, from: nat, to: nat)
    requires to <= |b|
  {
    forall i :: from <= i < to ==> b[i] >= 128
  }

  /** A well-formed varint: a continuation bit on every byte but the last, ten bytes at most. */
  ghost predicate IsVarint(b: seq<byte>) {
    1 <= |b| <= MAX_BYTES && Ends(b)
  }

  /** A continuation bit on every byte but the last. */
  ghost predicate Ends(b: seq<byte>) {
    |b| >= 1 && b[|b| - 1] < 128 && Continues(b, 0, |b| - 1)
  }

  /** The shortest varint of a value. */
  function ToVarint(v: nat): (b: seq<byte>)
    ensures |b| >= 1
  {
    if v < 128 then [v] else [v % 128 + 128] + ToVarint(v / 128)
  }

  datatype Read = Read(value: Option<nat>, next: nat)

  /** Reading at most limit bytes from pos on. */
  function ReadAt(buf: seq<byte>, pos: nat, limit: nat): Read
    decreases limit
  {
    if limit == 0 || pos >= |buf| then Read(None, pos)
    else if buf[pos] < 128 then Read(Some(buf[pos]), pos + 1)
    else
      var rest := ReadAt(buf, pos + 1, limit - 1);
      Read(if rest.value.None? then None else Some(buf[pos] - 128 + 128 * rest.value.value), rest.next)
  }

  function Pow2(n: nat): (r: nat)
    ensures r >= 1
  {
    if n == 0 then 1 else 2 * Pow2(n - 1)
  }

  lemma Pow2Of7(n: nat)
    ensures Pow2(n + 7) == 128 * Pow2(n)
  {
    assert Pow2(n + 7) == 2 * Pow2(n + 6) && Pow2(n + 6) == 2 * Pow2(n + 5) && Pow2(n + 5) == 2 * Pow2(n + 4);
    assert Pow2(n + 4) == 2 * Pow2(n + 3) && Pow2(n + 3) == 2 * Pow2(n + 2) && Pow2(n + 2) == 2 * Pow2(n + 1);
  }

  /** What is left to read when result holds the digits below shift. */
  function Combine(result: nat, shift: nat, rest: Read): Read {
    Read(if rest.value.None? then None else Some(result + Pow2(shift) * rest.value.value), rest.next)
  }

  lemma CombineStep(result: nat, shift: nat, digit: nat, rest: Read)
    ensures Combine(result, shift, Read(if rest.value.None? then None else Some(digit + 128 * rest.value.value),
                                    rest.next))
         == Combine(result + digit * Pow2(shift), shift + 7, rest)
  {
    Pow2Of7(shift);
    if rest.value.Some? {
      var v, p := rest.value.value, Pow2(shift);
      assert p * (digit + 128 * v) == digit * p + (128 * p) * v;
    }
  }

  /** One turn of the loop: the last byte of the varint ends it, any other adds seven bits. */
  lemma ReadStep(buf: seq<byte>, pos: nat, result: nat, shift: nat, limit: nat)
    requires pos < |buf| && limit > 0
    ensures Combine(result, shift, ReadAt(buf, pos, limit)) ==
      if buf[pos] < 128 then Read(Some(result + buf[pos] % 128 * Pow2(shift)), pos + 1)
      else Combine(result + buf[pos] % 128 * Pow2(shift), shift + 7, ReadAt(buf, pos + 1, limit - 1))
  {
    hide Pow2;
    if buf[pos] >= 128 {
      CombineStep(result, shift, buf[pos] - 128, ReadAt(buf, pos + 1, limit - 1));
    }
  }

  lemma ReadStops(buf: seq<byte>, pos: nat, result: nat, shift: nat, limit: nat)
    ensures pos >= |buf| || limit == 0 ==> Combine(result, shift, ReadAt(buf, pos, limit)) == Read(None, pos)
    ensures Combine(0, 0, ReadAt(buf, pos, limit)) == ReadAt(buf, pos, limit)
  {
  }

  /** The reader of the source; bits are disjoint, so adding a shifted digit is or-ing it in. */
  method ReadVarint(buf: seq<byte>, start: nat) returns (value: Option<nat>, next: nat)
    ensures Read(value, next) == ReadAt(buf, start, MAX_BYTES)
  {
    hide ReadAt, Combine, Pow2;
    var result: nat, shift: nat, pos := 0, 0, start;
    ghost var digits: nat := 0;
    ReadStops(buf, start, result, shift, MAX_BYTES);
    while pos < |buf|
      invariant shift == 7 * digits && digits < MAX_BYTES
      invariant ReadAt(buf, start, MAX_BYTES) == Combine(result, shift, ReadAt(buf, pos, MAX_BYTES - digits))
      decreases |buf| - pos
    {
      var b := buf[pos];
      ReadStep(buf, pos, result, shift, MAX_BYTES - digits);
      pos := pos + 1;
      result := result + b % 128 * Pow2(shift);
      if b < 128 {
        return Some(result), pos;
      }
      shift := shift + 7;
      digits := digits + 1;
      if shift >= 64 {
        ReadStops(buf, pos, result, shift, MAX_BYTES - digits);
        return None, pos;
      }
    }
    ReadStops(buf, pos, result, shift, MAX_BYTES - digits);
    return None, pos;
  }

  // ---------------------------------------------------------------------------
  // What the reader accepts
  // ---------------------------------------------------------------------------

  lemma {:induction false} ReadsAnyVarint(buf: seq<byte>, pos: nat, b: seq<byte>, limit: nat)
    requires pos + |b| <= |buf| && buf[pos..pos + |b|] == b
    requires |b| <= limit && Ends(b)
    ensures ReadAt(buf, pos, limit) == Read(Some(Base128(b)), pos + |b|)
    decreases |b|
  {
    assert buf[pos] == b[0];
    if |b| == 1 {
      assert b[1..] == [];
    } else {
      assert buf[pos + 1..pos + 1 + |b[1..]|] == b[1..];
      ReadsAnyVarint(buf, pos + 1, b[1..], limit - 1);
    }
  }

  function Pow128(k: nat): nat {
    if k == 0 then 1 else 128 * Pow128(k - 1)
  }

  lemma {:induction false} ToVarintIsVarint(v: nat, k: nat)
    requires v < Pow128(k)
    ensures |ToVarint(v)| <= k || v == 0
    ensures Ends(ToVarint(v))
    ensures Base128(ToVarint(v)) == v
    decreases v
  {
    ToVarintCons(v);
    PowerStep(v, k);
    hide *;
    if v < 128 {
      EndsAtOnce(v);
    } else {
      ToVarintIsVarint(v / 128, k - 1);
      EndsCons(128 + v % 128, ToVarint(v / 128));
    }
  }

  lemma EndsAtOnce(digit: byte)
    ensures digit < 128 ==> Ends([digit])
  {
  }

  lemma EndsCons(digit: byte, rest: seq<byte>)
    requires digit >= 128 && Ends(rest)
    ensures Ends([digit] + rest)
  {
    var b := [digit] + rest;
    assert forall i :: 0 < i < |b| ==> b[i] == rest[i - 1];
  }

  lemma ToVarintCons(v: nat)
    ensures v < 128 ==> ToVarint(v) == [v] && Base128(ToVarint(v)) == v
    ensures v >= 128 ==> ToVarint(v) == [128 + v % 128] + ToVarint(v / 128)
    ensures v >= 128 ==> Base128(ToVarint(v)) == v % 128 + 128 * Base128(ToVarint(v / 128))
  {
    if v < 128 {
      assert ToVarint(v)[1..] == [];
    } else {
      assert ToVarint(v)[1..] == ToVarint(v / 128);
    }
  }

  lemma PowerStep(v: nat, k: nat)
    requires v < Pow128(k)
    ensures v > 0 ==> k > 0
    ensures v >= 128 ==> v / 128 < Pow128(k - 1)
  {
  }

  lemma Pow128Of10()
    ensures Pow128(10) == 0x40_0000_0000_0000_0000
  {
    assert Pow128(5) == 0x8_0000_0000;
    assert Pow128(10) == 128 * Pow128(9) && Pow128(9) == 128 * Pow128(8) && Pow128(8) == 128 * Pow128(7);
    assert Pow128(7) == 128 * Pow128(6) && Pow128(6) == 128 * Pow128(5);
  }

  /** The reader inverts the base-128 encoding of every 64-bit value, wherever it stands in the buffer. */
  lemma VarintRoundTrip(buf: seq<byte>, pos: nat, v: nat)
    requires v < 0x1_0000_0000_0000_0000
    requires pos + |ToVarint(v)| <= |buf| && buf[pos..pos + |ToVarint(v)|] == ToVarint(v)
    ensures IsVarint(ToVarint(v))
    ensures ReadAt(buf, pos, MAX_BYTES) == Read(Some(v), pos + |ToVarint(v)|)
  {
    Pow128Of10();
    ToVarintIsVarint(v, 10);
    ReadsAnyVarint(buf, pos, ToVarint(v), MAX_BYTES);
  }

  function Window(buf: seq<byte>, pos: nat, limit: nat): nat {
    if pos >= |buf| then 0 else if |buf| - pos < limit then |buf| - pos else limit
  }

  /** A read is refused exactly when all bytes it may look at carry the continuation bit;
      an accepted read consumes a well-formed varint and nothing else. */
  lemma {:induction false} ReadClassified(buf: seq<byte>, pos: nat, limit: nat)
    ensures var r, w := ReadAt(buf, pos, limit), Window(buf, pos, limit);
      && (pos < |buf| ==> pos + w <= |buf|)
      && (r.value.None? <==> pos >= |buf| || Continues(buf, pos, pos + w))
      && (r.value.None? ==> r.next == pos + w)
      && (r.value.Some? ==>
            && pos < r.next <= pos + w
            && buf[r.next - 1] < 128
            && Continues(buf, pos, r.next - 1)
            && r.value.value == Base128(buf[pos..r.next]))
    decreases limit
  {
    if limit > 0 && pos < |buf| {
      if buf[pos] >= 128 {
        ReadClassified(buf, pos + 1, limit - 1);
        ContinuesCons(buf, pos);
        hide Continues;
        var r := ReadAt(buf, pos, limit);
        if r.value.Some? {
          DigitsCons(buf, pos, r.next);
        }
        hide Base128;
      } else {
        DigitsCons(buf, pos, pos + 1);
        hide Base128;
      }
    }
  }

  lemma ContinuesCons(buf: seq<byte>, pos: nat)
    requires pos < |buf| && buf[pos] >= 128
    ensures forall to :: pos < to <= |buf| ==> (Continues(buf, pos, to) <==> Continues(buf, pos + 1, to))
  {
  }

  lemma DigitsCons(buf: seq<byte>, pos: nat, next: nat)
    requires pos < next <= |buf|
    ensures Base128(buf[pos..next]) == buf[pos] % 128 + 128 * Base128(buf[pos + 1..next])
    ensures pos + 1 == next ==> Base128(buf[pos + 1..next]) == 0
  {
    assert buf[pos..next][1..] == buf[pos + 1..next];
  }
}
