/** Bytes, fixed-width integers and the sequence helpers every other module uses. */
module Bytes {

  type byte = x: int | 0 <= x < 256

  datatype Option<+T> = None | Some(value: T)

  datatype Result<+T, +E> = Ok(value: T) | Err(error: E)

  /** 256 to the power of width: the first value that does not fit in width bytes. */
  function Limit(width: nat): (r: nat)
    ensures r >= 1
    ensures width == 1 ==> r == 0x100
    ensures width == 2 ==> r == 0x1_0000
    ensures width == 3 ==> r == 0x100_0000
    ensures width == 4 ==> r == 0x1_0000_0000
  {
    if width == 0 then 1 else 256 * Limit(width - 1)
  }

  /** The big-endian form that struct.pack gives with ">H", ">I" and ">Q". */
  function BigEndian(n: nat, width: nat): (r: seq<byte>)
    requires n < Limit(width)
    ensures |r| == width
  {
    if width == 0 then [] else BigEndian(n / 256, width - 1) + [n % 256]
  }

  function FromBigEndian(b: seq<byte>): nat {
    if b == [] then 0 else 256 * FromBigEndian(b[..|b| - 1]) + b[|b| - 1]
  }

  /** The value struct.unpack reads with "<Q". */
  function FromLittleEndian(b: seq<byte>): nat {
    if b == [] then 0 else b[0] + 256 * FromLittleEndian(b[1..])
  }

  function LittleEndian(n: nat, width: nat): (r: seq<byte>)
    requires n < Limit(width)
    ensures |r| == width
  {
    if width == 0 then [] else [n % 256] + LittleEndian(n / 256, width - 1)
  }

  lemma {:induction false} BigEndianRoundTrip(n: nat, width: nat)
    requires n < Limit(width)
    ensures FromBigEndian(BigEndian(n, width)) == n
  {
    if width == 0 {
    } else {
      BigEndianRoundTrip(n / 256, width - 1);
      assert BigEndian(n, width)[..width - 1] == BigEndian(n / 256, width - 1);
    }
  }

  lemma {:induction false} FromBigEndianRoundTrip(b: seq<byte>)
    ensures FromBigEndian(b) < Limit(|b|)
    ensures BigEndian(FromBigEndian(b), |b|) == b
  {
    if b == [] {
    } else {
      FromBigEndianRoundTrip(b[..|b| - 1]);
      assert FromBigEndian(b) / 256 == FromBigEndian(b[..|b| - 1]);
    }
  }

  lemma {:induction false} LittleEndianRoundTrip(n: nat, width: nat)
    requires n < Limit(width)
    ensures FromLittleEndian(LittleEndian(n, width)) == n
  {
    if width == 0 {
    } else {
      LittleEndianRoundTrip(n / 256, width - 1);
    }
  }

  lemma {:induction false} FromLittleEndianRoundTrip(b: seq<byte>)
    ensures FromLittleEndian(b) < Limit(|b|)
    ensures LittleEndian(FromLittleEndian(b), |b|) == b
  {
    if b == [] {
    } else {
      FromLittleEndianRoundTrip(b[1..]);
      assert FromLittleEndian(b) / 256 == FromLittleEndian(b[1..]);
    }
  }

  /** The weights of the bytes in the fields of two, four and eight bytes: the first byte weighs most. */
  lemma BigEndianWeights(b: seq<byte>)
    ensures |b| == 2 ==> FromBigEndian(b) == 0x100 * b[0] as int + b[1] as int
    ensures |b| == 4 ==>
      FromBigEndian(b) == 0x100_0000 * b[0] as int + 0x1_0000 * b[1] as int + 0x100 * b[2] as int + b[3] as int
    ensures |b| == 8 ==>
      FromBigEndian(b) ==
      0x100_0000_0000_0000 * b[0] as int + 0x1_0000_0000_0000 * b[1] as int + 0x100_0000_0000 * b[2] as int +
      0x1_0000_0000 * b[3] as int + 0x100_0000 * b[4] as int + 0x1_0000 * b[5] as int + 0x100 * b[6] as int +
      b[7] as int
  {
    assert FromBigEndian(b[..0]) == 0 && b[..|b|] == b;
    hide FromBigEndian;
    if |b| == 2 {
      BigEndianHead(b, 0);
      BigEndianHead(b, 1);
    } else if |b| == 4 {
      BigEndianHead(b, 0);
      BigEndianHead(b, 1);
      BigEndianHead(b, 2);
      BigEndianHead(b, 3);
    } else if |b| == 8 {
      BigEndianHead(b, 0);
      BigEndianHead(b, 1);
      BigEndianHead(b, 2);
      BigEndianHead(b, 3);
      BigEndianHead(b, 4);
      BigEndianHead(b, 5);
      BigEndianHead(b, 6);
      BigEndianHead(b, 7);
    }
  }

  lemma BigEndianHead(b: seq<byte>, i: nat)
    requires i < |b|
    ensures FromBigEndian(b[..i + 1]) == 0x100 * FromBigEndian(b[..i]) + b[i]
  {
    assert b[..i + 1][..i] == b[..i];
  }

  /** A fixed64 field is the other way round: its first byte weighs least. */
  lemma LittleEndianWeights(b: seq<byte>)
    requires |b| == 8
    ensures FromLittleEndian(b) ==
      0x100_0000_0000_0000 * b[7] as int + 0x1_0000_0000_0000 * b[6] as int + 0x100_0000_0000 * b[5] as int +
      0x1_0000_0000 * b[4] as int + 0x100_0000 * b[3] as int + 0x1_0000 * b[2] as int + 0x100 * b[1] as int +
      b[0] as int
  {
    assert FromLittleEndian(b[8..]) == 0 && b[0..] == b;
    hide FromLittleEndian;
    LittleEndianTail(b, 0);
    LittleEndianTail(b, 1);
    LittleEndianTail(b, 2);
    LittleEndianTail(b, 3);
    LittleEndianTail(b, 4);
    LittleEndianTail(b, 5);
    LittleEndianTail(b, 6);
    LittleEndianTail(b, 7);
  }

  lemma LittleEndianTail(b: seq<byte>, i: nat)
    requires i < |b|
    ensures FromLittleEndian(b[i..]) == b[i] + 0x100 * FromLittleEndian(b[i + 1..])
  {
    assert b[i..][1..] == b[i + 1..];
  }

  /** b"".join. */
  function Flatten<T>(parts: seq<seq<T>>): seq<T> {
    if parts == [] then [] else parts[0] + Flatten(parts[1..])
  }

  lemma Associative<T>(a: seq<T>, b: seq<T>, c: seq<T>)
    ensures (a + b) + c == a + (b + c)
  {
  }

  lemma NothingBefore<T>(b: seq<T>)
    ensures [] + b == b
  {
  }

  lemma TailOfAppend<T>(a: seq<T>, b: seq<T>)
    requires a != []
    ensures a + b != [] && (a + b)[0] == a[0] && (a + b)[1..] == a[1..] + b
  {
  }

  lemma SplitsAt<T>(s: seq<T>, i: nat)
    requires i < |s|
    ensures s[..i + 1] == s[..i] + [s[i]]
    ensures s == s[..i + 1] + s[i + 1..]
  {
  }

  lemma FlattenCons<T>(parts: seq<seq<T>>)
    ensures Flatten<T>([]) == []
    ensures parts != [] ==> Flatten(parts) == parts[0] + Flatten(parts[1..])
  {
  }

  lemma {:induction false} FlattenAppend<T>(a: seq<seq<T>>, b: seq<seq<T>>)
    ensures Flatten(a + b) == Flatten(a) + Flatten(b)
  {
    hide Flatten;
    FlattenCons(a);
    if a == [] {
      NothingBefore(b);
      NothingBefore(Flatten(b));
    } else {
      FlattenAppend(a[1..], b);
      TailOfAppend(a, b);
      FlattenCons(a + b);
      Associative(a[0], Flatten(a[1..]), Flatten(b));
    }
  }

  lemma FlattenSnoc<T>(a: seq<seq<T>>, x: seq<T>)
    ensures Flatten(a + [x]) == Flatten(a) + x
  {
    FlattenAppend(a, [x]);
    assert Flatten([x]) == x;
  }

  ghost predicate Distinct<T(!new)>(xs: seq<T>) {
    forall i, j :: 0 <= i < j < |xs| ==> xs[i] != xs[j]
  }
}
