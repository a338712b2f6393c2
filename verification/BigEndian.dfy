/** Eight-byte big-endian records for two's complement 64-bit integers: the layout of
    the version counters and of the update times. */
module BigEndian {

  type Byte = x: int | 0 <= x < 256
  type Bytes = seq<Byte>

  const TWO_63: int := 0x8000_0000_0000_0000
  const TWO_64: int := 0x1_0000_0000_0000_0000

  type Int64 = x: int | -0x8000_0000_0000_0000 <= x < 0x8000_0000_0000_0000

  /** `v + 1` in 64-bit two's complement arithmetic: the largest value wraps round. */
  function Next64(v: Int64): Int64 {
    if v == TWO_63 - 1 then -TWO_63 else v + 1
  }

  /** `v + n` in the same arithmetic. */
  function Plus64(v: Int64, n: nat): Int64 {
    if n == 0 then v else Next64(Plus64(v, n - 1))
  }

  lemma {:induction false} Plus64InRange(v: Int64, n: nat)
    requires v + n < TWO_63
    ensures Plus64(v, n) == v + n
  {
    if n > 0 {
      Plus64InRange(v, n - 1);
    }
  }

  /** Adding less than 2^64 wraps round at most once, and never back to the start. */
  lemma {:induction false} Plus64Wraps(v: Int64, n: nat)
    requires n < TWO_64
    ensures Plus64(v, n) == if v + n < TWO_63 then v + n else v + n - TWO_64
    ensures Plus64(v, n) == v <==> n == 0
  {
    if n > 0 {
      Plus64Wraps(v, n - 1);
    }
  }

  lemma {:induction false} Plus64OfNext(v: Int64, n: nat)
    ensures Plus64(Next64(v), n) == Plus64(v, n + 1)
  {
    if n > 0 {
      Plus64OfNext(v, n - 1);
    }
  }

  function Pow256(n: nat): nat {
    if n == 0 then 1 else 256 * Pow256(n - 1)
  }

  /** `n` bytes, most significant first. */
  function Encode(v: nat, n: nat): (b: Bytes)
    ensures |b| == n
  {
    if n == 0 then [] else Encode(v / 256, n - 1) + [v % 256]
  }

  function Decode(b: Bytes): nat {
    if b == [] then 0 else 256 * Decode(b[..|b| - 1]) + b[|b| - 1]
  }

  lemma {:induction false} DecodeOfEncode(v: nat, n: nat)
    requires v < Pow256(n)
    ensures Decode(Encode(v, n)) == v
  {
    if n > 0 {
      DecodeOfEncode(v / 256, n - 1);
      assert Encode(v, n)[..n - 1] == Encode(v / 256, n - 1);
    }
  }

  lemma {:induction false} EncodeOfDecode(b: Bytes)
    ensures Decode(b) < Pow256(|b|)
    ensures Encode(Decode(b), |b|) == b
  {
    if b != [] {
      EncodeOfDecode(b[..|b| - 1]);
      assert Decode(b) / 256 == Decode(b[..|b| - 1]);
      assert b == b[..|b| - 1] + [b[|b| - 1]];
    }
  }

  /** `binary.BigEndian.PutUint64(buf, uint64(v))`. */
  function EncodeInt64(v: Int64): (b: Bytes)
    ensures |b| == 8
  {
    Encode(if v < 0 then v + TWO_64 else v, 8)
  }

  /** `int64(binary.BigEndian.Uint64(b))`. */
  function DecodeInt64(b: Bytes): Int64
    requires |b| == 8
  {
    EncodeOfDecode(b);
    var u := Decode(b);
    if u >= TWO_63 then u - TWO_64 else u
  }

  /** Reading back a record gives the integer that was written. */
  lemma Int64RoundTrip(v: Int64)
    ensures DecodeInt64(EncodeInt64(v)) == v
  {
    DecodeOfEncode(if v < 0 then v + TWO_64 else v, 8);
  }

  /** Every eight-byte record is the record of exactly one integer. */
  lemma RecordRoundTrip(b: Bytes)
    requires |b| == 8
    ensures EncodeInt64(DecodeInt64(b)) == b
  {
    EncodeOfDecode(b);
  }

  /** The unsigned number that eight bytes spell, most significant first. */
  function Spelled(b: Bytes): int
    requires |b| == 8
  {
    b[0] as int * 0x100_0000_0000_0000 + b[1] as int * 0x1_0000_0000_0000
    + b[2] as int * 0x100_0000_0000 + b[3] as int * 0x1_0000_0000
    + b[4] as int * 0x100_0000 + b[5] as int * 0x1_0000 + b[6] as int * 0x100 + b[7] as int
  }

  lemma DecodeIsSpelled(b: Bytes)
    requires |b| == 8
    ensures Decode(b) == Spelled(b)
  {
    DecodeFour(b[..4]);
    assert b[..5][..4] == b[..4] && b[..6][..5] == b[..5] && b[..7][..6] == b[..6] && b[..8] == b;
    assert Decode(b[..5]) == 256 * Decode(b[..4]) + b[4];
    assert Decode(b[..6]) == 256 * Decode(b[..5]) + b[5];
    assert Decode(b[..7]) == 256 * Decode(b[..6]) + b[6];
    assert Decode(b) == 256 * Decode(b[..7]) + b[7];
  }

  lemma DecodeFour(b: Bytes)
    requires |b| == 4
    ensures Decode(b) == b[0] as int * 0x100_0000 + b[1] as int * 0x1_0000 + b[2] as int * 0x100 + b[3] as int
  {
    assert b[..1][..0] == [] && b[..2][..1] == b[..1] && b[..3][..2] == b[..2] && b[..4] == b;
    assert Decode(b[..1]) == 256 * Decode([]) + b[0];
    assert Decode(b[..2]) == 256 * Decode(b[..1]) + b[1];
    assert Decode(b[..3]) == 256 * Decode(b[..2]) + b[2];
    assert Decode(b) == 256 * Decode(b[..3]) + b[3];
  }

  /** Which integer a record stands for: two's complement, the sign in the first byte. */
  lemma RecordIsTwosComplement(b: Bytes)
    requires |b| == 8
    ensures DecodeInt64(b) == if b[0] < 128 then Spelled(b) else Spelled(b) - 0x1_0000_0000_0000_0000
  {
    DecodeIsSpelled(b);
    EncodeOfDecode(b);
  }

  /** Which eight bytes an integer is written as; no other eight bytes spell that number. */
  lemma WrittenBytes(v: Int64)
    ensures Spelled(EncodeInt64(v)) == if v >= 0 then v else v + 0x1_0000_0000_0000_0000
    ensures forall b: Bytes :: |b| == 8 && Spelled(b) == Spelled(EncodeInt64(v)) ==> b == EncodeInt64(v)
  {
    DecodeOfEncode(if v < 0 then v + TWO_64 else v, 8);
    DecodeIsSpelled(EncodeInt64(v));
    forall b: Bytes | |b| == 8 && Spelled(b) == Spelled(EncodeInt64(v)) ensures b == EncodeInt64(v) {
      DecodeIsSpelled(b);
      EncodeOfDecode(b);
      EncodeOfDecode(EncodeInt64(v));
    }
  }

  /** The most significant byte comes first: the order on the wire is the numeric order
      of the first differing byte. */
  lemma MostSignificantFirst(a: Bytes, b: Bytes, x: Byte, y: Byte)
    requires |a| == |b| && x < y
    ensures Decode([x] + a) < Decode([y] + b)
  {
    LeadingByte(x, a);
    LeadingByte(y, b);
    EncodeOfDecode(a);
    Scale(x + 1, y, Pow256(|a|));
  }

  lemma Scale(x: int, y: int, n: nat)
    requires x <= y
    ensures x * n <= y * n && x * n == (x - 1) * n + n
  {
  }

  lemma {:induction false} LeadingByte(x: Byte, a: Bytes)
    ensures Decode([x] + a) == x * Pow256(|a|) + Decode(a)
  {
    if a == [] {
      assert ([x] + a)[..0] == [];
    } else {
      var n := Pow256(|a| - 1);
      LeadingByte(x, a[..|a| - 1]);
      assert ([x] + a)[..|a|] == [x] + a[..|a| - 1];
      assert x * (256 * n) == 256 * (x * n);
    }
  }
}
