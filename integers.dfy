/** The integer codec of the patch format (src/lib.rs): little-endian 64-bit
    fields, the non-negative check applied to lengths, and the sign-magnitude
    conversion applied to seeks. Integers are unbounded here, so the 64-bit
    two's-complement representation is written out. */
module Integers {
  import opened Types

  const TWO_63: int := 0x8000_0000_0000_0000
  const TWO_64: int := 0x1_0000_0000_0000_0000
  const I64_MIN: int := -TWO_63
  const I64_MAX: int := TWO_63 - 1
  const U64_MAX: int := TWO_64 - 1

  /** Rust `i64`. */
  type Int64 = x: int | I64_MIN <= x <= I64_MAX

  /** A `u64` produced by `read_positive_le_i64`: it came from a non-negative
      `i64`, so it never exceeds `i64::MAX`. */
  type Length = x: int | 0 <= x <= I64_MAX

  function Pow256(n: nat): nat {
    if n == 0 then 1 else 0x100 * Pow256(n - 1)
  }

  /** The unsigned value of a little-endian byte string. */
  function LeNat(b: seq<byte>): nat {
    if |b| == 0 then 0 else b[0] + 0x100 * LeNat(b[1..])
  }

  /** The n low-order bytes of u, least significant first. */
  function LeBytes(u: nat, n: nat): (b: seq<byte>)
    ensures |b| == n
  {
    if n == 0 then [] else [u % 0x100] + LeBytes(u / 0x100, n - 1)
  }

  lemma {:induction false} LeNatBound(b: seq<byte>)
    ensures LeNat(b) < Pow256(|b|)
  {
    if |b| > 0 {
      LeNatBound(b[1..]);
    }
  }

  lemma {:induction false} LeNatOfLeBytes(u: nat, n: nat)
    requires u < Pow256(n)
    ensures LeNat(LeBytes(u, n)) == u
  {
    if n > 0 {
      var b := LeBytes(u, n);
      assert b[1..] == LeBytes(u / 0x100, n - 1);
      LeNatOfLeBytes(u / 0x100, n - 1);
    }
  }

  lemma {:induction false} LeBytesOfLeNat(b: seq<byte>)
    ensures LeBytes(LeNat(b), |b|) == b
  {
    if |b| > 0 {
      var u := LeNat(b);
      assert u % 0x100 == b[0] && u / 0x100 == LeNat(b[1..]);
      LeBytesOfLeNat(b[1..]);
    }
  }

  /** A byte appended at the end counts with the weight of its position. */
  lemma {:induction false} LeNatAppend(a: seq<byte>, x: byte)
    ensures LeNat(a + [x]) == LeNat(a) + Pow256(|a|) * x
  {
    if |a| > 0 {
      assert (a + [x])[1..] == a[1..] + [x];
      LeNatAppend(a[1..], x);
      assert 0x100 * (Pow256(|a| - 1) * x) == Pow256(|a|) * x;
    } else {
      assert [x][1..] == [];
    }
  }

  /** The value of an 8-byte little-endian field, written out byte by byte. */
  lemma LeNat8(b: seq<byte>)
    requires |b| == 8
    ensures LeNat(b) == b[0] as int + 0x100 * b[1] as int + 0x1_0000 * b[2] as int
      + 0x100_0000 * b[3] as int + 0x1_0000_0000 * b[4] as int + 0x100_0000_0000 * b[5] as int
      + 0x1_0000_0000_0000 * b[6] as int + 0x100_0000_0000_0000 * b[7] as int
  {
    assert LeNat(b[7..]) == b[7] by { assert b[7..][1..] == []; }
    assert LeNat(b[6..]) == b[6] + 0x100 * LeNat(b[7..]) by { assert b[6..][1..] == b[7..]; }
    assert LeNat(b[5..]) == b[5] + 0x100 * LeNat(b[6..]) by { assert b[5..][1..] == b[6..]; }
    assert LeNat(b[4..]) == b[4] + 0x100 * LeNat(b[5..]) by { assert b[4..][1..] == b[5..]; }
    assert LeNat(b[3..]) == b[3] + 0x100 * LeNat(b[4..]) by { assert b[3..][1..] == b[4..]; }
    assert LeNat(b[2..]) == b[2] + 0x100 * LeNat(b[3..]) by { assert b[2..][1..] == b[3..]; }
    assert LeNat(b[1..]) == b[1] + 0x100 * LeNat(b[2..]) by { assert b[1..][1..] == b[2..]; }
  }

  /** `byteorder::ReadBytesExt::read_i64::<LE>` on 8 bytes: the unsigned value
      reinterpreted as two's complement. The result is negative exactly when
      the top bit of the last byte is set. */
  function LeI64(b: seq<byte>): (r: Int64)
    requires |b| == 8
    ensures r < 0 <==> b[7] >= 0x80
    ensures r >= 0 ==> r == LeNat(b)
    ensures r < 0 ==> r == LeNat(b) - TWO_64
  {
    LeNat8(b);
    var u := LeNat(b);
    if u < TWO_63 then u else u - TWO_64
  }

  /** The 8 little-endian bytes that represent x in two's complement. */
  function EncodeLeI64(x: Int64): (b: seq<byte>)
    ensures |b| == 8
  {
    LeBytes(if x < 0 then x + TWO_64 else x, 8)
  }

  lemma LeI64OfEncode(x: Int64)
    ensures LeI64(EncodeLeI64(x)) == x
  {
    var u := if x < 0 then x + TWO_64 else x;
    assert Pow256(8) == TWO_64;
    LeNatOfLeBytes(u, 8);
  }

  lemma EncodeOfLeI64(b: seq<byte>)
    requires |b| == 8
    ensures EncodeLeI64(LeI64(b)) == b
  {
    LeBytesOfLeNat(b);
  }

  /** `u64::try_from(i64)`: fails on a negative value, else keeps it. */
  function TryFromI64(n: Int64): (r: Result<Length>)
    ensures r.Ok? <==> n >= 0
    ensures r.Ok? ==> r.value == n
    ensures r.Err? ==> r.error == NegativeLength
  {
    if n < 0 then Err(NegativeLength) else Ok(n)
  }

  /** `read_positive_le_i64` on the 8 bytes it reads: it fails exactly when the
      sign bit is set, and otherwise yields the unsigned little-endian value. */
  function PositiveLeI64(b: seq<byte>): (r: Result<Length>)
    requires |b| == 8
    ensures r.Ok? <==> b[7] < 0x80
    ensures r.Ok? ==> r.value == LeNat(b) && r.value <= I64_MAX
    ensures r.Err? ==> r.error == NegativeLength
  {
    TryFromI64(LeI64(b))
  }

  /** `y & i64::MIN`: keeps the sign bit alone. */
  function SignBit(y: Int64): Int64 {
    if y < 0 then I64_MIN else 0
  }

  /** `i64::wrapping_abs`: |y|, except that i64::MIN maps to itself. */
  function WrappingAbs(y: Int64): Int64 {
    if y == I64_MIN then I64_MIN else if y < 0 then -y else y
  }

  /** `mask | x` for the two masks `SignBit` produces: or-ing in 0 changes
      nothing, or-ing in the sign bit sets bit 63 (a no-op if it is already set). */
  function OrSignBit(mask: Int64, x: Int64): Int64
    requires mask == 0 || mask == I64_MIN
  {
    if mask == 0 || x < 0 then x else x + I64_MIN
  }

  /** `ones_complement_i64`: reads a two's-complement `i64` whose bits are
      really a sign bit and a 63-bit magnitude. With m the low 63 bits of y,
      a clear sign bit gives y, a set sign bit gives -m, and the pattern with
      the sign bit set and m == 0 gives i64::MIN. The sign is always kept. */
  function OnesComplement(y: Int64): (r: Int64)
    ensures y >= 0 ==> r == y
    ensures y < 0 && y - I64_MIN > 0 ==> r == -(y - I64_MIN)
    ensures y == I64_MIN ==> r == I64_MIN
    ensures r < 0 <==> y < 0
  {
    OrSignBit(SignBit(y), WrappingAbs(y))
  }

  /** Applying the conversion twice gives the input back, so it is a bijection
      of `i64` onto itself and is also its own encoder. */
  lemma OnesComplementInvolution(y: Int64)
    ensures OnesComplement(OnesComplement(y)) == y
  {
  }

  /** The low 63 bits of an 8-byte little-endian field. */
  function Magnitude(b: seq<byte>): nat
    requires |b| == 8
  {
    LeNat(b[7 := b[7] % 0x80])
  }

  /** The arithmetic behind `MagnitudeSplit`, on plain integers. */
  lemma TopByteSplit(lo: int, t: int)
    requires 0 <= lo < 0x100_0000_0000_0000 && 0 <= t < 0x100
    ensures lo + 0x100_0000_0000_0000 * (t % 0x80) < TWO_63
    ensures lo + 0x100_0000_0000_0000 * t
              == lo + 0x100_0000_0000_0000 * (t % 0x80) + if t >= 0x80 then TWO_63 else 0
  {
    if t >= 0x80 {
      assert t % 0x80 == t - 0x80;
    } else {
      assert t % 0x80 == t;
    }
  }

  /** The field's unsigned value is its magnitude plus 2^63 for the top bit. */
  lemma MagnitudeSplit(b: seq<byte>)
    requires |b| == 8
    ensures Magnitude(b) < TWO_63
    ensures LeNat(b) == Magnitude(b) + if b[7] >= 0x80 then TWO_63 else 0
  {
    var low := b[..7];
    var top: byte := b[7] % 0x80;
    assert b == low + [b[7]];
    assert b[7 := top] == low + [top];
    LeNatAppend(low, b[7]);
    LeNatAppend(low, top);
    LeNatBound(low);
    assert Pow256(7) == 0x100_0000_0000_0000;
    TopByteSplit(LeNat(low), b[7]);
  }

  /** The reference sign-magnitude decoding of an 8-byte field: the top bit of
      the last byte is the sign, the other 63 bits the magnitude. */
  function SignMagnitude(b: seq<byte>): int
    requires |b| == 8
  {
    if b[7] >= 0x80 then -(Magnitude(b) as int) else Magnitude(b)
  }

  /** `read_ones_complement_le_i64` on the 8 bytes it reads. */
  function OnesComplementLeI64(b: seq<byte>): Int64
    requires |b| == 8
  {
    OnesComplement(LeI64(b))
  }

  /** The seek decoding agrees with sign-magnitude decoding on every field but
      one: "negative zero" (sign bit set, magnitude 0) becomes i64::MIN, not 0. */
  lemma OnesComplementIsSignMagnitude(b: seq<byte>)
    requires |b| == 8
    ensures b[7] >= 0x80 && Magnitude(b) == 0 ==> OnesComplementLeI64(b) == I64_MIN
    ensures !(b[7] >= 0x80 && Magnitude(b) == 0) ==> OnesComplementLeI64(b) == SignMagnitude(b)
  {
    MagnitudeSplit(b);
  }

  /** `u8::wrapping_add`: the sum modulo 256, never an error. */
  function WrappingAdd(x: byte, y: byte): (r: byte)
    ensures x + y < 0x100 ==> r == x + y
    ensures x + y >= 0x100 ==> r == x + y - 0x100
  {
    (x + y) % 0x100
  }
}
