/** Go's fixed-width integers and `time.Duration`, as the decode step uses them.
    Go integer conversions between types of one size reinterpret the bits, and
    signed arithmetic wraps around in two's complement; both are written out here. */
module GoTypes {

  newtype int64 = x: int | -0x8000_0000_0000_0000 <= x < 0x8000_0000_0000_0000
  newtype uint64 = x: int | 0 <= x < 0x1_0000_0000_0000_0000

  /** 2^64, the modulus of 64-bit two's complement arithmetic. */
  const Modulus: int := 0x1_0000_0000_0000_0000

  /** The int64 whose two's complement bits are the low 64 bits of x. */
  function Wrap(x: int): (r: int64)
    ensures (x - r as int) % Modulus == 0
    ensures -0x8000_0000_0000_0000 <= x < 0x8000_0000_0000_0000 ==> r as int == x
  {
    ((x + 0x8000_0000_0000_0000) % Modulus - 0x8000_0000_0000_0000) as int64
  }

  /** Two integers that differ by a multiple of 2^64 wrap to the same int64. */
  lemma WrapCongruent(x: int, k: int)
    ensures Wrap(x + k * Modulus) == Wrap(x)
  {
  }

  /** Go's conversion `int64(x)` of a uint64 value: the same 64 bits read as
      two's complement, so values from 2^63 up become negative. */
  function Int64FromUint64(x: uint64): (r: int64)
    ensures r as int == if x as int < 0x8000_0000_0000_0000 then x as int else x as int - Modulus
  {
    Wrap(x as int)
  }

  /** Go's `a * b` on int64: congruent to the exact product modulo 2^64, and
      equal to it whenever it fits. */
  function MulInt64(a: int64, b: int64): (r: int64)
    ensures (a as int * b as int - r as int) % Modulus == 0
    ensures -0x8000_0000_0000_0000 <= a as int * b as int < 0x8000_0000_0000_0000 ==>
      r as int == a as int * b as int
  {
    Wrap(a as int * b as int)
  }

  /** Converting a uint64 to int64 and then multiplying by c gives the exact
      product x * c modulo 2^64. */
  lemma ConvertThenMultiply(x: uint64, c: int64)
    ensures (x as int * c as int - MulInt64(Int64FromUint64(x), c) as int) % Modulus == 0
  {
    var a := Int64FromUint64(x);
    var r := MulInt64(a, c);
    if x as int >= 0x8000_0000_0000_0000 {
      assert x as int * c as int - r as int == (a as int * c as int - r as int) + c as int * Modulus;
      ModAddMultiple(a as int * c as int - r as int, c as int);
    }
  }

  lemma ModAddMultiple(y: int, k: int)
    ensures (y + k * Modulus) % Modulus == y % Modulus
  {
  }

  /** `time.Duration`: a signed count of nanoseconds. */
  type Duration = int64

  /** `time.Millisecond`. */
  const Millisecond: Duration := 1_000_000
}
