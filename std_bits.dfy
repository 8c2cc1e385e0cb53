/**
 * `std_popCnt` of kern/stdlib/std.c: the population count of a 32-bit word
 * by the classic SWAR sequence (pair sums, nibble sums, byte sums, then a
 * multiply that adds the four bytes into the top byte). All arithmetic is
 * on `uint32_t`, so it is modelled on `bv32`, where it wraps as in C.
 */
module StdBits {

  /** Bit i of x, as 0 or 1. */
  function Bit(x: bv32, i: bv5): bv32
  {
    (x >> i) & 1
  }

  /** The number of set bits among the low eight bits of b. */
  function Ones8(b: bv32): bv32
  {
    Bit(b, 0) + Bit(b, 1) + Bit(b, 2) + Bit(b, 3) + Bit(b, 4) + Bit(b, 5) + Bit(b, 6) + Bit(b, 7)
  }

  function Add4(a: bv32, b: bv32, c: bv32, d: bv32): bv32
  {
    a + b + c + d
  }

  /** The number of set bits of x, counted byte by byte: the reference for `std_popCnt`. */
  function Ones(x: bv32): bv32
  {
    Add4(Ones8(x & 0xFF), Ones8((x >> 8) & 0xFF), Ones8((x >> 16) & 0xFF), Ones8(x >> 24))
  }

  /** The first three SWAR steps: after them each byte of the word holds the count of its own set bits. */
  function ByteCounts(x0: bv32): bv32
  {
    var x1 := x0 - ((x0 >> 1) & 0x55555555);
    var x2 := (x1 & 0x33333333) + ((x1 >> 2) & 0x33333333);
    var x3 := x2 + (x2 >> 4);
    x3 & 0x0F0F0F0F
  }

  /** `std_popCnt(x)`: the number of set bits of x. */
  function PopCnt(x: bv32): (r: bv32)
    ensures r == Ones(x)
  {
    PopCntCorrect(x);
    (ByteCounts(x) * 0x01010101) >> 24
  }

  /** A word has at most 32 set bits. */
  lemma PopCntBound(x: bv32)
    ensures PopCnt(x) <= 32
  {
    OnesBound(x);
  }

  lemma PopCntCorrect(x: bv32)
    ensures (ByteCounts(x) * 0x01010101) >> 24 == Ones(x)
  {
    TopByteSum(ByteCounts(x));
    CountsPerByte(x);
  }

  /** The sum of the four bytes of w. */
  function ByteSum(w: bv32): bv32
  {
    Add4(w & 0xFF, (w >> 8) & 0xFF, (w >> 16) & 0xFF, w >> 24)
  }

  /** Multiplying by 0x01010101 accumulates the four bytes in the top byte when none can carry. */
  lemma TopByteSum(w: bv32)
    requires w & 0xF0F0F0F0 == 0
    ensures (w * 0x01010101) >> 24 == ByteSum(w)
  {
  }

  lemma CountsByte0(x: bv32)
    ensures ByteCounts(x) & 0xFF == Ones8(x & 0xFF)
  {
  }

  lemma CountsByte1(x: bv32)
    ensures (ByteCounts(x) >> 8) & 0xFF == Ones8((x >> 8) & 0xFF)
  {
  }

  lemma CountsByte2(x: bv32)
    ensures (ByteCounts(x) >> 16) & 0xFF == Ones8((x >> 16) & 0xFF)
  {
  }

  lemma CountsByte3(x: bv32)
    ensures ByteCounts(x) >> 24 == Ones8(x >> 24)
  {
  }

  /** Each byte of ByteCounts(x) is the count of set bits in the same byte of x. */
  lemma CountsPerByte(x: bv32)
    ensures ByteSum(ByteCounts(x)) == Ones(x)
  {
    CountsByte0(x);
    CountsByte1(x);
    CountsByte2(x);
    CountsByte3(x);
    var w := ByteCounts(x);
    Congruence(Add4, w & 0xFF, (w >> 8) & 0xFF, (w >> 16) & 0xFF, w >> 24,
      Ones8(x & 0xFF), Ones8((x >> 8) & 0xFF), Ones8((x >> 16) & 0xFF), Ones8(x >> 24));
  }

  lemma OnesBound(x: bv32)
    ensures Ones(x) <= 32
  {
  }

  lemma Congruence<T>(f: (T, T, T, T) -> T, a0: T, a1: T, a2: T, a3: T, b0: T, b1: T, b2: T, b3: T)
    requires a0 == b0 && a1 == b1 && a2 == b2 && a3 == b3
    ensures f(a0, a1, a2, a3) == f(b0, b1, b2, b3)
  {
  }
}
