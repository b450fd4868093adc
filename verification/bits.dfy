/**
 * Least-significant-bit-first serialisation of a natural number into a fixed
 * number of bits, and the weighted sum that reads it back.  The two are inverse
 * to each other on values below 2^n and on bit sequences of length n.
 */
module Bits {

  /** An 8-bit unsigned value (uint8_t). */
  type Byte = bv8

  /** 2^n, the number of distinct values an n-bit field can hold. */
  function Pow2(n: nat): (p: nat)
    ensures p >= 1
  {
    if n == 0 then 1 else 2 * Pow2(n - 1)
  }

  /** The n low-order bits of x, least significant bit first. */
  function LowBits(x: nat, n: nat): (bits: seq<bool>)
    ensures |bits| == n
  {
    if n == 0 then [] else [x % 2 == 1] + LowBits(x / 2, n - 1)
  }

  /** The value of an LSB-first bit sequence: the sum of bit_i * 2^i. */
  function Weight(bits: seq<bool>): (v: nat)
    ensures v < Pow2(|bits|)
  {
    if bits == [] then 0 else (if bits[0] then 1 else 0) + 2 * Weight(bits[1..])
  }

  /** Reading back the n low bits of a value below 2^n recovers the value. */
  lemma {:induction false} WeightOfLowBits(x: nat, n: nat)
    requires x < Pow2(n)
    ensures Weight(LowBits(x, n)) == x
  {
    if n > 0 {
      WeightOfLowBits(x / 2, n - 1);
      assert LowBits(x, n)[1..] == LowBits(x / 2, n - 1);
    }
  }

  /** Serialising the weight of a bit sequence gives the same bits back. */
  lemma {:induction false} LowBitsOfWeight(bits: seq<bool>)
    ensures LowBits(Weight(bits), |bits|) == bits
  {
    if bits != [] {
      LowBitsOfWeight(bits[1..]);
    }
  }

  /** The bit-vector view of an 8-bit value: masking the low bit is the remainder by 2. */
  lemma LowBitIsParity(b: Byte)
    ensures (b & 1 == 1) <==> (b as int) % 2 == 1
  {
  }

  /** The bit-vector view of an 8-bit value: a logical right shift by one halves it. */
  lemma ShiftIsHalving(b: Byte)
    ensures (b >> 1) as int == (b as int) / 2
  {
  }

  /** 2^n grows with n. */
  lemma {:induction false} Pow2Monotone(m: nat, n: nat)
    requires m <= n
    ensures Pow2(m) <= Pow2(n)
    decreases n
  {
    if m < n {
      Pow2Monotone(m, n - 1);
    }
  }

  /** Shifting a byte below 128 left by one doubles it; setting the freed low bit adds one. */
  lemma ShiftLeftDoubles(x: Byte)
    requires x as int < 128
    ensures (x << 1) as int == 2 * (x as int)
    ensures ((x << 1) | 1) as int == 2 * (x as int) + 1
  {
  }

  /** Two bytes with the same numeric value are the same byte. */
  lemma ByteValueInjective(x: Byte, y: Byte)
    requires x as int == y as int
    ensures x == y
  {
  }

  /**
   * Assembles up to eight LSB-first bits into a byte: the first bit is the
   * low bit, the rest are the remaining bits shifted up by one.
   */
  function ByteOfBits(bits: seq<bool>): (b: Byte)
    requires |bits| <= 8
    ensures b as int == Weight(bits)
  {
    if bits == [] then 0
    else
      var high := ByteOfBits(bits[1..]);
      assert Pow2(|bits| - 1) <= 128 by {
        Pow2Monotone(|bits| - 1, 7);
        assert Pow2(7) == 128;
      }
      ShiftLeftDoubles(high);
      (high << 1) | (if bits[0] then 1 else 0)
  }

  /** Shifting right by i and then by one is shifting right by i + 1. */
  lemma ShiftStep(b: Byte, i: nat)
    requires i < 8
    ensures (b >> i) >> 1 == b >> (i + 1)
  {
  }

  /** Shifting right by one and then by i - 1 is shifting right by i. */
  lemma ShiftCompose(b: Byte, i: nat)
    requires 1 <= i <= 8
    ensures (b >> 1) >> (i - 1) == b >> i
  {
  }

  /** Bit i of the n low bits of x is bit i - 1 of the n - 1 low bits of x / 2. */
  lemma LowBitsTail(x: nat, n: nat, i: nat)
    requires 0 < i < n
    ensures LowBits(x, n)[i] == LowBits(x / 2, n - 1)[i - 1]
  {
  }

  /** Bit i of the serialisation of an 8-bit value is ((b >> i) & 1). */
  lemma {:induction false} LowBitsAreShiftedMasks(b: Byte, n: nat, i: nat)
    requires i < n <= 8
    ensures LowBits(b as int, n)[i] <==> ((b >> i) & 1 == 1)
  {
    if i == 0 {
      LowBitIsParity(b);
    } else {
      var h := b >> 1;
      ShiftIsHalving(b);
      LowBitsTail(b as int, n, i);
      LowBitsAreShiftedMasks(h, n - 1, i - 1);
      ShiftCompose(b, i);
    }
  }
}
