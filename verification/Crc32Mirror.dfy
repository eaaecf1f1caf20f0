/** The reflected CRC-32C against the textbook one (src/crc32.c, include/utils/utils.h). */
module Crc32Mirror {
  import opened Registers
  import opened Crc32Register
  import opened Messages

  /** include/utils/utils.h: u8_bit_reverse. */
  function U8BitReverse(b: bv8): bv8 {
    var b1 := ((b & 0xaa) >> 1) | ((b & 0x55) << 1);
    var b2 := ((b1 & 0xcc) >> 2) | ((b1 & 0x33) << 2);
    (b2 >> 4) | (b2 << 4)
  }

  /** include/utils/utils.h: u32_bit_reverse. */
  function U32BitReverse(x: bv32): bv32 {
    var x1 := ((x & 0xaaaa_aaaa) >> 1) | ((x & 0x5555_5555) << 1);
    var x2 := ((x1 & 0xcccc_cccc) >> 2) | ((x1 & 0x3333_3333) << 2);
    var x3 := ((x2 & 0xf0f0_f0f0) >> 4) | ((x2 & 0x0f0f_0f0f) << 4);
    var x4 := ((x3 & 0xff00_ff00) >> 8) | ((x3 & 0x00ff_00ff) << 8);
    (x4 >> 16) | (x4 << 16)
  }

  predicate Top(c: bv32) {
    c & 0x8000_0000 != 0
  }

  /** The unreflected register: the highest bit leads and the generator is written 0x1EDC6F41. */
  const TEXTBOOK: Register<bv32> := Register(32, 0, 0x8000_0000, 0x1EDC6F41, Xor, Top, Left, Right)

  /** Textbook division of a message, each byte most significant bit first. */
  function TextbookCrc(seed: bv32, m: seq<bv8>): bv32
    decreases |m|
  {
    if m == [] then seed else TextbookCrc(TEXTBOOK.Feed(seed, ByteBits(HighFirst, m[0])), m[1..])
  }

  function ReverseBytes(m: seq<bv8>): (r: seq<bv8>)
    ensures |r| == |m|
  {
    if m == [] then [] else [U8BitReverse(m[0])] + ReverseBytes(m[1..])
  }

  lemma ReverseBits(b: bv8)
    ensures ByteBits(HighFirst, U8BitReverse(b)) == ByteBits(LowFirst, b)
  {
  }

  lemma ReverseXor(a: bv32, b: bv32)
    ensures U32BitReverse(Xor(a, b)) == Xor(U32BitReverse(a), U32BitReverse(b))
  {
  }

  lemma ReverseValue(x: bv32)
    ensures
      var x1 := ((x & 0xaaaa_aaaa) >> 1) | ((x & 0x5555_5555) << 1);
      var x2 := ((x1 & 0xcccc_cccc) >> 2) | ((x1 & 0x3333_3333) << 2);
      var x3 := ((x2 & 0xf0f0_f0f0) >> 4) | ((x2 & 0x0f0f_0f0f) << 4);
      var x4 := ((x3 & 0xff00_ff00) >> 8) | ((x3 & 0x00ff_00ff) << 8);
      U32BitReverse(x) == (x4 >> 16) | (x4 << 16)
  {
  }

  lemma ShiftedValue(x: bv32)
    ensures
      var x1 := ((x & 0xaaaa_aaaa) >> 1) | ((x & 0x5555_5555) << 1);
      var x2 := ((x1 & 0xcccc_cccc) >> 2) | ((x1 & 0x3333_3333) << 2);
      var x3 := ((x2 & 0xf0f0_f0f0) >> 4) | ((x2 & 0x0f0f_0f0f) << 4);
      var x4 := ((x3 & 0xff00_ff00) >> 8) | ((x3 & 0x00ff_00ff) << 8);
      Left((x4 >> 16) | (x4 << 16)) == U32BitReverse(x >> 1)
  {
  }

  lemma ReverseShift(x: bv32)
    ensures Left(U32BitReverse(x)) == U32BitReverse(x >> 1)
  {
    hide *;
    ReverseValue(x);
    ShiftedValue(x);
  }

  lemma ReverseLead(a: bv32)
    ensures Top(U32BitReverse(a)) == Low(a)
  {
  }

  lemma ReverseConstants()
    ensures U32BitReverse(0) == 0 && U32BitReverse(1) == 0x8000_0000 && U32BitReverse(0x82F63B78) == 0x1EDC6F41
  {
  }

  lemma ReverseAdds()
    ensures forall a, b {:trigger CRC32C.add(a, b)} ::
              U32BitReverse(CRC32C.add(a, b)) == TEXTBOOK.add(U32BitReverse(a), U32BitReverse(b))
  {
    forall a, b
      ensures U32BitReverse(CRC32C.add(a, b)) == TEXTBOOK.add(U32BitReverse(a), U32BitReverse(b))
    {
      ReverseXor(a, b);
    }
  }

  lemma ReverseShifts(a: bv32)
    ensures TEXTBOOK.lead(U32BitReverse(a)) == CRC32C.lead(a)
    ensures TEXTBOOK.shift(U32BitReverse(a)) == U32BitReverse(CRC32C.shift(a))
  {
    hide U32BitReverse;
    ReverseShift(a);
    ReverseLead(a);
  }

  lemma ReverseMirrors()
    ensures Mirrors(CRC32C, TEXTBOOK, U32BitReverse)
  {
    hide U32BitReverse;
    ReverseConstants();
    ReverseAdds();
    forall a: bv32
      ensures TEXTBOOK.lead(U32BitReverse(a)) == CRC32C.lead(a)
      ensures TEXTBOOK.shift(U32BitReverse(a)) == U32BitReverse(CRC32C.shift(a))
    {
      ReverseShifts(a);
    }
  }

  /** Reversing the register and every byte turns the reflected CRC into the textbook one. */
  lemma {:induction false} ReflectedIsTextbook(seed: bv32, m: seq<bv8>)
    ensures U32BitReverse(Crc(seed, m)) == TextbookCrc(U32BitReverse(seed), ReverseBytes(m))
    decreases |m|
  {
    hide U32BitReverse, CRC32C, TEXTBOOK, U8BitReverse, ByteBits;
    if m != [] {
      var c := CRC32C.Feed(seed, ByteBits(LowFirst, m[0]));
      ReverseMirrors();
      FeedMirrored(CRC32C, TEXTBOOK, U32BitReverse, seed, ByteBits(LowFirst, m[0]));
      ReverseBits(m[0]);
      CRC32C.FeedAppend(seed, ByteBits(LowFirst, m[0]), MessageBits(LowFirst, m[1..]));
      ReflectedIsTextbook(c, m[1..]);
    }
  }
}
