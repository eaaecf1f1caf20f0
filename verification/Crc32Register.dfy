/** The bit-serial CRC-32C register and what it computes, without the tables of src/crc32.c. */
module Crc32Register {
  import opened Messages
  import opened Registers

  // ---------------------------------------------------------------------------
  // The register
  // ---------------------------------------------------------------------------

  function Xor(a: bv32, b: bv32): bv32 {
    a ^ b
  }

  predicate Low(c: bv32) {
    c & 1 == 1
  }

  function Right(c: bv32): bv32 {
    c >> 1
  }

  function Left(c: bv32): bv32 {
    c << 1
  }

  /** The reflected CRC-32C register: the lowest bit of the word leads, 0x82F63B78 is 0x1EDC6F41 mirrored. */
  const CRC32C: Register<bv32> := Register(
    32, 0, 1, 0x82F63B78, Xor, Low, Right, Left)

  /** The generator of CRC-32C (RFC 3720, section 12.1) by its exponents. */
  const GENERATOR: Poly := {0, 6, 8, 9, 10, 11, 13, 14, 18, 19, 20, 22, 23, 25, 26, 27, 28, 32}

  /** The bit-serial CRC: the register after every bit of m, starting from seed. */
  function Crc(seed: bv32, m: seq<bv8>): bv32 {
    CRC32C.Feed(seed, MessageBits(LowFirst, m))
  }

  // ---------------------------------------------------------------------------
  // The register is lawful
  // ---------------------------------------------------------------------------

  lemma Regroup(x: bv32, y: bv32, a: bv32, b: bv32, c: bv32)
    requires x == a ^ c && y == b ^ c
    ensures x ^ y == a ^ b
  {
  }

  lemma XorRegroups(a: bv32, b: bv32, c: bv32)
    ensures Xor(Xor(a, c), Xor(b, c)) == Xor(a, b)
  {
    Regroup(Xor(a, c), Xor(b, c), a, b, c);
  }

  lemma XorShift(a: bv32, b: bv32)
    ensures Low(Xor(a, b)) <==> Low(a) != Low(b)
    ensures Right(Xor(a, b)) == Xor(Right(a), Right(b))
  {
  }

  lemma LowAndRight(a: bv32, b: bv32)
    requires Low(a) == Low(b) && Right(a) == Right(b)
    ensures a == b
  {
  }

  lemma LeftRight(c: bv32)
    ensures !Low(Left(c))
    ensures c >> 31 == 0 ==> Right(Left(c)) == c
  {
  }

  lemma Drop2(c: bv32)
    ensures CRC32C.Drop(c, 2) == c >> 2
  {
    assert CRC32C.Drop(c, 2) == CRC32C.Drop(Right(c), 1);
    assert CRC32C.Drop(Right(c), 1) == CRC32C.Drop(Right(Right(c)), 0);
  }

  lemma Drop4(c: bv32)
    ensures CRC32C.Drop(c, 4) == c >> 4
  {
    CRC32C.DropAppend(c, 2, 2);
    Drop2(c);
    Drop2(c >> 2);
  }

  lemma Drop8(c: bv32)
    ensures CRC32C.Drop(c, 8) == c >> 8
  {
    CRC32C.DropAppend(c, 4, 4);
    Drop4(c);
    Drop4(c >> 4);
  }

  lemma Drop16(c: bv32)
    ensures CRC32C.Drop(c, 16) == c >> 16
  {
    CRC32C.DropAppend(c, 8, 8);
    Drop8(c);
    Drop8(c >> 8);
  }

  lemma Drop31(c: bv32)
    ensures CRC32C.Drop(c, 31) == c >> 31
  {
    CRC32C.DropAppend(c, 16, 15);
    CRC32C.DropAppend(c >> 16, 8, 7);
    CRC32C.DropAppend(c >> 24, 4, 3);
    CRC32C.DropAppend(c >> 28, 2, 1);
    Drop16(c);
    Drop8(c >> 16);
    Drop4(c >> 24);
    Drop2(c >> 28);
  }

  lemma DropAll(c: bv32)
    ensures CRC32C.Drop(c, 32) == 0
  {
    CRC32C.DropAppend(c, 16, 16);
    Drop16(c);
    Drop16(c >> 16);
  }

  lemma AddIsLawful()
    ensures CRC32C.AddLaws()
  {
    forall a: bv32, b: bv32, c: bv32 {:trigger CRC32C.add(CRC32C.add(a, c), CRC32C.add(b, c))}
      ensures CRC32C.add(CRC32C.add(a, c), CRC32C.add(b, c)) == CRC32C.add(a, b)
    {
      XorRegroups(a, b, c);
    }
  }

  lemma LeadIsLinear()
    ensures forall a, b {:trigger CRC32C.lead(CRC32C.add(a, b))} ::
              CRC32C.lead(CRC32C.add(a, b)) <==> CRC32C.lead(a) != CRC32C.lead(b)
  {
    forall a, b
      ensures CRC32C.lead(CRC32C.add(a, b)) <==> CRC32C.lead(a) != CRC32C.lead(b)
    {
      XorShift(a, b);
    }
  }

  lemma ShiftIsLinear()
    ensures forall a, b {:trigger CRC32C.shift(CRC32C.add(a, b))} ::
              CRC32C.shift(CRC32C.add(a, b)) == CRC32C.add(CRC32C.shift(a), CRC32C.shift(b))
  {
    forall a, b
      ensures CRC32C.shift(CRC32C.add(a, b)) == CRC32C.add(CRC32C.shift(a), CRC32C.shift(b))
    {
      XorShift(a, b);
    }
  }

  lemma ShiftIsInjective()
    ensures forall a, b {:trigger CRC32C.shift(a), CRC32C.shift(b)} ::
              CRC32C.shift(a) == CRC32C.shift(b) && CRC32C.lead(a) == CRC32C.lead(b) ==> a == b
  {
    forall a, b | CRC32C.shift(a) == CRC32C.shift(b) && CRC32C.lead(a) == CRC32C.lead(b)
      ensures a == b
    {
      LowAndRight(a, b);
    }
  }

  lemma ShiftIsLawful()
    ensures CRC32C.ShiftLaws()
  {
    LeadIsLinear();
    ShiftIsLinear();
    ShiftIsInjective();
  }

  lemma WidthIsLawful()
    ensures CRC32C.WidthLaws()
  {
    forall c: bv32
      ensures CRC32C.Drop(c, 32) == 0
      ensures !CRC32C.lead(CRC32C.unshift(c))
      ensures !CRC32C.At(c, 31) ==> CRC32C.shift(CRC32C.unshift(c)) == c
    {
      DropAll(c);
      Drop31(c);
      LeftRight(c);
      Top(c);
    }
    Drop31(CRC32C.feedback);
  }

  lemma Top(c: bv32)
    ensures Low(c >> 31) <==> c >> 31 != 0
  {
  }

  lemma CrcIsLawful()
    ensures CRC32C.Lawful()
  {
    AddIsLawful();
    ShiftIsLawful();
    WidthIsLawful();
  }

  // ---------------------------------------------------------------------------
  // A byte as eight bits
  // ---------------------------------------------------------------------------

  lemma PackBit(b: bool, x: bv32)
    ensures CRC32C.Pack(b, x) == (x << 1) ^ (if b then 1 else 0)
  {
  }

  lemma NibbleBits(x: bv32, x3: bv32, x2: bv32, x1: bv32, x0: bv32, n: bv32, d0: bool, d1: bool, d2: bool, d3: bool)
    requires n < 16 && d0 == (n & 1 != 0) && d1 == (n & 2 != 0) && d2 == (n & 4 != 0) && d3 == (n & 8 != 0)
    requires x3 == (x << 1) ^ (if d3 then 1 else 0)
    requires x2 == (x3 << 1) ^ (if d2 then 1 else 0)
    requires x1 == (x2 << 1) ^ (if d1 then 1 else 0)
    requires x0 == (x1 << 1) ^ (if d0 then 1 else 0)
    ensures x0 == (x << 4) | n
  {
  }

  lemma LoadFour(d0: bool, d1: bool, d2: bool, d3: bool, bits: seq<bool>, x: bv32)
      returns (x0: bv32, x1: bv32, x2: bv32, x3: bv32)
    requires x == CRC32C.Load(bits)
    ensures x3 == (x << 1) ^ (if d3 then 1 else 0)
    ensures x2 == (x3 << 1) ^ (if d2 then 1 else 0)
    ensures x1 == (x2 << 1) ^ (if d1 then 1 else 0)
    ensures x0 == (x1 << 1) ^ (if d0 then 1 else 0)
    ensures x0 == CRC32C.Load([d0, d1, d2, d3] + bits)
  {
    hide *;
    x0, x1, x2, x3 := CRC32C.LoadFour(d0, d1, d2, d3, bits);
    PackBit(d3, x);
    PackBit(d2, x3);
    PackBit(d1, x2);
    PackBit(d0, x1);
  }

  lemma LoadNibble(n: bv32, bits: seq<bool>, x: bv32, d0: bool, d1: bool, d2: bool, d3: bool)
    requires n < 16 && d0 == (n & 1 != 0) && d1 == (n & 2 != 0) && d2 == (n & 4 != 0) && d3 == (n & 8 != 0)
    requires x == CRC32C.Load(bits)
    ensures CRC32C.Load([d0, d1, d2, d3] + bits) == (x << 4) | n
  {
    hide *;
    var x0, x1, x2, x3 := LoadFour(d0, d1, d2, d3, bits, x);
    NibbleBits(x, x3, x2, x1, x0, n, d0, d1, d2, d3);
  }

  lemma ByteNibbles(b: bv8, h: bv32, l: bv32)
    requires h == (b as bv32) >> 4 && l == (b as bv32) & 15
    ensures ByteBits(LowFirst, b) ==
            [l & 1 != 0, l & 2 != 0, l & 4 != 0, l & 8 != 0] + [h & 1 != 0, h & 2 != 0, h & 4 != 0, h & 8 != 0]
  {
  }

  lemma JoinNibbles(b: bv32, h: bv32, l: bv32)
    requires b <= 0xff && h == b >> 4 && l == b & 15
    ensures (((0 << 4) | h) << 4) | l == b
  {
  }

  lemma LoadNothing()
    ensures CRC32C.Load([]) == 0
  {
  }

  lemma LoadByte(b: bv8)
    ensures CRC32C.Load(ByteBits(LowFirst, b)) == b as bv32
  {
    hide *;
    var h, l := (b as bv32) >> 4, (b as bv32) & 15;
    var high := [h & 1 != 0, h & 2 != 0, h & 4 != 0, h & 8 != 0];
    LoadNothing();
    LoadNibble(h, [], 0, h & 1 != 0, h & 2 != 0, h & 4 != 0, h & 8 != 0);
    assert high + [] == high;
    LoadNibble(l, high, (0 << 4) | h, l & 1 != 0, l & 2 != 0, l & 4 != 0, l & 8 != 0);
    ByteNibbles(b, h, l);
    JoinNibbles(b as bv32, h, l);
  }

  // ---------------------------------------------------------------------------
  // Messages
  // ---------------------------------------------------------------------------

  lemma CrcEmpty(c: bv32)
    ensures Crc(c, []) == c
  {
  }

  /** Feeding a message in two parts, the result of the first as the seed of the second. */
  lemma CrcAppend(seed: bv32, s: seq<bv8>, t: seq<bv8>)
    ensures Crc(seed, s + t) == Crc(Crc(seed, s), t)
  {
    MessageBitsAppend(LowFirst, s, t);
    CRC32C.FeedAppend(seed, MessageBits(LowFirst, s), MessageBits(LowFirst, t));
  }

  // ---------------------------------------------------------------------------
  // What the CRC means
  // ---------------------------------------------------------------------------

  lemma Drop1(c: bv32)
    ensures CRC32C.Drop(c, 1) == c >> 1
  {
    assert CRC32C.Drop(c, 1) == CRC32C.Drop(Right(c), 0);
  }

  lemma Drop3(c: bv32)
    ensures CRC32C.Drop(c, 3) == (c >> 2) >> 1
  {
    CRC32C.DropAppend(c, 2, 1);
    Drop2(c);
    Drop1(c >> 2);
  }

  lemma LowPlaces(c: bv32)
    ensures CRC32C.At(c, 0) == (c & 1 != 0) && CRC32C.At(c, 1) == (c & 2 != 0)
    ensures CRC32C.At(c, 2) == (c & 4 != 0) && CRC32C.At(c, 3) == (c & 8 != 0)
  {
    Drop1(c);
    Drop2(c);
    Drop3(c);
  }

  lemma NextPlaces(c: bv32, i: nat)
    requires i < 4
    ensures CRC32C.At(c, 4 + i) == CRC32C.At(c >> 4, i)
    ensures CRC32C.At(c, 8 + i) == CRC32C.At(c >> 8, i)
    ensures CRC32C.At(c, 12 + i) == CRC32C.At(c >> 12, i)
  {
    CRC32C.DropAppend(c, 4, i);
    CRC32C.DropAppend(c, 8, i);
    CRC32C.DropAppend(c, 8, 4 + i);
    CRC32C.DropAppend(c >> 8, 4, i);
    Drop4(c);
    Drop8(c);
    Drop4(c >> 8);
    assert (c >> 8) >> 4 == c >> 12;
  }

  lemma UpperPlaces(c: bv32, i: nat)
    ensures CRC32C.At(c, 16 + i) == CRC32C.At(c >> 16, i)
  {
    CRC32C.DropAppend(c, 16, i);
    Drop16(c);
  }

  lemma LowFeedback(i: nat)
    requires i < 16
    ensures CRC32C.At(0x82F63B78, i) <==> i in {3, 4, 5, 6, 8, 9, 11, 12, 13}
  {
    LowPlaces(0x82F63B78);
    LowPlaces(0x82F63B78 >> 4);
    LowPlaces(0x82F63B78 >> 8);
    LowPlaces(0x82F63B78 >> 12);
    NextPlaces(0x82F63B78, i % 4);
  }

  lemma HighFeedback(i: nat)
    requires i < 16
    ensures CRC32C.At(0x82F6, i) <==> i in {1, 2, 4, 5, 6, 7, 9, 15}
  {
    LowPlaces(0x82F6);
    LowPlaces(0x82F6 >> 4);
    LowPlaces(0x82F6 >> 8);
    LowPlaces(0x82F6 >> 12);
    NextPlaces(0x82F6, i % 4);
  }

  lemma FeedbackPlaces(i: nat)
    requires i < 32
    ensures CRC32C.At(0x82F63B78, i) <==> 31 - i in GENERATOR
  {
    if i < 16 {
      LowFeedback(i);
    } else {
      UpperPlaces(0x82F63B78, i - 16);
      HighFeedback(i - 16);
    }
  }

  lemma GeneratorMeaning()
    ensures CRC32C.Generator() == GENERATOR
  {
    forall e: nat
      ensures e in CRC32C.Generator() <==> e in GENERATOR
    {
      if e < 32 {
        FeedbackPlaces(31 - e);
      }
    }
  }

  lemma CrcUnfolds(c: bv32, m: seq<bv8>)
    ensures Crc(c, m) == CRC32C.Feed(c, MessageBits(LowFirst, m)) && CRC32C.width == 32
  {
  }

  /** Two messages that differ only inside 32 consecutive bits, least significant bit first, differ in their CRC. */
  lemma BurstDetected(seed: bv32, s: seq<bv8>, t: seq<bv8>, lo: nat)
    requires |s| == |t| && s != t
    requires forall i :: 0 <= i < 8 * |s| && !(lo <= i < lo + 32) ==>
        MessageBits(LowFirst, s)[i] == MessageBits(LowFirst, t)[i]
    ensures Crc(seed, s) != Crc(seed, t)
  {
    hide *;
    CrcIsLawful();
    CrcUnfolds(seed, s);
    CrcUnfolds(seed, t);
    if MessageBits(LowFirst, s) == MessageBits(LowFirst, t) {
      MessageBitsInjective(LowFirst, s, t);
    }
    CRC32C.BurstDetected(seed, MessageBits(LowFirst, s), MessageBits(LowFirst, t), lo);
  }

  /** A register holds the CRC exactly when it is the remainder of the message polynomial. */
  lemma CrcIsRemainder(seed: bv32, m: seq<bv8>, c: bv32)
    ensures c == Crc(seed, m) <==>
            IsRemainder(MessagePoly(CRC32C, seed, MessageBits(LowFirst, m)), GENERATOR, 32, CRC32C.ToPoly(c))
  {
    CrcIsLawful();
    GeneratorMeaning();
    FeedIsTheRemainder(CRC32C, seed, MessageBits(LowFirst, m), c);
  }
}
