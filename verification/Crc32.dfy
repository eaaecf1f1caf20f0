/** src/crc32.c: the table-driven loops against the bit-serial CRC. */
module Crc32 {
  import opened Registers
  import opened Crc32Register
  import opened Messages

  // ---------------------------------------------------------------------------
  // The lookup tables
  // ---------------------------------------------------------------------------

  function Byte0(c: bv32): bv32 {
    c & 0xff
  }

  function Byte1(c: bv32): bv32 {
    (c >> 8) & 0xff
  }

  function Byte2(c: bv32): bv32 {
    (c >> 16) & 0xff
  }

  function Byte3(c: bv32): bv32 {
    (c >> 24) & 0xff
  }

  function HighBytes(c: bv32): bv32 {
    c >> 8
  }

  /** crc32Table and sctp_crc_tableil8_o32: eight zero bits behind a byte. */
  function Table0(i: bv32): bv32 {
    CRC32C.Run(i, 8)
  }

  const SLICED: Sliced<bv32> := Sliced(0, Xor, Table0, Byte0, HighBytes)

  /** Table 0 is sctp_crc_tableil8_o32, table 7 is sctp_crc_tableil8_o88. */
  function Table(k: nat, i: bv32): bv32 {
    SLICED.Table(k, i)
  }

  lemma ClearPlaces(c: bv32)
    requires c & 0xf == 0
    ensures forall i :: 0 <= i < 4 ==> !CRC32C.At(c, i)
  {
    Drop1(c);
    Drop2(c);
    Drop3(c);
  }

  lemma RunNibble(c: bv32)
    requires c & 0xf == 0
    ensures CRC32C.Run(c, 4) == c >> 4
  {
    ClearPlaces(c);
    CRC32C.RunClear(c, 4);
    Drop4(c);
  }

  lemma ClearNibbles(c: bv32)
    requires c & 0xff == 0
    ensures c & 0xf == 0 && (c >> 4) & 0xf == 0
  {
  }

  /** A clear low byte is shifted out without feedback. */
  lemma RunClearByte(c: bv32)
    requires c & 0xff == 0
    ensures CRC32C.Run(c, 8) == c >> 8
  {
    ClearNibbles(c);
    CRC32C.RunAppend(c, 4, 4);
    RunNibble(c);
    RunNibble(c >> 4);
    assert (c >> 4) >> 4 == c >> 8;
  }

  lemma ByteParts(c: bv32, lo: bv32, hi: bv32)
    requires lo == c & 0xff && hi == c & 0xffff_ff00
    ensures Xor(lo, hi) == c
  {
  }

  lemma HighPart(c: bv32, hi: bv32)
    requires hi == c & 0xffff_ff00
    ensures hi & 0xff == 0 && hi >> 8 == c >> 8
  {
  }

  lemma RunLookup(c: bv32, lo: bv32, hi: bv32, h: bv32)
    requires Xor(lo, hi) == c && CRC32C.Run(hi, 8) == h
    ensures CRC32C.Run(c, 8) == Xor(Table0(lo), h)
  {
    AddIsLawful();
    ShiftIsLawful();
    CRC32C.RunLinear(lo, hi, 8);
  }

  lemma ByteStepMeaning(c: bv32, lo: bv32, h: bv32)
    requires lo == Byte0(c) && h == HighBytes(c)
    ensures SLICED.ByteStep(c) == Xor(Table0(lo), h)
  {
  }

  lemma RunParts(c: bv32, lo: bv32, hi: bv32, h: bv32)
    requires lo == Byte0(c) && h == HighBytes(c)
    requires Xor(lo, hi) == c && CRC32C.Run(hi, 8) == h
    ensures CRC32C.Run(c, 8) == SLICED.ByteStep(c)
  {
    RunLookup(c, lo, hi, h);
    ByteStepMeaning(c, lo, h);
  }

  /** Eight zero bits are one table lookup. */
  lemma RunByte(c: bv32)
    ensures CRC32C.Run(c, 8) == SLICED.ByteStep(c)
  {
    var hi := c & 0xffff_ff00;
    ByteParts(c, c & 0xff, hi);
    HighPart(c, hi);
    RunClearByte(hi);
    RunParts(c, Byte0(c), hi, HighBytes(c));
  }

  lemma ClearStep(c: bv32)
    requires c & 0xff == 0
    ensures SLICED.ByteStep(c) == c >> 8
  {
    RunByte(c);
    RunClearByte(c);
  }

  lemma ByteStepLinear(a: bv32, b: bv32)
    ensures SLICED.ByteStep(Xor(a, b)) == Xor(SLICED.ByteStep(a), SLICED.ByteStep(b))
  {
    AddIsLawful();
    ShiftIsLawful();
    CRC32C.RunLinear(a, b, 8);
    RunByte(a);
    RunByte(b);
    RunByte(Xor(a, b));
  }

  lemma ByteStepIsLinear()
    ensures forall a, b {:trigger SLICED.add(SLICED.ByteStep(a), SLICED.ByteStep(b))} ::
              SLICED.ByteStep(SLICED.add(a, b)) == SLICED.add(SLICED.ByteStep(a), SLICED.ByteStep(b))
  {
    forall a, b
      ensures SLICED.ByteStep(SLICED.add(a, b)) == SLICED.add(SLICED.ByteStep(a), SLICED.ByteStep(b))
    {
      ByteStepLinear(a, b);
    }
  }

  lemma SlicedIsLinear()
    ensures SLICED.Linear()
  {
    ByteStepIsLinear();
    ZeroStep();
  }

  lemma ZeroStep()
    ensures SLICED.ByteStep(0) == 0
  {
    ClearStep(0);
  }

  lemma XorAssociates(a: bv32, b: bv32, c: bv32)
    ensures Xor(Xor(a, b), c) == Xor(a, Xor(b, c))
  {
    AddIsLawful();
    CRC32C.AddAssociates(a, b, c);
    CRC32C.AddCommutes(b, c);
  }

  lemma Chain(a: bv32, b: bv32, c: bv32, d: bv32)
    ensures Xor(a, Xor(b, Xor(c, d))) == Xor(Xor(Xor(a, b), c), d)
  {
    hide Xor;
    XorAssociates(b, c, d);
    XorAssociates(a, Xor(b, c), d);
    XorAssociates(a, b, c);
  }

  lemma WordBytes(c: bv32)
    ensures HighBytes(c) == c >> 8 && HighBytes(c >> 8) == c >> 16
    ensures HighBytes(c >> 16) == c >> 24 && HighBytes(c >> 24) == 0
  {
  }

  lemma PeelWord(c: bv32, k: nat)
    ensures SLICED.Bytes(c, k + 4) ==
            Xor(Table(k + 3, Byte0(c)), Xor(Table(k + 2, Byte1(c)), Xor(Table(k + 1, Byte2(c)), Table(k, Byte3(c)))))
  {
    SlicedIsLinear();
    WordBytes(c);
    SLICED.PeelWord(c, c >> 8, c >> 16, c >> 24, k);
  }

  /** Running a whole word is one lookup for each of its bytes. */
  lemma LookupWord(c: bv32, k: nat)
    ensures SLICED.Bytes(c, k + 4) ==
            Xor(Xor(Xor(Table(k + 3, Byte0(c)), Table(k + 2, Byte1(c))), Table(k + 1, Byte2(c))), Table(k, Byte3(c)))
  {
    hide *;
    PeelWord(c, k);
    Chain(Table(k + 3, Byte0(c)), Table(k + 2, Byte1(c)), Table(k + 1, Byte2(c)), Table(k, Byte3(c)));
  }

  // ---------------------------------------------------------------------------
  // Bytes and words
  // ---------------------------------------------------------------------------

  function Wide(b: bv8): bv32 {
    b as bv32
  }

  function Widen(m: seq<bv8>): (w: seq<bv32>)
    ensures |w| == |m|
  {
    if m == [] then [] else [Wide(m[0])] + Widen(m[1..])
  }

  /** A 32-bit little-endian load. */
  function Word(m: seq<bv8>): bv32
    requires |m| == 4
  {
    (m[0] as bv32) | ((m[1] as bv32) << 8) | ((m[2] as bv32) << 16) | ((m[3] as bv32) << 24)
  }

  lemma FeedByte(c: bv32, b: bv8)
    ensures CRC32C.Feed(c, ByteBits(LowFirst, b)) == SLICED.ByteStep(Xor(c, b as bv32))
  {
    CrcIsLawful();
    CRC32C.FeedIsLoadThenRun(c, ByteBits(LowFirst, b));
    LoadByte(b);
    CRC32C.AddCommutes(c, b as bv32);
    RunByte(Xor(c, b as bv32));
  }

  /** The bit-serial CRC is the byte-at-a-time fold. */
  lemma {:induction false} CrcIsFold(c: bv32, m: seq<bv8>)
    ensures Crc(c, m) == SLICED.Fold(c, Widen(m))
    decreases |m|
  {
    if m != [] {
      CRC32C.FeedAppend(c, ByteBits(LowFirst, m[0]), MessageBits(LowFirst, m[1..]));
      FeedByte(c, m[0]);
      CrcIsFold(SLICED.ByteStep(Xor(c, Wide(m[0]))), m[1..]);
      assert Widen(m)[1..] == Widen(m[1..]);
    }
  }

  function UpperBytes(c: bv32): bv32 {
    c & 0xffff_ff00
  }

  lemma Absorb(c: bv32, w: bv32, b: bv32, up: bv32)
    requires w == Xor(b, up)
    ensures Xor(c, w) == Xor(Xor(c, b), up)
  {
    AddIsLawful();
    CRC32C.AddAssociates(c, b, up);
    CRC32C.AddCommutes(b, up);
  }

  lemma Absorbs(w: bv32, b: bv32, up: bv32)
    requires w == Xor(b, up)
    ensures forall c {:trigger SLICED.add(c, w)} :: SLICED.add(c, w) == SLICED.add(SLICED.add(c, b), up)
  {
    forall c
      ensures SLICED.add(c, w) == SLICED.add(SLICED.add(c, b), up)
    {
      Absorb(c, w, b, up);
    }
  }

  lemma StackedParts(w: bv32, b: bv32, up: bv32, rest: bv32)
    requires w == Xor(b, up) && SLICED.ByteStep(up) == rest
    ensures SLICED.Stacked(w, b, up, rest)
  {
    Absorbs(w, b, up);
  }

  lemma StackedWord(w: bv32)
    ensures SLICED.Stacked(w, Byte0(w), UpperBytes(w), HighBytes(w))
  {
    var up := UpperBytes(w);
    ByteParts(w, Byte0(w), up);
    HighPart(w, up);
    ClearStep(up);
    StackedParts(w, Byte0(w), up, HighBytes(w));
  }

  lemma FeedWord(c: bv32, w: bv32, w1: bv32, w2: bv32, w3: bv32)
    requires w1 == HighBytes(w) && w2 == HighBytes(w1) && w3 == HighBytes(w2) && HighBytes(w3) == 0
    ensures SLICED.Fold(c, [Byte0(w), Byte0(w1), Byte0(w2), Byte0(w3)]) == SLICED.Bytes(Xor(c, w), 4)
  {
    SlicedIsLinear();
    StackedWord(w);
    StackedWord(w1);
    StackedWord(w2);
    StackedWord(w3);
    SLICED.FeedWord(c, w, w1, w2, w3, Byte0(w), Byte0(w1), Byte0(w2), Byte0(w3),
      UpperBytes(w), UpperBytes(w1), UpperBytes(w2), UpperBytes(w3));
  }

  lemma WordParts(m: seq<bv8>)
    requires |m| == 4
    ensures Byte0(Word(m)) == Wide(m[0])
    ensures Byte1(Word(m)) == Wide(m[1])
    ensures Byte2(Word(m)) == Wide(m[2])
    ensures Byte3(Word(m)) == Wide(m[3])
  {
  }

  lemma WidenFour(m: seq<bv8>)
    requires |m| == 4
    ensures Widen(m) == [Wide(m[0]), Wide(m[1]), Wide(m[2]), Wide(m[3])]
  {
    assert Widen(m[3..]) == [Wide(m[3])];
    assert Widen(m[2..]) == [Wide(m[2])] + Widen(m[3..]);
    assert Widen(m[1..]) == [Wide(m[1])] + Widen(m[2..]);
  }

  lemma FoldWord(c: bv32, m: seq<bv8>)
    requires |m| == 4
    ensures SLICED.Fold(c, Widen(m)) == SLICED.Bytes(Xor(c, Word(m)), 4)
  {
    var w := Word(m);
    WordBytes(w);
    FeedWord(c, w, w >> 8, w >> 16, w >> 24);
    WordParts(m);
    WidenFour(m);
  }

  lemma {:induction false} WidenAppend(s: seq<bv8>, t: seq<bv8>)
    ensures Widen(s + t) == Widen(s) + Widen(t)
  {
    if s == [] {
      assert s + t == t;
    } else {
      assert (s + t)[1..] == s[1..] + t;
      WidenAppend(s[1..], t);
    }
  }

  /** Eight bytes at once: the first word runs eight bytes, the second four. */
  lemma FoldTwoWords(c: bv32, m: seq<bv8>)
    requires |m| == 8
    ensures SLICED.Fold(c, Widen(m)) == Xor(SLICED.Bytes(Xor(c, Word(m[..4])), 8), SLICED.Bytes(Word(m[4..]), 4))
  {
    var x := Xor(c, Word(m[..4]));
    assert m == m[..4] + m[4..];
    WidenAppend(m[..4], m[4..]);
    SLICED.FoldAppend(c, Widen(m[..4]), Widen(m[4..]));
    FoldWord(c, m[..4]);
    FoldWord(SLICED.Bytes(x, 4), m[4..]);
    SlicedIsLinear();
    SLICED.TwoWords(x, Word(m[4..]));
  }

  // ---------------------------------------------------------------------------
  // The loop bodies of src/crc32.c
  // ---------------------------------------------------------------------------

  /** One byte: the body of singletable_crc32c and of the prologue and epilogue loops. */
  function LookupByte(crc: bv32, b: bv32): bv32 {
    Xor(Table0(Byte0(Xor(crc, b))), HighBytes(crc))
  }

  /** The first four lookups of a block, shared by both byte orders. */
  function LookupFirst(crc: bv32): bv32 {
    var term1 := Xor(Table(7, Byte0(crc)), Table(6, Byte1(crc)));
    Xor(Xor(term1, Table(5, Byte2(crc))), Table(4, Byte3(crc)))
  }

  /** The last four lookups on a little-endian machine, from a 32-bit load. */
  function LookupLoad(crc: bv32, w: bv32): bv32 {
    var term1 := Xor(Table(3, Byte0(w)), Table(2, Byte1(w)));
    Xor(Xor(Xor(crc, term1), Table(1, Byte2(w))), Table(0, Byte3(w)))
  }

  /** The first four bytes on a big-endian machine, added one at a time. */
  function MixBytes(crc: bv32, b0: bv32, b1: bv32, b2: bv32, b3: bv32): bv32 {
    crc ^ b0 ^ (b1 << 8) ^ (b2 << 16) ^ (b3 << 24)
  }

  /** The last four lookups on a big-endian machine, byte by byte. */
  function LookupBytes(crc: bv32, b4: bv32, b5: bv32, b6: bv32, b7: bv32): bv32 {
    Xor(Xor(Xor(Xor(crc, Table(3, b4)), Table(2, b5)), Table(1, b6)), Table(0, b7))
  }

  /** A block of eight bytes on a little-endian machine. */
  function BlockLittle(crc: bv32, m: seq<bv8>): bv32
    requires |m| == 8
  {
    LookupLoad(LookupFirst(Xor(crc, Word(m[..4]))), Word(m[4..]))
  }

  /** A block of eight bytes on a big-endian machine. */
  function BlockBig(crc: bv32, m: seq<bv8>): bv32
    requires |m| == 8
  {
    var c := MixBytes(crc, Wide(m[0]), Wide(m[1]), Wide(m[2]), Wide(m[3]));
    LookupBytes(LookupFirst(c), Wide(m[4]), Wide(m[5]), Wide(m[6]), Wide(m[7]))
  }

  // ---------------------------------------------------------------------------
  // Each loop body feeds its bytes
  // ---------------------------------------------------------------------------

  lemma HighOfSum(c: bv32, b: bv32, d: bv32)
    requires d == Xor(c, b) && b <= 0xff
    ensures HighBytes(d) == HighBytes(c)
  {
  }

  lemma LookupByteMeaning(c: bv32, b: bv32)
    requires b <= 0xff
    ensures LookupByte(c, b) == SLICED.ByteStep(Xor(c, b))
  {
    hide Xor, Table0, Byte0, HighBytes;
    HighOfSum(c, b, Xor(c, b));
    var d := Xor(c, b);
    ByteStepMeaning(d, Byte0(d), HighBytes(d));
  }

  /** One step of the byte-at-a-time loops. */
  lemma CrcByte(c: bv32, m: seq<bv8>)
    requires m != []
    ensures Crc(LookupByte(c, Wide(m[0])), m[1..]) == Crc(c, m)
  {
    CRC32C.FeedAppend(c, ByteBits(LowFirst, m[0]), MessageBits(LowFirst, m[1..]));
    FeedByte(c, m[0]);
    LookupByteMeaning(c, Wide(m[0]));
  }

  lemma FirstTerms(c: bv32)
    ensures LookupFirst(c) ==
            Xor(Xor(Xor(Table(7, Byte0(c)), Table(6, Byte1(c))), Table(5, Byte2(c))), Table(4, Byte3(c)))
  {
    hide Xor, Table, Byte0, Byte1, Byte2, Byte3;
  }

  lemma LookupFirstMeaning(c: bv32)
    ensures LookupFirst(c) == SLICED.Bytes(c, 8)
  {
    hide *;
    FirstTerms(c);
    LookupWord(c, 4);
  }

  lemma Mix(y: bv32, t3: bv32, t2: bv32, t1: bv32, t0: bv32)
    ensures Xor(Xor(Xor(y, Xor(t3, t2)), t1), t0) == Xor(y, Xor(Xor(Xor(t3, t2), t1), t0))
    ensures Xor(Xor(Xor(Xor(y, t3), t2), t1), t0) == Xor(y, Xor(Xor(Xor(t3, t2), t1), t0))
  {
    hide Xor;
    XorAssociates(y, t3, t2);
    XorAssociates(y, Xor(t3, t2), t1);
    XorAssociates(y, Xor(Xor(t3, t2), t1), t0);
  }

  lemma LoadTerms(c: bv32, w: bv32)
    ensures LookupLoad(c, w) ==
            Xor(Xor(Xor(c, Xor(Table(3, Byte0(w)), Table(2, Byte1(w)))), Table(1, Byte2(w))), Table(0, Byte3(w)))
  {
    hide Xor, Table, Byte0, Byte1, Byte2, Byte3;
  }

  lemma LookupLoadMeaning(c: bv32, w: bv32)
    ensures LookupLoad(c, w) == Xor(c, SLICED.Bytes(w, 4))
  {
    hide *;
    LoadTerms(c, w);
    LookupWord(w, 0);
    Mix(c, Table(3, Byte0(w)), Table(2, Byte1(w)), Table(1, Byte2(w)), Table(0, Byte3(w)));
  }

  lemma BytesTerms(c: bv32, b4: bv32, b5: bv32, b6: bv32, b7: bv32)
    ensures LookupBytes(c, b4, b5, b6, b7) ==
            Xor(Xor(Xor(Xor(c, Table(3, b4)), Table(2, b5)), Table(1, b6)), Table(0, b7))
  {
    hide Xor, Table;
  }

  lemma LookupBytesMeaning(c: bv32, w: bv32, b4: bv32, b5: bv32, b6: bv32, b7: bv32)
    requires b4 == Byte0(w) && b5 == Byte1(w) && b6 == Byte2(w) && b7 == Byte3(w)
    ensures LookupBytes(c, b4, b5, b6, b7) == Xor(c, SLICED.Bytes(w, 4))
  {
    hide *;
    BytesTerms(c, b4, b5, b6, b7);
    LookupWord(w, 0);
    Mix(c, Table(3, b4), Table(2, b5), Table(1, b6), Table(0, b7));
  }

  lemma LittleMeaning(c: bv32, m: seq<bv8>)
    requires |m| == 8
    ensures BlockLittle(c, m) == SLICED.Fold(c, Widen(m))
  {
    hide Xor, LookupLoad, LookupFirst, Word, SLICED, Widen;
    FoldTwoWords(c, m);
    LookupFirstMeaning(Xor(c, Word(m[..4])));
    LookupLoadMeaning(LookupFirst(Xor(c, Word(m[..4]))), Word(m[4..]));
  }

  lemma MixWord(c: bv32, m: seq<bv8>)
    requires |m| == 4
    ensures c ^ (m[0] as bv32) ^ ((m[1] as bv32) << 8) ^ ((m[2] as bv32) << 16) ^ ((m[3] as bv32) << 24) ==
            Xor(c, Word(m))
  {
  }

  lemma MixParts(c: bv32, b0: bv8, b1: bv8, b2: bv8, b3: bv8)
    ensures MixBytes(c, Wide(b0), Wide(b1), Wide(b2), Wide(b3)) ==
            c ^ (b0 as bv32) ^ ((b1 as bv32) << 8) ^ ((b2 as bv32) << 16) ^ ((b3 as bv32) << 24)
  {
  }

  lemma BigWord(c: bv32, m: seq<bv8>)
    requires |m| == 4
    ensures MixBytes(c, Wide(m[0]), Wide(m[1]), Wide(m[2]), Wide(m[3])) == Xor(c, Word(m))
  {
    hide *;
    MixWord(c, m);
    MixParts(c, m[0], m[1], m[2], m[3]);
  }

  lemma BigMeaning(c: bv32, m: seq<bv8>)
    requires |m| == 8
    ensures BlockBig(c, m) == SLICED.Fold(c, Widen(m))
  {
    hide *;
    var x := MixBytes(c, Wide(m[0]), Wide(m[1]), Wide(m[2]), Wide(m[3]));
    assert BlockBig(c, m) == LookupBytes(LookupFirst(x), Wide(m[4]), Wide(m[5]), Wide(m[6]), Wide(m[7])) by {
      BigTerms(c, m);
    }
    assert x == Xor(c, Word(m[..4])) by {
      BigWord(c, m[..4]);
    }
    LookupFirstMeaning(x);
    SecondWord(Word(m[4..]), m[4..], LookupFirst(x), Wide(m[4]), Wide(m[5]), Wide(m[6]), Wide(m[7]));
    FoldTwoWords(c, m);
  }

  lemma SecondWord(w: bv32, n: seq<bv8>, y: bv32, b4: bv32, b5: bv32, b6: bv32, b7: bv32)
    requires |n| == 4 && w == Word(n)
    requires b4 == Wide(n[0]) && b5 == Wide(n[1]) && b6 == Wide(n[2]) && b7 == Wide(n[3])
    ensures LookupBytes(y, b4, b5, b6, b7) == Xor(y, SLICED.Bytes(w, 4))
  {
    hide *;
    WordParts(n);
    LookupBytesMeaning(y, w, b4, b5, b6, b7);
  }

  lemma BigTerms(c: bv32, m: seq<bv8>)
    requires |m| == 8
    ensures BlockBig(c, m) ==
            LookupBytes(LookupFirst(MixBytes(c, Wide(m[0]), Wide(m[1]), Wide(m[2]), Wide(m[3]))),
              Wide(m[4]), Wide(m[5]), Wide(m[6]), Wide(m[7]))
  {
    hide MixBytes, LookupBytes, LookupFirst, Wide;
  }

  lemma CrcBlock(c: bv32, m: seq<bv8>)
    requires |m| >= 8
    ensures Crc(BlockLittle(c, m[..8]), m[8..]) == Crc(c, m)
    ensures Crc(BlockBig(c, m[..8]), m[8..]) == Crc(c, m)
  {
    hide BlockLittle, BlockBig;
    LittleMeaning(c, m[..8]);
    BigMeaning(c, m[..8]);
    CrcIsFold(c, m[..8]);
    CrcAppend(c, m[..8], m[8..]);
    assert m == m[..8] + m[8..];
  }

  // ---------------------------------------------------------------------------
  // The loops
  // ---------------------------------------------------------------------------

  /** src/crc32.c: singletable_crc32c. */
  method SingleTable(seed: bv32, buf: seq<bv8>) returns (crc: bv32)
    ensures crc == Crc(seed, buf)
  {
    crc := seed;
    var p := 0;
    while p < |buf|
      invariant p <= |buf|
      invariant Crc(crc, buf[p..]) == Crc(seed, buf)
    {
      hide *;
      CrcByte(crc, buf[p..]);
      assert buf[p..][1..] == buf[p + 1..];
      crc := LookupByte(crc, Wide(buf[p]));
      p := p + 1;
    }
    assert buf[p..] == [];
  }

  /** src/crc32.c: crc32c_sb8_64_bit, with `length` and `initBytes` as 32-bit values. */
  method SliceBy8(seed: bv32, buf: seq<bv8>, length: nat, initBytes: nat, bigEndian: bool) returns (crc: bv32)
    requires length < 0x1_0000_0000 && initBytes < 0x1_0000_0000
    requires initBytes + (length - initBytes) % 0x1_0000_0000 <= |buf|
    ensures crc == Crc(seed, buf[..initBytes + (length - initBytes) % 0x1_0000_0000])
  {
    hide *;
    var rest := (length - initBytes) % 0x1_0000_0000;
    var runningLength := rest / 8 * 8;
    var endBytes := rest - runningLength;
    ghost var m := buf[..initBytes + rest];
    crc := seed;
    var p := 0;
    for li := 0 to initBytes
      invariant p == li
      invariant Crc(crc, m[p..]) == Crc(seed, m)
    {
      CrcByte(crc, m[p..]);
      assert m[p..][1..] == m[p + 1..];
      crc := LookupByte(crc, Wide(buf[p]));
      p := p + 1;
    }
    for li := 0 to runningLength / 8
      invariant p == initBytes + 8 * li
      invariant Crc(crc, m[p..]) == Crc(seed, m)
    {
      CrcBlock(crc, m[p..]);
      assert m[p..][8..] == m[p + 8..];
      assert m[p..][..8] == buf[p..p + 8];
      if bigEndian {
        crc := BlockBig(crc, buf[p..p + 8]);
      } else {
        crc := BlockLittle(crc, buf[p..p + 8]);
      }
      p := p + 8;
    }
    for li := 0 to endBytes
      invariant p == initBytes + runningLength + li
      invariant Crc(crc, m[p..]) == Crc(seed, m)
    {
      CrcByte(crc, m[p..]);
      assert m[p..][1..] == m[p + 1..];
      crc := LookupByte(crc, Wide(buf[p]));
      p := p + 1;
    }
    assert m[p..] == [];
    CrcEmpty(crc);
  }

  /** src/crc32.c: multitable_crc32c; the parameter `length` is an unsigned int. */
  method MultiTable(seed: bv32, buf: seq<bv8>, address: nat, length: nat, bigEndian: bool) returns (crc: bv32)
    requires length < 0x1_0000_0000 && Consumed(length, address) <= |buf|
    ensures crc == Crc(seed, buf[..Consumed(length, address)])
  {
    hide Crc;
    if length == 0 {
      CrcEmpty(seed);
      return seed;
    }
    var toEvenWord := 4 - address % 4;
    crc := SliceBy8(seed, buf, length, toEvenWord, bigEndian);
  }

  /** How many bytes the 32-bit arithmetic of the sliced loops covers. */
  function Consumed(length: nat, address: nat): nat
    requires length < 0x1_0000_0000
  {
    if length == 0 then 0 else 4 - address % 4 + (length - (4 - address % 4)) % 0x1_0000_0000
  }

  /** How many bytes compute_crc32 covers. */
  function Covered(length: nat, address: nat): nat {
    if length < 4 then length else Consumed(length % 0x1_0000_0000, address)
  }

  /** That is all of them unless the length has more than 32 bits. */
  lemma CoveredExactly(length: nat, address: nat)
    ensures var l := length % 0x1_0000_0000;
      Covered(length, address) ==
      if length < 0x1_0000_0000 then length else if 0 < l < 4 - address % 4 then 0x1_0000_0000 + l else l
    ensures Covered(length, address) <= length
    ensures Covered(length, address) == length <==>
            length < 0x1_0000_0000 || 0 < length - 0x1_0000_0000 < 4 - address % 4
  {
  }

  /** src/crc32.c: compute_crc32, at any buffer address and in either byte order. */
  method ComputeCrc32(seed: bv32, buf: seq<bv8>, address: nat, bigEndian: bool) returns (crc: bv32)
    ensures crc == Crc(seed, buf[..Covered(|buf|, address)])
    ensures |buf| < 0x1_0000_0000 ==> crc == Crc(seed, buf)
  {
    hide Crc;
    CoveredExactly(|buf|, address);
    if |buf| < 4 {
      crc := SingleTable(seed, buf);
    } else {
      crc := MultiTable(seed, buf, address, |buf| % 0x1_0000_0000, bigEndian);
    }
    assert |buf| < 0x1_0000_0000 ==> buf[..Covered(|buf|, address)] == buf;
  }
}
