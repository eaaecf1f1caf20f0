/** CRC-16 as computed by src/crc16.c: a branch-free byte step against bit-serial division. */
module Crc16 {
  import opened Messages
  import opened Registers

  function Xor(a: bv16, b: bv16): bv16 {
    a ^ b
  }

  predicate Top(c: bv16) {
    c & 0x8000 != 0
  }

  function Left(c: bv16): bv16 {
    c << 1
  }

  function Right(c: bv16): bv16 {
    c >> 1
  }

  /** x^16 + x^12 + x^5 + 1 (ITU-T V.41, section 2), highest bit leading. */
  const ITU: Register<bv16> := Register(16, 0, 0x8000, 0x1021, Xor, Top, Left, Right)

  const GENERATOR: Poly := {0, 5, 12, 16}

  /** The bit-serial CRC. */
  function Crc(seed: bv16, m: seq<bv8>): bv16 {
    ITU.Feed(seed, MessageBits(HighFirst, m))
  }

  // ---------------------------------------------------------------------------
  // The register is lawful
  // ---------------------------------------------------------------------------

  lemma Regroup(x: bv16, y: bv16, a: bv16, b: bv16, c: bv16)
    requires x == a ^ c && y == b ^ c
    ensures x ^ y == a ^ b
  {
  }

  lemma XorRegroups(a: bv16, b: bv16, c: bv16)
    ensures Xor(Xor(a, c), Xor(b, c)) == Xor(a, b)
  {
    Regroup(Xor(a, c), Xor(b, c), a, b, c);
  }

  lemma XorTop(a: bv16, b: bv16)
    ensures Top(Xor(a, b)) <==> Top(a) != Top(b)
  {
  }

  lemma ShiftOfSum(a: bv16, b: bv16)
    ensures (a ^ b) << 1 == (a << 1) ^ (b << 1)
  {
  }

  lemma XorLeft(a: bv16, b: bv16)
    ensures Left(Xor(a, b)) == Xor(Left(a), Left(b))
  {
    ShiftOfSum(a, b);
  }

  lemma TopAndLeft(a: bv16, b: bv16)
    requires Top(a) == Top(b) && Left(a) == Left(b)
    ensures a == b
  {
  }

  lemma RightLeft(c: bv16)
    ensures !Top(Right(c))
    ensures c << 15 == 0 ==> Left(Right(c)) == c
  {
  }

  lemma AddIsLawful()
    ensures ITU.AddLaws()
  {
    forall a: bv16, b: bv16, c: bv16 {:trigger ITU.add(ITU.add(a, c), ITU.add(b, c))}
      ensures ITU.add(ITU.add(a, c), ITU.add(b, c)) == ITU.add(a, b)
    {
      XorRegroups(a, b, c);
    }
  }

  lemma LeadIsLinear()
    ensures forall a, b {:trigger ITU.lead(ITU.add(a, b))} :: ITU.lead(ITU.add(a, b)) <==> ITU.lead(a) != ITU.lead(b)
  {
    hide Xor, Top, Left;
    forall a, b
      ensures ITU.lead(ITU.add(a, b)) <==> ITU.lead(a) != ITU.lead(b)
    {
      XorTop(a, b);
    }
  }

  lemma ShiftIsLinear()
    ensures forall a, b {:trigger ITU.shift(ITU.add(a, b))} ::
        ITU.shift(ITU.add(a, b)) == ITU.add(ITU.shift(a), ITU.shift(b))
  {
    hide Xor, Top, Left;
    forall a, b
      ensures ITU.shift(ITU.add(a, b)) == ITU.add(ITU.shift(a), ITU.shift(b))
    {
      XorLeft(a, b);
    }
  }

  lemma ShiftIsInjective()
    ensures forall a, b {:trigger ITU.shift(a), ITU.shift(b)} ::
              ITU.shift(a) == ITU.shift(b) && ITU.lead(a) == ITU.lead(b) ==> a == b
  {
    forall a, b | ITU.shift(a) == ITU.shift(b) && ITU.lead(a) == ITU.lead(b)
      ensures a == b
    {
      TopAndLeft(a, b);
    }
  }

  lemma ShiftIsLawful()
    ensures ITU.ShiftLaws()
  {
    LeadIsLinear();
    ShiftIsLinear();
    ShiftIsInjective();
  }

  lemma Drop1(c: bv16)
    ensures ITU.Drop(c, 1) == c << 1
  {
    assert ITU.Drop(c, 1) == ITU.Drop(Left(c), 0);
  }

  lemma Drop2(c: bv16)
    ensures ITU.Drop(c, 2) == c << 2
  {
    ITU.DropAppend(c, 1, 1);
    Drop1(c);
    Drop1(c << 1);
  }

  lemma Drop4(c: bv16)
    ensures ITU.Drop(c, 4) == c << 4
  {
    ITU.DropAppend(c, 2, 2);
    Drop2(c);
    Drop2(c << 2);
  }

  lemma Drop8(c: bv16)
    ensures ITU.Drop(c, 8) == c << 8
  {
    ITU.DropAppend(c, 4, 4);
    Drop4(c);
    Drop4(c << 4);
  }

  lemma Drop15(c: bv16)
    ensures ITU.Drop(c, 15) == c << 15
  {
    ITU.DropAppend(c, 8, 7);
    ITU.DropAppend(c << 8, 4, 3);
    ITU.DropAppend(c << 12, 2, 1);
    Drop8(c);
    Drop4(c << 8);
    Drop2(c << 12);
    Drop1(c << 14);
  }

  lemma DropAll(c: bv16)
    ensures ITU.Drop(c, 16) == 0
  {
    ITU.DropAppend(c, 8, 8);
    Drop8(c);
    Drop8(c << 8);
  }

  lemma Bottom(c: bv16)
    ensures Top(c << 15) <==> c << 15 != 0
  {
  }

  lemma WidthIsLawful()
    ensures ITU.WidthLaws()
  {
    forall c: bv16
      ensures ITU.Drop(c, 16) == 0
      ensures !ITU.lead(ITU.unshift(c))
      ensures !ITU.At(c, 15) ==> ITU.shift(ITU.unshift(c)) == c
    {
      DropAll(c);
      Drop15(c);
      RightLeft(c);
      Bottom(c);
    }
    Drop15(ITU.feedback);
  }

  lemma ItuIsLawful()
    ensures ITU.Lawful()
  {
    AddIsLawful();
    ShiftIsLawful();
    WidthIsLawful();
  }

  // ---------------------------------------------------------------------------
  // A byte as eight bits
  // ---------------------------------------------------------------------------

  lemma PackBit(b: bool, x: bv16)
    ensures ITU.Pack(b, x) == (x >> 1) ^ (if b then 0x8000 else 0)
  {
    hide *;
    if b {
      PackOne(x);
    } else {
      PackZero(x);
    }
  }

  lemma PackOne(x: bv16)
    ensures ITU.Pack(true, x) == (x >> 1) ^ 0x8000
  {
    hide *;
    PackTerms(true, x);
    RightMeans(x);
    SumMeans(ITU.Pack(true, x), Right(x), x >> 1, 0x8000);
  }

  lemma PackZero(x: bv16)
    ensures ITU.Pack(false, x) == (x >> 1) ^ 0
  {
    hide *;
    PackTerms(false, x);
    RightMeans(x);
    SumMeans(ITU.Pack(false, x), Right(x), x >> 1, 0);
  }

  lemma SumMeans(p: bv16, q: bv16, r: bv16, u: bv16)
    requires p == Xor(q, u) && q == r
    ensures p == r ^ u
  {
  }

  lemma RightMeans(x: bv16)
    ensures Right(x) == x >> 1
  {
  }

  lemma PackTerms(b: bool, x: bv16)
    ensures ITU.Pack(b, x) == Xor(Right(x), if b then 0x8000 else 0)
  {
    hide Xor, Right;
  }

  lemma LoadFour(d0: bool, d1: bool, d2: bool, d3: bool, bits: seq<bool>, x: bv16)
      returns (x0: bv16, x1: bv16, x2: bv16, x3: bv16)
    requires x == ITU.Load(bits)
    ensures x3 == (x >> 1) ^ (if d3 then 0x8000 else 0)
    ensures x2 == (x3 >> 1) ^ (if d2 then 0x8000 else 0)
    ensures x1 == (x2 >> 1) ^ (if d1 then 0x8000 else 0)
    ensures x0 == (x1 >> 1) ^ (if d0 then 0x8000 else 0)
    ensures x0 == ITU.Load([d0, d1, d2, d3] + bits)
  {
    hide *;
    x0, x1, x2, x3 := ITU.LoadFour(d0, d1, d2, d3, bits);
    PackBit(d3, x);
    PackBit(d2, x3);
    PackBit(d1, x2);
    PackBit(d0, x1);
  }

  lemma NibbleBits(x: bv16, x3: bv16, x2: bv16, x1: bv16, x0: bv16, n: bv16, d3: bool, d2: bool, d1: bool, d0: bool)
    requires n < 16 && d3 == (n & 8 != 0) && d2 == (n & 4 != 0) && d1 == (n & 2 != 0) && d0 == (n & 1 != 0)
    requires x3 == (x >> 1) ^ (if d0 then 0x8000 else 0)
    requires x2 == (x3 >> 1) ^ (if d1 then 0x8000 else 0)
    requires x1 == (x2 >> 1) ^ (if d2 then 0x8000 else 0)
    requires x0 == (x1 >> 1) ^ (if d3 then 0x8000 else 0)
    ensures x0 == (x >> 4) | (n << 12)
  {
  }

  lemma LoadNibble(n: bv16, bits: seq<bool>, x: bv16, d3: bool, d2: bool, d1: bool, d0: bool)
    requires n < 16 && d3 == (n & 8 != 0) && d2 == (n & 4 != 0) && d1 == (n & 2 != 0) && d0 == (n & 1 != 0)
    requires x == ITU.Load(bits)
    ensures ITU.Load([d3, d2, d1, d0] + bits) == (x >> 4) | (n << 12)
  {
    hide *;
    var x0, x1, x2, x3 := LoadFour(d3, d2, d1, d0, bits, x);
    NibbleBits(x, x3, x2, x1, x0, n, d3, d2, d1, d0);
  }

  lemma ByteNibbles(b: bv8, h: bv16, l: bv16)
    requires h == (b as bv16) >> 4 && l == (b as bv16) & 15
    ensures ByteBits(HighFirst, b) ==
            [h & 8 != 0, h & 4 != 0, h & 2 != 0, h & 1 != 0] + [l & 8 != 0, l & 4 != 0, l & 2 != 0, l & 1 != 0]
  {
  }

  lemma JoinNibbles(b: bv16, h: bv16, l: bv16)
    requires b <= 0xff && h == b >> 4 && l == b & 15
    ensures ((l << 12) >> 4) | (h << 12) == b << 8
  {
  }

  lemma LoadNothing()
    ensures ITU.Load([]) == 0
  {
  }

  lemma LoadByte(b: bv8)
    ensures ITU.Load(ByteBits(HighFirst, b)) == (b as bv16) << 8
  {
    hide *;
    var h, l := (b as bv16) >> 4, (b as bv16) & 15;
    var low := [l & 8 != 0, l & 4 != 0, l & 2 != 0, l & 1 != 0];
    LoadNothing();
    LoadNibble(l, [], 0, l & 8 != 0, l & 4 != 0, l & 2 != 0, l & 1 != 0);
    assert low + [] == low;
    LoadNibble(h, low, l << 12, h & 8 != 0, h & 4 != 0, h & 2 != 0, h & 1 != 0);
    ByteNibbles(b, h, l);
    JoinNibbles(b as bv16, h, l);
  }

  // ---------------------------------------------------------------------------
  // The branch-free step
  // ---------------------------------------------------------------------------

  lemma OneStep(x: bv16)
    ensures ITU.Step(x) == if x & 0x8000 != 0 then (x << 1) ^ 0x1021 else x << 1
  {
  }

  lemma RunOne(x: bv16, n: nat)
    ensures ITU.Run(x, n + 1) == ITU.Run(ITU.Step(x), n) && ITU.Run(x, 0) == x
  {
  }

  lemma FourSteps(x: bv16, n: nat) returns (x1: bv16, x2: bv16, x3: bv16, x4: bv16)
    ensures x1 == if x & 0x8000 != 0 then (x << 1) ^ 0x1021 else x << 1
    ensures x2 == if x1 & 0x8000 != 0 then (x1 << 1) ^ 0x1021 else x1 << 1
    ensures x3 == if x2 & 0x8000 != 0 then (x2 << 1) ^ 0x1021 else x2 << 1
    ensures x4 == if x3 & 0x8000 != 0 then (x3 << 1) ^ 0x1021 else x3 << 1
    ensures ITU.Run(x, n + 4) == ITU.Run(x4, n)
  {
    hide *;
    x1 := ITU.Step(x);
    x2 := ITU.Step(x1);
    x3 := ITU.Step(x2);
    x4 := ITU.Step(x3);
    OneStep(x);
    OneStep(x1);
    OneStep(x2);
    OneStep(x3);
    RunOne(x, n + 3);
    RunOne(x1, n + 2);
    RunOne(x2, n + 1);
    RunOne(x3, n);
  }

  /** On a byte in the leading places the branch-free expression is eight steps. */
  lemma LeadingByte(i: bv16, x1: bv16, x2: bv16, x3: bv16, x4: bv16, x5: bv16, x6: bv16, x7: bv16, x8: bv16,
        t3: bv16, t4: bv16, t5: bv16)
    requires i <= 0xff
    requires x1 == if (i << 8) & 0x8000 != 0 then ((i << 8) << 1) ^ 0x1021 else (i << 8) << 1
    requires x2 == if x1 & 0x8000 != 0 then (x1 << 1) ^ 0x1021 else x1 << 1
    requires x3 == if x2 & 0x8000 != 0 then (x2 << 1) ^ 0x1021 else x2 << 1
    requires x4 == if x3 & 0x8000 != 0 then (x3 << 1) ^ 0x1021 else x3 << 1
    requires x5 == if x4 & 0x8000 != 0 then (x4 << 1) ^ 0x1021 else x4 << 1
    requires x6 == if x5 & 0x8000 != 0 then (x5 << 1) ^ 0x1021 else x5 << 1
    requires x7 == if x6 & 0x8000 != 0 then (x6 << 1) ^ 0x1021 else x6 << 1
    requires x8 == if x7 & 0x8000 != 0 then (x7 << 1) ^ 0x1021 else x7 << 1
    requires t3 == i ^ ((i & 0xff) >> 4) && t4 == t3 ^ (t3 << 12) && t5 == t4 ^ ((t4 & 0xff) << 5)
    ensures t5 == x8
  {
  }

  lemma RunLeading(i: bv16, t3: bv16, t4: bv16, t5: bv16)
    requires i <= 0xff
    requires t3 == i ^ ((i & 0xff) >> 4) && t4 == t3 ^ (t3 << 12) && t5 == t4 ^ ((t4 & 0xff) << 5)
    ensures ITU.Run(i << 8, 8) == t5
  {
    hide *;
    var x1, x2, x3, x4 := FourSteps(i << 8, 4);
    var x5, x6, x7, x8 := FourSteps(x4, 0);
    RunOne(x8, 0);
    LeadingByte(i, x1, x2, x3, x4, x5, x6, x7, x8, t3, t4, t5);
  }

  lemma ClearPlaces(c: bv16)
    requires c <= 0xfff
    ensures forall i :: 0 <= i < 4 ==> !ITU.At(c, i)
  {
    Drop1(c);
    Drop2(c);
    ITU.DropAppend(c, 2, 1);
    Drop1(c << 2);
  }

  lemma RunNibble(c: bv16)
    requires c <= 0xfff
    ensures ITU.Run(c, 4) == c << 4
  {
    hide *;
    ClearPlaces(c);
    ITU.RunClear(c, 4);
    Drop4(c);
  }

  lemma RunTrailing(c: bv16)
    requires c <= 0xff
    ensures ITU.Run(c, 8) == c << 8
  {
    hide *;
    ITU.RunAppend(c, 4, 4);
    RunNibble(c);
    RunNibble(c << 4);
    assert (c << 4) << 4 == c << 8;
  }

  lemma Pass3(x: bv16, u: bv16, y: bv16, x': bv16, y': bv16)
    requires u & 0xff == 0 && y == x ^ u && x' == x ^ ((x & 0xff) >> 4) && y' == y ^ ((y & 0xff) >> 4)
    ensures y' == x' ^ u
  {
  }

  lemma Pass4(x: bv16, u: bv16, y: bv16, x': bv16, y': bv16)
    requires u & 0xff == 0 && y == x ^ u && x' == x ^ (x << 12) && y' == y ^ (y << 12)
    ensures y' == x' ^ u
  {
  }

  lemma SameLow(x: bv16, u: bv16, y: bv16)
    requires u & 0xff == 0 && y == x ^ u
    ensures (y & 0xff) << 5 == (x & 0xff) << 5
  {
  }

  lemma SameSum(x: bv16, u: bv16, y: bv16, v: bv16, x': bv16, y': bv16)
    requires y == x ^ u && x' == x ^ v && y' == y ^ v
    ensures y' == Xor(x', u)
  {
    hide *;
    SwapSummands(x, u, v);
    XorMeans(x', u);
  }

  lemma SwapSummands(x: bv16, u: bv16, v: bv16)
    ensures (x ^ u) ^ v == (x ^ v) ^ u
  {
  }

  lemma XorMeans(a: bv16, b: bv16)
    ensures Xor(a, b) == a ^ b
  {
  }

  lemma Pass5(x: bv16, u: bv16, y: bv16, v: bv16, w: bv16, x': bv16, y': bv16)
    requires u & 0xff == 0 && y == x ^ u && v == (x & 0xff) << 5 && w == (y & 0xff) << 5
    requires x' == x ^ v && y' == y ^ w
    ensures y' == Xor(x', u)
  {
    hide *;
    SameLow(x, u, y);
    SameSum(x, u, y, v, x', y');
  }

  /** A summand with a clear low byte passes through the rest of the loop body unchanged. */
  lemma PassThrough(i: bv16, u: bv16, s2: bv16, s3: bv16, s4: bv16, s5: bv16, t3: bv16, t4: bv16, t5: bv16)
    requires u & 0xff == 0 && s2 == i ^ u
    requires t3 == i ^ ((i & 0xff) >> 4) && t4 == t3 ^ (t3 << 12) && t5 == t4 ^ ((t4 & 0xff) << 5)
    requires s3 == s2 ^ ((s2 & 0xff) >> 4) && s4 == s3 ^ (s3 << 12) && s5 == s4 ^ ((s4 & 0xff) << 5)
    ensures s5 == Xor(t5, u)
  {
    hide *;
    Pass3(i, u, s2, t3, s3);
    Pass4(t3, u, s3, t4, s4);
    Pass5(t4, u, s4, (t4 & 0xff) << 5, (s4 & 0xff) << 5, t5, s5);
  }

  lemma StepParts(s: bv16, b: bv16, i: bv16, u: bv16, s1: bv16)
    requires b <= 0xff && i == (s >> 8) ^ b && u == s << 8
    requires s1 == (s >> 8) | (s << 8)
    ensures s1 ^ b == i ^ u && i <= 0xff && u & 0xff == 0
  {
  }

  lemma SplitRegister(s: bv16, b: bv16, i: bv16)
    requires b <= 0xff && i == (s >> 8) ^ b
    ensures Xor(b << 8, s) == Xor(i << 8, s & 0xff)
    ensures (s & 0xff) << 8 == s << 8
  {
  }

  lemma RunSum(a: bv16, c: bv16, x: bv16)
    requires x == Xor(a, c)
    ensures ITU.Run(x, 8) == Xor(ITU.Run(a, 8), ITU.Run(c, 8))
  {
    hide Xor, Top, Left, Right;
    AddIsLawful();
    ShiftIsLawful();
    ITU.RunLinear(a, c, 8);
  }

  lemma RunStepParts(s: bv16, b: bv16, i: bv16, u: bv16, t5: bv16, s5: bv16)
    requires b <= 0xff && i == (s >> 8) ^ b && u == s << 8
    requires s5 == Xor(t5, u) && ITU.Run(i << 8, 8) == t5
    ensures s5 == ITU.Run(Xor(b << 8, s), 8)
  {
    hide *;
    SplitRegister(s, b, i);
    RunTrailing(s & 0xff);
    RunSum(i << 8, s & 0xff, Xor(b << 8, s));
  }

  lemma RunStep(s: bv16, b: bv16, s1: bv16, s2: bv16, s3: bv16, s4: bv16, s5: bv16,
        i: bv16, u: bv16, t3: bv16, t4: bv16, t5: bv16)
    requires b <= 0xff && i == (s >> 8) ^ b && u == s << 8
    requires t3 == i ^ ((i & 0xff) >> 4) && t4 == t3 ^ (t3 << 12) && t5 == t4 ^ ((t4 & 0xff) << 5)
    requires s1 == (s >> 8) | (s << 8) && s2 == s1 ^ b
    requires s3 == s2 ^ ((s2 & 0xff) >> 4) && s4 == s3 ^ (s3 << 12) && s5 == s4 ^ ((s4 & 0xff) << 5)
    ensures s5 == ITU.Run(Xor(b << 8, s), 8)
  {
    hide *;
    StepParts(s, b, i, u, s1);
    PassThrough(i, u, s2, s3, s4, s5, t3, t4, t5);
    RunLeading(i, t3, t4, t5);
    RunStepParts(s, b, i, u, t5, s5);
  }

  function Wide(b: bv8): bv16 {
    b as bv16
  }

  lemma ItuUnfolds(x: bv16, y: bv16, b: bv8)
    ensures ITU.add(x, y) == Xor(x, y) && ITU.width == 16 && |ByteBits(HighFirst, b)| == 8
    ensures Wide(b) == b as bv16 && Wide(b) <= 0xff
  {
  }

  lemma FeedByte(s: bv16, b: bv8)
    ensures ITU.Feed(s, ByteBits(HighFirst, b)) == ITU.Run(Xor(Wide(b) << 8, s), 8)
  {
    hide *;
    ItuIsLawful();
    LoadByte(b);
    ItuUnfolds(Wide(b) << 8, s, b);
    ITU.FeedIsLoadThenRun(s, ByteBits(HighFirst, b));
  }

  lemma CrcFront(s: bv16, m: seq<bv8>)
    requires m != []
    ensures Crc(s, m) == Crc(ITU.Feed(s, ByteBits(HighFirst, m[0])), m[1..])
  {
    hide ByteBits, ITU;
    ITU.FeedAppend(s, ByteBits(HighFirst, m[0]), MessageBits(HighFirst, m[1..]));
  }

  lemma CrcEmpty(s: bv16)
    ensures Crc(s, []) == s
  {
  }

  /** One iteration feeds one byte. */
  lemma CrcByte(s: bv16, m: seq<bv8>, b: bv16, s1: bv16, s2: bv16, s3: bv16, s4: bv16, s5: bv16)
    requires m != [] && b == Wide(m[0])
    requires s1 == (s >> 8) | (s << 8) && s2 == s1 ^ b
    requires s3 == s2 ^ ((s2 & 0xff) >> 4) && s4 == s3 ^ (s3 << 12) && s5 == s4 ^ ((s4 & 0xff) << 5)
    ensures Crc(s5, m[1..]) == Crc(s, m)
  {
    hide *;
    ItuUnfolds(0, 0, m[0]);
    var i := (s >> 8) ^ b;
    var t3 := i ^ ((i & 0xff) >> 4);
    var t4 := t3 ^ (t3 << 12);
    RunStep(s, b, s1, s2, s3, s4, s5, i, s << 8, t3, t4, t4 ^ ((t4 & 0xff) << 5));
    CrcFront(s, m);
    FeedByte(s, m[0]);
  }

  /** src/crc16.c: crc16_itu_t. */
  method Crc16Itu(initial: bv16, src: seq<bv8>) returns (seed: bv16)
    ensures seed == Crc(initial, src)
  {
    hide *;
    seed := initial;
    var p := 0;
    while p < |src|
      invariant p <= |src|
      invariant Crc(seed, src[p..]) == Crc(initial, src)
    {
      var s1 := (seed >> 8) | (seed << 8);
      var s2 := s1 ^ Wide(src[p]);
      var s3 := s2 ^ ((s2 & 0xff) >> 4);
      var s4 := s3 ^ (s3 << 12);
      var s5 := s4 ^ ((s4 & 0xff) << 5);
      CrcByte(seed, src[p..], Wide(src[p]), s1, s2, s3, s4, s5);
      assert src[p..][1..] == src[p + 1..];
      seed := s5;
      p := p + 1;
    }
    assert src[p..] == [];
    CrcEmpty(seed);
  }

  // ---------------------------------------------------------------------------
  // What the CRC means
  // ---------------------------------------------------------------------------

  lemma CrcUnfolds(c: bv16, m: seq<bv8>)
    ensures Crc(c, m) == ITU.Feed(c, MessageBits(HighFirst, m)) && ITU.width == 16
  {
  }

  /** Two messages that differ only inside 16 consecutive bits, most significant bit first, differ in their CRC. */
  lemma BurstDetected(seed: bv16, s: seq<bv8>, t: seq<bv8>, lo: nat)
    requires |s| == |t| && s != t
    requires forall i :: 0 <= i < 8 * |s| && !(lo <= i < lo + 16) ==>
        MessageBits(HighFirst, s)[i] == MessageBits(HighFirst, t)[i]
    ensures Crc(seed, s) != Crc(seed, t)
  {
    hide *;
    ItuIsLawful();
    CrcUnfolds(seed, s);
    CrcUnfolds(seed, t);
    if MessageBits(HighFirst, s) == MessageBits(HighFirst, t) {
      MessageBitsInjective(HighFirst, s, t);
    }
    ITU.BurstDetected(seed, MessageBits(HighFirst, s), MessageBits(HighFirst, t), lo);
  }

  lemma FeedbackPlaces(i: nat)
    requires i < 16
    ensures ITU.At(0x1021, i) <==> i in {3, 10, 15}
  {
    LowPlaces(0x1021);
    LowPlaces(0x1021 << 4);
    LowPlaces(0x1021 << 8);
    LowPlaces(0x1021 << 12);
    NextPlaces(0x1021, i % 4);
  }

  lemma Drop3(c: bv16)
    ensures ITU.Drop(c, 3) == c << 3
  {
    ITU.DropAppend(c, 2, 1);
    Drop2(c);
    Drop1(c << 2);
  }

  lemma TopOfShift(c: bv16)
    ensures Top(c) == (c & 0x8000 != 0) && Top(c << 1) == (c & 0x4000 != 0)
    ensures Top(c << 2) == (c & 0x2000 != 0) && Top(c << 3) == (c & 0x1000 != 0)
  {
  }

  lemma LowPlaces(c: bv16)
    ensures ITU.At(c, 0) == (c & 0x8000 != 0) && ITU.At(c, 1) == (c & 0x4000 != 0)
    ensures ITU.At(c, 2) == (c & 0x2000 != 0) && ITU.At(c, 3) == (c & 0x1000 != 0)
  {
    hide Top, Left;
    Drop1(c);
    Drop2(c);
    Drop3(c);
    TopOfShift(c);
  }

  lemma NextPlaces(c: bv16, i: nat)
    requires i < 4
    ensures ITU.At(c, 4 + i) == ITU.At(c << 4, i)
    ensures ITU.At(c, 8 + i) == ITU.At(c << 8, i)
    ensures ITU.At(c, 12 + i) == ITU.At(c << 12, i)
  {
    ITU.DropAppend(c, 4, i);
    ITU.DropAppend(c, 8, i);
    ITU.DropAppend(c, 8, 4 + i);
    ITU.DropAppend(c << 8, 4, i);
    Drop4(c);
    Drop8(c);
    Drop4(c << 8);
    assert (c << 8) << 4 == c << 12;
  }

  lemma GeneratorMeaning()
    ensures ITU.Generator() == GENERATOR
  {
    forall e: nat
      ensures e in ITU.Generator() <==> e in GENERATOR
    {
      if e < 16 {
        FeedbackPlaces(15 - e);
      }
    }
  }

  /** A register holds the CRC exactly when it is the remainder of the message polynomial. */
  lemma CrcIsRemainder(seed: bv16, m: seq<bv8>, c: bv16)
    ensures c == Crc(seed, m) <==>
            IsRemainder(MessagePoly(ITU, seed, MessageBits(HighFirst, m)), GENERATOR, 16, ITU.ToPoly(c))
  {
    ItuIsLawful();
    GeneratorMeaning();
    FeedIsTheRemainder(ITU, seed, MessageBits(HighFirst, m), c);
  }
}
