/** The literal tables of src/crc32.c: their entries at the powers of two, and how those decide all others. */
module Crc32Tables {
  import opened Registers
  import opened Crc32Register
  import opened Crc32

  /** One zero bit through the register, written out. */
  function OneBit(c: bv32): bv32 {
    if c & 1 == 1 then (c >> 1) ^ 0x82F63B78 else c >> 1
  }

  function FourBits(c: bv32): bv32 {
    OneBit(OneBit(OneBit(OneBit(c))))
  }

  function OneByte(c: bv32): bv32 {
    FourBits(FourBits(c))
  }

  lemma StepIsOneBit(c: bv32)
    ensures CRC32C.Step(c) == OneBit(c)
  {
  }

  lemma RunOne(c: bv32, n: nat)
    ensures CRC32C.Run(c, 0) == c && CRC32C.Run(c, n + 1) == CRC32C.Run(OneBit(c), n)
  {
    StepIsOneBit(c);
  }

  lemma RunFour(c: bv32, n: nat)
    ensures CRC32C.Run(c, n + 4) == CRC32C.Run(FourBits(c), n)
  {
    hide OneBit, CRC32C;
    RunOne(c, n + 3);
    RunOne(OneBit(c), n + 2);
    RunOne(OneBit(OneBit(c)), n + 1);
    RunOne(OneBit(OneBit(OneBit(c))), n);
  }

  lemma RunIsOneByte(c: bv32)
    ensures CRC32C.Run(c, 8) == OneByte(c)
  {
    hide OneBit, FourBits, CRC32C;
    RunFour(c, 4);
    RunFour(FourBits(c), 0);
    RunOne(OneByte(c), 0);
  }

  lemma FirstTable(b: bv32, t: bv32)
    requires OneByte(b) == t
    ensures Table(0, b) == t
  {
    hide OneByte, CRC32C;
    RunIsOneByte(b);
  }

  /** The next table is one more zero byte behind this one. */
  lemma NextTable(k: nat, b: bv32, t: bv32, u: bv32)
    requires Table(k, b) == t && OneByte(t) == u
    ensures Table(k + 1, b) == u
  {
    hide OneByte, CRC32C;
    RunIsOneByte(t);
    RunByte(t);
  }

  /** The tables are linear: an entry is the sum of the entries of its index's bits. */
  lemma {:induction false} TableLinear(k: nat, a: bv32, b: bv32)
    ensures Table(k, Xor(a, b)) == Xor(Table(k, a), Table(k, b))
  {
    hide Xor;
    AddIsLawful();
    ShiftIsLawful();
    SlicedIsLinear();
    SLICED.TableMeaning(k, a);
    SLICED.TableMeaning(k, b);
    SLICED.TableMeaning(k, Xor(a, b));
    CRC32C.RunLinear(a, b, 8);
    SLICED.BytesLinear(Table0(a), Table0(b), k);
  }

  /** Entry 1 << j of tables 0 to 7, for j from 0 to 7. */
  const LITERALS: seq<seq<bv32>> := [
    [0xF26B8303, 0x13A29877, 0xA541927E, 0xDD45AAB8, 0x38116FAC, 0xEF306B19, 0x68032CC8, 0x493C7D27],
    [0xE13B70F7, 0x274530EE, 0x4F6F520D, 0xBF672381, 0x7022DF58, 0xDB8CA0C3, 0xD0065990, 0x9278FA4E],
    [0xC79A971F, 0x4E8A61DC, 0x9EDEA41A, 0x7B2231F3, 0xE045BEB0, 0xB2F53777, 0xA5E0C5D1, 0x211D826D],
    [0x8AD958CF, 0x9D14C3B8, 0x38513EC5, 0xF64463E6, 0xC5670B91, 0x6006181F, 0x4E2DFD53, 0x423B04DA],
    [0x105EC76F, 0x3FC5F181, 0x70A27D8A, 0xE964B13D, 0x8F2261D3, 0xC00C303E, 0x9C5BFAA6, 0x847609B4],
    [0x20BD8EDE, 0x7F8BE302, 0xE144FB14, 0xD725148B, 0x1BA8B557, 0x85F4168D, 0x3D5B83BD, 0x0D006599],
    [0x417B1DBC, 0xFF17C604, 0xC76580D9, 0xABA65FE7, 0x37516AAE, 0x0E045BEB, 0x7AB7077A, 0x1A00CB32],
    [0x82F63B78, 0xFBC3FAF9, 0x8B277743, 0x52A0C93F, 0x6EA2D55C, 0x1C08B7D6, 0xF56E0EF4, 0x34019664]
  ]

  const POWERS: seq<bv32> := [1, 2, 4, 8, 16, 32, 64, 128]

  /** The literals at one index: the first table's entry, and each further one a zero byte behind the one before. */
  ghost predicate Row(b: bv32, r: seq<bv32>) {
    && |r| == 8 && OneByte(b) == r[0]
    && OneByte(r[0]) == r[1] && OneByte(r[1]) == r[2] && OneByte(r[2]) == r[3] && OneByte(r[3]) == r[4]
    && OneByte(r[4]) == r[5] && OneByte(r[5]) == r[6] && OneByte(r[6]) == r[7]
  }

  lemma Row0()
    ensures Row(1, LITERALS[0])
  {
  }

  lemma Row1()
    ensures Row(2, LITERALS[1])
  {
  }

  lemma Row2()
    ensures Row(4, LITERALS[2])
  {
  }

  lemma Row3()
    ensures Row(8, LITERALS[3])
  {
  }

  lemma Row4()
    ensures Row(16, LITERALS[4])
  {
  }

  lemma Row5()
    ensures Row(32, LITERALS[5])
  {
  }

  lemma Row6()
    ensures Row(64, LITERALS[6])
  {
  }

  lemma Row7()
    ensures Row(128, LITERALS[7])
  {
  }

  lemma LiteralRow(j: nat)
    requires j < 8
    ensures |POWERS| == |LITERALS| == 8 && Row(POWERS[j], LITERALS[j]) && |LITERALS[j]| == 8
  {
    hide Row, OneByte;
    match j
    case 0 => Row0();
    case 1 => Row1();
    case 2 => Row2();
    case 3 => Row3();
    case 4 => Row4();
    case 5 => Row5();
    case 6 => Row6();
    case _ => Row7();
  }

  lemma RowMeans(b: bv32, r: seq<bv32>, k: nat)
    requires Row(b, r) && k < 8
    ensures |r| == 8 && r[k] == if k == 0 then OneByte(b) else OneByte(r[k - 1])
  {
    hide OneByte;
    match k
    case 0 =>
    case 1 =>
    case 2 =>
    case 3 =>
    case 4 =>
    case 5 =>
    case 6 =>
    case _ => assert k == 7;
  }

  lemma {:induction false} RowEntries(b: bv32, r: seq<bv32>, k: nat)
    requires Row(b, r) && k < |r| == 8
    ensures Table(k, b) == r[k]
    decreases k
  {
    hide *;
    RowMeans(b, r, k);
    if k == 0 {
      FirstTable(b, r[0]);
    } else {
      RowEntries(b, r, k - 1);
      NextTable(k - 1, b, r[k - 1], r[k]);
    }
  }

  /** At the powers of two the recurrence gives the literal entries of all eight tables. */
  lemma Entries(j: nat, k: nat)
    requires j < 8 && k < 8
    ensures Table(k, POWERS[j]) == LITERALS[j][k]
  {
    hide *;
    LiteralRow(j);
    RowEntries(POWERS[j], LITERALS[j], k);
  }

  // ---------------------------------------------------------------------------
  // What these entries decide
  // ---------------------------------------------------------------------------

  ghost predicate Linear(t: bv32 -> bv32) {
    forall a, b {:trigger t(Xor(a, b))} :: t(Xor(a, b)) == Xor(t(a), t(b))
  }

  lemma SumOfBits(b: bv32)
    requires b <= 0xff
    ensures b == Xor(b & 1, Xor(b & 2, Xor(b & 4, Xor(b & 8, Xor(b & 16, Xor(b & 32, Xor(b & 64, b & 128)))))))
  {
  }

  lemma OneOrNone(b: bv32, j: nat)
    requires j < 8
    ensures |POWERS| == 8 && (b & POWERS[j] == 0 || b & POWERS[j] == POWERS[j])
  {
  }

  lemma Cancels(a: bv32)
    ensures Xor(a, a) == 0
  {
  }

  /** Whether t has the entries of table k at the powers of two. */
  ghost predicate Matches(t: bv32 -> bv32, k: nat) {
    |POWERS| == 8 && forall j {:trigger POWERS[j]} :: 0 <= j < 8 ==> t(POWERS[j]) == Table(k, POWERS[j])
  }

  lemma ZeroAgrees(t: bv32 -> bv32, k: nat)
    requires Linear(t)
    ensures t(0) == Table(k, 0)
  {
    hide Xor, Table;
    Cancels(0);
    Cancels(t(0));
    Cancels(Table(k, 0));
    TableLinear(k, 0, 0);
    assert t(Xor(0, 0)) == Xor(t(0), t(0));
  }

  /** Linear tables that agree at the powers of two agree on one bit of an index. */
  lemma BitAgrees(t: bv32 -> bv32, k: nat, b: bv32, j: nat)
    requires Linear(t) && Matches(t, k) && j < 8
    ensures |POWERS| == 8 && t(b & POWERS[j]) == Table(k, b & POWERS[j])
  {
    hide Linear, Table, POWERS;
    OneOrNone(b, j);
    ZeroAgrees(t, k);
  }

  lemma SumAgrees(t: bv32 -> bv32, k: nat, a: bv32, b: bv32)
    requires Linear(t) && t(a) == Table(k, a) && t(b) == Table(k, b)
    ensures t(Xor(a, b)) == Table(k, Xor(a, b))
  {
    hide Xor, Table;
    TableLinear(k, a, b);
  }

  lemma BitsAgree(t: bv32 -> bv32, k: nat, b: bv32)
    requires Linear(t) && Matches(t, k)
    ensures t(b & 1) == Table(k, b & 1) && t(b & 2) == Table(k, b & 2)
    ensures t(b & 4) == Table(k, b & 4) && t(b & 8) == Table(k, b & 8)
    ensures t(b & 16) == Table(k, b & 16) && t(b & 32) == Table(k, b & 32)
    ensures t(b & 64) == Table(k, b & 64) && t(b & 128) == Table(k, b & 128)
  {
    hide Linear, Matches, Table;
    BitAgrees(t, k, b, 0);
    BitAgrees(t, k, b, 1);
    BitAgrees(t, k, b, 2);
    BitAgrees(t, k, b, 3);
    BitAgrees(t, k, b, 4);
    BitAgrees(t, k, b, 5);
    BitAgrees(t, k, b, 6);
    BitAgrees(t, k, b, 7);
  }

  /** Linear tables that agree at the powers of two agree on every byte. */
  lemma LinearDecides(t: bv32 -> bv32, k: nat, b: bv32)
    requires Linear(t) && Matches(t, k) && b <= 0xff
    ensures t(b) == Table(k, b)
  {
    hide *;
    SumOfBits(b);
    BitsAgree(t, k, b);
    var x7 := b & 128;
    var x6 := Xor(b & 64, x7);
    var x5 := Xor(b & 32, x6);
    var x4 := Xor(b & 16, x5);
    var x3 := Xor(b & 8, x4);
    var x2 := Xor(b & 4, x3);
    var x1 := Xor(b & 2, x2);
    SumAgrees(t, k, b & 64, x7);
    SumAgrees(t, k, b & 32, x6);
    SumAgrees(t, k, b & 16, x5);
    SumAgrees(t, k, b & 8, x4);
    SumAgrees(t, k, b & 4, x3);
    SumAgrees(t, k, b & 2, x2);
    SumAgrees(t, k, b & 1, x1);
  }

  /** Whether t has the literal entries of table k at the powers of two. */
  ghost predicate HasLiterals(t: bv32 -> bv32, k: nat)
    requires k < 8
  {
    forall j: nat {:trigger LITERALS[j]} :: j < 8 ==> t(POWERS[j]) == LITERALS[j][k]
  }

  lemma LiteralsMatch(t: bv32 -> bv32, k: nat)
    requires k < 8 && HasLiterals(t, k)
    ensures Matches(t, k)
  {
    hide Table, POWERS, LITERALS;
    LiteralRow(0);
    forall j: nat | j < 8
      ensures t(POWERS[j]) == Table(k, POWERS[j])
    {
      Entries(j, k);
      LiteralRow(j);
      assert |LITERALS[j]| == 8;
    }
  }

  /** Any linear table with the literal entries at the powers of two is the recurrence's. */
  lemma TableDecided(t: bv32 -> bv32, k: nat, b: bv32)
    requires k < 8 && b <= 0xff && Linear(t) && HasLiterals(t, k)
    ensures t(b) == Table(k, b)
  {
    hide *;
    LiteralsMatch(t, k);
    LinearDecides(t, k, b);
  }
}
