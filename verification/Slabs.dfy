/** src/slab.c at byte level: units of one header and one block, side by side in a caller's blob. */
module Slabs {
  import opened Basics

  type byte = x: int | 0 <= x < 256

  const SIZE_MAX: nat := 0xffff_ffff_ffff_ffff
  const ALIGNMENT: nat := 8
  const HEADER: nat := 8
  const CANARY: nat := 0xdeadbeaf

  // ---------------------------------------------------------------------------
  // Sizes
  // ---------------------------------------------------------------------------

  /** Unsigned 64-bit arithmetic. */
  function Wrap(x: nat): (r: nat)
    ensures r <= SIZE_MAX && (x <= SIZE_MAX ==> r == x)
  {
    x % (SIZE_MAX + 1)
  }

  /** ROUND_UP(x, sizeof(void *)) */
  function RoundUp(x: nat): nat {
    var y := Wrap(x + ALIGNMENT - 1);
    y - y % ALIGNMENT
  }

  /** slab->size, as slab_init computes it. */
  function UnitSize(slabSize: nat): nat {
    Wrap(RoundUp(slabSize) + HEADER)
  }

  /** The block of a unit is at least as long as asked for exactly when the size does not wrap. */
  lemma BlockFits(slabSize: nat)
    requires slabSize <= SIZE_MAX
    ensures UnitSize(slabSize) >= slabSize + 8 <==> slabSize <= 0xffff_ffff_ffff_fff0
    ensures slabSize <= 0xffff_ffff_ffff_fff0 ==> UnitSize(slabSize) < slabSize + 16
    ensures UnitSize(slabSize) % 8 == 0
    ensures UnitSize(slabSize) == 0 <==> 0xffff_ffff_ffff_fff1 <= slabSize <= 0xffff_ffff_ffff_fff8
    ensures 0xffff_ffff_ffff_fff8 < slabSize ==> UnitSize(slabSize) == 8
  {
  }

  // ---------------------------------------------------------------------------
  // Words in memory
  // ---------------------------------------------------------------------------

  /** The 32-bit word at an address, least significant byte first. */
  function Word(memory: seq<byte>, at: nat): (w: nat)
    requires at + 4 <= |memory|
  {
    var b0: int, b1: int, b2: int, b3: int := memory[at], memory[at + 1], memory[at + 2], memory[at + 3];
    b0 + 0x100 * b1 + 0x1_0000 * b2 + 0x100_0000 * b3
  }

  /** memory with the word at an address replaced. */
  function WithWord(memory: seq<byte>, at: nat, w: nat): (m: seq<byte>)
    requires at + 4 <= |memory| && w < 0x1_0000_0000
    ensures |m| == |memory|
    ensures forall i {:trigger m[i]} :: 0 <= i < |m| && !(at <= i < at + 4) ==> m[i] == memory[i]
  {
    memory[at := w % 0x100][at + 1 := w / 0x100 % 0x100][at + 2 := w / 0x1_0000 % 0x100][at + 3 := w / 0x100_0000]
  }

  /** The eight bytes before a block say that it is leased: a one and the canary. */
  function Leased(memory: seq<byte>, block: nat): (m: seq<byte>)
    requires 8 <= block <= |memory|
  {
    WithWord(WithWord(memory, block - 8, 1), block - 4, 0xdeadbeaf)
  }

  lemma WordOfWithWord(memory: seq<byte>, at: nat, w: nat)
    requires at + 4 <= |memory| && w < 0x1_0000_0000
    ensures Word(WithWord(memory, at, w), at) == w
  {
    Digits(w);
  }

  lemma Digits(w: nat)
    ensures w == w % 0x100 + 0x100 * (w / 0x100 % 0x100) + 0x1_0000 * (w / 0x1_0000 % 0x100) +
                 0x100_0000 * (w / 0x100_0000)
  {
    var q := w / 0x100;
    var r := q / 0x100;
    assert r == w / 0x1_0000;
    assert r / 0x100 == w / 0x100_0000;
  }

  lemma SameWord(memory: seq<byte>, other: seq<byte>, at: nat)
    requires |memory| == |other| && at + 4 <= |memory|
    requires forall i {:trigger other[i]} :: at <= i < at + 4 ==> memory[i] == other[i]
    ensures Word(memory, at) == Word(other, at)
  {
  }

  // ---------------------------------------------------------------------------
  // Units
  // ---------------------------------------------------------------------------

  /** Where unit u starts. */
  function Start(size: nat, u: nat): nat {
    u * size
  }

  lemma Regroup(size: nat, u: nat, d: nat)
    ensures (u + 1 + d) * size == u * size + size + d * size
  {
  }

  lemma StartsApart(size: nat, u: nat, v: nat)
    requires u < v
    ensures Start(size, u) + size <= Start(size, v)
  {
    Regroup(size, u, v - u - 1);
  }

  lemma StartInside(size: nat, length: nat, u: nat)
    requires size > 0 && u < length / size
    ensures Start(size, u) + size <= length
  {
    var count := length / size;
    assert count * size <= length;
    if u + 1 < count {
      StartsApart(size, u, count - 1);
      StartsApart(size, count - 1, count);
    } else {
      StartsApart(size, u, count);
    }
  }

  lemma Scaled(u: nat, k: nat)
    ensures u * (ALIGNMENT * k) == ALIGNMENT * (u * k)
  {
  }

  lemma StartAligned(size: nat, u: nat)
    requires size % ALIGNMENT == 0
    ensures Start(size, u) % ALIGNMENT == 0
  {
    var k := size / ALIGNMENT;
    Scaled(u, k);
    ModIs(Start(size, u), ALIGNMENT, u * k, 0);
  }

  /** Whether two stretches of memory have no byte in common. */
  predicate Apart(at: nat, length: nat, at': nat, length': nat) {
    at + length <= at' || at' + length' <= at
  }

  /** The header of unit u in memory: leased set or not, the canary written or still zero. */
  ghost predicate Header(memory: seq<byte>, size: nat, u: nat, leased: bool, used: bool) {
    && Start(size, u) + HEADER <= |memory|
    && (Word(memory, Start(size, u)) != 0 <==> leased)
    && Word(memory, Start(size, u) + 4) == (if used then CANARY else 0)
  }

  /** A header depends on its own eight bytes only. */
  lemma HeaderKept(m: seq<byte>, m': seq<byte>, size: nat, u: nat, leased: bool, used: bool)
    requires |m| == |m'| && Header(m, size, u, leased, used)
    requires forall i {:trigger m'[i]} :: Start(size, u) <= i < Start(size, u) + HEADER ==> m[i] == m'[i]
    ensures Header(m', size, u, leased, used)
  {
    SameWord(m, m', Start(size, u));
    SameWord(m, m', Start(size, u) + 4);
  }

  lemma {:induction false} ZeroWord(memory: seq<byte>, at: nat)
    requires at + 4 <= |memory| && forall i :: at <= i < at + 4 ==> memory[i] == 0
    ensures Word(memory, at) == 0
  {
  }

  /** Among the numbers below n, all are in held exactly when it has n members. */
  lemma CountHeld(held: set<nat>, n: nat)
    requires forall u {:trigger u in held} :: u in held ==> u < n
    ensures |held| <= n && (|held| == n <==> forall u: nat :: u < n ==> u in held)
  {
    SubsetSize(held, Range(n));
    if forall u: nat :: u < n ==> u in held {
      SubsetSize(Range(n), held);
    }
  }

  method LoadWord(memory: array<byte>, at: nat) returns (w: nat)
    requires at + 4 <= memory.Length
    ensures w == Word(memory[..], at)
  {
    var b0: int, b1: int, b2: int, b3: int := memory[at], memory[at + 1], memory[at + 2], memory[at + 3];
    w := b0 + 0x100 * b1 + 0x1_0000 * b2 + 0x100_0000 * b3;
  }

  method StoreWord(memory: array<byte>, at: nat, w: nat)
    requires at + 4 <= memory.Length && w < 0x1_0000_0000
    modifies memory
    ensures memory[..] == WithWord(old(memory[..]), at, w)
  {
    memory[at], memory[at + 1] := w % 0x100, w / 0x100 % 0x100;
    memory[at + 2], memory[at + 3] := w / 0x1_0000 % 0x100, w / 0x100_0000;
  }

  class Slab {
    const blob: array<byte>
    const size: nat
    const count: nat

    /** The units whose blocks are outstanding, and those that have ever been handed out. */
    ghost var held: set<nat>
    ghost var used: set<nat>

    ghost predicate Shaped()
      reads this
    {
      && size >= HEADER && size % ALIGNMENT == 0 && count == blob.Length / size
      && held <= used && forall u {:trigger u in used} :: u in used ==> u < count
    }

    /** leased is set exactly while unit u is held, and the canary is there once it has been handed out. */
    ghost predicate HeaderOk(m: seq<byte>, u: nat, held: set<nat>, used: set<nat>) {
      Start(size, u) + size <= |m| && Header(m, size, u, u in held, u in used)
    }

    ghost predicate HeadersOk(m: seq<byte>, held: set<nat>, used: set<nat>) {
      forall u: nat {:trigger HeaderOk(m, u, held, used)} :: u < count ==> HeaderOk(m, u, held, used)
    }

    ghost predicate Valid()
      reads this, blob
    {
      Shaped() && HeadersOk(blob[..], held, used)
    }

    /** The fields and the zeroed blob that slab_init leaves. */
    constructor (blob: array<byte>, size: nat)
      requires HEADER <= size <= blob.Length && size % ALIGNMENT == 0
      modifies blob
      ensures Valid() && this.blob == blob && this.size == size && held == used == {}
      ensures forall i {:trigger blob[i]} :: 0 <= i < blob.Length ==> blob[i] == 0
    {
      this.blob := blob;
      this.size := size;
      count := blob.Length / size;
      held, used := {}, {};
      new;
      forall i | 0 <= i < blob.Length {
        blob[i] := 0;
      }
      forall u: nat | u < count
        ensures HeaderOk(blob[..], u, {}, {})
      {
        StartInside(size, blob.Length, u);
        ZeroWord(blob[..], Start(size, u));
        ZeroWord(blob[..], Start(size, u) + 4);
      }
    }

    /** Where the block of unit u starts and how long it is. */
    function BlockOf(u: nat): nat {
      Start(size, u) + HEADER
    }

    function BlockLength(): int {
      size - HEADER
    }

    /** Memory changed inside the header of one unit only. */
    ghost predicate OnlyHeader(m: seq<byte>, m': seq<byte>, u: nat) {
      |m| == |m'| && forall i {:trigger m'[i]} :: 0 <= i < |m| && !(Start(size, u) <= i < Start(size, u) + HEADER) ==>
          m[i] == m'[i]
    }

    /** A change to one unit's header and state leaves every other header alone. */
    lemma OtherHeaders(m: seq<byte>, held: set<nat>, used: set<nat>, m': seq<byte>, held': set<nat>, used': set<nat>,
        u: nat)
      requires size >= HEADER && OnlyHeader(m, m', u) && HeadersOk(m, held, used)
      requires held + {u} == held' + {u} && used + {u} == used' + {u}
      ensures HeaderOk(m', u, held', used') ==> HeadersOk(m', held', used')
    {
      hide Start, Header, Word;
      forall v: nat | v < count && v != u
        ensures HeaderOk(m', v, held', used')
      {
        assert HeaderOk(m, v, held, used);
        assert (v in held <==> v in held + {u}) && (v in held' <==> v in held' + {u});
        assert (v in used <==> v in used + {u}) && (v in used' <==> v in used' + {u});
        if u < v {
          StartsApart(size, u, v);
        } else {
          StartsApart(size, v, u);
        }
        HeaderKept(m, m', size, v, v in held, v in used);
      }
    }

    /** Set the leased word and the canary of a free unit. */
    method Lease(u: nat)
      requires Valid() && u < count && u !in held
      modifies blob, this`held, this`used
      ensures Valid() && held == old(held) + {u} && used == old(used) + {u}
      ensures BlockOf(u) <= blob.Length
      ensures blob[..] == Leased(old(blob[..]), BlockOf(u))
      ensures OnlyHeader(old(blob[..]), blob[..], u)
    {
      hide Word, WithWord, Start, HeadersOk;
      ghost var m := blob[..];
      UnitInside(m, u);
      StoreWord(blob, Start(size, u), 1);
      ghost var m1 := blob[..];
      StoreWord(blob, Start(size, u) + 4, CANARY);
      WordOfWithWord(m, Start(size, u), 1);
      WordOfWithWord(m1, Start(size, u) + 4, CANARY);
      SameWord(m1, blob[..], Start(size, u));
      held, used := held + {u}, used + {u};
      OtherHeaders(m, old(held), old(used), blob[..], held, used, u);
    }

    lemma BlockAt(u: nat)
      ensures 8 <= BlockOf(u) == u * size + 8
    {
    }

    lemma UnitInside(m: seq<byte>, u: nat)
      requires HeadersOk(m, held, used) && u < count && size >= HEADER
      ensures Start(size, u) + size <= |m| && HeaderOk(m, u, held, used)
    {
      assert HeaderOk(m, u, held, used);
    }

    /** slab_alloc: the first free unit, or none when all are held. */
    method Alloc() returns (rc: int, block: nat, ghost u: nat)
      requires Valid()
      modifies blob, this`held, this`used
      ensures Valid()
      ensures rc == if |old(held)| == count then -1 else 0
      ensures rc == -1 ==> held == old(held) && used == old(used) && blob[..] == old(blob[..])
      ensures rc == 0 ==>
                && u < count && u !in old(held) && (forall v :: 0 <= v < u ==> v in old(held))
                && held == old(held) + {u} && used == old(used) + {u}
                && 8 <= block <= blob.Length && blob[..] == Leased(old(blob[..]), block)
                && OnlyHeader(old(blob[..]), blob[..], u) && block == BlockOf(u) == u * size + 8
    {
      hide Word, WithWord, Start, HeadersOk;
      var i := 0;
      while i < count
        invariant i <= count && forall v :: 0 <= v < i ==> v in held
        invariant Valid() && held == old(held) && used == old(used) && blob[..] == old(blob[..])
      {
        UnitInside(blob[..], i);
        var leased := LoadWord(blob, Start(size, i));
        if leased == 0 {
          CountHeld(held, count);
          Lease(i);
          BlockAt(i);
          return 0, BlockOf(i), i;
        }
        i := i + 1;
      }
      CountHeld(held, count);
      return -1, 0, 0;
    }

    /**
     * slab_free of any address whose header lies in the blob: the canary alone decides. For the block of a
     * unit it says whether the unit was ever handed out, so freeing a held block always works, and freeing it
     * twice is not noticed.
     */
    method Free(block: nat) returns (rc: int)
      requires Valid() && HEADER <= block <= blob.Length
      modifies blob, this`held
      ensures rc == if Word(old(blob[..]), block - 4) == 0xdeadbeaf then 0 else -1
      ensures blob[..] == if rc == 0 then WithWord(old(blob[..]), block - 8, 0) else old(blob[..])
      ensures forall u: nat {:trigger BlockOf(u)} :: u < count && block == BlockOf(u) ==>
                Valid() && (rc == 0 <==> u in used) && held == old(held) - {u}
    {
      hide Word, WithWord, Start, HeadersOk, Header;
      ghost var m := blob[..];
      var canary := LoadWord(blob, block - 4);
      if canary != CANARY {
        forall u: nat | u < count && block == BlockOf(u)
          ensures u !in used && u !in held
        {
          CanaryMeans(m, u);
        }
        return -1;
      }
      StoreWord(blob, block - HEADER, 0);
      if u: nat :| u < count && block == BlockOf(u) {
        CanaryMeans(m, u);
        WordOfWithWord(m, Start(size, u), 0);
        SameWord(m, blob[..], Start(size, u) + 4);
        held := held - {u};
        UnitReleased(m, blob[..], u, old(held));
        OtherHeaders(m, old(held), used, blob[..], held, used, u);
        SameBlock(u, block);
      }
      return 0;
    }

    lemma CanaryMeans(m: seq<byte>, u: nat)
      requires HeadersOk(m, held, used) && held <= used && u < count
      ensures BlockOf(u) <= |m| && (Word(m, BlockOf(u) - 4) == CANARY <==> u in used)
      ensures u in held ==> u in used
    {
      assert HeaderOk(m, u, held, used);
    }

    lemma UnitReleased(m: seq<byte>, m': seq<byte>, u: nat, held: set<nat>)
      requires HeadersOk(m, held, used) && u < count && |m| == |m'| && size >= HEADER && BlockOf(u) <= |m|
      requires Word(m', Start(size, u)) == 0 && Word(m', Start(size, u) + 4) == Word(m, Start(size, u) + 4)
      ensures HeaderOk(m', u, held - {u}, used)
    {
      hide Word, Start;
      assert HeaderOk(m, u, held, used);
    }

    lemma SameBlock(u: nat, block: nat)
      requires size > 0 && block == BlockOf(u)
      ensures forall v: nat {:trigger BlockOf(v)} :: block == BlockOf(v) ==> u == v
    {
      forall v: nat | block == BlockOf(v)
        ensures u == v
      {
        if u < v {
          StartsApart(size, u, v);
        } else if v < u {
          StartsApart(size, v, u);
        }
      }
    }

    /** A client's store into a block it holds: no header changes. */
    method Write(u: nat, k: nat, b: byte)
      requires Valid() && u in held && k < BlockLength()
      modifies blob
      ensures Valid() && BlockOf(u) + BlockLength() <= blob.Length
      ensures blob[..] == old(blob[..])[BlockOf(u) + k := b]
      ensures SameHeaders(old(blob[..]), blob[..])
    {
      hide Word, Start, Header, HeadersOk;
      ghost var m := blob[..];
      UnitInside(m, u);
      blob[BlockOf(u) + k] := b;
      assert blob[..] == m[BlockOf(u) + k := b];
      WriteKeeps(m, u, k, b);
    }

    ghost predicate SameHeader(m: seq<byte>, m': seq<byte>, v: nat) {
      && |m| == |m'| && Start(size, v) + HEADER <= |m|
      && m[Start(size, v)..Start(size, v) + HEADER] == m'[Start(size, v)..Start(size, v) + HEADER]
    }

    ghost predicate SameHeaders(m: seq<byte>, m': seq<byte>) {
      forall v: nat {:trigger SameHeader(m, m', v)} :: v < count ==> SameHeader(m, m', v)
    }

    lemma WriteKeeps(m: seq<byte>, u: nat, k: nat, b: byte)
      requires k < BlockLength() && BlockOf(u) + k < |m| && HeadersOk(m, held, used)
      ensures HeadersOk(m[BlockOf(u) + k := b], held, used) && SameHeaders(m, m[BlockOf(u) + k := b])
    {
      hide Word, Start, Header;
      var m' := m[BlockOf(u) + k := b];
      forall v: nat | v < count
        ensures HeaderOk(m', v, held, used) && SameHeader(m, m', v)
      {
        assert HeaderOk(m, v, held, used);
        if u < v {
          StartsApart(size, u, v);
        } else if v < u {
          StartsApart(size, v, u);
        }
        HeaderKept(m, m', size, v, v in held, v in used);
      }
    }

    /**
     * Blocks of different units have no byte in common with each other or with any header, lie in the blob, and are
     * aligned in it.
     */
    lemma BlocksApart(u: nat, v: nat)
      requires Valid() && u < count && v < count
      ensures BlockOf(u) + BlockLength() <= blob.Length
      ensures u != v ==> Apart(BlockOf(u), BlockLength(), BlockOf(v), BlockLength())
      ensures Apart(BlockOf(u), BlockLength(), Start(size, v), 8)
      ensures BlockOf(u) % 8 == 0
    {
      hide Start, Header;
      StartAligned(size, u);
      StartInside(size, blob.Length, u);
      if u < v {
        StartsApart(size, u, v);
      } else if v < u {
        StartsApart(size, v, u);
      }
    }
  }

  /** (int)n for an unsigned 64-bit n. */
  function ToInt(n: nat): int {
    var low := n % 0x1_0000_0000;
    if low < 0x8000_0000 then low else low - 0x1_0000_0000
  }

  lemma ToIntMeans(n: nat)
    ensures -0x8000_0000 <= ToInt(n) < 0x8000_0000 && (n - ToInt(n)) % 0x1_0000_0000 == 0
    ensures n < 0x8000_0000 ==> ToInt(n) == n
  {
    var low := n % 0x1_0000_0000;
    assert n - low == n / 0x1_0000_0000 * 0x1_0000_0000;
  }

  lemma SizeInEights(slabSize: nat)
    requires slabSize <= 0xffff_ffff_ffff_fff0
    ensures UnitSize(slabSize) == (slabSize + 7) / 8 * 8 + 8
  {
  }

  lemma Whole(n: nat, k: nat)
    requires k > 0
    ensures n / k * k <= n < (n / k + 1) * k
  {
  }

  /** slab_init. The source divides by the unit size, so a slabSize for which it wraps to 0 is the caller's error. */
  method Init(blob: array<byte>, slabSize: nat) returns (rc: int, slab: Slab?)
    requires slabSize <= 0xffff_ffff_ffff_fff0 || 0xffff_ffff_ffff_fff8 < slabSize <= 0xffff_ffff_ffff_ffff
    modifies blob
    ensures slab == null <==>
            blob.Length < if slabSize <= 0xffff_ffff_ffff_fff0 then (slabSize + 7) / 8 * 8 + 8 else 8
    ensures slab == null ==> rc == -1 && blob[..] == old(blob[..])
    ensures slab != null ==> fresh(slab) && slab.Valid() && slab.blob == blob && slab.held == slab.used == {}
    ensures slab != null ==> forall i {:trigger blob[i]} :: 0 <= i < blob.Length ==> blob[i] == 0
    ensures slab != null ==>
              if slabSize <= 0xffff_ffff_ffff_fff0 then slabSize <= slab.BlockLength() < slabSize + 8
              else slab.BlockLength() == 0
    ensures slab != null ==>
              slab.count * (slab.BlockLength() + 8) <= blob.Length < (slab.count + 1) * (slab.BlockLength() + 8)
    ensures slab != null ==>
              && -0x8000_0000 <= rc < 0x8000_0000 && (slab.count - rc) % 0x1_0000_0000 == 0
              && (slab.count < 0x8000_0000 ==> rc == slab.count)
  {
    hide UnitSize, RoundUp, Wrap, ToInt, Start, Header;
    BlockFits(slabSize);
    if slabSize <= 0xffff_ffff_ffff_fff0 {
      SizeInEights(slabSize);
    }
    var size := UnitSize(slabSize);
    if size > blob.Length {
      return -1, null;
    }
    slab := new Slab(blob, size);
    Whole(blob.Length, size);
    ToIntMeans(slab.count);
    rc := ToInt(slab.count);
  }
}
