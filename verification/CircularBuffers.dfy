/** src/circbuf.c used by one thread: counters modulo 2 * size over a fixed buffer. */
module CircularBuffers {
  import opened Basics

  // ---------------------------------------------------------------------------
  // Counters modulo 2 * size
  // ---------------------------------------------------------------------------

  /** The counter after k increments: it wraps at 2 * size, and stays 0 for a buffer of no slots. */
  function Wrap(size: nat, k: nat): (c: nat)
    ensures c == 0 || c < 2 * size
  {
    if size == 0 then 0 else k % (2 * size)
  }

  /** The number of elements between two counters. */
  function Total(size: nat, push: int, pop: int): int {
    if push - pop < 0 then push - pop + 2 * size else push - pop
  }

  /** One increment of a counter. */
  function Advance(size: nat, count: int): int {
    if count + 1 >= 2 * size then 0 else count + 1
  }

  lemma WrapAdvance(size: nat, k: nat)
    requires size > 0
    ensures Wrap(size, k + 1) == Advance(size, Wrap(size, k))
  {
    AddMod(k, 1, 2 * size);
  }

  /** The difference of the wrapped counters is the difference of the true counts. */
  lemma TotalOfWraps(size: nat, a: nat, b: nat)
    requires b <= a <= b + size
    ensures Total(size, Wrap(size, a), Wrap(size, b)) == a - b
  {
    if size > 0 {
      AddMod(b, a - b, 2 * size);
    }
  }

  /** The slot that the element with this number goes to. */
  function Slot(size: nat, k: nat): (i: nat)
    requires size > 0
    ensures i < size
  {
    k % size
  }

  lemma Regroup(size: nat, q: nat, e: nat)
    ensures (2 * size) * q + size * e == size * (2 * q + e)
  {
  }

  lemma ModOfMod(size: nat, k: nat)
    requires size > 0
    ensures k % (2 * size) % size == k % size
  {
    var q, r := Divide(k, 2 * size);
    var e, s := Divide(r, size);
    Regroup(size, q, e);
    ModIs(k, size, 2 * q + e, s);
  }

  /** The slot a wrapped counter selects. */
  lemma SlotOfWrap(size: nat, k: nat)
    requires size > 0
    ensures Wrap(size, k) % size == Slot(size, k)
  {
    ModOfMod(size, k);
  }

  /** Numbers less than a buffer apart go to different slots. */
  lemma SlotsDiffer(size: nat, a: nat, b: nat)
    requires a < b < a + size
    ensures Slot(size, a) != Slot(size, b)
  {
    AddMod(a, b - a, size);
  }

  /** No number in a stretch shorter than the buffer shares the slot of another. */
  lemma SlotAlone(size: nat, from: nat, k: nat)
    requires from <= k < from + size
    ensures forall j {:trigger Slot(size, j)} :: from <= j < from + size && j != k ==> Slot(size, j) != Slot(size, k)
  {
    forall j {:trigger Slot(size, j)} | from <= j < from + size && j != k
      ensures Slot(size, j) != Slot(size, k)
    {
      if j < k {
        SlotsDiffer(size, j, k);
      } else {
        SlotsDiffer(size, k, j);
      }
    }
  }

  // ---------------------------------------------------------------------------
  // The buffer
  // ---------------------------------------------------------------------------

  class CircularBuffer<T(0)> {
    const buffer: array<T>
    const size: nat
    var pushCount: int
    var popCount: int

    /** CRICBUF_CLEAN_ON_POP: whether a slot is overwritten with `zero` when it is popped. */
    const clean: bool
    const zero: T

    /** How often each end has been advanced since the last flush. */
    ghost var pushes: nat
    ghost var pops: nat

    /** The queued elements, oldest first. */
    ghost var contents: seq<T>

    ghost predicate Valid()
      reads this, buffer
    {
      && buffer.Length == size
      && |contents| == pushes - pops <= size
      && pushCount == Wrap(size, pushes) && popCount == Wrap(size, pops)
      && (size > 0 ==>
            forall k: nat {:trigger Slot(size, k)} :: pops <= k < pushes ==>
                buffer[Slot(size, k)] == contents[k - pops])
    }

    /** CIRCBUF_DEF */
    constructor (size: nat, clean: bool, zero: T)
      ensures Valid() && contents == [] && fresh(buffer)
      ensures this.size == size && this.clean == clean && this.zero == zero
    {
      buffer := new T[size];
      this.size := size;
      this.clean := clean;
      this.zero := zero;
      pushCount, popCount := 0, 0;
      pushes, pops, contents := 0, 0, [];
    }

    /** __circbuf_push */
    method Push(elem: T) returns (rc: int)
      requires Valid()
      modifies this, buffer
      ensures Valid() && rc == if |old(contents)| == size then -1 else 0
      ensures contents == if rc == 0 then old(contents) + [elem] else old(contents)
    {
      hide Slot, Wrap;
      TotalOfWraps(size, pushes, pops);
      var total := pushCount - popCount;
      if total < 0 {
        total := total + 2 * size;
      }
      if total >= size {
        return -1;
      }
      SlotOfWrap(size, pushes);
      WrapAdvance(size, pushes);
      SlotAlone(size, pops, pushes);
      buffer[pushCount % size] := elem;
      pushCount := pushCount + 1;
      if pushCount >= 2 * size {
        pushCount := 0;
      }
      pushes := pushes + 1;
      contents := contents + [elem];
      return 0;
    }

    /** __circbuf_pop: take the oldest element, or only look at it. */
    method Pop(readOnly: bool) returns (rc: int, elem: Option<T>)
      requires Valid()
      modifies this, buffer
      ensures Valid() && rc == if old(contents) == [] then -1 else 0
      ensures elem == if rc == 0 then Some(old(contents)[0]) else None
      ensures contents == if rc == 0 && !readOnly then old(contents)[1..] else old(contents)
      ensures !clean || readOnly || rc != 0 ==> buffer[..] == old(buffer[..])
      ensures clean && !readOnly && rc == 0 ==>
                && size > 0 && Slot(size, old(pops)) < buffer.Length
                && buffer[..] == old(buffer[..])[Slot(size, old(pops)) := zero]
    {
      hide Slot, Wrap;
      TotalOfWraps(size, pushes, pops);
      var total := pushCount - popCount;
      if total < 0 {
        total := total + 2 * size;
      }
      if total == 0 {
        return -1, None;
      }
      SlotOfWrap(size, pops);
      WrapAdvance(size, pops);
      SlotAlone(size, pops, pops);
      elem := Some(buffer[popCount % size]);
      if !readOnly {
        if clean {
          buffer[popCount % size] := zero;
        }
        popCount := popCount + 1;
        if popCount >= 2 * size {
          popCount := 0;
        }
        pops := pops + 1;
        contents := contents[1..];
      }
      rc := 0;
    }

    /** __circbuf_free_space */
    method FreeSpace() returns (free: int)
      requires Valid()
      ensures free == size - |contents|
    {
      TotalOfWraps(size, pushes, pops);
      var total := pushCount - popCount;
      if total < 0 {
        total := total + 2 * size;
      }
      return size - total;
    }

    /** CIRCBUF_FLUSH */
    method Flush()
      requires Valid()
      modifies this
      ensures Valid() && contents == [] && pushCount == popCount == 0
    {
      pushCount, popCount := 0, 0;
      pushes, pops, contents := 0, 0, [];
    }
  }
}
