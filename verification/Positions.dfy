/** Bucket positions: `hash & (capacity - 1)` for capacities that are 32 times a power of two. */
module Positions {
  import opened Basics

  /** Bitwise and of two natural numbers. */
  function BitAnd(a: nat, b: nat): nat
    decreases a
  {
    if a == 0 || b == 0 then 0
    else 2 * BitAnd(a / 2, b / 2) + (if a % 2 == 1 && b % 2 == 1 then 1 else 0)
  }

  /** GET_POOL_POS */
  function Position(capacity: nat, hash: nat): nat
    requires capacity > 0
  {
    BitAnd(hash, capacity - 1)
  }

  ghost predicate IsCapacity(c: nat) {
    exists k: nat :: c == 32 * Pow2(k)
  }

  lemma HalfMod(h: nat, q: nat)
    requires q > 0
    ensures h % (2 * q) == 2 * (h / 2 % q) + h % 2
  {
    var d, r := h / 2 / q, h / 2 % q;
    assert h == 2 * (q * d + r) + h % 2;
    assert h == (2 * q) * d + (2 * r + h % 2);
    ModIs(h, 2 * q, d, 2 * r + h % 2);
  }

  lemma {:induction false} MaskIsMod(h: nat, k: nat)
    ensures BitAnd(h, Pow2(k) - 1) == h % Pow2(k)
    decreases k
  {
    if k > 0 {
      var q := Pow2(k - 1);
      HalfMod(h, q);
      MaskIsMod(h / 2, k - 1);
      assert (2 * q - 1) / 2 == q - 1 && (2 * q - 1) % 2 == 1;
    }
  }

  lemma CapacityIsPower(c: nat)
    requires IsCapacity(c)
    ensures exists k: nat :: c == Pow2(k)
  {
    var k: nat :| c == 32 * Pow2(k);
    assert Pow2(k + 5) == 2 * Pow2(k + 4) == 4 * Pow2(k + 3) == 8 * Pow2(k + 2) == 16 * Pow2(k + 1);
    assert c == Pow2(k + 5);
  }

  /** The mask selects a bucket below the capacity: the remainder of the hash. */
  lemma PositionIsMod(c: nat, h: nat)
    requires IsCapacity(c)
    ensures c > 0 && Position(c, h) == h % c < c
  {
    CapacityIsPower(c);
    var k: nat :| c == Pow2(k);
    MaskIsMod(h, k);
  }

  lemma CapacityBound(c: nat)
    requires IsCapacity(c)
    ensures c >= 32
  {
  }

  lemma DoubleCapacity(c: nat)
    requires IsCapacity(c)
    ensures IsCapacity(2 * c)
  {
    var k: nat :| c == 32 * Pow2(k);
    assert 2 * c == 32 * Pow2(k + 1);
  }

  /** When the capacity doubles, an item of bucket p belongs to p or to p + c. */
  lemma DoubledPosition(c: nat, h: nat)
    requires IsCapacity(c)
    ensures c > 0
    ensures Position(2 * c, h) == Position(c, h) || Position(2 * c, h) == Position(c, h) + c
  {
    PositionIsMod(c, h);
    DoubleCapacity(c);
    PositionIsMod(2 * c, h);
    DoubledMod(c, h);
  }

  lemma RegroupDigits(c: nat, d: nat, e: nat, b: nat)
    requires d == 2 * e + b && b < 2
    ensures c * d == (2 * c) * e + (if b == 0 then 0 else c)
  {
    assert c * d == c * (2 * e) + c * b;
    assert c * (2 * e) == (2 * c) * e;
  }

  lemma DoubledMod(c: nat, h: nat)
    requires c > 0
    ensures h % (2 * c) == h % c || h % (2 * c) == h % c + c
  {
    var d, r := h / c, h % c;
    var e, b := d / 2, d % 2;
    RegroupDigits(c, d, e, b);
    var low := if b == 0 then r else c + r;
    assert h == c * d + r;
    ModIs(h, 2 * c, e, low);
  }
}
