/** The chained table of src/hashmap.c, bucket by bucket, without its links. */
module Chains {
  import opened Basics
  import opened Positions

  /** One heap-allocated entry; the hash and key of an entry never change. */
  class Item<V> {
    const hash: nat
    const key: string
    var val: V
    var next: Item?<V>

    constructor (hash: nat, key: string, val: V)
      ensures this.hash == hash && this.key == key && this.val == val && next == null
    {
      this.hash := hash;
      this.key := key;
      this.val := val;
      next := null;
    }
  }

  type Table<V> = seq<seq<Item<V>>>

  /** No key is stored twice, so no item is either. */
  ghost predicate UniqueKeys<V>(t: Table<V>) {
    forall p, i, q, j {:trigger t[p][i], t[q][j]} ::
      0 <= p < |t| && 0 <= i < |t[p]| && 0 <= q < |t| && 0 <= j < |t[q]| && t[p][i].key == t[q][j].key ==>
          p == q && i == j
  }

  /** Every item sits in the bucket its stored hash selects, and that hash is its key's. */
  ghost predicate Placed<V>(t: Table<V>, hash: string -> nat)
    requires |t| > 0
  {
    forall p, i {:trigger t[p][i]} :: 0 <= p < |t| && 0 <= i < |t[p]| ==>
      t[p][i].hash == hash(t[p][i].key) && Position(|t|, t[p][i].hash) == p
  }

  /** An item is stored in one place only. */
  lemma Elsewhere<V>(t: Table<V>, p: nat, k: nat)
    requires UniqueKeys(t) && p < |t| && k < |t[p]|
    ensures forall q, i {:trigger t[q][i]} :: 0 <= q < |t| && 0 <= i < |t[q]| && !(q == p && i == k) ==>
        t[q][i] != t[p][k]
  {
  }

  /** A key has one place only. */
  lemma SamePlace<V>(t: Table<V>, p: nat, k: nat, q: nat, l: nat)
    requires UniqueKeys(t) && p < |t| && k < |t[p]| && q < |t| && l < |t[q]| && t[p][k].key == t[q][l].key
    ensures p == q && k == l
  {
  }

  lemma PlacedAt<V>(t: Table<V>, hash: string -> nat, p: nat, i: nat)
    requires |t| > 0 && Placed(t, hash) && p < |t| && i < |t[p]|
    ensures Position(|t|, t[p][i].hash) == p
  {
  }

  ghost predicate Holds<V>(t: Table<V>, key: string) {
    exists p, i :: 0 <= p < |t| && 0 <= i < |t[p]| && t[p][i].key == key
  }

  function Total<V>(t: Table<V>): nat {
    if t == [] then 0 else Total(t[..|t| - 1]) + |t[|t| - 1]|
  }

  // ---------------------------------------------------------------------------
  // Changing one bucket
  // ---------------------------------------------------------------------------

  lemma {:induction false} TotalUpdate<V>(t: Table<V>, p: nat, c: seq<Item<V>>)
    requires p < |t|
    ensures Total(t[p := c]) == Total(t) - |t[p]| + |c|
  {
    var n := |t| - 1;
    if p == n {
      assert t[p := c][..n] == t[..n];
    } else {
      assert t[p := c][..n] == t[..n][p := c];
      TotalUpdate(t[..n], p, c);
    }
  }

  /** The position of the item with this key in a chain, or the length of the chain. */
  function Find<V>(c: seq<Item<V>>, hash: nat, key: string): (i: nat)
    ensures i <= |c| && (i < |c| ==> c[i].hash == hash && c[i].key == key)
    ensures forall j :: 0 <= j < i ==> !(c[j].hash == hash && c[j].key == key)
  {
    if c == [] then 0
    else if c[0].hash == hash && c[0].key == key then 0
    else
      var i := 1 + Find(c[1..], hash, key);
      assert forall j :: 0 < j < i ==> c[j] == c[1..][j - 1];
      i
  }

  /** In a well placed table a key is held exactly when its own chain holds it. */
  lemma FindDecides<V>(t: Table<V>, hash: string -> nat, key: string, p: nat)
    requires IsCapacity(|t|)
    requires |t| > 0 && Placed(t, hash) && p == Position(|t|, hash(key))
    ensures p < |t|
    ensures Holds(t, key) <==> Find(t[p], hash(key), key) < |t[p]|
  {
    PositionIsMod(|t|, hash(key));
    if Holds(t, key) {
      var q, i :| 0 <= q < |t| && 0 <= i < |t[q]| && t[q][i].key == key;
      assert q == p;
    }
  }

  // ---------------------------------------------------------------------------
  // Rehashing
  // ---------------------------------------------------------------------------

  /** Take the item at k out of bucket p and put it in front of bucket q. */
  function Move<V>(t: Table<V>, p: nat, k: nat, q: nat): (u: Table<V>)
    requires p < |t| && k < |t[p]| && q < |t| && p != q
    ensures |u| == |t|
  {
    t[p := Without(t[p], k)][q := [t[p][k]] + t[q]]
  }

  /** Where the item at (a, i) of the moved table came from. */
  function Origin(p: nat, k: nat, q: nat, a: nat, i: nat): (nat, nat) {
    if a == p then (p, if i < k then i else i + 1)
    else if a == q then (if i == 0 then (p, k) else (q, i - 1))
    else (a, i)
  }

  lemma MoveOrigin<V>(t: Table<V>, p: nat, k: nat, q: nat, a: nat, i: nat)
    requires p < |t| && k < |t[p]| && q < |t| && p != q
    requires a < |t| && i < |Move(t, p, k, q)[a]|
    ensures var (b, j) := Origin(p, k, q, a, i); b < |t| && j < |t[b]| && Move(t, p, k, q)[a][i] == t[b][j]
  {
  }

  lemma MoveUnique<V>(t: Table<V>, p: nat, k: nat, q: nat)
    requires p < |t| && k < |t[p]| && q < |t| && p != q && UniqueKeys(t)
    ensures UniqueKeys(Move(t, p, k, q))
  {
    var u: Table<V> := Move(t, p, k, q);
    forall a, i, b, j | 0 <= a < |u| && 0 <= i < |u[a]| && 0 <= b < |u| && 0 <= j < |u[b]| && u[a][i].key == u[b][j].key
      ensures a == b && i == j
    {
      MoveOrigin(t, p, k, q, a, i);
      MoveOrigin(t, p, k, q, b, j);
      assert Origin(p, k, q, a, i) == Origin(p, k, q, b, j);
    }
  }

  lemma MoveTotal<V>(t: Table<V>, p: nat, k: nat, q: nat)
    requires p < |t| && k < |t[p]| && q < |t| && p != q
    ensures Total(Move(t, p, k, q)) == Total(t)
  {
    TotalUpdate(t, p, Without(t[p], k));
    TotalUpdate(t[p := Without(t[p], k)], q, [t[p][k]] + t[q]);
  }

  /** The bucket an item leaves, and its neighbours there. */
  lemma MovePivot<V>(t: Table<V>, p: nat, k: nat, q: nat)
    requires p < |t| && k < |t[p]| && q < |t| && p != q
    ensures Move(t, p, k, q)[p] == Without(t[p], k)
    ensures k > 0 ==> Move(t, p, k, q)[p][k - 1] == t[p][k - 1]
  {
  }

  ghost predicate Stored<V>(t: Table<V>, n: Item<V>) {
    exists p, i :: 0 <= p < |t| && 0 <= i < |t[p]| && t[p][i] == n
  }

  lemma StoredHolds<V>(t: Table<V>, n: Item<V>)
    requires Stored(t, n)
    ensures Holds(t, n.key)
  {
    var p, i :| 0 <= p < |t| && 0 <= i < |t[p]| && t[p][i] == n;
  }

  lemma HeldIsStored<V>(t: Table<V>, key: string) returns (n: Item<V>)
    requires Holds(t, key)
    ensures Stored(t, n) && n.key == key
  {
    var p, i :| 0 <= p < |t| && 0 <= i < |t[p]| && t[p][i].key == key;
    n := t[p][i];
  }

  lemma MoveStored<V>(t: Table<V>, p: nat, k: nat, q: nat, n: Item<V>)
    requires p < |t| && k < |t[p]| && q < |t| && p != q
    ensures Stored(Move(t, p, k, q), n) <==> Stored(t, n)
  {
    var u: Table<V> := Move(t, p, k, q);
    if Stored(u, n) {
      var a, i :| 0 <= a < |u| && 0 <= i < |u[a]| && u[a][i] == n;
      MoveOrigin(t, p, k, q, a, i);
    }
    if Stored(t, n) {
      var a, i :| 0 <= a < |t| && 0 <= i < |t[a]| && t[a][i] == n;
      if a == p {
        assert if i < k then u[p][i] == n else if i > k then u[p][i - 1] == n else u[q][0] == n;
      } else if a == q {
        assert u[q][i + 1] == n;
      } else {
        assert u[a][i] == n;
      }
    }
  }

  /** The items of a chain that stay in bucket p of a table with `capacity` buckets, in order. */
  function Stay<V>(c: seq<Item<V>>, capacity: nat, p: nat): (s: seq<Item<V>>)
    requires capacity > 0
    ensures |s| <= |c|
  {
    if c == [] then [] else
      var s := Stay(c[..|c| - 1], capacity, p);
      var x := c[|c| - 1];
      if Position(capacity, x.hash) == p then s + [x] else s
  }

  /** The items of a chain that leave bucket p, last one first. */
  function Leave<V>(c: seq<Item<V>>, capacity: nat, p: nat): (s: seq<Item<V>>)
    requires capacity > 0
  {
    if c == [] then [] else
      var s := Leave(c[..|c| - 1], capacity, p);
      var x := c[|c| - 1];
      if Position(capacity, x.hash) == p then s else [x] + s
  }

  lemma {:induction false} StayFrom<V>(c: seq<Item<V>>, capacity: nat, p: nat, a: nat) returns (i: nat)
    requires capacity > 0 && a < |Stay(c, capacity, p)|
    ensures i < |c| && Stay(c, capacity, p)[a] == c[i] && Position(capacity, c[i].hash) == p
    decreases |c|
  {
    hide Position;
    var n := |c| - 1;
    if a == |Stay(c[..n], capacity, p)| {
      i := n;
    } else {
      i := StayFrom(c[..n], capacity, p, a);
    }
  }

  lemma {:induction false} LeaveFrom<V>(c: seq<Item<V>>, capacity: nat, p: nat, a: nat) returns (i: nat)
    requires capacity > 0 && a < |Leave(c, capacity, p)|
    ensures i < |c| && Leave(c, capacity, p)[a] == c[i] && Position(capacity, c[i].hash) != p
    decreases |c|
  {
    hide Position;
    var n := |c| - 1;
    if Position(capacity, c[n].hash) == p {
      i := LeaveFrom(c[..n], capacity, p, a);
    } else if a == 0 {
      i := n;
    } else {
      i := LeaveFrom(c[..n], capacity, p, a - 1);
    }
  }

  /** Bucket q of the doubled table when the sweep over t has handled the first i items of bucket p. */
  function SweptBucket<V>(t: Table<V>, p: nat, i: nat, q: nat): seq<Item<V>>
    requires p < |t| && i <= |t[p]| && q < 2 * |t|
  {
    var n := |t|;
    var b := if q < n then q else q - n;
    var (done, rest) := if b < p then (t[b], []) else if b == p then (t[p][..i], t[p][i..]) else ([], t[b]);
    if q < n then Stay(done, 2 * n, b) + rest else Leave(done, 2 * n, b)
  }

  function Swept<V>(t: Table<V>, p: nat, i: nat): (u: Table<V>)
    requires p < |t| && i <= |t[p]|
    ensures |u| == 2 * |t|
    ensures forall q {:trigger u[q]} :: 0 <= q < 2 * |t| ==> u[q] == SweptBucket(t, p, i, q)
  {
    seq(2 * |t|, q requires 0 <= q < 2 * |t| => SweptBucket(t, p, i, q))
  }

  /** The doubled table before the sweep. */
  function Padded<V>(t: Table<V>): (u: Table<V>)
    ensures |u| == 2 * |t|
    ensures forall p {:trigger u[p]} :: 0 <= p < |u| ==> u[p] == if p < |t| then t[p] else []
  {
    t + seq(|t|, _ => [])
  }

  lemma PaddedUnique<V>(t: Table<V>)
    requires UniqueKeys(t)
    ensures UniqueKeys(Padded(t))
  {
  }

  lemma PaddedKeeps<V>(t: Table<V>)
    requires UniqueKeys(t)
    ensures UniqueKeys(Padded(t)) && Total(Padded(t)) == Total(t)
  {
    PaddedUnique(t);
    PadTotal(t, |t|);
  }

  lemma {:induction false} PadTotal<V>(t: Table<V>, n: nat)
    ensures Total(t + seq(n, _ => [])) == Total(t)
    decreases n
  {
    var u: Table<V> := t + seq(n, _ => []);
    if n == 0 {
      assert u == t;
    } else {
      assert u[..|u| - 1] == t + seq(n - 1, _ => []);
      PadTotal(t, n - 1);
    }
  }

  lemma PaddedStored<V>(t: Table<V>, n: Item<V>)
    requires Stored(t, n)
    ensures Stored(Padded(t), n)
  {
    var p, i :| 0 <= p < |t| && 0 <= i < |t[p]| && t[p][i] == n;
    assert Padded(t)[p][i] == n;
  }

  lemma SweptStart<V>(t: Table<V>)
    requires |t| > 0
    ensures Reached(t, 0) == Padded(t)
  {
    var n := |t|;
    forall q | 0 <= q < 2 * n
      ensures SweptBucket(t, 0, 0, q) == if q < n then t[q] else []
    {
      assert t[0][..0] == [] && t[0][0..] == t[0];
    }
  }

  /** Finishing a bucket is starting the next one. */
  lemma SweptNext<V>(t: Table<V>, p: nat)
    requires p + 1 < |t|
    ensures Swept(t, p + 1, 0) == Swept(t, p, |t[p]|)
  {
    hide Stay, Leave, Position;
    forall q | 0 <= q < 2 * |t|
      ensures SweptBucket(t, p + 1, 0, q) == SweptBucket(t, p, |t[p]|, q)
    {
      assert t[p][..|t[p]|] == t[p] && t[p][|t[p]|..] == [];
      assert t[p + 1][..0] == [] && t[p + 1][0..] == t[p + 1];
    }
  }

  lemma StayNothing<V>(c: seq<Item<V>>, capacity: nat, p: nat)
    requires capacity > 0
    ensures Stay(c[..0], capacity, p) == []
  {
  }

  lemma StayLeaveStep<V>(c: seq<Item<V>>, i: nat, capacity: nat, p: nat)
    requires i < |c| && capacity > 0
    ensures Position(capacity, c[i].hash) == p ==>
              && Stay(c[..i + 1], capacity, p) == Stay(c[..i], capacity, p) + [c[i]]
              && Leave(c[..i + 1], capacity, p) == Leave(c[..i], capacity, p)
    ensures Position(capacity, c[i].hash) != p ==>
              && Stay(c[..i + 1], capacity, p) == Stay(c[..i], capacity, p)
              && Leave(c[..i + 1], capacity, p) == [c[i]] + Leave(c[..i], capacity, p)
  {
    assert c[..i + 1][..i] == c[..i] && c[..i + 1][i] == c[i];
  }

  lemma SweptCurrent<V>(t: Table<V>, p: nat, i: nat)
    requires p < |t| && i < |t[p]|
    ensures var u, k := Swept(t, p, i), |Stay(t[p][..i], 2 * |t|, p)|;
      && k < |u[p]| && u[p][k] == t[p][i]
      && Without(u[p], k) == Stay(t[p][..i], 2 * |t|, p) + t[p][i + 1..]
  {
    var s := Stay(t[p][..i], 2 * |t|, p);
    assert Swept(t, p, i)[p] == s + t[p][i..];
    assert t[p][i..] == [t[p][i]] + t[p][i + 1..];
    assert Without(s + t[p][i..], |s|) == s + t[p][i + 1..];
  }

  lemma SweptStays<V>(t: Table<V>, p: nat, i: nat)
    requires p < |t| && i < |t[p]| && Position(2 * |t|, t[p][i].hash) == p
    ensures Swept(t, p, i + 1) == Swept(t, p, i)
  {
    hide Position, Stay, Leave;
    StayLeaveStep(t[p], i, 2 * |t|, p);
    forall q | 0 <= q < 2 * |t|
      ensures SweptBucket(t, p, i + 1, q) == SweptBucket(t, p, i, q)
    {
      assert t[p][i..] == [t[p][i]] + t[p][i + 1..];
    }
  }

  lemma SweptMoves<V>(t: Table<V>, p: nat, i: nat)
    requires p < |t| && i < |t[p]| && Position(2 * |t|, t[p][i].hash) != p
    ensures var k := |Stay(t[p][..i], 2 * |t|, p)|;
      k < |Swept(t, p, i)[p]| && Swept(t, p, i + 1) == Move(Swept(t, p, i), p, k, p + |t|)
  {
    StayLeaveStep(t[p], i, 2 * |t|, p);
    SweptCurrent(t, p, i);
    var n, u: Table<V> := |t|, Swept(t, p, i);
    var k := |Stay(t[p][..i], 2 * n, p)|;
    var v: Table<V>, w: Table<V> := Swept(t, p, i + 1), Move(u, p, k, p + n);
    forall q | 0 <= q < 2 * n
      ensures v[q] == w[q]
    {
      assert u[q] == SweptBucket(t, p, i, q);
    }
  }

  /** Bucket q of the doubled table after the whole sweep. */
  function RehashedBucket<V>(t: Table<V>, q: nat): seq<Item<V>>
    requires q < 2 * |t|
  {
    var n := |t|;
    if q < n then Stay(t[q], 2 * n, q) else Leave(t[q - n], 2 * n, q - n)
  }

  function Rehashed<V>(t: Table<V>): (u: Table<V>)
    ensures |u| == 2 * |t|
    ensures forall q {:trigger u[q]} :: 0 <= q < 2 * |t| ==> u[q] == RehashedBucket(t, q)
  {
    seq(2 * |t|, q requires 0 <= q < 2 * |t| => RehashedBucket(t, q))
  }

  /** The table when the sweep reaches bucket p. */
  function Reached<V>(t: Table<V>, p: nat): (u: Table<V>)
    requires p <= |t|
    ensures |u| == 2 * |t|
  {
    if p < |t| then Swept(t, p, 0) else Rehashed(t)
  }

  lemma ReachedNext<V>(t: Table<V>, p: nat)
    requires p < |t|
    ensures Reached(t, p) == Swept(t, p, 0)
    ensures Reached(t, p + 1) == Swept(t, p, |t[p]|)
  {
    if p + 1 < |t| {
      SweptNext(t, p);
    } else {
      SweptEnd(t);
    }
  }

  lemma WholeChain<T>(c: seq<T>)
    ensures c[..|c|] == c && c[|c|..] == [] && c + [] == c
  {
  }

  lemma SweptBucketEnd<V>(t: Table<V>, q: nat)
    requires |t| > 0 && q < 2 * |t|
    ensures SweptBucket(t, |t| - 1, |t[|t| - 1]|, q) == RehashedBucket(t, q)
  {
    hide Stay, Leave, Position;
    WholeChain(t[|t| - 1]);
    if q < |t| {
      WholeChain(Stay(t[q], 2 * |t|, q));
    }
  }

  lemma SweptEnd<V>(t: Table<V>)
    requires |t| > 0
    ensures Swept(t, |t| - 1, |t[|t| - 1]|) == Rehashed(t)
  {
    hide SweptBucket, RehashedBucket, Rehashed, Swept;
    forall q | 0 <= q < 2 * |t|
      ensures Swept(t, |t| - 1, |t[|t| - 1]|)[q] == Rehashed(t)[q]
    {
      SweptBucketEnd(t, q);
    }
  }

  lemma {:induction false} StayHas<V>(c: seq<Item<V>>, capacity: nat, p: nat, i: nat) returns (a: nat)
    requires capacity > 0 && i < |c| && Position(capacity, c[i].hash) == p
    ensures a < |Stay(c, capacity, p)| && Stay(c, capacity, p)[a] == c[i]
    decreases |c|
  {
    hide Position;
    var n := |c| - 1;
    if i == n {
      a := |Stay(c[..n], capacity, p)|;
    } else {
      a := StayHas(c[..n], capacity, p, i);
    }
  }

  lemma {:induction false} LeaveHas<V>(c: seq<Item<V>>, capacity: nat, p: nat, i: nat) returns (a: nat)
    requires capacity > 0 && i < |c| && Position(capacity, c[i].hash) != p
    ensures a < |Leave(c, capacity, p)| && Leave(c, capacity, p)[a] == c[i]
    decreases |c|
  {
    hide Position;
    var n := |c| - 1;
    if i == n {
      a := 0;
    } else {
      a := LeaveHas(c[..n], capacity, p, i);
      a := if Position(capacity, c[n].hash) == p then a else a + 1;
    }
  }

  /** m comes before n in a chain. */
  ghost predicate Before<V>(c: seq<Item<V>>, m: Item<V>, n: Item<V>) {
    exists a, b :: 0 <= a < b < |c| && c[a] == m && c[b] == n
  }

  lemma {:induction false} StayOrder<V>(c: seq<Item<V>>, capacity: nat, p: nat, i: nat, j: nat)
    requires capacity > 0 && i < j < |c|
    requires Position(capacity, c[i].hash) == p && Position(capacity, c[j].hash) == p
    ensures Before(Stay(c, capacity, p), c[i], c[j])
    decreases |c|
  {
    hide Position;
    var n := |c| - 1;
    if j == n {
      var a := StayHas(c[..n], capacity, p, i);
      assert Stay(c, capacity, p)[a] == c[i] && Stay(c, capacity, p)[|Stay(c[..n], capacity, p)|] == c[j];
    } else {
      StayOrder(c[..n], capacity, p, i, j);
      var s := Stay(c[..n], capacity, p);
      var a, b :| 0 <= a < b < |s| && s[a] == c[i] && s[b] == c[j];
      assert Stay(c, capacity, p)[a] == c[i] && Stay(c, capacity, p)[b] == c[j];
    }
  }

  lemma {:induction false} LeaveOrder<V>(c: seq<Item<V>>, capacity: nat, p: nat, i: nat, j: nat)
    requires capacity > 0 && i < j < |c|
    requires Position(capacity, c[i].hash) != p && Position(capacity, c[j].hash) != p
    ensures Before(Leave(c, capacity, p), c[j], c[i])
    decreases |c|
  {
    hide Position;
    var n := |c| - 1;
    if j == n {
      var a := LeaveHas(c[..n], capacity, p, i);
      assert Leave(c, capacity, p)[0] == c[j] && Leave(c, capacity, p)[a + 1] == c[i];
    } else {
      LeaveOrder(c[..n], capacity, p, i, j);
      var s := Leave(c[..n], capacity, p);
      var a, b :| 0 <= a < b < |s| && s[a] == c[j] && s[b] == c[i];
      var k := if Position(capacity, c[n].hash) == p then 0 else 1;
      assert Leave(c, capacity, p)[a + k] == c[j] && Leave(c, capacity, p)[b + k] == c[i];
    }
  }

  /** Of two items of a bucket, both keep their order if they stay in it, and change it if both leave. */
  lemma RehashedOrder<V>(t: Table<V>, p: nat, i: nat, j: nat)
    requires IsCapacity(|t|) && p < |t| && i < j < |t[p]|
    ensures var m, n := t[p][i], t[p][j];
      && (m.hash % (2 * |t|) == p && n.hash % (2 * |t|) == p ==> Before(Rehashed(t)[p], m, n))
      && (m.hash % (2 * |t|) != p && n.hash % (2 * |t|) != p ==> Before(Rehashed(t)[|t| + p], n, m))
  {
    hide Position, IsCapacity, Stay, Leave, Before;
    DoubleCapacity(|t|);
    PositionIsMod(2 * |t|, t[p][i].hash);
    PositionIsMod(2 * |t|, t[p][j].hash);
    var first := Position(2 * |t|, t[p][i].hash) == p;
    var second := Position(2 * |t|, t[p][j].hash) == p;
    if first && second {
      StayOrder(t[p], 2 * |t|, p, i, j);
    } else if !first && !second {
      LeaveOrder(t[p], 2 * |t|, p, i, j);
    }
  }

  /** After the sweep every item is in its new bucket: the old one, or the old one plus the old capacity. */
  lemma SweptPlaced<V>(t: Table<V>, hash: string -> nat)
    requires |t| > 0 && IsCapacity(|t|) && Placed(t, hash)
    ensures Placed(Rehashed(t), hash)
  {
    var n := |t|;
    var u: Table<V> := Rehashed(t);
    forall q, i | 0 <= q < 2 * n && 0 <= i < |u[q]|
      ensures u[q][i].hash == hash(u[q][i].key) && Position(2 * n, u[q][i].hash) == q
    {
      var j;
      if q < n {
        j := StayFrom(t[q], 2 * n, q, i);
        DoubledPosition(n, t[q][j].hash);
      } else {
        j := LeaveFrom(t[q - n], 2 * n, q - n, i);
        DoubledPosition(n, t[q - n][j].hash);
      }
    }
  }

  // ---------------------------------------------------------------------------
  // Inserting and deleting
  // ---------------------------------------------------------------------------

  lemma AppendUnique<V>(t: Table<V>, p: nat, n: Item<V>)
    requires p < |t| && UniqueKeys(t) && !Holds(t, n.key)
    ensures UniqueKeys(t[p := t[p] + [n]])
  {
    var u: Table<V> := t[p := t[p] + [n]];
    forall a, i, b, j | 0 <= a < |u| && 0 <= i < |u[a]| && 0 <= b < |u| && 0 <= j < |u[b]| && u[a][i].key == u[b][j].key
      ensures a == b && i == j
    {
      assert i < |t[a]| ==> u[a][i] == t[a][i];
      assert j < |t[b]| ==> u[b][j] == t[b][j];
    }
  }

  lemma WithoutUnique<V>(t: Table<V>, p: nat, k: nat)
    requires p < |t| && k < |t[p]| && UniqueKeys(t)
    ensures UniqueKeys(t[p := Without(t[p], k)])
    ensures !Holds(t[p := Without(t[p], k)], t[p][k].key)
  {
    var u: Table<V> := t[p := Without(t[p], k)];
    forall a, i | 0 <= a < |u| && 0 <= i < |u[a]|
      ensures u[a][i] == t[a][if a == p && i >= k then i + 1 else i]
    {
    }
  }

  /** Two stored items with the same key are the same item. */
  lemma SameKeySameItem<V>(t: Table<V>, m: Item<V>, n: Item<V>)
    requires UniqueKeys(t) && Stored(t, m) && Stored(t, n) && m.key == n.key
    ensures m == n
  {
    var p, i :| 0 <= p < |t| && 0 <= i < |t[p]| && t[p][i] == m;
    var q, j :| 0 <= q < |t| && 0 <= j < |t[q]| && t[q][j] == n;
  }

  lemma AppendStored<V>(t: Table<V>, p: nat, n: Item<V>, m: Item<V>)
    requires p < |t| && (Stored(t, m) || m == n)
    ensures Stored(t[p := t[p] + [n]], m)
  {
    var u: Table<V> := t[p := t[p] + [n]];
    if Stored(t, m) {
      var q, i :| 0 <= q < |t| && 0 <= i < |t[q]| && t[q][i] == m;
      assert u[q][i] == m;
    } else {
      assert u[p][|t[p]|] == n;
    }
  }

  lemma AppendPlaced<V>(t: Table<V>, hash: string -> nat, p: nat, n: Item<V>)
    requires p < |t| && Placed(t, hash) && n.hash == hash(n.key) && Position(|t|, n.hash) == p
    ensures Placed(t[p := t[p] + [n]], hash)
  {
    var u: Table<V> := t[p := t[p] + [n]];
    forall q, i | 0 <= q < |u| && 0 <= i < |u[q]|
      ensures u[q][i].hash == hash(u[q][i].key) && Position(|t|, u[q][i].hash) == q
    {
      assert i < |t[q]| ==> u[q][i] == t[q][i];
    }
  }

  lemma WithoutStored<V>(t: Table<V>, p: nat, k: nat, m: Item<V>)
    requires p < |t| && k < |t[p]| && Stored(t, m) && m != t[p][k]
    ensures Stored(t[p := Without(t[p], k)], m)
  {
    var u: Table<V> := t[p := Without(t[p], k)];
    var q, i :| 0 <= q < |t| && 0 <= i < |t[q]| && t[q][i] == m;
    assert u[q][if q == p && i > k then i - 1 else i] == m;
  }

  lemma WithoutPlaced<V>(t: Table<V>, hash: string -> nat, p: nat, k: nat)
    requires p < |t| && k < |t[p]| && Placed(t, hash)
    ensures Placed(t[p := Without(t[p], k)], hash)
  {
  }
}
