/** src/hashmap.c: the chained hash map with its links, rehashed in place. */
module HashMaps {
  import opened Basics
  import opened Chains
  import opened Positions

  const BASE_SIZE: nat := 32

  /** Following next from `first` visits exactly c and ends in null. */
  ghost predicate Threaded<V>(first: Item?<V>, c: seq<Item<V>>)
    reads c`next
  {
    && first == (if c == [] then null else c[0])
    && (forall i {:trigger c[i].next} :: 0 <= i < |c| ==> c[i].next == (if i + 1 < |c| then c[i + 1] else null))
  }

  class HashMap<V(==)> {
    /** hash_fn; nothing is assumed about it. */
    const hash: string -> nat
    var pool: array<Item?<V>>
    var capacity: nat
    var count: nat

    /** The items of every bucket, in chain order. */
    ghost var table: Table<V>
    ghost var items: set<Item<V>>
    /** The mapping the table stands for. */
    ghost var model: map<string, V>

    ghost predicate Owns(t: Table<V>)
      reads `items
    {
      forall p, i {:trigger t[p][i]} :: 0 <= p < |t| && 0 <= i < |t[p]| ==> t[p][i] in items
    }

    ghost predicate Keeps(t: Table<V>)
      reads `model
    {
      forall k {:trigger k in model} :: k in model ==> Holds(t, k)
    }

    /** The links: every chain is threaded through its own items. */
    ghost predicate Linked()
      reads `pool, `capacity, `table, `items, pool, items`next
    {
      && pool.Length == |table| == capacity
      && Owns(table)
      && (forall p {:trigger pool[p]} {:trigger table[p]} :: 0 <= p < |table| ==> Threaded(pool[p], table[p]))
    }

    /** Every item carries its key's value in the model. */
    ghost predicate Bindings()
      reads `items, `model, items`val
    {
      forall n {:trigger n in items} :: n in items ==> n.key in model && n.val == model[n.key]
    }

    /** The table holds exactly the items, and they cover the keys of the model. */
    ghost predicate Covers()
      reads `items, `model, `table
    {
      && (forall n {:trigger n in items} :: n in items ==> Stored(table, n))
      && Keeps(table)
    }

    /** Everything but the bound on the density. */
    ghost predicate Core()
      reads this, pool, items
    {
      && IsCapacity(capacity) && capacity > 0
      && Linked() && UniqueKeys(table) && Placed(table, hash) && Bindings() && Covers()
      && count == |model| == Total(table)
    }

    /** At most one item more than the density factor 0.8 allows. */
    ghost predicate Valid()
      reads this, pool, items
    {
      Core() && Sparse()
    }

    ghost predicate Sparse()
      reads `count, `capacity
    {
      5 * count <= 4 * capacity + 5
    }

    /** hash_map_init */
    constructor (hash: string -> nat)
      ensures Valid() && fresh(pool) && this.hash == hash
      ensures model == map[] && items == {} && capacity == 32
    {
      this.hash := hash;
      pool := new Item?<V>[BASE_SIZE](_ => null);
      capacity := BASE_SIZE;
      count := 0;
      table := seq(BASE_SIZE, _ => []);
      items := {};
      model := map[];
      new;
      assert BASE_SIZE == 32 * Pow2(0);
      TotalEmpty<V>(BASE_SIZE);
    }

    /** hash_map_count: walk every chain. */
    method CountItems() returns (n: nat)
      requires Linked()
      ensures n == Total(table)
    {
      n := 0;
      var p := 0;
      assert table[..0] == [];
      while p < capacity
        invariant p <= capacity && n == Total(table[..p])
      {
        var item := pool[p];
        ghost var i := 0;
        assert Threaded(pool[p], table[p]);
        while item != null
          invariant i <= |table[p]| && n == Total(table[..p]) + i
          invariant item == if i < |table[p]| then table[p][i] else null
          decreases |table[p]| - i
        {
          n := n + 1;
          item := item.next;
          i := i + 1;
        }
        assert table[..p + 1][..p] == table[..p];
        p := p + 1;
      }
      assert table[..p] == table;
    }

    /** hash_map_lint: the assertion on the count. Nothing is asked but the invariant every operation keeps. */
    method Lint() returns (n: nat)
      requires Core()
      ensures n == count == |model|
    {
      hide *;
      CoreMeans();
      n := CountItems();
      assert n == count;
    }

    /** Unlink the item at k of bucket p: what rehashing and deleting share. */
    method Detach(p: nat, prev: Item?<V>, item: Item<V>, ghost k: nat)
      requires Linked() && UniqueKeys(table)
      requires p < capacity && k < |table[p]| && table[p][k] == item
      requires prev == if k > 0 then table[p][k - 1] else null
      modifies pool, items`next, this`table
      ensures Linked() && table == old(table)[p := Without(old(table[p]), k)]
      ensures item.next == old(item.next)
    {
      hide UniqueKeys;
      ghost var t := table;
      ghost var rest := Without(t[p], k);
      if k > 0 {
        Elsewhere(t, p, k - 1);
      }
      assert Threaded(pool[p], t[p]);
      if prev != null {
        prev.next := item.next;
      } else {
        pool[p] := item.next;
      }
      assert Threaded(pool[p], rest) by {
        forall i | 0 <= i < |rest|
          ensures rest[i].next == (if i + 1 < |rest| then rest[i + 1] else null)
        {
          assert rest[i] == if i < k then t[p][i] else t[p][i + 1];
        }
      }
      forall q | 0 <= q < |t| && q != p
        ensures Threaded(pool[q], t[q])
      {
        assert old(Threaded(pool[q], t[q]));
        assert forall i :: 0 <= i < |t[q]| ==> t[q][i] != prev;
      }
      table := t[p := rest];
    }

    /** Link an item that is not in the table in front of bucket q. */
    method Prepend(q: nat, item: Item<V>)
      requires Linked() && q < capacity && item in items && !Stored(table, item)
      modifies pool, item`next, this`table
      ensures Linked() && table == old(table)[q := [item] + old(table[q])]
    {
      ghost var t := table;
      ghost var longer := [item] + t[q];
      assert Threaded(pool[q], t[q]);
      item.next := pool[q];
      pool[q] := item;
      assert Threaded(pool[q], longer) by {
        forall i | 0 <= i < |longer|
          ensures longer[i].next == (if i + 1 < |longer| then longer[i + 1] else null)
        {
          assert i > 0 ==> longer[i] == t[q][i - 1];
        }
      }
      forall p | 0 <= p < |t| && p != q
        ensures Threaded(pool[p], t[p])
      {
        assert old(Threaded(pool[p], t[p]));
        assert forall i :: 0 <= i < |t[p]| ==> t[p][i] != item;
      }
      table := t[q := longer];
    }

    /** Take the item at k out of bucket `pivot` and put it in front of bucket `target`. */
    method Relink(pivot: nat, target: nat, prev: Item?<V>, item: Item<V>, ghost k: nat) returns (temp: Item?<V>)
      requires Linked() && UniqueKeys(table)
      requires pivot < capacity && target < capacity && pivot != target
      requires k < |table[pivot]| && table[pivot][k] == item
      requires prev == if k > 0 then table[pivot][k - 1] else null
      modifies pool, items`next, this`table
      ensures Linked() && table == Move(old(table), pivot, k, target)
      ensures temp == if k < |table[pivot]| then table[pivot][k] else null
    {
      assert Threaded(pool[pivot], table[pivot]);
      ghost var t := table;
      Detach(pivot, prev, item, k);
      temp := item.next;
      assert !Stored(table, item);
      Prepend(target, item);
    }

    /** safe_realloc_zero on the pool: twice as long, the new half empty. */
    method Enlarged() returns (grown: array<Item?<V>>)
      requires pool.Length == capacity
      ensures fresh(grown) && grown.Length == 2 * capacity
      ensures forall p :: 0 <= p < 2 * capacity ==> grown[p] == if p < capacity then pool[p] else null
    {
      grown := new Item?<V>[2 * capacity](_ => null);
      forall i | 0 <= i < capacity {
        grown[i] := pool[i];
      }
    }

    method Grow()
      requires Linked() && capacity > 0
      modifies this`pool, this`capacity, this`table
      ensures Linked() && fresh(pool)
      ensures capacity == 2 * old(capacity) && table == Padded(old(table))
    {
      hide Padded;
      ghost var before, t := pool, table;
      pool := Enlarged();
      capacity := 2 * capacity;
      table := Padded(t);
      forall p | 0 <= p < |table|
        ensures Threaded(pool[p], table[p])
      {
        if p < |t| {
          assert old(Threaded(before[p], t[p]));
        }
      }
    }

    /** What rehashing keeps while the sweep is under way. */
    ghost predicate Sweeping()
      reads this, pool, items
    {
      && Linked() && UniqueKeys(table) && count == Total(table)
      && (forall n {:trigger n in items} :: n in items ==> Stored(table, n))
    }

    /** Where the sweep stands in a bucket: prev is the item kept last, and item the next one to look at. */
    ghost predicate SweepAt(t: Table<V>, pivot: nat, i: nat, prev: Item?<V>, item: Item?<V>)
      requires pivot < |t| && i <= |t[pivot]|
      reads `table
    {
      && table == Swept(t, pivot, i)
      && (var k := |Stay(t[pivot][..i], 2 * |t|, pivot)|;
          k <= |table[pivot]| && prev == (if k > 0 then table[pivot][k - 1] else null))
      && item == if i < |t[pivot]| then t[pivot][i] else null
    }

    /** The body of the sweep for one item: keep it, or move it to its new bucket. */
    method SweepItem(ghost t: Table<V>, pivot: nat, prev: Item?<V>, item: Item<V>, ghost i: nat)
        returns (prev': Item?<V>, item': Item?<V>)
      requires Sweeping() && IsCapacity(|t|) && capacity == 2 * |t| && pivot < |t| && i < |t[pivot]|
      requires Position(|t|, item.hash) == pivot && SweepAt(t, pivot, i, prev, item)
      modifies pool, items`next, this`table
      ensures Sweeping() && SweepAt(t, pivot, i + 1, prev', item')
    {
      hide *;
      SweptCurrent(t, pivot, i);
      SweepAtMeans(t, pivot, i, prev, item);
      SweepingMeans();
      DoubledPosition(|t|, item.hash);
      var target := Position(capacity, item.hash);
      if pivot != target {
        item' := MoveItem(pivot, target, prev, item, |Stay(t[pivot][..i], 2 * |t|, pivot)|);
        prev' := prev;
        SweptMoves(t, pivot, i);
        SweepMoved(t, pivot, i, prev, item');
      } else {
        NextItem(pivot, |Stay(t[pivot][..i], 2 * |t|, pivot)|);
        prev' := item;
        item' := item.next;
        SweptStays(t, pivot, i);
        SweepStayed(t, pivot, i, item, item');
      }
    }

    lemma SweepAtMeans(t: Table<V>, pivot: nat, i: nat, prev: Item?<V>, item: Item?<V>)
      requires pivot < |t| && i < |t[pivot]| && SweepAt(t, pivot, i, prev, item)
      ensures table == Swept(t, pivot, i) && item == t[pivot][i]
      ensures var k := |Stay(t[pivot][..i], 2 * |t|, pivot)|;
        k <= |table[pivot]| && prev == if k > 0 then table[pivot][k - 1] else null
    {
    }

    lemma SweepMoved(t: Table<V>, pivot: nat, i: nat, prev: Item?<V>, item': Item?<V>)
      requires pivot < |t| && i < |t[pivot]| && table == Swept(t, pivot, i + 1)
      requires Position(2 * |t|, t[pivot][i].hash) != pivot
      requires var k := |Stay(t[pivot][..i], 2 * |t|, pivot)|;
        && k <= |table[pivot]| && prev == (if k > 0 then table[pivot][k - 1] else null)
        && item' == if k < |table[pivot]| then table[pivot][k] else null
      ensures SweepAt(t, pivot, i + 1, prev, item')
    {
      hide Position;
      StayLeaveStep(t[pivot], i, 2 * |t|, pivot);
      SweptNextItem(t, pivot, i + 1);
    }

    lemma SweepStayed(t: Table<V>, pivot: nat, i: nat, item: Item<V>, item': Item?<V>)
      requires pivot < |t| && i < |t[pivot]| && table == Swept(t, pivot, i + 1)
      requires Position(2 * |t|, t[pivot][i].hash) == pivot
      requires var k := |Stay(t[pivot][..i], 2 * |t|, pivot)|;
        && k < |table[pivot]| && table[pivot][k] == item
        && item' == if k + 1 < |table[pivot]| then table[pivot][k + 1] else null
      ensures SweepAt(t, pivot, i + 1, item, item')
    {
      hide Position;
      StayLeaveStep(t[pivot], i, 2 * |t|, pivot);
      SweptNextItem(t, pivot, i + 1);
    }

    /** Move the item at k of one bucket to the front of another. */
    method MoveItem(pivot: nat, target: nat, prev: Item?<V>, item: Item<V>, ghost k: nat) returns (temp: Item?<V>)
      requires Sweeping() && pivot < |table| && target < |table| && pivot != target
      requires k < |table[pivot]| && table[pivot][k] == item
      requires prev == if k > 0 then table[pivot][k - 1] else null
      modifies pool, items`next, this`table
      ensures Sweeping() && table == Move(old(table), pivot, k, target)
      ensures prev == if k > 0 then table[pivot][k - 1] else null
      ensures k <= |table[pivot]| && temp == if k < |table[pivot]| then table[pivot][k] else null
    {
      hide Move, UniqueKeys, Total, Stored, Threaded;
      ghost var u := table;
      MoveUnique(u, pivot, k, target);
      MoveTotal(u, pivot, k, target);
      MovePivot(u, pivot, k, target);
      forall n | n in items
        ensures Stored(Move(u, pivot, k, target), n)
      {
        MoveStored(u, pivot, k, target, n);
      }
      temp := Relink(pivot, target, prev, item, k);
    }

    method StartSweep()
      requires Linked() && UniqueKeys(table) && capacity > 0 && count == Total(table) && Covers()
      modifies this`pool, this`capacity, this`table
      ensures fresh(pool) && capacity == 2 * old(capacity)
      ensures Sweeping() && table == Reached(old(table), 0)
    {
      ghost var t := table;
      hide Padded, Reached, Total, UniqueKeys;
      SweptStart(t);
      PaddedKeeps(t);
      forall n | n in items
        ensures Stored(Padded(t), n)
      {
        PaddedStored(t, n);
      }
      Grow();
    }

    /** The outer loop of the sweep. */
    method SweepAll(ghost t: Table<V>, oldCapacity: nat)
      requires Sweeping() && IsCapacity(|t|) && oldCapacity == |t| > 0 && capacity == 2 * |t| && Placed(t, hash)
      requires table == Reached(t, 0)
      modifies pool, items`next, this`table
      ensures Sweeping() && table == Reached(t, |t|)
    {
      hide *;
      var pivot := 0;
      while pivot < oldCapacity
        invariant pivot <= oldCapacity && Sweeping() && table == Reached(t, pivot)
      {
        ReachedNext(t, pivot);
        SweepBucket(t, pivot);
        pivot := pivot + 1;
      }
    }

    /** hash_map_rehash: double the pool, sweep the old buckets once, and lint. */
    method Rehash()
      requires Core()
      modifies this`pool, this`capacity, this`table, items`next
      ensures Core() && fresh(pool) && capacity == 2 * old(capacity)
      ensures table == Rehashed(old(table))
    {
      hide *;
      CoreMeans();
      ghost var t := table;
      var oldCapacity := capacity;
      DoubleCapacity(oldCapacity);
      LinkedMeans();
      StartSweep();
      SweepAll(t, oldCapacity);
      SweptPlaced(t, hash);
      Recovers(t);
      SweepingMeans();
      LinkedMeans();
      CoreFrom();
      var n := Lint();
    }

    lemma LinkedMeans()
      requires Linked() && Covers()
      ensures capacity == |table| && Owns(table) && Keeps(table)
    {
    }

    lemma SweepingMeans()
      requires Sweeping()
      ensures Linked() && UniqueKeys(table) && count == Total(table)
    {
    }

    /** The sweep neither drops nor invents items. */
    lemma Recovers(t: Table<V>)
      requires |t| > 0 && Reached(t, |t|) == table && Sweeping()
      requires Owns(t) && Keeps(t)
      ensures table == Rehashed(t) && Covers()
    {
      forall k | k in model
        ensures Holds(table, k)
      {
        var n := HeldIsStored(t, k);
        StoredHolds(table, n);
      }
    }

    /** The inner loop of the sweep. */
    method SweepBucket(ghost t: Table<V>, pivot: nat)
      requires Sweeping() && IsCapacity(|t|) && capacity == 2 * |t| && pivot < |t| && Placed(t, hash)
      requires table == Swept(t, pivot, 0)
      modifies pool, items`next, this`table
      ensures Sweeping() && table == Swept(t, pivot, |t[pivot]|)
    {
      hide *;
      var prev: Item?<V> := null;
      SweepingMeans();
      FirstItem(pivot);
      var item := pool[pivot];
      ghost var i := 0;
      SweepStarts(t, pivot, item);
      while item != null
        invariant i <= |t[pivot]| && Sweeping() && SweepAt(t, pivot, i, prev, item)
        invariant item == if i < |t[pivot]| then t[pivot][i] else null
        decreases |t[pivot]| - i
      {
        PlacedAt(t, hash, pivot, i);
        prev, item := SweepItem(t, pivot, prev, item, i);
        i := i + 1;
        SweepLooksAt(t, pivot, i, prev, item);
      }
      SweepLooksAt(t, pivot, i, prev, item);
    }

    lemma SweepStarts(t: Table<V>, pivot: nat, item: Item?<V>)
      requires pivot < |t| && table == Swept(t, pivot, 0)
      requires item == if table[pivot] == [] then null else table[pivot][0]
      ensures SweepAt(t, pivot, 0, null, item)
      ensures item == if t[pivot] == [] then null else t[pivot][0]
    {
      SweptNextItem(t, pivot, 0);
      StayNothing(t[pivot], 2 * |t|, pivot);
    }

    lemma SweepLooksAt(t: Table<V>, pivot: nat, i: nat, prev: Item?<V>, item: Item?<V>)
      requires pivot < |t| && i <= |t[pivot]| && SweepAt(t, pivot, i, prev, item)
      ensures table == Swept(t, pivot, i)
      ensures item == if i < |t[pivot]| then t[pivot][i] else null
    {
    }

    /** Where a chain starts. */
    lemma FirstItem(p: nat)
      requires Linked() && p < capacity
      ensures pool.Length == capacity == |table|
      ensures pool[p] == if table[p] == [] then null else table[p][0]
    {
      assert Threaded(pool[p], table[p]);
    }

    /** Where next leads. */
    lemma NextItem(p: nat, i: nat)
      requires Linked() && p < |table| && i < |table[p]|
      ensures table[p][i].next == if i + 1 < |table[p]| then table[p][i + 1] else null
    {
      assert Threaded(pool[p], table[p]);
    }

    /** Search a chain for a key; what insert, get and delete share. */
    method Search(pos: nat, h: nat, key: string) returns (prev: Item?<V>, item: Item?<V>, ghost i: nat)
      requires Linked() && pos < capacity
      ensures i == Find(table[pos], h, key)
      ensures item == if i < |table[pos]| then table[pos][i] else null
      ensures prev == if i > 0 then table[pos][i - 1] else null
    {
      item := pool[pos];
      prev := null;
      i := 0;
      assert Threaded(pool[pos], table[pos]);
      while item != null && !(item.hash == h && item.key == key)
        invariant i <= |table[pos]|
        invariant item == if i < |table[pos]| then table[pos][i] else null
        invariant prev == if i > 0 then table[pos][i - 1] else null
        invariant forall j :: 0 <= j < i ==> !(table[pos][j].hash == h && table[pos][j].key == key)
        decreases |table[pos]| - i
      {
        prev := item;
        item := item.next;
        i := i + 1;
      }
      FindFirst(table[pos], h, key, i);
    }

    /** A key is bound exactly when its chain holds it. */
    lemma KeyDecides(key: string, pos: nat)
      requires Core() && pos == Position(capacity, hash(key))
      ensures pos < capacity == |table|
      ensures key in model <==> Find(table[pos], hash(key), key) < |table[pos]|
      ensures var i := Find(table[pos], hash(key), key);
        i < |table[pos]| ==> table[pos][i] in items && table[pos][i].key == key && Stored(table, table[pos][i])
    {
      FindDecides(table, hash, key, pos);
      if Holds(table, key) {
        var n := HeldIsStored(table, key);
        var p, i :| 0 <= p < |table| && 0 <= i < |table[p]| && table[p][i] == n;
        assert n in items;
      }
    }

    lemma CoreMeans()
      requires Core()
      ensures IsCapacity(capacity) && capacity > 0 && |table| == capacity
      ensures Linked() && UniqueKeys(table) && Placed(table, hash) && Bindings() && Covers()
      ensures count == |model| == Total(table)
    {
      hide Total, UniqueKeys, Placed, Bindings, Covers, IsCapacity, Threaded;
    }

    /** The item that holds a key is the only one that does. */
    lemma OnlyItem(item: Item<V>)
      requires UniqueKeys(table) && Covers() && item in items
      ensures forall n {:trigger n in items} :: n in items && n.key == item.key ==> n == item
    {
      forall n | n in items && n.key == item.key
        ensures n == item
      {
        SameKeySameItem(table, n, item);
      }
    }

    /** Overwrite the value of the item that holds the key. */
    method Overwrite(item: Item<V>, val: V)
      requires Core() && item in items
      modifies item`val, this`model
      ensures Core() && model == old(model)[item.key := val]
    {
      hide *;
      CoreMeans();
      OnlyItem(item);
      SetValue(item, val);
      CoreFrom();
    }

    lemma CoreFrom()
      requires IsCapacity(capacity) && capacity > 0 && |table| == capacity
      requires Linked() && UniqueKeys(table) && Placed(table, hash) && Bindings() && Covers()
      requires count == |model| == Total(table)
      ensures Core()
    {
    }

    method SetValue(item: Item<V>, val: V)
      requires item in items && Bindings() && Covers()
      requires forall n {:trigger n in items} :: n in items && n.key == item.key ==> n == item
      modifies item`val, this`model
      ensures Bindings() && Covers() && |model| == old(|model|) && model == old(model)[item.key := val]
    {
      hide Stored, Holds;
      item.val := val;
      model := model[item.key := val];
      assert model.Keys == old(model.Keys);
      CardinalityOfKeys(model, old(model));
    }

    /** Link a new item behind the last one of bucket p. */
    method AppendItem(p: nat, prev: Item?<V>, item: Item<V>)
      requires Linked() && UniqueKeys(table) && p < capacity && item in items && !Stored(table, item)
          && item.next == null
      requires prev == if table[p] == [] then null else table[p][|table[p]| - 1]
      modifies pool, items`next, this`table
      ensures Linked() && table == old(table)[p := old(table[p]) + [item]]
    {
      hide UniqueKeys;
      ghost var t := table;
      ghost var longer := t[p] + [item];
      if t[p] != [] {
        Elsewhere(t, p, |t[p]| - 1);
      }
      assert Threaded(pool[p], t[p]);
      if prev != null {
        prev.next := item;
      } else {
        pool[p] := item;
      }
      assert Threaded(pool[p], longer) by {
        forall i | 0 <= i < |longer|
          ensures longer[i].next == (if i + 1 < |longer| then longer[i + 1] else null)
        {
          assert i < |t[p]| ==> longer[i] == t[p][i];
        }
      }
      forall q | 0 <= q < |t| && q != p
        ensures Threaded(pool[q], t[q])
      {
        assert old(Threaded(pool[q], t[q]));
        assert forall i :: 0 <= i < |t[q]| ==> t[q][i] != prev;
      }
      table := t[p := longer];
    }

    /** hash_map_get */
    method Get(key: string) returns (r: Option<V>)
      requires Valid()
      ensures r == if key in model then Some(model[key]) else None
    {
      var h := hash(key);
      var pos := Position(capacity, h);
      FindDecides(table, hash, key, pos);
      var prev, item, i := Search(pos, h, key);
      if item != null {
        assert table[pos][i] in items;
        return Some(item.val);
      }
      return None;
    }

    /** Give a new item its place in the model before it is linked. */
    ghost method Register(item: Item<V>)
      requires Linked() && Bindings() && Covers() && |table| > 0
      requires item !in items && item.key !in model
      modifies this`items, this`model
      ensures items == old(items) + {item} && model == old(model)[item.key := item.val]
      ensures Linked() && Bindings() && |model| == old(|model|) + 1
      ensures !Stored(table, item) && !Holds(table, item.key) && Awaits(table, item)
    {
      hide Threaded;
      forall p, i | 0 <= p < |table| && 0 <= i < |table[p]|
        ensures table[p][i].key != item.key
      {
        assert table[p][i] in items;
      }
      items := items + {item};
      model := model[item.key := item.val];
    }

    /** Covers, but for the item about to be linked. */
    ghost predicate Awaits(t: Table<V>, item: Item<V>)
      reads `items, `model
    {
      && (forall n {:trigger n in items} :: n in items ==> n == item || Stored(t, n))
      && (forall k {:trigger k in model} :: k in model ==> k == item.key || Holds(t, k))
    }

    lemma Arrives(t: Table<V>, p: nat, item: Item<V>)
      requires Awaits(t, item) && 0 < |t| && p < |t| && table == t[p := t[p] + [item]]
      requires UniqueKeys(t) && Placed(t, hash) && !Holds(t, item.key)
      requires item.hash == hash(item.key) && p == Position(|t|, item.hash)
      ensures Covers() && UniqueKeys(table) && Placed(table, hash) && Total(table) == Total(t) + 1
    {
      hide Total, UniqueKeys, Placed, Stored, Holds;
      AppendUnique(t, p, item);
      AppendPlaced(t, hash, p, item);
      TotalUpdate(t, p, t[p] + [item]);
      forall n | n in items
        ensures Stored(table, n)
      {
        AppendStored(t, p, item, n);
      }
      forall k | k in model
        ensures Holds(table, k)
      {
        var n := item;
        if k != item.key {
          n := HeldIsStored(t, k);
        }
        AppendStored(t, p, item, n);
        StoredHolds(table, n);
      }
    }

    /** Add an item for a new key behind the last one of its bucket. */
    method AddItem(p: nat, prev: Item?<V>, key: string, val: V) returns (ghost added: Item<V>)
      requires Core() && key !in model && p == Position(capacity, hash(key)) && p < |table|
      requires prev == if table[p] == [] then null else table[p][|table[p]| - 1]
      modifies pool, items`next, this`table, this`items, this`model, this`count
      ensures Core() && model == old(model)[key := val] && count == old(count) + 1
      ensures fresh(added) && items == old(items) + {added} && table == old(table)[p := old(table[p]) + [added]]
    {
      hide *;
      CoreMeans();
      ghost var t := table;
      var item := new Item(hash(key), key, val);
      added := item;
      Register(item);
      AppendItem(p, prev, item);
      Arrives(t, p, item);
      count := count + 1;
      CoreFrom();
    }

    /** The table in which insert looks for its key. */
    ghost function Roomy(): (t: Table<V>)
      reads `table, `count, `capacity
    {
      if 5 * count > 4 * capacity then Rehashed(table) else table
    }

    lemma RoomyMeans()
      ensures Roomy() == if 5 * count > 4 * capacity then Rehashed(table) else table
    {
    }

    lemma IsAppended(t: Table<V>, p: nat, item: Item<V>)
      requires p < |t| && table == t[p := t[p] + [item]]
      ensures Appended(t, table, p, item)
    {
    }

    /** u is t with an item put behind the last one of bucket p. */
    ghost predicate Appended(t: Table<V>, u: Table<V>, p: nat, item: Item<V>) {
      p < |t| && u == t[p := t[p] + [item]]
    }

    /** hash_map_insert; a new item goes behind the last one of its bucket. */
    method Insert(key: string, val: V) returns (h: nat, ghost item: Item?<V>)
      requires Valid()
      modifies this`pool, this`capacity, this`table, this`items, this`model, this`count, pool, items
      ensures Valid() && h == hash(key) && model == old(model)[key := val]
      ensures item == null <==> key in old(model)
      ensures item == null ==> table == old(Roomy()) && items == old(items)
      ensures item != null ==>
                && fresh(item) && items == old(items) + {item}
                && capacity > 0 && Appended(old(Roomy()), table, h % capacity, item)
      ensures capacity == if 5 * old(count) > 4 * old(capacity) then 2 * old(capacity) else old(capacity)
      ensures old(items) <= items && fresh(items - old(items))
      ensures pool == old(pool) || fresh(pool)
    {
      hide *;
      ValidMeans();
      MakeRoom();
      CoreMeans();
      h := hash(key);
      var pos := Position(capacity, h);
      PositionIsMod(capacity, h);
      KeyDecides(key, pos);
      var prev, found, i := Search(pos, h, key);
      if found != null {
        Overwrite(found, val);
        item := null;
      } else {
        ghost var t := table;
        item := AddItem(pos, prev, key, val);
        IsAppended(t, pos, item);
      }
      ValidFrom();
    }

    lemma ValidMeans()
      requires Valid()
      ensures Core() && 5 * count <= 4 * capacity + 5
    {
      hide Core;
    }

    lemma ValidFrom()
      requires Core() && 5 * count <= 4 * capacity + 5
      ensures Valid()
    {
      hide Core;
    }

    /** Rehash when the map is too dense. */
    method MakeRoom()
      requires Core() && 5 * count <= 4 * capacity + 5
      modifies this`pool, this`capacity, this`table, items`next
      ensures Core() && 5 * count <= 4 * capacity && (pool == old(pool) || fresh(pool))
      ensures table == old(Roomy())
      ensures capacity == if 5 * count > 4 * old(capacity) then 2 * old(capacity) else old(capacity)
    {
      hide *;
      CoreMeans();
      RoomyMeans();
      if 5 * count > 4 * capacity {
        CapacityBound(capacity);
        Rehash();
      }
    }

    /** The table without the item at k of bucket p, seen from the chains. */
    lemma Leaves(t: Table<V>, p: nat, k: nat)
      requires 0 < |t| && p < |t| && k < |t[p]| && table == t[p := Without(t[p], k)]
      requires UniqueKeys(t) && Placed(t, hash)
      ensures UniqueKeys(table) && Placed(table, hash) && Total(table) == Total(t) - 1
      ensures !Holds(table, t[p][k].key)
      ensures forall n {:trigger Stored(table, n)} :: n in items && Stored(t, n) && n != t[p][k] ==> Stored(table, n)
    {
      hide UniqueKeys, Placed, Total, Holds, Stored;
      WithoutUnique(t, p, k);
      WithoutPlaced(t, hash, p, k);
      TotalUpdate(t, p, Without(t[p], k));
      forall n | n in items && Stored(t, n) && n != t[p][k]
        ensures Stored(table, n)
      {
        WithoutStored(t, p, k, n);
      }
    }

    /** Forget an item that has been unlinked. */
    ghost method Forget(t: Table<V>, item: Item<V>)
      requires Linked() && Bindings() && item in items && !Holds(table, item.key)
      requires forall n {:trigger Stored(table, n)} :: n in items && n != item ==> Stored(table, n)
      requires forall n {:trigger n in items} :: n in items && n.key == item.key ==> n == item
      requires Owns(t) && Keeps(t)
      modifies this`items, this`model
      ensures items == old(items) - {item} && model == old(model) - {item.key}
      ensures Linked() && Bindings() && Covers() && |model| == old(|model|) - 1
    {
      hide Threaded, Stored, Holds;
      StillOwned(item);
      forall k | k in model && k != item.key
        ensures Holds(table, k)
      {
        var n := HeldIsStored(t, k);
        StoredIsOwned(t, n);
        StoredHolds(table, n);
      }
      CardinalityWithout(model, item.key);
      items := items - {item};
      model := model - {item.key};
    }

    lemma StoredIsOwned(t: Table<V>, n: Item<V>)
      requires Owns(t) && Stored(t, n)
      ensures n in items
    {
    }

    lemma StillOwned(item: Item<V>)
      requires Owns(table) && !Holds(table, item.key)
      ensures forall p, i {:trigger table[p][i]} :: 0 <= p < |table| && 0 <= i < |table[p]| ==>
          table[p][i] in items - {item}
    {
    }

    /** Unlink and forget the item at k of bucket p. */
    method RemoveItem(p: nat, prev: Item?<V>, item: Item<V>, ghost k: nat)
      requires Core() && p < capacity == |table| && k < |table[p]| && table[p][k] == item && item in items
      requires prev == if k > 0 then table[p][k - 1] else null
      modifies pool, items`next, this`table, this`items, this`model, this`count
      ensures Core() && table == old(table)[p := Without(old(table[p]), k)]
      ensures items == old(items) - {item} && model == old(model) - {item.key} && count == old(count) - 1
    {
      hide *;
      CoreMeans();
      LinkedMeans();
      CoversMeans();
      OnlyItem(item);
      ghost var t := table;
      Detach(p, prev, item, k);
      Leaves(t, p, k);
      Forget(t, item);
      count := count - 1;
      LinkedMeans();
      CoreFrom();
    }

    lemma CoversMeans()
      requires Covers()
      ensures forall n {:trigger n in items} :: n in items ==> Stored(table, n)
    {
    }

    /** hash_map_delete */
    method Delete(key: string) returns (r: Option<V>, ghost p: nat, ghost k: nat)
      requires Valid()
      modifies pool, items`next, this`table, this`items, this`model, this`count
      ensures Valid() && model == old(model) - {key}
      ensures r == if key in old(model) then Some(old(model)[key]) else None
      ensures if key !in old(model) then table == old(table) && items == old(items) else
              p < |old(table)| && k < |old(table)[p]|
              && old(table)[p][k].key == key && table == old(table)[p := Without(old(table)[p], k)]
              && items == old(items) - {old(table)[p][k]}
    {
      hide *;
      ValidMeans();
      CoreMeans();
      var h := hash(key);
      var pos := Position(capacity, h);
      KeyDecides(key, pos);
      var prev, item, i := Search(pos, h, key);
      p, k := pos, i;
      if item != null {
        BindingsMean(item);
        r := Some(item.val);
        RemoveItem(pos, prev, item, k);
        ValidFrom();
      } else {
        r := None;
      }
    }

    /** What a place in the table stands for. */
    lemma EntryMeans(p: nat, k: nat)
      requires Valid() && p < |table| && k < |table[p]|
      ensures table[p][k] in items && table[p][k].key in model && table[p][k].val == model[table[p][k].key]
      ensures UniqueKeys(table) && Linked()
    {
    }

    lemma BindingsMean(item: Item<V>)
      requires Bindings() && item in items
      ensures item.key in model && item.val == model[item.key]
    {
    }
  }

  lemma CardinalityWithout<V>(m: map<string, V>, key: string)
    requires key in m
    ensures |m - {key}| == |m| - 1
  {
    var n := m - {key};
    assert n.Keys == m.Keys - {key};
    assert |n| == |n.Keys| && |m| == |m.Keys|;
  }

  lemma CardinalityOfKeys<V>(m: map<string, V>, n: map<string, V>)
    requires m.Keys == n.Keys
    ensures |m| == |n|
  {
    assert |m| == |m.Keys| && |n| == |n.Keys|;
  }

  lemma SweptNextItem<V>(t: Table<V>, p: nat, i: nat)
    requires p < |t| && i <= |t[p]|
    ensures var u, k := Swept(t, p, i)[p], |Stay(t[p][..i], 2 * |t|, p)|;
      |u| == k + |t[p]| - i && (i < |t[p]| ==> u[k] == t[p][i])
  {
  }

  lemma {:induction false} TotalEmpty<V>(n: nat)
    ensures Total<V>(seq(n, _ => [])) == 0
    decreases n
  {
    var t: Table<V> := seq(n, _ => []);
    if n > 0 {
      TotalEmpty<V>(n - 1);
      assert t[..n - 1] == seq(n - 1, _ => []);
    }
  }

  lemma {:induction false} FindFirst<V>(c: seq<Item<V>>, h: nat, key: string, i: nat)
    requires i <= |c| && (i < |c| ==> c[i].hash == h && c[i].key == key)
    requires forall j :: 0 <= j < i ==> !(c[j].hash == h && c[j].key == key)
    ensures Find(c, h, key) == i
  {
    var k := Find(c, h, key);
  }
}
