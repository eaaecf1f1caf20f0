/** The iterator of src/hashmap.c, and what survives the deletion of the entry it returned last. */
module Iterators {
  import opened Basics
  import opened Chains
  import opened HashMaps

  /** All items of a table, bucket by bucket. */
  function Flat<V>(t: Table<V>): seq<Item<V>> {
    if t == [] then [] else t[0] + Flat(t[1..])
  }

  /** What an iterator still has to visit: bucket pos - 1 from j on, and every later bucket. */
  function Rest<V>(t: Table<V>, pos: nat, j: nat): seq<Item<V>>
    requires pos <= |t| && (if pos > 0 then j <= |t[pos - 1]| else j == 0)
  {
    (if pos > 0 then t[pos - 1][j..] else []) + Flat(t[pos..])
  }

  lemma SkipEmpty<V>(t: Table<V>, pos: nat)
    requires pos < |t| && t[pos] == []
    ensures Flat(t[pos..]) == Flat(t[pos + 1..])
  {
    assert t[pos..][1..] == t[pos + 1..];
  }

  lemma EnterBucket<V>(t: Table<V>, pos: nat)
    requires pos < |t| && t[pos] != []
    ensures Flat(t[pos..]) == [t[pos][0]] + Rest(t, pos + 1, 1)
  {
    assert t[pos..][1..] == t[pos + 1..];
    assert t[pos] == [t[pos][0]] + t[pos][1..];
  }

  lemma StepInBucket<V>(t: Table<V>, pos: nat, j: nat)
    requires 0 < pos <= |t| && j < |t[pos - 1]|
    ensures Rest(t, pos, j) == [t[pos - 1][j]] + Rest(t, pos, j + 1)
  {
    assert t[pos - 1][j..] == [t[pos - 1][j]] + t[pos - 1][j + 1..];
  }

  /** Taking the item just passed out of its chain leaves the rest as it was. */
  lemma RestWithout<V>(t: Table<V>, pos: nat, k: nat)
    requires 0 < pos <= |t| && k < |t[pos - 1]|
    ensures Rest(t[pos - 1 := Without(t[pos - 1], k)], pos, k) == Rest(t, pos, k + 1)
  {
    var u: Table<V> := t[pos - 1 := Without(t[pos - 1], k)];
    assert u[pos..] == t[pos..];
    assert u[pos - 1][k..] == t[pos - 1][k + 1..];
  }

  lemma {:induction false} FlatTotal<V>(t: Table<V>)
    ensures |Flat(t)| == Total(t)
  {
    if |t| > 0 {
      FlatTotal(t[..|t| - 1]);
      FlatSnoc(t[..|t| - 1], t[|t| - 1]);
      assert t == t[..|t| - 1] + [t[|t| - 1]];
    }
  }

  lemma {:induction false} FlatSnoc<V>(t: Table<V>, c: seq<Item<V>>)
    ensures Flat(t + [c]) == Flat(t) + c
  {
    if t == [] {
      assert (t + [c])[1..] == [];
    } else {
      assert (t + [c])[1..] == t[1..] + [c];
      FlatSnoc(t[1..], c);
    }
  }

  lemma {:induction false} FlatSplit<V>(t: Table<V>, p: nat)
    requires p < |t|
    ensures Flat(t) == Flat(t[..p]) + t[p] + Flat(t[p + 1..])
  {
    if p == 0 {
      assert t[..0] == [];
    } else {
      FlatSplit(t[1..], p - 1);
      assert t[1..][..p - 1] == t[..p][1..] && t[1..][p..] == t[p + 1..];
    }
  }

  /** If everything before an item is gone, deleting it leaves what comes after it. */
  lemma FirstDeleted<V>(t: Table<V>, p: nat, k: nat)
    requires p < |t| && k < |t[p]| && Flat(t) == [t[p][k]] + Rest(t, p + 1, k + 1)
    ensures Flat(t[p := Without(t[p], k)]) == Rest(t, p + 1, k + 1)
  {
    hide Flat;
    var u: Table<V> := t[p := Without(t[p], k)];
    FlatSplit(t, p);
    FlatSplit(u, p);
    assert u[..p] == t[..p] && u[p + 1..] == t[p + 1..];
    assert |Flat(t[..p])| + k == 0;
  }

  lemma BucketDone<V>(t: Table<V>, pos: nat, j: nat)
    requires pos <= |t| && j == if pos > 0 then |t[pos - 1]| else 0
    ensures Rest(t, pos, j) == Flat(t[pos..]) && (pos == |t| ==> Flat(t[pos..]) == [])
  {
  }

  lemma {:induction false} FlatStored<V>(t: Table<V>, n: Item<V>)
    ensures n in Flat(t) <==> Stored(t, n)
  {
    if t != [] {
      FlatStored(t[1..], n);
      if Stored(t, n) {
        var p, i :| 0 <= p < |t| && 0 <= i < |t[p]| && t[p][i] == n;
        assert p > 0 ==> t[1..][p - 1][i] == n;
      }
      if Stored(t[1..], n) {
        var p, i :| 0 <= p < |t[1..]| && 0 <= i < |t[1..][p]| && t[1..][p][i] == n;
        assert t[p + 1][i] == n;
      }
      if n in t[0] {
        var i :| 0 <= i < |t[0]| && t[0][i] == n;
      }
    }
  }

  /** As many different members as places: no member repeats. */
  lemma {:induction false} NoneRepeats<T>(s: seq<T>, members: set<T>)
    requires |members| == |s| && forall x :: x in members ==> x in s
    ensures forall i, j :: 0 <= i < j < |s| ==> s[i] != s[j]
  {
    if s != [] {
      var x, rest := s[0], s[1..];
      if x in rest || x !in members {
        Crowded(rest, members);
      } else {
        assert forall y :: y in members - {x} ==> y in rest;
        NoneRepeats(rest, members - {x});
      }
    }
  }

  lemma {:induction false} Crowded<T>(s: seq<T>, members: set<T>)
    requires forall x :: x in members ==> x in s
    ensures |members| <= |s|
  {
    if s == [] {
      assert members == {};
    } else {
      Crowded(s[1..], members - {s[0]});
    }
  }

  function KeysOf<V>(c: seq<Item<V>>): (keys: seq<string>)
    ensures |keys| == |c| && forall i {:trigger keys[i]} :: 0 <= i < |c| ==> keys[i] == c[i].key
  {
    seq(|c|, i requires 0 <= i < |c| => c[i].key)
  }

  /** What an iteration over an unchanged map goes through: every key of the model once, with its value. */
  lemma IteratesModel<V>(m: HashMap<V>)
    requires m.Valid()
    ensures forall k :: k in m.model <==> k in KeysOf(Flat(m.table))
    ensures forall i {:trigger Flat(m.table)[i]} :: 0 <= i < |Flat(m.table)| ==>
              var n := Flat(m.table)[i]; n in m.items && n.key in m.model && n.val == m.model[n.key]
    ensures forall i, j :: 0 <= i < j < |Flat(m.table)| ==> Flat(m.table)[i].key != Flat(m.table)[j].key
  {
    hide Flat, Total, Stored;
    var c := Flat(m.table);
    m.CoreMeans();
    FlatTotal(m.table);
    forall i | 0 <= i < |c|
      ensures c[i] in m.items && c[i].key in m.model && c[i].val == m.model[c[i].key]
    {
      FlatStored(m.table, c[i]);
      StoredMeans(m, c[i]);
    }
    forall k | k in m.model
      ensures k in KeysOf(c)
    {
      KeyIsVisited(m, k);
    }
    NoneRepeats(KeysOf(c), m.model.Keys);
    forall i, j | 0 <= i < j < |c|
      ensures c[i].key != c[j].key
    {
      assert KeysOf(c)[i] != KeysOf(c)[j];
    }
  }

  lemma StoredMeans<V>(m: HashMap<V>, n: Item<V>)
    requires m.Valid() && Stored(m.table, n)
    ensures n in m.items && n.key in m.model && n.val == m.model[n.key]
  {
    var p, i :| 0 <= p < |m.table| && 0 <= i < |m.table[p]| && m.table[p][i] == n;
    m.EntryMeans(p, i);
  }

  lemma KeyIsVisited<V>(m: HashMap<V>, k: string)
    requires m.Valid() && k in m.model
    ensures k in KeysOf(Flat(m.table))
  {
    m.CoreMeans();
    var n := HeldIsStored(m.table, k);
    FlatStored(m.table, n);
    var i :| 0 <= i < |Flat(m.table)| && Flat(m.table)[i] == n;
    assert KeysOf(Flat(m.table))[i] == k;
  }

  class MapIterator<V(==)> {
    const over: HashMap<V>
    var item: Item?<V>
    var pos: nat

    /** The iterator stands at j of bucket pos - 1 of table t. */
    ghost predicate At(t: Table<V>, j: nat)
      reads this
    {
      && pos <= |t| && (if pos > 0 then j <= |t[pos - 1]| else j == 0)
      && item == if pos > 0 && j < |t[pos - 1]| then t[pos - 1][j] else null
    }

    lemma LinkedLengths()
      requires over.Linked()
      ensures over.pool.Length == over.capacity == |over.table|
    {
    }

    /** The items still to come. */
    ghost function Left(t: Table<V>, j: nat): seq<Item<V>>
      requires At(t, j)
      reads this
    {
      Rest(t, pos, j)
    }

    /** Deleting the entry just returned leaves the iterator where it was, with the same items to come. */
    lemma AfterDelete(t: Table<V>, k: nat)
      requires At(t, k + 1) && pos > 0
      ensures var u := t[pos - 1 := Without(t[pos - 1], k)];
        At(u, k) && Left(u, k) == Left(t, k + 1)
    {
      RestWithout(t, pos, k);
    }

    /** hash_map_it_init */
    constructor (over: HashMap<V>)
      ensures this.over == over && At(over.table, 0) && Left(over.table, 0) == Flat(over.table)
    {
      this.over := over;
      item := null;
      pos := 0;
      new;
      assert over.table[0..] == over.table;
    }

    /** hash_map_it_next: the entry returned, or None at the end, and its place in the table. */
    method Next(ghost j: nat) returns (r: Option<(string, V)>, ghost p: nat, ghost k: nat)
      requires over.Linked() && At(over.table, j)
      modifies this
      ensures r == None ==> old(Left(over.table, j)) == [] && At(over.table, k) && Left(over.table, k) == []
      ensures r != None ==> pos == p + 1 && p < |over.table| && k < |over.table[p]| && At(over.table, k + 1)
      ensures r != None ==> var n := over.table[p][k];
                r == Some((n.key, n.val)) && old(Left(over.table, j)) == [n] + Left(over.table, k + 1)
    {
      hide Rest, Flat, HashMap<V>.Linked, Threaded;
      ghost var t := over.table;
      LinkedLengths();
      var cur;
      if item != null {
        over.NextItem(pos - 1, j);
        cur := item;
        item := cur.next;
        p, k := pos - 1, j;
        StepInBucket(t, pos, j);
      } else {
        BucketDone(t, pos, j);
        while pos < over.capacity && over.pool[pos] == null
          invariant pos <= |t| && Rest(t, old(pos), j) == Flat(t[pos..]) && item == null
        {
          over.FirstItem(pos);
          SkipEmpty(t, pos);
          pos := pos + 1;
        }
        if pos >= over.capacity || over.pool[pos] == null {
          p, k := 0, if pos > 0 then |t[pos - 1]| else 0;
          BucketDone(t, pos, k);
          return None, p, k;
        }
        over.FirstItem(pos);
        over.NextItem(pos, 0);
        EnterBucket(t, pos);
        cur := over.pool[pos];
        item := cur.next;
        p, k := pos, 0;
        pos := pos + 1;
      }
      return Some((cur.key, cur.val)), p, k;
    }
  }
}
