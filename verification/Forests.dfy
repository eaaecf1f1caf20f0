/** Union-find forests as values: what src/disjoint_set.c computes on its two arrays. */
module Forests {

  /** The `parent` and `rank` arrays; a node that is its own parent is a root. */
  datatype Forest = Forest(parent: seq<nat>, rank: seq<nat>) {

    function Size(): nat {
      |parent|
    }

    /** Ranks strictly increase along every edge that is not a loop. */
    ghost predicate Valid() {
      && |rank| == |parent|
      && (forall i {:trigger parent[i]} :: 0 <= i < |parent| ==> parent[i] < |parent|)
      && (forall i {:trigger parent[i]} :: 0 <= i < |parent| && parent[i] != i ==> rank[i] < rank[parent[i]])
    }
  }

  function Max(s: seq<nat>): (m: nat)
    ensures forall i :: 0 <= i < |s| ==> s[i] <= m
  {
    if s == [] then 0 else
      var m := Max(s[1..]);
      assert forall i :: 0 < i < |s| ==> s[i] == s[1..][i - 1];
      if s[0] > m then s[0] else m
  }

  function Root(f: Forest, i: nat): (r: nat)
    requires f.Valid() && i < f.Size()
    ensures r < f.Size() && f.parent[r] == r
    ensures r != i ==> f.rank[i] < f.rank[r]
    decreases Max(f.rank) - f.rank[i]
  {
    if f.parent[i] == i then i else Root(f, f.parent[i])
  }

  /** The number of edges from i to its root. */
  function Depth(f: Forest, i: nat): nat
    requires f.Valid() && i < f.Size()
    decreases Max(f.rank) - f.rank[i]
  {
    if f.parent[i] == i then 0 else 1 + Depth(f, f.parent[i])
  }

  predicate OnPath(f: Forest, a: nat, i: nat)
    requires f.Valid() && a < f.Size()
    decreases Max(f.rank) - f.rank[a]
  {
    a == i || (f.parent[a] != a && OnPath(f, f.parent[a], i))
  }

  // ---------------------------------------------------------------------------
  // The operations
  // ---------------------------------------------------------------------------

  function Singletons(n: nat): (f: Forest)
    ensures f.Valid() && f.Size() == n
  {
    Forest(seq(n, i requires 0 <= i < n => i), seq(n, _ => 0))
  }

  /** Every node on the way from a to its root now points at the root. */
  function Compress(f: Forest, a: nat): (g: Forest)
    requires f.Valid() && a < f.Size()
    ensures g.rank == f.rank && g.Size() == f.Size()
  {
    Forest(seq(f.Size(), i requires 0 <= i < f.Size() => if OnPath(f, a, i) then Root(f, a) else f.parent[i]), f.rank)
  }

  /** Hang root b below root a, after ordering the two by rank. */
  function Link(f: Forest, a: nat, b: nat): (g: Forest)
    requires |f.rank| == f.Size() && a < f.Size() && b < f.Size()
    ensures g.Size() == f.Size() && |g.rank| == |f.rank|
  {
    if a == b then f
    else if f.rank[a] < f.rank[b] then Forest(f.parent[a := b], f.rank)
    else Forest(f.parent[b := a], if f.rank[a] == f.rank[b] then f.rank[a := f.rank[a] + 1] else f.rank)
  }

  function Union(f: Forest, a: nat, b: nat): Forest
    requires f.Valid() && a < f.Size() && b < f.Size()
  {
    CompressKeeps(f, a);
    var g := Compress(f, a);
    Link(Compress(g, b), Root(f, a), Root(g, b))
  }

  // ---------------------------------------------------------------------------
  // Path compression changes no node's root
  // ---------------------------------------------------------------------------

  lemma {:induction false} OnPathRoot(f: Forest, a: nat, i: nat)
    requires f.Valid() && a < f.Size() && i < f.Size() && OnPath(f, a, i)
    ensures Root(f, i) == Root(f, a)
    ensures i != a ==> f.rank[a] < f.rank[i]
    decreases Max(f.rank) - f.rank[a]
  {
    if a != i {
      OnPathRoot(f, f.parent[a], i);
    }
  }

  /** g agrees with f except that some nodes point straight at their root. */
  ghost predicate Shortcuts(f: Forest, g: Forest)
    requires f.Valid()
  {
    && g.Size() == f.Size() && g.rank == f.rank
    && (forall i :: 0 <= i < f.Size() ==> g.parent[i] == f.parent[i] || g.parent[i] == Root(f, i))
  }

  lemma {:induction false} ShortcutRoot(f: Forest, g: Forest, i: nat)
    requires f.Valid() && Shortcuts(f, g) && i < f.Size()
    ensures g.Valid() && Root(g, i) == Root(f, i)
    decreases Max(f.rank) - f.rank[i]
  {
    if g.parent[i] != i {
      ShortcutRoot(f, g, g.parent[i]);
    }
  }

  lemma CompressKeeps(f: Forest, a: nat)
    requires f.Valid() && a < f.Size()
    ensures Compress(f, a).Valid()
    ensures forall i :: 0 <= i < f.Size() ==> Root(Compress(f, a), i) == Root(f, i)
  {
    var g := Compress(f, a);
    forall i | 0 <= i < f.Size()
      ensures g.parent[i] == f.parent[i] || g.parent[i] == Root(f, i)
    {
      if OnPath(f, a, i) {
        OnPathRoot(f, a, i);
      }
    }
    forall i | 0 <= i < f.Size()
      ensures g.Valid() && Root(g, i) == Root(f, i)
    {
      ShortcutRoot(f, g, i);
    }
    if f.Size() > 0 {
      ShortcutRoot(f, g, 0);
    }
  }

  // ---------------------------------------------------------------------------
  // Linking merges two classes
  // ---------------------------------------------------------------------------

  /** The root that survives when roots a and b are linked. */
  function Winner(f: Forest, a: nat, b: nat): nat
    requires |f.rank| == f.Size() && a < f.Size() && b < f.Size()
  {
    if a != b && f.rank[a] < f.rank[b] then b else a
  }

  lemma LinkValid(f: Forest, a: nat, b: nat)
    requires f.Valid() && a < f.Size() && b < f.Size() && f.parent[a] == a && f.parent[b] == b
    ensures Link(f, a, b).Valid()
  {
  }

  lemma {:induction false} LinkRoot(f: Forest, a: nat, b: nat, i: nat)
    requires f.Valid() && a < f.Size() && b < f.Size() && f.parent[a] == a && f.parent[b] == b && i < f.Size()
    ensures Link(f, a, b).Valid()
    ensures Root(Link(f, a, b), i) == if Root(f, i) == a || Root(f, i) == b then Winner(f, a, b) else Root(f, i)
    decreases Max(f.rank) - f.rank[i]
  {
    LinkValid(f, a, b);
    var g := Link(f, a, b);
    hide Link;
    if f.parent[i] != i {
      assert g.parent[i] == f.parent[i] by { LinkParents(f, a, b, i); }
      LinkRoot(f, a, b, f.parent[i]);
    } else {
      LinkParents(f, a, b, i);
    }
  }

  lemma LinkParents(f: Forest, a: nat, b: nat, i: nat)
    requires f.Valid() && a < f.Size() && b < f.Size() && f.parent[a] == a && f.parent[b] == b && i < f.Size()
    ensures Link(f, a, b).parent[i] == if i == a || i == b then Winner(f, a, b) else f.parent[i]
    ensures Link(f, a, b).parent[Winner(f, a, b)] == Winner(f, a, b)
  {
  }
}
