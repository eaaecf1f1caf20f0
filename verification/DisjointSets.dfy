/** src/disjoint_set.c: union-find on two arrays, updated in place. */
module DisjointSets {
  import opened Forests
  import UnionFindRuns
  import UnionFindSteps

  /** The parents when the compression loop, started at a, has reached x. */
  function Visited(f: Forest, a: nat, x: nat): seq<nat>
    requires f.Valid() && a < f.Size() && x < f.Size()
  {
    seq(f.Size(), i requires 0 <= i < f.Size() =>
      if OnPath(f, a, i) && !OnPath(f, x, i) then Root(f, a) else f.parent[i])
  }

  lemma VisitedStep(f: Forest, a: nat, x: nat)
    requires f.Valid() && a < f.Size() && x < f.Size() && OnPath(f, a, x) && f.parent[x] != x
    ensures OnPath(f, a, f.parent[x]) && Visited(f, a, x)[x] == f.parent[x]
    ensures Visited(f, a, f.parent[x]) == Visited(f, a, x)[x := Root(f, a)]
  {
    OnPathNext(f, a, x);
    if OnPath(f, f.parent[x], x) {
      OnPathRoot(f, f.parent[x], x);
    }
  }

  lemma VisitedEnds(f: Forest, a: nat, x: nat)
    requires f.Valid() && a < f.Size() && x < f.Size() && OnPath(f, a, x)
    ensures Visited(f, a, a) == f.parent && Visited(f, a, x)[x] == f.parent[x]
    ensures f.parent[x] == Root(f, a) ==> Visited(f, a, x) == Compress(f, a).parent
  {
    if f.parent[x] == Root(f, a) {
      forall i | 0 <= i < f.Size()
        ensures Visited(f, a, x)[i] == Compress(f, a).parent[i]
      {
        if OnPath(f, x, i) && i != x {
          assert OnPath(f, f.parent[x], i);
        }
      }
    }
  }

  lemma {:induction false} OnPathNext(f: Forest, a: nat, x: nat)
    requires f.Valid() && a < f.Size() && x < f.Size() && OnPath(f, a, x)
    ensures OnPath(f, a, f.parent[x])
    decreases Max(f.rank) - f.rank[a]
  {
    if a != x {
      OnPathNext(f, f.parent[a], x);
    }
  }

  lemma UnionJoins(f: Forest, a: nat, b: nat)
    requires f.Valid() && a < f.Size() && b < f.Size()
    ensures Forests.Union(f, a, b).Valid() && Forests.Union(f, a, b).Size() == f.Size()
    ensures Root(Forests.Union(f, a, b), a) == Root(Forests.Union(f, a, b), b) ==
            if f.rank[Root(f, a)] >= f.rank[Root(f, b)] then Root(f, a) else Root(f, b)
  {
    hide Forests.Union, Root;
    UnionFindSteps.Survivor(f, a, b, a);
    UnionFindSteps.Survivor(f, a, b, b);
  }

  class DisjointSet {
    const limit: nat
    var maxNodes: int
    const parent: array<nat>
    const rank: array<nat>

    ghost predicate Allocated()
      reads this
    {
      parent.Length == rank.Length == limit && parent != rank && maxNodes <= limit
    }

    function Count(): nat
      reads this
    {
      if maxNodes < 0 then 0 else maxNodes
    }

    ghost function Value(): Forest
      reads this, parent, rank
      requires Allocated()
    {
      Forest(parent[..Count()], rank[..Count()])
    }

    /** The part of the arrays behind the nodes in use. */
    ghost function Spare(): Forest
      reads this, parent, rank
      requires Allocated()
    {
      Forest(parent[Count()..], rank[Count()..])
    }

    constructor (limit: nat)
      ensures this.limit == limit && fresh(parent) && fresh(rank)
      ensures Allocated() && Value() == Singletons(0)
    {
      this.limit := limit;
      maxNodes := 0;
      parent := new nat[limit];
      rank := new nat[limit];
      new;
      assert Value() == Singletons(0);
    }

    /** disjoint_set_make */
    method Make(max: int) returns (r: int)
      requires Allocated()
      modifies this, parent, rank
      ensures Allocated()
      ensures r == if max >= limit then -1 else 0
      ensures r == -1 ==> maxNodes == old(maxNodes) && parent[..] == old(parent[..]) && rank[..] == old(rank[..])
      ensures r == 0 ==> maxNodes == max && Value() == Singletons(if max < 0 then 0 else max)
      ensures r == 0 ==> Spare() == Forest(old(parent[..])[Count()..], old(rank[..])[Count()..])
    {
      if max >= limit {
        return -1;
      }
      maxNodes := max;
      var i := 0;
      while i < max
        invariant 0 <= i <= Count()
        invariant maxNodes == max
        invariant parent[Count()..] == old(parent[..])[Count()..] && rank[Count()..] == old(rank[..])[Count()..]
        invariant forall k :: 0 <= k < i ==> parent[k] == k && rank[k] == 0
      {
        parent[i] := i;
        rank[i] := 0;
        i := i + 1;
      }
      assert Value() == Singletons(Count());
      return 0;
    }

    /** disjoint_set_find: walk to the root, then hang every node of the walk below it. */
    method Find(a: nat) returns (root: nat)
      requires Allocated() && Value().Valid() && a < Count()
      modifies parent
      ensures Value() == Compress(old(Value()), a) && Value().Valid() && Spare() == old(Spare())
      ensures root == Root(old(Value()), a)
    {
      ghost var f := Value();
      CompressKeeps(f, a);
      root := a;
      while parent[root] != root
        invariant root < Count() && Root(f, root) == Root(f, a)
        decreases Max(f.rank) - f.rank[root]
      {
        root := parent[root];
      }
      var x: nat := a;
      VisitedEnds(f, a, a);
      while parent[x] != root
        invariant x < Count() && Root(f, x) == root && OnPath(f, a, x)
        invariant parent[..Count()] == Visited(f, a, x) && parent[x] == f.parent[x]
        invariant rank[..] == old(rank[..]) && parent[Count()..] == old(parent[Count()..])
        decreases Max(f.rank) - f.rank[x]
      {
        var tmp := parent[x];
        VisitedStep(f, a, x);
        parent[x] := root;
        x := tmp;
        VisitedEnds(f, a, x);
      }
      VisitedEnds(f, a, x);
    }

    /** disjoint_set_union: by rank. */
    method Union(a: nat, b: nat)
      requires Allocated() && Value().Valid() && a < Count() && b < Count()
      modifies parent, rank
      ensures Value() == Forests.Union(old(Value()), a, b) && Value().Valid() && Spare() == old(Spare())
      ensures var ra, rb := old(Root(Value(), a)), old(Root(Value(), b));
        Root(Value(), a) == Root(Value(), b) == if old(rank[ra]) >= old(rank[rb]) then ra else rb
    {
      hide Compress, Root, OnPath, Visited;
      ghost var f := Value();
      UnionJoins(f, a, b);
      var ra := Find(a);
      CompressKeeps(f, a);
      var rb := Find(b);
      ghost var g := Value();
      if ra == rb {
        return;
      }
      if rank[ra] < rank[rb] {
        ra, rb := rb, ra;
      }
      parent[rb] := ra;
      if rank[ra] == rank[rb] {
        rank[ra] := rank[ra] + 1;
      }
      assert Value().parent == g.parent[rb := ra];
    }

    /** disjoint_set_num_roots */
    method NumRoots() returns (roots: nat)
      requires Allocated()
      ensures roots == |UnionFindRuns.Roots(Value())|
    {
      roots := 0;
      ghost var seen: set<nat> := {};
      var i := 0;
      while i < maxNodes
        invariant 0 <= i <= Count()
        invariant forall k: nat :: k in seen <==> k < i && parent[k] == k
        invariant roots == |seen|
      {
        if parent[i] == i {
          roots := roots + 1;
          seen := seen + {i};
        }
        i := i + 1;
      }
      assert seen == UnionFindRuns.Roots(Value());
    }
  }
}
