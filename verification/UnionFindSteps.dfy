/** What one find or union of src/disjoint_set.c leaves in every place of the two arrays. */
module UnionFindSteps {
  import opened Forests
  import opened UnionFindRuns

  // ---------------------------------------------------------------------------
  // Which root survives
  // ---------------------------------------------------------------------------

  /** The joined class has the root of a, unless the root of b has the higher rank. */
  lemma Survivor(f: Forest, a: nat, b: nat, x: nat)
    requires f.Valid() && a < f.Size() && b < f.Size() && x < f.Size()
    requires Root(f, x) == Root(f, a) || Root(f, x) == Root(f, b)
    ensures Step(f, Unite(a, b)).Valid() && Step(f, Unite(a, b)).Size() == f.Size()
    ensures Root(Step(f, Unite(a, b)), x) ==
            if f.rank[Root(f, a)] >= f.rank[Root(f, b)] then Root(f, a) else Root(f, b)
  {
    hide Step;
    StepRoots(f, Unite(a, b));
  }

  /** Its rank grows by one exactly when two different roots had the same; no other rank changes. */
  lemma SurvivorRank(f: Forest, a: nat, b: nat, x: nat)
    requires f.Valid() && a < f.Size() && b < f.Size() && x < f.Size()
    ensures Step(f, Unite(a, b)).Valid() && Step(f, Unite(a, b)).Size() == f.Size()
    ensures Step(f, Unite(a, b)).rank[x] ==
            if x == Root(f, a) && Root(f, a) != Root(f, b) && f.rank[Root(f, a)] == f.rank[Root(f, b)]
            then f.rank[x] + 1 else f.rank[x]
  {
    hide Root, OnPath;
    StepKeepsValid(f, Unite(a, b));
    UniteInSteps(f, a, b);
  }

  /** A union is two finds and one change to the roots. */
  lemma UniteInSteps(f: Forest, a: nat, b: nat)
    requires f.Valid() && a < f.Size() && b < f.Size()
    ensures Compress(f, a).Valid() && Root(Compress(f, a), b) == Root(f, b)
    ensures Step(f, Unite(a, b)) == Link(Compress(Compress(f, a), b), Root(f, a), Root(f, b))
  {
    CompressKeeps(f, a);
  }

  // ---------------------------------------------------------------------------
  // Which nodes move
  // ---------------------------------------------------------------------------

  /** The node k edges above a; a root is above itself. */
  function Up(f: Forest, a: nat, k: nat): (i: nat)
    requires f.Valid() && a < f.Size()
    ensures i < f.Size()
    decreases k
  {
    if k == 0 then a else Up(f, f.parent[a], k - 1)
  }

  ghost predicate Above(f: Forest, a: nat, i: nat)
    requires f.Valid() && a < f.Size()
  {
    exists k: nat :: Up(f, a, k) == i
  }

  lemma {:induction false} UpOnPath(f: Forest, a: nat, k: nat)
    requires f.Valid() && a < f.Size()
    ensures OnPath(f, a, Up(f, a, k))
    decreases k
  {
    if k > 0 {
      UpOnPath(f, f.parent[a], k - 1);
    }
  }

  lemma {:induction false} PathIsUp(f: Forest, a: nat, i: nat) returns (k: nat)
    requires f.Valid() && a < f.Size() && OnPath(f, a, i)
    ensures Up(f, a, k) == i
    decreases Max(f.rank) - f.rank[a]
  {
    if a == i {
      k := 0;
    } else {
      k := PathIsUp(f, f.parent[a], i);
      k := k + 1;
    }
  }

  lemma OnPathIsAbove(f: Forest, a: nat, i: nat)
    requires f.Valid() && a < f.Size()
    ensures OnPath(f, a, i) <==> Above(f, a, i)
  {
    if OnPath(f, a, i) {
      var k := PathIsUp(f, a, i);
    }
    if Above(f, a, i) {
      var k: nat :| Up(f, a, k) == i;
      UpOnPath(f, a, k);
    }
  }

  /** The root is the node that the walk from a reaches, and stays at. */
  lemma {:induction false} RootAbove(f: Forest, a: nat, k: nat)
    requires f.Valid() && a < f.Size() && Depth(f, a) <= k
    ensures Up(f, a, k) == Root(f, a) && f.parent[Up(f, a, k)] == Up(f, a, k)
    decreases k
  {
    if k > 0 {
      RootAbove(f, f.parent[a], k - 1);
    }
  }

  /** A find hangs every node on the walk from a directly below the root, and changes nothing else. */
  lemma FindExactly(f: Forest, a: nat, i: nat)
    requires f.Valid() && a < f.Size() && i < f.Size()
    ensures Step(f, Find(a)).Size() == f.Size() && Step(f, Find(a)).rank == f.rank
    ensures Step(f, Find(a)).parent[i] == if Above(f, a, i) then Up(f, a, Depth(f, a)) else f.parent[i]
  {
    hide OnPath, Root;
    OnPathIsAbove(f, a, i);
    RootAbove(f, a, Depth(f, a));
  }

  /** Compressing the walk from a takes nothing from the walk from b but nodes of the walk from a. */
  lemma {:induction false} PathAfterCompress(f: Forest, a: nat, b: nat, i: nat)
    requires f.Valid() && a < f.Size() && b < f.Size() && i < f.Size() && !OnPath(f, a, i)
    ensures Compress(f, a).Valid() && (OnPath(Compress(f, a), b, i) <==> OnPath(f, b, i))
    decreases Max(f.rank) - f.rank[b]
  {
    CompressKeeps(f, a);
    var g := Compress(f, a);
    if OnPath(f, a, b) {
      PathJoins(f, a, b, i);
      RootOnPath(f, a);
    } else if f.parent[b] != b {
      PathAfterCompress(f, a, f.parent[b], i);
    }
  }

  lemma {:induction false} PathJoins(f: Forest, a: nat, b: nat, i: nat)
    requires f.Valid() && a < f.Size() && b < f.Size() && OnPath(f, a, b) && !OnPath(f, a, i)
    ensures !OnPath(f, b, i)
    decreases Max(f.rank) - f.rank[a]
  {
    if a != b {
      PathJoins(f, f.parent[a], b, i);
    }
  }

  lemma {:induction false} RootOnPath(f: Forest, a: nat)
    requires f.Valid() && a < f.Size()
    ensures OnPath(f, a, Root(f, a))
    decreases Max(f.rank) - f.rank[a]
  {
    if f.parent[a] != a {
      RootOnPath(f, f.parent[a]);
    }
  }

  /**
   * A union hangs the two roots below the survivor and the other nodes on the two walks below the roots they had, and
   * changes no other parent.
   */
  lemma UniteExactly(f: Forest, a: nat, b: nat, i: nat)
    requires f.Valid() && a < f.Size() && b < f.Size() && i < f.Size()
    ensures Step(f, Unite(a, b)).Valid() && Step(f, Unite(a, b)).Size() == f.Size()
    ensures var ra, rb := Root(f, a), Root(f, b);
      Step(f, Unite(a, b)).parent[i] ==
      if i == ra || i == rb then (if f.rank[ra] >= f.rank[rb] then ra else rb)
      else if Above(f, a, i) then ra else if Above(f, b, i) then rb else f.parent[i]
  {
    hide OnPath, Root, Above;
    StepKeepsValid(f, Unite(a, b));
    UniteInSteps(f, a, b);
    OnPathIsAbove(f, a, i);
    OnPathIsAbove(f, b, i);
    if OnPath(f, a, i) {
      MeetingRoots(f, a, b, i);
    } else {
      PathAfterCompress(f, a, b, i);
    }
  }

  lemma MeetingRoots(f: Forest, a: nat, b: nat, i: nat)
    requires f.Valid() && a < f.Size() && b < f.Size() && i < f.Size() && OnPath(f, a, i)
    ensures Compress(f, a).Valid() && (OnPath(Compress(f, a), b, i) ==> Root(f, a) == Root(f, b))
  {
    CompressKeeps(f, a);
    OnPathRoot(f, a, i);
    if OnPath(Compress(f, a), b, i) {
      OnPathRoot(Compress(f, a), b, i);
    }
  }
}
