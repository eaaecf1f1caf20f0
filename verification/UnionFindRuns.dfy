/** What runs of make, union and find mean: classes, balance and counting. */
module UnionFindRuns {
  import opened Basics
  import opened Forests

  datatype Op = Find(a: nat) | Unite(a: nat, b: nat) {
    predicate Within(n: nat) {
      a < n && (Unite? ==> b < n)
    }
  }

  predicate AllWithin(ops: seq<Op>, n: nat) {
    forall k :: 0 <= k < |ops| ==> ops[k].Within(n)
  }

  /** The forest after make(n) and then ops, the last one at the end. */
  function Run(n: nat, ops: seq<Op>): (f: Forest)
    requires AllWithin(ops, n)
    ensures f.Valid() && f.Size() == n
  {
    if ops == [] then Singletons(n) else
      var f := Run(n, ops[..|ops| - 1]);
      assert ops[|ops| - 1].Within(n);
      StepKeepsValid(f, ops[|ops| - 1]);
      Step(f, ops[|ops| - 1])
  }

  function Step(f: Forest, op: Op): Forest
    requires f.Valid() && op.Within(f.Size())
  {
    match op
    case Find(a) => Compress(f, a)
    case Unite(a, b) => Union(f, a, b)
  }

  /** The effect of one operation on the roots. */
  function Moved(f: Forest, op: Op, i: nat): nat
    requires f.Valid() && op.Within(f.Size()) && i < f.Size()
  {
    match op
    case Find(_) => Root(f, i)
    case Unite(a, b) =>
      var ra, rb := Root(f, a), Root(f, b);
      if Root(f, i) == ra || Root(f, i) == rb then Winner(f, ra, rb) else Root(f, i)
  }

  lemma StepRoots(f: Forest, op: Op)
    requires f.Valid() && op.Within(f.Size())
    ensures Step(f, op).Valid() && Step(f, op).Size() == f.Size()
    ensures forall i :: 0 <= i < f.Size() ==> Root(Step(f, op), i) == Moved(f, op, i)
  {
    CompressKeeps(f, op.a);
    if op.Unite? {
      var g := Compress(f, op.a);
      CompressKeeps(g, op.b);
      var h := Compress(g, op.b);
      var ra, rb := Root(f, op.a), Root(f, op.b);
      assert Root(h, ra) == ra && Root(h, rb) == rb;
      forall i | 0 <= i < f.Size()
        ensures Link(h, ra, rb).Valid() && Root(Link(h, ra, rb), i) == Moved(f, op, i)
      {
        LinkRoot(h, ra, rb, i);
      }
      LinkValid(h, ra, rb);
    }
  }

  lemma StepKeepsValid(f: Forest, op: Op)
    requires f.Valid() && op.Within(f.Size())
    ensures Step(f, op).Valid() && Step(f, op).Size() == f.Size()
  {
    StepRoots(f, op);
  }

  // ---------------------------------------------------------------------------
  // Connected: the equivalence closure of the united pairs
  // ---------------------------------------------------------------------------

  ghost predicate Linked(ops: seq<Op>, x: nat, y: nat) {
    Unite(x, y) in ops || Unite(y, x) in ops
  }

  ghost predicate IsWalk(ops: seq<Op>, walk: seq<nat>) {
    walk != [] && forall k :: 0 < k < |walk| ==> Linked(ops, walk[k - 1], walk[k])
  }

  /** x and y are related by the reflexive, symmetric and transitive closure of the united pairs. */
  ghost predicate Connected(ops: seq<Op>, x: nat, y: nat) {
    exists walk: seq<nat> :: IsWalk(ops, walk) && walk[0] == x && walk[|walk| - 1] == y
  }

  lemma ConnectedReflexive(ops: seq<Op>, x: nat)
    ensures Connected(ops, x, x)
  {
    assert IsWalk(ops, [x]);
  }

  lemma ConnectedLink(ops: seq<Op>, x: nat, y: nat)
    requires Linked(ops, x, y)
    ensures Connected(ops, x, y)
  {
    assert IsWalk(ops, [x, y]);
  }

  lemma ConnectedTransitive(ops: seq<Op>, x: nat, y: nat, z: nat)
    requires Connected(ops, x, y) && Connected(ops, y, z)
    ensures Connected(ops, x, z)
  {
    var p: seq<nat> :| IsWalk(ops, p) && p[0] == x && p[|p| - 1] == y;
    var q: seq<nat> :| IsWalk(ops, q) && q[0] == y && q[|q| - 1] == z;
    var w := p + q[1..];
    forall k | 0 < k < |w|
      ensures Linked(ops, w[k - 1], w[k])
    {
      if k >= |p| {
        assert w[k] == q[k - |p| + 1] && w[k - 1] == q[k - |p|];
      }
    }
    assert IsWalk(ops, w) && w[|w| - 1] == z;
  }

  lemma ConnectedSymmetric(ops: seq<Op>, x: nat, y: nat)
    requires Connected(ops, x, y)
    ensures Connected(ops, y, x)
  {
    var p: seq<nat> :| IsWalk(ops, p) && p[0] == x && p[|p| - 1] == y;
    var n := |p|;
    var w := seq(n, i requires 0 <= i < n => p[n - 1 - i]);
    forall k | 0 < k < |w|
      ensures Linked(ops, w[k - 1], w[k])
    {
      assert Linked(ops, p[n - 1 - k], p[n - k]);
    }
    assert IsWalk(ops, w);
  }

  /** Being connected is reflexive, symmetric and transitive. */
  lemma ConnectedIsEquivalence(ops: seq<Op>, x: nat, y: nat, z: nat)
    ensures Connected(ops, x, x)
    ensures Connected(ops, x, y) <==> Connected(ops, y, x)
    ensures Connected(ops, x, y) && Connected(ops, y, z) ==> Connected(ops, x, z)
  {
    hide Connected;
    ConnectedReflexive(ops, x);
    if Connected(ops, x, y) {
      ConnectedSymmetric(ops, x, y);
    }
    if Connected(ops, y, x) {
      ConnectedSymmetric(ops, y, x);
    }
    if Connected(ops, x, y) && Connected(ops, y, z) {
      ConnectedTransitive(ops, x, y, z);
    }
  }

  lemma ConnectedMonotone(ops: seq<Op>, more: seq<Op>, x: nat, y: nat)
    requires Connected(ops, x, y) && forall op :: op in ops ==> op in more
    ensures Connected(more, x, y)
  {
    var p: seq<nat> :| IsWalk(ops, p) && p[0] == x && p[|p| - 1] == y;
    assert IsWalk(more, p);
  }

  // ---------------------------------------------------------------------------
  // Same root exactly when connected
  // ---------------------------------------------------------------------------

  lemma RunRoots(n: nat, ops: seq<Op>, i: nat)
    requires ops != [] && AllWithin(ops, n) && i < n
    ensures ops[|ops| - 1].Within(n)
    ensures Root(Run(n, ops), i) == Moved(Run(n, ops[..|ops| - 1]), ops[|ops| - 1], i)
  {
    StepRoots(Run(n, ops[..|ops| - 1]), ops[|ops| - 1]);
  }

  lemma {:induction false} LinkedSameRoot(n: nat, ops: seq<Op>, k: nat)
    requires AllWithin(ops, n) && k < |ops| && ops[k].Unite?
    ensures ops[k].Within(n) && Root(Run(n, ops), ops[k].a) == Root(Run(n, ops), ops[k].b)
    decreases |ops|
  {
    hide Run;
    assert ops[k].Within(n);
    RunRoots(n, ops, ops[k].a);
    RunRoots(n, ops, ops[k].b);
    if k < |ops| - 1 {
      LinkedSameRoot(n, ops[..|ops| - 1], k);
    }
  }

  lemma {:induction false} WalkSameRoot(n: nat, ops: seq<Op>, walk: seq<nat>)
    requires AllWithin(ops, n) && IsWalk(ops, walk) && walk[0] < n
    ensures walk[|walk| - 1] < n && Root(Run(n, ops), walk[|walk| - 1]) == Root(Run(n, ops), walk[0])
    decreases |walk|
  {
    var k := |walk| - 1;
    if k > 0 {
      WalkSameRoot(n, ops, walk[..k]);
      var x, y := walk[k - 1], walk[k];
      assert Linked(ops, x, y);
      var j :| 0 <= j < |ops| && (ops[j] == Unite(x, y) || ops[j] == Unite(y, x));
      LinkedSameRoot(n, ops, j);
    }
  }

  lemma {:induction false} SameRootConnected(n: nat, ops: seq<Op>, x: nat, y: nat)
    requires AllWithin(ops, n) && x < n && y < n && Root(Run(n, ops), x) == Root(Run(n, ops), y)
    ensures Connected(ops, x, y)
    decreases |ops|
  {
    if ops == [] {
      ConnectedReflexive(ops, x);
    } else {
      var rest, op := ops[..|ops| - 1], ops[|ops| - 1];
      var f := Run(n, rest);
      StepRoots(f, op);
      if Root(f, x) == Root(f, y) {
        SameRootConnected(n, rest, x, y);
        ConnectedMonotone(rest, ops, x, y);
      } else if Root(f, x) == Root(f, op.a) {
        Bridge(n, ops, x, op.a, op.b, y);
      } else {
        Bridge(n, ops, x, op.b, op.a, y);
      }
    }
  }

  /** The last union joins the class of x, through u, to the class of y, through v. */
  lemma {:induction false} Bridge(n: nat, ops: seq<Op>, x: nat, u: nat, v: nat, y: nat)
    requires ops != [] && AllWithin(ops, n) && x < n && y < n && u < n && v < n
    requires ops[|ops| - 1] == Unite(u, v) || ops[|ops| - 1] == Unite(v, u)
    requires Root(Run(n, ops[..|ops| - 1]), x) == Root(Run(n, ops[..|ops| - 1]), u)
    requires Root(Run(n, ops[..|ops| - 1]), v) == Root(Run(n, ops[..|ops| - 1]), y)
    ensures Connected(ops, x, y)
    decreases |ops|, 0
  {
    var rest := ops[..|ops| - 1];
    SameRootConnected(n, rest, x, u);
    SameRootConnected(n, rest, v, y);
    ConnectedMonotone(rest, ops, x, u);
    ConnectedMonotone(rest, ops, v, y);
    ConnectedLink(ops, u, v);
    ConnectedTransitive(ops, x, u, v);
    ConnectedTransitive(ops, x, v, y);
  }

  /** After any run, two nodes have the same root exactly when the united pairs connect them. */
  lemma SameRootIffConnected(n: nat, ops: seq<Op>, x: nat, y: nat)
    requires AllWithin(ops, n) && x < n && y < n
    ensures Root(Run(n, ops), x) == Root(Run(n, ops), y) <==> Connected(ops, x, y)
  {
    if Connected(ops, x, y) {
      var walk: seq<nat> :| IsWalk(ops, walk) && walk[0] == x && walk[|walk| - 1] == y;
      WalkSameRoot(n, ops, walk);
    } else if Root(Run(n, ops), x) == Root(Run(n, ops), y) {
      SameRootConnected(n, ops, x, y);
    }
  }

  // ---------------------------------------------------------------------------
  // Balance: a class has at least 2^rank members, so paths are logarithmic
  // ---------------------------------------------------------------------------

  ghost function Members(f: Forest, r: nat): set<nat>
    requires f.Valid()
  {
    set i: nat | i < f.Size() && Root(f, i) == r
  }

  ghost predicate Balanced(f: Forest)
    requires f.Valid()
  {
    forall r :: 0 <= r < f.Size() && f.parent[r] == r ==> Pow2(f.rank[r]) <= |Members(f, r)|
  }

  lemma SingletonsBalanced(n: nat)
    ensures Balanced(Singletons(n))
  {
    var f := Singletons(n);
    forall r | 0 <= r < n
      ensures Pow2(f.rank[r]) <= |Members(f, r)|
    {
      assert Members(f, r) == {r};
    }
  }

  lemma CompressBalanced(f: Forest, a: nat)
    requires f.Valid() && a < f.Size() && Balanced(f)
    ensures Compress(f, a).Valid() && Balanced(Compress(f, a))
  {
    CompressKeeps(f, a);
    var g := Compress(f, a);
    forall r | 0 <= r < g.Size() && g.parent[r] == r
      ensures Pow2(g.rank[r]) <= |Members(g, r)|
    {
      assert Root(g, r) == r == Root(f, r);
      assert Members(g, r) == Members(f, r);
    }
  }

  lemma LinkMembers(f: Forest, a: nat, b: nat)
    requires f.Valid() && a < f.Size() && b < f.Size() && f.parent[a] == a && f.parent[b] == b
    ensures Link(f, a, b).Valid()
    ensures Members(Link(f, a, b), Winner(f, a, b)) == Members(f, a) + Members(f, b)
    ensures forall r: nat :: r < f.Size() && r != a && r != b ==> Members(Link(f, a, b), r) == Members(f, r)
  {
    LinkValid(f, a, b);
    var g := Link(f, a, b);
    forall i: nat | i < f.Size()
      ensures Root(g, i) == if Root(f, i) == a || Root(f, i) == b then Winner(f, a, b) else Root(f, i)
    {
      LinkRoot(f, a, b, i);
    }
  }

  lemma LinkRank(f: Forest, a: nat, b: nat, r: nat)
    requires f.Valid() && a < f.Size() && b < f.Size() && f.parent[a] == a && f.parent[b] == b && a != b
    requires r < f.Size() && Link(f, a, b).parent[r] == r
    ensures f.parent[r] == r
    ensures r != Winner(f, a, b) ==> r != a && r != b && Link(f, a, b).rank[r] == f.rank[r]
    ensures r == Winner(f, a, b) ==>
              Link(f, a, b).rank[r] == f.rank[r] || (f.rank[a] == f.rank[b] == f.rank[r]
                  && Link(f, a, b).rank[r] == f.rank[r] + 1)
  {
  }

  lemma WinnerBalanced(ra: nat, rb: nat, rw: nat, a: set<nat>, b: set<nat>)
    requires a !! b && Pow2(ra) <= |a| && Pow2(rb) <= |b|
    requires rw == ra || rw == rb || (ra == rb && rw == ra + 1)
    ensures Pow2(rw) <= |a + b|
  {
    assert |a + b| == |a| + |b|;
  }

  lemma BalancedAt(f: Forest, r: nat)
    requires f.Valid() && Balanced(f) && r < f.Size() && f.parent[r] == r
    ensures Pow2(f.rank[r]) <= |Members(f, r)|
  {
  }

  lemma LinkBalancedAt(f: Forest, a: nat, b: nat, r: nat)
    requires f.Valid() && a < f.Size() && b < f.Size() && f.parent[a] == a && f.parent[b] == b && a != b && Balanced(f)
    requires Link(f, a, b).Valid() && r < f.Size() && Link(f, a, b).parent[r] == r
    ensures Pow2(Link(f, a, b).rank[r]) <= |Members(Link(f, a, b), r)|
  {
    hide Link, Winner, Members, Balanced, Pow2, Root;
    LinkMembers(f, a, b);
    LinkRank(f, a, b, r);
    if r == Winner(f, a, b) {
      BalancedAt(f, a);
      BalancedAt(f, b);
      MembersDisjoint(f, a, b);
      WinnerEither(f, a, b);
      WinnerBalanced(f.rank[a], f.rank[b], Link(f, a, b).rank[r], Members(f, a), Members(f, b));
    } else {
      BalancedAt(f, r);
    }
  }

  lemma WinnerEither(f: Forest, a: nat, b: nat)
    requires |f.rank| == f.Size() && a < f.Size() && b < f.Size()
    ensures Winner(f, a, b) == a || Winner(f, a, b) == b
  {
  }

  lemma MembersDisjoint(f: Forest, a: nat, b: nat)
    requires f.Valid() && a != b
    ensures Members(f, a) !! Members(f, b)
  {
  }

  lemma LinkBalanced(f: Forest, a: nat, b: nat)
    requires f.Valid() && a < f.Size() && b < f.Size() && f.parent[a] == a && f.parent[b] == b && Balanced(f)
    ensures Link(f, a, b).Valid() && Balanced(Link(f, a, b))
  {
    LinkValid(f, a, b);
    if a != b {
      forall r | 0 <= r < f.Size() && Link(f, a, b).parent[r] == r
        ensures Pow2(Link(f, a, b).rank[r]) <= |Members(Link(f, a, b), r)|
      {
        LinkBalancedAt(f, a, b, r);
      }
    }
  }

  lemma {:induction false} RunBalanced(n: nat, ops: seq<Op>)
    requires AllWithin(ops, n)
    ensures Balanced(Run(n, ops))
    decreases |ops|
  {
    if ops == [] {
      SingletonsBalanced(n);
    } else {
      var f, op := Run(n, ops[..|ops| - 1]), ops[|ops| - 1];
      RunBalanced(n, ops[..|ops| - 1]);
      StepBalanced(f, op);
    }
  }

  lemma StepBalanced(f: Forest, op: Op)
    requires f.Valid() && op.Within(f.Size()) && Balanced(f)
    ensures Step(f, op).Valid() && Balanced(Step(f, op))
  {
    CompressBalanced(f, op.a);
    if op.Unite? {
      var g := Compress(f, op.a);
      CompressKeeps(f, op.a);
      CompressBalanced(g, op.b);
      CompressKeeps(g, op.b);
      var h := Compress(g, op.b);
      assert Root(h, Root(f, op.a)) == Root(f, op.a) && Root(h, Root(g, op.b)) == Root(g, op.b);
      LinkBalanced(h, Root(f, op.a), Root(g, op.b));
    }
  }

  lemma {:induction false} DepthRank(f: Forest, i: nat)
    requires f.Valid() && i < f.Size()
    ensures Depth(f, i) <= f.rank[Root(f, i)] - f.rank[i]
    decreases Max(f.rank) - f.rank[i]
  {
    if f.parent[i] != i {
      DepthRank(f, f.parent[i]);
    }
  }

  /** In every reachable forest the walk from any node to its root has at most log2(n) edges. */
  lemma WalkIsLogarithmic(n: nat, ops: seq<Op>, i: nat)
    requires AllWithin(ops, n) && i < n
    ensures Pow2(Depth(Run(n, ops), i)) <= |Members(Run(n, ops), Root(Run(n, ops), i))| <= n
  {
    var f := Run(n, ops);
    var r := Root(f, i);
    RunBalanced(n, ops);
    DepthRank(f, i);
    Pow2Monotone(Depth(f, i), f.rank[r]);
    SubsetSize(Members(f, r), Range(n));
  }

  // ---------------------------------------------------------------------------
  // Counting roots
  // ---------------------------------------------------------------------------

  function Roots(f: Forest): set<nat> {
    set i: nat | i < f.Size() && f.parent[i] == i
  }

  /** How many unions joined two nodes that were not connected before. */
  ghost function Joins(n: nat, ops: seq<Op>): nat
    requires AllWithin(ops, n)
    decreases |ops|
  {
    if ops == [] then 0 else
      var rest, op := ops[..|ops| - 1], ops[|ops| - 1];
      Joins(n, rest) + (if op.Unite? && !Connected(rest, op.a, op.b) then 1 else 0)
  }

  lemma RootsByRoot(f: Forest, i: nat)
    requires f.Valid()
    ensures i in Roots(f) <==> i < f.Size() && Root(f, i) == i
  {
  }

  /** The roots that disappear in a step: the loser of a union of two classes. */
  function Lost(f: Forest, op: Op): set<nat>
    requires f.Valid() && op.Within(f.Size())
  {
    if op.Find? || Root(f, op.a) == Root(f, op.b) then {}
    else if Winner(f, Root(f, op.a), Root(f, op.b)) == Root(f, op.a) then {Root(f, op.b)} else {Root(f, op.a)}
  }

  lemma StepRootSet(f: Forest, op: Op)
    requires f.Valid() && op.Within(f.Size())
    ensures Step(f, op).Valid() && Roots(Step(f, op)) == Roots(f) - Lost(f, op)
    ensures Lost(f, op) <= Roots(f)
  {
    StepRoots(f, op);
    var g := Step(f, op);
    hide Step;
    forall i: nat
      ensures i in Roots(g) <==> i in Roots(f) - Lost(f, op)
    {
      RootsByRoot(f, i);
      RootsByRoot(g, i);
    }
  }

  lemma StepRootCount(f: Forest, op: Op)
    requires f.Valid() && op.Within(f.Size())
    ensures Step(f, op).Valid()
    ensures |Roots(Step(f, op))| == |Roots(f)| - (if op.Unite? && Root(f, op.a) != Root(f, op.b) then 1 else 0)
  {
    hide Step;
    StepRootSet(f, op);
    assert |Roots(f) - Lost(f, op)| == |Roots(f)| - |Lost(f, op)|;
  }

  /** num_roots counts down by one for every union of two different classes, and find never changes it. */
  lemma {:induction false} RootsCount(n: nat, ops: seq<Op>)
    requires AllWithin(ops, n)
    ensures |Roots(Run(n, ops))| == n - Joins(n, ops)
    decreases |ops|
  {
    if ops == [] {
      assert Roots(Singletons(n)) == Range(n);
    } else {
      var rest, op := ops[..|ops| - 1], ops[|ops| - 1];
      assert op.Within(n);
      RootsCount(n, rest);
      StepRootCount(Run(n, rest), op);
      if op.Unite? {
        SameRootIffConnected(n, rest, op.a, op.b);
      }
    }
  }

  ghost function ClassOf(n: nat, ops: seq<Op>, x: nat): set<nat> {
    set y: nat | y < n && Connected(ops, x, y)
  }

  ghost function Classes(n: nat, ops: seq<Op>): set<set<nat>> {
    set x: nat | x < n :: ClassOf(n, ops, x)
  }

  lemma {:induction false} ImageSize(n: nat, ops: seq<Op>, rs: set<nat>)
    requires AllWithin(ops, n) && rs <= Roots(Run(n, ops))
    ensures |set r | r in rs :: ClassOf(n, ops, r)| == |rs|
    decreases |rs|
  {
    if rs != {} {
      var r :| r in rs;
      var rest := rs - {r};
      ImageSize(n, ops, rest);
      var img := set s | s in rest :: ClassOf(n, ops, s);
      assert (set s | s in rs :: ClassOf(n, ops, s)) == img + {ClassOf(n, ops, r)};
      forall s | s in rest
        ensures ClassOf(n, ops, s) != ClassOf(n, ops, r)
      {
        SameRootIffConnected(n, ops, r, s);
        ConnectedReflexive(ops, s);
        assert s in ClassOf(n, ops, s) && s !in ClassOf(n, ops, r);
      }
    }
  }

  lemma ClassOfRoot(n: nat, ops: seq<Op>, x: nat)
    requires AllWithin(ops, n) && x < n
    ensures ClassOf(n, ops, x) == ClassOf(n, ops, Root(Run(n, ops), x))
  {
    var r := Root(Run(n, ops), x);
    forall y: nat | y < n
      ensures Connected(ops, x, y) <==> Connected(ops, r, y)
    {
      SameRootIffConnected(n, ops, x, y);
      SameRootIffConnected(n, ops, r, y);
    }
  }

  /** There are as many roots as equivalence classes. */
  lemma RootsAreClasses(n: nat, ops: seq<Op>)
    requires AllWithin(ops, n)
    ensures |Roots(Run(n, ops))| == |Classes(n, ops)|
  {
    var rs := Roots(Run(n, ops));
    ImageSize(n, ops, rs);
    forall x: nat | x < n
      ensures ClassOf(n, ops, x) in (set r | r in rs :: ClassOf(n, ops, r))
    {
      ClassOfRoot(n, ops, x);
      assert Root(Run(n, ops), x) in rs;
    }
    assert Classes(n, ops) == set r | r in rs :: ClassOf(n, ops, r);
  }
}
