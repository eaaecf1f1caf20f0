/**
 * Who holds the units of src/slab.c. slab_free does not know its caller: a block freed a second time, after its
 * unit has been handed out again, takes the unit from its new holder.
 */
module SlabLeases {
  import opened Slabs

  /**
   * held are the units whose leased word is set. Every successful slab_alloc is a lease: issued gives the units in
   * order, and live are the leases not freed by their holders.
   */
  datatype State = State(held: set<nat>, issued: seq<nat>, live: set<nat>)

  /** Alloc, or the free of the block of a lease, by its holder for the first time or by anyone later. */
  datatype Action = Alloc | Free(lease: nat)

  /** The first unit from u on that is not held, or count. */
  function FirstFree(held: set<nat>, u: nat, count: nat): (f: nat)
    requires u <= count
    ensures u <= f <= count && (f < count ==> f !in held) && forall v: nat {:trigger v in held} :: u <= v < f ==>
        v in held
    decreases count - u
  {
    if u < count && u in held then FirstFree(held, u + 1, count) else u
  }

  predicate Enabled(s: State, a: Action) {
    a.Free? ==> a.lease < |s.issued|
  }

  function Do(s: State, count: nat, a: Action): State
    requires Enabled(s, a)
  {
    match a
    case Alloc =>
      var u := FirstFree(s.held, 0, count);
      if u == count then s else State(s.held + {u}, s.issued + [u], s.live + {|s.issued|})
    case Free(l) => State(s.held - {s.issued[l]}, s.issued, s.live - {l})
  }

  /** The first free unit is the one before which all are held. */
  lemma FirstFreeIs(held: set<nat>, count: nat, u: nat)
    requires u <= count && (u < count ==> u !in held) && forall v: nat {:trigger v in held} :: v < u ==> v in held
    ensures FirstFree(held, 0, count) == u
  {
  }

  /** A slab asked for this step holds the units that the leases say, and hands out the same ones. */
  method Perform(slab: Slab, s: State, a: Action) returns (ghost t: State, rc: int, block: nat)
    requires slab.Valid() && slab.held == s.held && Enabled(s, a)
    requires forall l {:trigger s.issued[l]} :: 0 <= l < |s.issued| ==> s.issued[l] < slab.count
    modifies slab.blob, slab`held, slab`used
    ensures slab.Valid() && t == Do(s, slab.count, a) && slab.held == t.held
    ensures a.Alloc? ==> if rc == 0 then t.issued != [] && block == slab.BlockOf(t.issued[|t.issued| - 1]) else t == s
    ensures a.Free? ==> block == slab.BlockOf(s.issued[a.lease])
  {
    hide Start, Word, WithWord, Slab.HeadersOk;
    t := Do(s, slab.count, a);
    if a.Alloc? {
      ghost var u;
      CountHeld(s.held, slab.count);
      rc, block, u := slab.Alloc();
      FirstFreeIs(s.held, slab.count, if rc == 0 then u else slab.count);
    } else {
      slab.BlocksApart(s.issued[a.lease], s.issued[a.lease]);
      block := slab.BlockOf(s.issued[a.lease]);
      rc := slab.Free(block);
    }
  }

  /** Two leases that have not been freed by their holders are of the same unit. */
  ghost predicate Shared(s: State) {
    exists l, m :: l in s.live && m in s.live && l != m && l < |s.issued| && m < |s.issued|
        && s.issued[l] == s.issued[m]
  }

  /** Exactly the units of live leases are held, each by one. */
  ghost predicate Sound(s: State) {
    && (forall l {:trigger l in s.live} :: l in s.live ==> l < |s.issued| && s.issued[l] in s.held)
    && (forall u {:trigger u in s.held} :: u in s.held ==>
        exists l :: l in s.live && l < |s.issued| && s.issued[l] == u)
    && !Shared(s)
  }

  /** A block is freed by one who no longer holds it, while its unit is somebody else's. */
  predicate Stale(s: State, a: Action) {
    a.Free? && a.lease < |s.issued| && a.lease !in s.live && s.issued[a.lease] in s.held
  }

  /** A lease of a unit that nobody holds. */
  lemma LeaseKeeps(s: State, u: nat)
    requires Sound(s) && u !in s.held
    ensures Sound(State(s.held + {u}, s.issued + [u], s.live + {|s.issued|}))
  {
    var n, t := |s.issued|, State(s.held + {u}, s.issued + [u], s.live + {|s.issued|});
    assert n !in s.live && t.issued[n] == u;
    forall v | v in t.held
      ensures exists l :: l in t.live && l < |t.issued| && t.issued[l] == v
    {
      if v == u {
        assert n in t.live && t.issued[n] == u;
      } else {
        var l :| l in s.live && l < |s.issued| && s.issued[l] == v;
        assert l in t.live && t.issued[l] == v;
      }
    }
    forall l, m | l in t.live && m in t.live && l < |t.issued| && m < |t.issued| && t.issued[l] == t.issued[m]
      ensures l == m
    {
      assert l != n ==> l in s.live && s.issued[l] in s.held;
      assert m != n ==> m in s.live && s.issued[m] in s.held;
    }
  }

  lemma AllocKeeps(s: State, count: nat)
    requires Sound(s)
    ensures Sound(Do(s, count, Alloc))
  {
    hide Sound;
    var u := FirstFree(s.held, 0, count);
    if u < count {
      LeaseKeeps(s, u);
    }
  }

  /** A free keeps the leases sound if and only if it is not stale. */
  lemma FreeExactly(s: State, count: nat, l: nat)
    requires Sound(s) && l < |s.issued|
    ensures Sound(Do(s, count, Free(l))) <==> !Stale(s, Free(l))
  {
    var u, t := s.issued[l], Do(s, count, Free(l));
    if Stale(s, Free(l)) {
      var m :| m in s.live && m < |s.issued| && s.issued[m] == u;
      assert m in t.live && t.issued[m] !in t.held;
    } else {
      forall v | v in t.held
        ensures exists m :: m in t.live && m < |t.issued| && t.issued[m] == v
      {
        var m :| m in s.live && m < |s.issued| && s.issued[m] == v;
        assert m in t.live && t.issued[m] == v;
      }
    }
  }

  /** The state after n more allocations. */
  function Allocs(s: State, count: nat, n: nat): State
    decreases n
  {
    if n == 0 then s else Allocs(Do(s, count, Alloc), count, n - 1)
  }

  lemma {:induction false} AllocsKeep(s: State, count: nat, n: nat)
    requires Sound(s)
    ensures Sound(Allocs(s, count, n))
    decreases n
  {
    if n > 0 {
      AllocKeeps(s, count);
      AllocsKeep(Do(s, count, Alloc), count, n - 1);
    }
  }

  /** A live lease whose unit is not held is joined by another after enough allocations. */
  lemma {:induction false} AllocsShare(s: State, count: nat, m: nat, from: nat) returns (n: nat)
    requires m in s.live && m < |s.issued| && from <= s.issued[m] < count && s.issued[m] !in s.held
    requires forall v: nat {:trigger v in s.held} :: v < from ==> v in s.held
    requires forall l {:trigger l in s.live} :: l in s.live ==> l < |s.issued|
    ensures Shared(Allocs(s, count, n))
    decreases s.issued[m] - from
  {
    var u, t := FirstFree(s.held, 0, count), Do(s, count, Alloc);
    assert u <= s.issued[m];
    assert t.issued[m] == s.issued[m];
    if u == s.issued[m] {
      assert |s.issued| in t.live && t.issued[|s.issued|] == t.issued[m] && |s.issued| != m;
      n := 1;
      assert Allocs(s, count, 1) == Allocs(t, count, 0);
    } else {
      n := AllocsShare(t, count, m, u + 1);
      n := n + 1;
    }
  }

  ghost predicate SharedAfter(s: State, count: nat, n: nat) {
    Shared(Allocs(s, count, n))
  }

  /**
   * From a sound state, a free lets two clients come to hold one unit, by allocations alone, if and only if it
   * frees a block its caller no longer holds while the unit has been handed out again.
   */
  lemma StaleExactly(s: State, count: nat, l: nat)
    requires Sound(s) && l < |s.issued|
    requires forall u {:trigger u in s.held} :: u in s.held ==> u < count
    ensures Stale(s, Free(l)) <==> exists n: nat :: SharedAfter(Do(s, count, Free(l)), count, n)
  {
    var t := Do(s, count, Free(l));
    FreeExactly(s, count, l);
    if Stale(s, Free(l)) {
      var m :| m in s.live && m < |s.issued| && s.issued[m] == s.issued[l];
      assert s.issued[m] < count;
      assert m != l && m in t.live && t.issued[m] !in t.held;
      var n := AllocsShare(t, count, m, 0);
      assert SharedAfter(t, count, n);
    } else {
      forall n: nat
        ensures !SharedAfter(t, count, n)
      {
        AllocsKeep(t, count, n);
      }
    }
  }

  // ---------------------------------------------------------------------------
  // Whole runs
  // ---------------------------------------------------------------------------

  /** The actions can be taken one after the other from s, and none is a stale free. */
  predicate Fair(s: State, count: nat, actions: seq<Action>)
    decreases |actions|
  {
    actions == [] || (Enabled(s, actions[0]) && !Stale(s, actions[0])
        && Fair(Do(s, count, actions[0]), count, actions[1..]))
  }

  function Run(s: State, count: nat, actions: seq<Action>): State
    requires Fair(s, count, actions)
    decreases |actions|
  {
    if actions == [] then s else Run(Do(s, count, actions[0]), count, actions[1..])
  }

  /** Without a stale free no unit is ever held by two. */
  lemma {:induction false} FairRuns(s: State, count: nat, actions: seq<Action>)
    requires Sound(s) && Fair(s, count, actions)
    ensures Sound(Run(s, count, actions)) && !Shared(Run(s, count, actions))
    decreases |actions|
  {
    if actions != [] {
      match actions[0] {
        case Alloc => AllocKeeps(s, count);
        case Free(l) => FreeExactly(s, count, l);
      }
      FairRuns(Do(s, count, actions[0]), count, actions[1..]);
    }
  }
}
