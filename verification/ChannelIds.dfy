/** When the ids that src/channel.c gives to open channels are different, and when they repeat. */
module ChannelIds {
  import opened Basics
  import opened Channels

  // ---------------------------------------------------------------------------
  // Whole runs
  // ---------------------------------------------------------------------------

  /** What a run does to the channels filed: a successful open, or a close. */
  datatype Step = Opens(c: Channel) | Closes(name: string)

  /** The channels filed and the counter after the steps, from an empty manager whose counter is at start. */
  function Filed(start: int, steps: seq<Step>): (map<string, Channel>, int) {
    if steps == [] then (map[], start) else
      var (model, n) := Filed(start, steps[..|steps| - 1]);
      match steps[|steps| - 1]
      case Opens(c) => (model[c.device := c], n + 1)
      case Closes(name) => (model - {name}, n - 1)
  }

  /** Steps that open and close can take: an open gets the next number, and nothing is opened or closed twice. */
  ghost predicate Possible(start: int, steps: seq<Step>) {
    forall k {:trigger steps[k]} :: 0 <= k < |steps| ==>
      var (model, n) := Filed(start, steps[..k]);
      if steps[k].Opens? then steps[k].c.device !in model && steps[k].c.id == n + 1 else steps[k].name in model
  }

  /** Whether nobody has the next number when step k opens a channel. */
  ghost predicate Guarded(start: int, steps: seq<Step>, k: nat)
    requires k < |steps|
  {
    var (model, n) := Filed(start, steps[..k]);
    steps[k].Opens? ==> IdFree(model, n + 1)
  }

  ghost predicate DistinctAt(start: int, steps: seq<Step>, k: nat)
    requires k <= |steps|
  {
    DistinctIds(Filed(start, steps[..k]).0)
  }

  lemma ClosingKeepsIds(model: map<string, Channel>, name: string)
    requires DistinctIds(model)
    ensures DistinctIds(model - {name})
  {
    var fewer := model - {name};
    assert forall n :: n in fewer ==> fewer[n] == model[n];
  }

  lemma DistinctStep(start: int, steps: seq<Step>, k: nat)
    requires Possible(start, steps) && k < |steps| && DistinctAt(start, steps, k)
    ensures DistinctAt(start, steps, k + 1) <==> Guarded(start, steps, k)
  {
    var (model, n) := Filed(start, steps[..k]);
    assert steps[..k + 1][..k] == steps[..k] && steps[..k + 1][k] == steps[k];
    match steps[k]
    case Opens(c) => OneMoreId(model, c);
    case Closes(name) => ClosingKeepsIds(model, name);
  }

  lemma {:induction false} DistinctWhileGuarded(start: int, steps: seq<Step>, k: nat)
    requires Possible(start, steps) && k <= |steps|
    requires forall j {:trigger Guarded(start, steps, j)} :: 0 <= j < k ==> Guarded(start, steps, j)
    ensures DistinctAt(start, steps, k)
  {
    if k > 0 {
      DistinctWhileGuarded(start, steps, k - 1);
      DistinctStep(start, steps, k - 1);
      assert Guarded(start, steps, k - 1);
    } else {
      assert steps[..0] == [];
    }
  }

  /** The open channels have different ids throughout a run if and only if no open takes a number in use. */
  lemma DistinctExactly(start: int, steps: seq<Step>)
    requires Possible(start, steps)
    ensures (forall k: nat {:trigger DistinctAt(start, steps, k)} :: k <= |steps| ==> DistinctAt(start, steps, k))
       <==> (forall k: nat {:trigger Guarded(start, steps, k)} :: k < |steps| ==> Guarded(start, steps, k))
  {
    if forall k: nat {:trigger DistinctAt(start, steps, k)} :: k <= |steps| ==> DistinctAt(start, steps, k) {
      forall k: nat | k < |steps|
        ensures Guarded(start, steps, k)
      {
        assert DistinctAt(start, steps, k) && DistinctAt(start, steps, k + 1);
        DistinctStep(start, steps, k);
      }
    } else if forall k: nat {:trigger Guarded(start, steps, k)} :: k < |steps| ==> Guarded(start, steps, k) {
      forall k: nat | k <= |steps|
        ensures DistinctAt(start, steps, k)
      {
        DistinctWhileGuarded(start, steps, k);
      }
    }
  }

  /** The steps can be asked of a manager: every channel opened is of a known type. */
  predicate KnownTypes(steps: seq<Step>) {
    forall k {:trigger steps[k]} :: 0 <= k < |steps| && steps[k].Opens? ==> steps[k].c.kind in {1, 2, 3, 4}
  }

  /** A manager asked to take these steps, with memory and working transports, files these channels. */
  method Replay(hash: string -> nat, garbage: int, steps: seq<Step>) returns (m: ChannelManager)
    requires Possible(garbage, steps) && KnownTypes(steps)
    ensures fresh(m) && fresh(m.channels) && fresh(m.channels.pool) && fresh(m.channels.items)
    ensures m.Valid() && (m.channels.model, m.openChannels) == Filed(garbage, steps)
    decreases |steps|
  {
    hide ChannelManager.Valid, DistinctIds, IdFree;
    if steps == [] {
      m := new ChannelManager(hash, garbage);
      return;
    }
    var n := |steps| - 1;
    PossibleBefore(garbage, steps);
    m := Replay(hash, garbage, steps[..n]);
    match steps[n]
    case Opens(c) =>
      var r := m.Open(c.kind, Some(c.device), c.speed, c.isServer, true, Some(c.data));
    case Closes(name) =>
      ghost var p, k;
      var r;
      r, p, k := m.Close(name);
  }

  lemma PossibleBefore(start: int, steps: seq<Step>)
    requires Possible(start, steps) && KnownTypes(steps) && steps != []
    ensures Possible(start, steps[..|steps| - 1]) && KnownTypes(steps[..|steps| - 1])
  {
    var before := steps[..|steps| - 1];
    assert forall k :: 0 <= k < |before| ==> before[..k] == steps[..k] && before[k] == steps[k];
  }

  // ---------------------------------------------------------------------------
  // Which closes leave the next number free
  // ---------------------------------------------------------------------------

  /** After a close the next number is the counter before it: free unless another channel has it. */
  lemma CloseGuards(model: map<string, Channel>, n: int, name: string)
    requires name in model
    ensures IdFree(model - {name}, n) <==> forall m {:trigger model[m]} :: m in model && model[m].id == n ==> m == name
    ensures DistinctIds(model) && model[name].id == n ==> IdFree(model - {name}, n)
  {
    var fewer := model - {name};
    assert forall m :: m in fewer ==> fewer[m] == model[m];
    forall m | m in model && m != name
      ensures m in fewer && fewer[m].id == model[m].id
    {
    }
  }

  /** The channels are numbered 1 to n, each number once. */
  ghost predicate Compact(model: map<string, Channel>, n: int) {
    |model| == n && DistinctIds(model) && forall m {:trigger model[m]} :: m in model ==> 1 <= model[m].id <= n
  }

  /** The names of the channels with a number up to n are no more than n. */
  lemma {:induction false} NumberedNames(model: map<string, Channel>, names: set<string>, n: nat)
    requires DistinctIds(model) && names <= model.Keys
    requires forall m {:trigger m in names} :: m in names ==> 1 <= model[m].id <= n
    ensures |names| <= n
    decreases n
  {
    if n == 0 {
      assert names == {};
    } else if m :| m in names && model[m].id == n {
      forall k | k in names - {m}
        ensures 1 <= model[k].id <= n - 1
      {
        assert model[k].id != model[m].id;
      }
      NumberedNames(model, names - {m}, n - 1);
    } else {
      NumberedNames(model, names, n - 1);
    }
  }

  /** In a compact numbering somebody has the last number. */
  lemma LastNumber(model: map<string, Channel>, n: int)
    requires Compact(model, n) && n > 0
    ensures exists m :: m in model && model[m].id == n
  {
    if !exists m :: m in model && model[m].id == n {
      NumberedNames(model, model.Keys, n - 1);
    }
  }

  lemma OpenKeepsCompact(model: map<string, Channel>, n: int, c: Channel)
    requires Compact(model, n) && c.device !in model && c.id == n + 1
    ensures Compact(model[c.device := c], n + 1)
  {
    hide DistinctIds;
    assert IdFree(model, n + 1);
    OneMoreId(model, c);
    CountOneMore(model, c);
  }

  /**
   * From a compact numbering, the close of exactly one channel keeps it, and the next open safe: the one with the last
   * number.
   */
  lemma CloseLastExactly(model: map<string, Channel>, n: int, name: string)
    requires Compact(model, n) && name in model
    ensures Compact(model - {name}, n - 1) <==> model[name].id == n
    ensures IdFree(model - {name}, n) <==> model[name].id == n
  {
    var fewer := model - {name};
    assert forall m :: m in fewer ==> fewer[m] == model[m];
    assert |fewer| == n - 1 by {
      assert fewer.Keys == model.Keys - {name};
      assert |fewer| == |fewer.Keys| && |model| == |model.Keys|;
    }
    CloseGuards(model, n, name);
    ClosingKeepsIds(model, name);
    LastNumber(model, n);
    var m :| m in model && model[m].id == n;
    if m == name {
      forall k | k in fewer
        ensures 1 <= fewer[k].id <= n - 1
      {
        assert model[k].id != model[m].id;
      }
    } else {
      assert fewer[m].id == n;
    }
  }

  // ---------------------------------------------------------------------------
  // A run in which an id repeats
  // ---------------------------------------------------------------------------

  /** Open a, open b, close a, open c: b and c are both open, with the same id. */
  method IdsRepeat(hash: string -> nat) returns (m: ChannelManager)
    ensures fresh(m) && m.Valid() && m.start == 0
    ensures "b" in m.channels.model && "c" in m.channels.model
    ensures m.channels.model["b"].id == m.channels.model["c"].id == 2 && !DistinctIds(m.channels.model)
  {
    hide ChannelManager.Valid, DistinctIds, IdFree;
    m := new ChannelManager(hash, 0);
    var r := m.Open(1, Some("a"), 0, false, true, Some(10));
    r := m.Open(1, Some("b"), 0, false, true, Some(11));
    ghost var p, k;
    r, p, k := m.Close("a");
    r := m.Open(1, Some("c"), 0, false, true, Some(12));
    SameId(m.channels.model, "b", "c");
  }

  lemma SameId(model: map<string, Channel>, m: string, n: string)
    requires m in model && n in model && m != n && model[m].id == model[n].id
    ensures !DistinctIds(model)
  {
  }
}
