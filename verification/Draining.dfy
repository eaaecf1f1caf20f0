/** Draining a backlog of items with finite needs: no adds, no cancels, each item yielding until its last slice. */
module Draining {
  import opened WorkQueues

  /** The items of s wait in its backlog and nothing has been run; need says how many slices each one takes. */
  ghost predicate Loaded(s: State, need: multiset<Work>) {
    && Inv(s) && Unstarted(s) && s.pending == (set w | w in s.backlog)
    && (forall w {:trigger need[w]} :: need[w] > 0 <==> w in s.backlog)
  }

  ghost predicate Unstarted(s: State) {
    && s.cancelled == {} && s.started == [] && s.completed == []
    && (forall i {:trigger s.workers[i]} :: 0 <= i < |s.workers| ==> s.workers[i].Idle?)
  }

  /** work_fn asks for another slice exactly when it has been called less often than its item needs. */
  ghost predicate Obeys(s: State, need: multiset<Work>, a: Action) {
    match a
    case Add(_) => false
    case Cancel(_) => false
    case Finish(i, rc) => i < |s.workers| && s.workers[i].Running?
        && (rc > 0 <==> Starts(s, s.workers[i].work) < need[s.workers[i].work])
    case _ => true
  }

  ghost predicate Drains(s: State, need: multiset<Work>, actions: seq<Action>, t: State) {
    if actions == [] then t == s
    else
      var n := |actions| - 1;
      exists r :: Drains(s, need, actions[..n], r) && Enabled(r, actions[n]) && Obeys(r, need, actions[n])
          && t == Do(r, actions[n])
  }

  predicate Drained(s: State) {
    s.backlog == [] && forall i {:trigger s.workers[i]} :: 0 <= i < |s.workers| ==> s.workers[i].Idle?
  }

  /** The calls of complete_fn for w. */
  function Ends(s: State, w: Work): nat {
    multiset(s.completed)[w]
  }

  /** A pending item with slices to go. */
  ghost predicate Unfinished(s: State, need: multiset<Work>, w: Work) {
    Starts(s, w) < need[w] && Ends(s, w) == 0
  }

  ghost predicate WorkerInv(s: State, need: multiset<Work>, i: nat)
    requires i < |s.workers|
  {
    match s.workers[i]
    case Idle => true
    case Checking(w) => Unfinished(s, need, w)
    case Starting(w) => Unfinished(s, need, w)
    case Running(w) => 0 < need[w] && Starts(s, w) <= need[w] && Ends(s, w) == 0
    case Deciding(w, rc) => 0 < need[w] && Starts(s, w) <= need[w] && Ends(s, w) == 0
        && (rc > 0 <==> Starts(s, w) < need[w])
    case Returning(w) => Unfinished(s, need, w)
  }

  /** What is true of an item that is not pending: it has had all its slices and was completed once. */
  ghost predicate Done(s: State, need: multiset<Work>, w: Work) {
    && Starts(s, w) == need[w] && Ends(s, w) == (if need[w] > 0 then 1 else 0)
    && (need[w] > 0 ==> w in s.status && s.status[w] == Complete)
  }

  ghost predicate DrainInv(s: State, need: multiset<Work>) {
    && Inv(s) && s.cancelled == {}
    && (forall i {:trigger WorkerInv(s, need, i)} :: 0 <= i < |s.workers| ==> WorkerInv(s, need, i))
    && (forall w {:trigger Unfinished(s, need, w)} :: w in s.backlog ==> Unfinished(s, need, w))
    && (forall w {:trigger Done(s, need, w)} :: w !in s.pending ==> Done(s, need, w))
  }

  /** The submissions of these items, in order. */
  function Adds(items: seq<Work>): (actions: seq<Action>)
    ensures |actions| == |items|
  {
    seq(|items|, i requires 0 <= i < |items| => Add(items[i]))
  }

  lemma AddOne(s: State, w: Work)
    requires Inv(s) && Unstarted(s) && s.pending == (set v | v in s.backlog) && w !in s.backlog
    ensures Enabled(s, Add(w)) && Inv(Do(s, Add(w))) && Unstarted(Do(s, Add(w)))
    ensures Do(s, Add(w)).pending == (set v | v in Do(s, Add(w)).backlog)
    ensures Do(s, Add(w)).backlog == s.backlog + [w] && Do(s, Add(w)).workers == s.workers
  {
    hide Inv;
    StepKeeps(s, Add(w));
  }

  lemma {:induction false} AddAll(workers: nat, items: seq<Work>) returns (s: State)
    requires forall j, k {:trigger items[j], items[k]} :: 0 <= j < k < |items| ==> items[j] != items[k]
    ensures Reaches(Initial(workers), Adds(items), s) && Inv(s) && Unstarted(s)
    ensures s.backlog == items && s.pending == (set w | w in items) && |s.workers| == workers
  {
    hide Inv, Do, Enabled, Reaches, Unstarted;
    if items == [] {
      s := Initial(workers);
      InitialUnstarted(workers);
    } else {
      var n := |items| - 1;
      var r := AddAll(workers, items[..n]);
      assert items[n] !in items[..n];
      AddOne(r, items[n]);
      s := Do(r, Add(items[n]));
      assert Adds(items) == Adds(items[..n]) + [Add(items[n])];
      var more;
      more, s := Follow(Initial(workers), Adds(items[..n]), r, Add(items[n]));
      assert items == items[..n] + [items[n]];
    }
  }

  lemma InitialUnstarted(workers: nat)
    ensures Inv(Initial(workers)) && Unstarted(Initial(workers)) && Reaches(Initial(workers), [], Initial(workers))
    ensures Initial(workers).backlog == [] && Initial(workers).pending == {} && |Initial(workers).workers| == workers
  {
    InitialInv(workers);
    ReachesNothing(Initial(workers));
  }

  /** Submitting any different items to idle workers leads to such a state. */
  lemma AddsLoad(workers: nat, items: seq<Work>, need: multiset<Work>) returns (s: State)
    requires forall j, k {:trigger items[j], items[k]} :: 0 <= j < k < |items| ==> items[j] != items[k]
    requires forall w {:trigger need[w]} :: need[w] > 0 <==> w in items
    ensures Reaches(Initial(workers), Adds(items), s) && Loaded(s, need) && s.backlog == items && |s.workers| == workers
  {
    hide Inv, Reaches, Unstarted;
    s := AddAll(workers, items);
  }

  lemma LoadedInv(s: State, need: multiset<Work>)
    requires Loaded(s, need)
    ensures DrainInv(s, need)
  {
    assert multiset(s.started) == multiset(s.completed) == multiset{};
    forall i | 0 <= i < |s.workers|
      ensures WorkerInv(s, need, i)
    {
    }
    forall w | w in s.backlog
      ensures Unfinished(s, need, w)
    {
      assert need[w] > 0;
    }
    forall w | w !in s.pending
      ensures Done(s, need, w)
    {
      assert need[w] == 0 || w in s.backlog;
    }
  }

  /** The item a worker's step is about. */
  ghost predicate Acts(s: State, a: Action, w: Work) {
    !a.Add? && !a.Cancel? && Holds(s, a.i, w)
  }

  lemma CountsStep(s: State, need: multiset<Work>, a: Action, w: Work)
    requires AtStage(s, a) && Obeys(s, need, a) && s.cancelled == {}
    ensures Starts(Do(s, a), w) == Starts(s, w) + if a.Start? && Acts(s, a, w) then 1 else 0
    ensures Ends(Do(s, a), w) == Ends(s, w) + if a.Decide? && s.workers[a.i].rc <= 0 && Acts(s, a, w) then 1 else 0
  {
  }

  lemma WorkerStep(s: State, need: multiset<Work>, a: Action, j: nat)
    requires DrainInv(s, need) && Enabled(s, a) && Obeys(s, need, a) && j < |s.workers|
    ensures |Do(s, a).workers| == |s.workers| && WorkerInv(Do(s, a), need, j)
  {
    hide InOnePlace, Starts, Ends;
    var t := Do(s, a);
    assert WorkerInv(s, need, j);
    if !t.workers[j].Idle? {
      var w := t.workers[j].work;
      CountsStep(s, need, a, w);
      if j != a.i && !s.workers[a.i].Idle? {
        assert Holds(s, j, w);
        OtherWork(s, a.i, j, w);
      }
      if a.Take? && j == a.i {
        assert w in s.backlog && Unfinished(s, need, w);
      }
    }
  }

  lemma BacklogStep(s: State, need: multiset<Work>, a: Action, w: Work)
    requires DrainInv(s, need) && Enabled(s, a) && Obeys(s, need, a) && w in Do(s, a).backlog
    ensures Unfinished(Do(s, a), need, w)
  {
    hide InOnePlace, Starts, Ends;
    CountsStep(s, need, a, w);
    assert Unfinished(s, need, w) || w !in s.backlog;
    if Acts(s, a, w) {
      assert WorkerInv(s, need, a.i);
      HeldNotWaiting(s, a.i, w);
    }
  }

  lemma HeldNotWaiting(s: State, i: nat, w: Work)
    requires InOnePlace(s) && Holds(s, i, w)
    ensures w in s.pending && w !in s.backlog
  {
  }

  lemma DoneStep(s: State, need: multiset<Work>, a: Action, w: Work)
    requires DrainInv(s, need) && Enabled(s, a) && Obeys(s, need, a) && w !in Do(s, a).pending
    ensures Done(Do(s, a), need, w)
  {
    hide InOnePlace, Starts, Ends;
    CountsStep(s, need, a, w);
    if Acts(s, a, w) {
      assert WorkerInv(s, need, a.i);
      HeldNotWaiting(s, a.i, w);
    } else {
      assert Done(s, need, w);
    }
  }

  lemma DrainStep(s: State, need: multiset<Work>, a: Action)
    requires DrainInv(s, need) && Enabled(s, a) && Obeys(s, need, a)
    ensures DrainInv(Do(s, a), need)
  {
    hide InOnePlace, Done, Unfinished, WorkerInv, Do;
    var t := Do(s, a);
    StepKeeps(s, a);
    forall j | 0 <= j < |t.workers|
      ensures WorkerInv(t, need, j)
    {
      SameWorkers(s, a);
      WorkerStep(s, need, a, j);
    }
    forall w | w in t.backlog
      ensures Unfinished(t, need, w)
    {
      BacklogStep(s, need, a, w);
    }
    forall w | w !in t.pending
      ensures Done(t, need, w)
    {
      DoneStep(s, need, a, w);
    }
    SameWorkers(s, a);
    NoneCancelled(s, need, a);
  }

  lemma NoneCancelled(s: State, need: multiset<Work>, a: Action)
    requires AtStage(s, a) && Obeys(s, need, a) && s.cancelled == {}
    ensures Do(s, a).cancelled == {}
  {
  }

  lemma SameWorkers(s: State, a: Action)
    requires AtStage(s, a)
    ensures |Do(s, a).workers| == |s.workers|
  {
  }

  lemma {:induction false} DrainKeeps(s: State, need: multiset<Work>, actions: seq<Action>, t: State)
    requires DrainInv(s, need) && Drains(s, need, actions, t)
    ensures DrainInv(t, need) && |t.workers| == |s.workers|
  {
    hide DrainInv, Do, Obeys;
    if actions != [] {
      var n := |actions| - 1;
      var r :| Drains(s, need, actions[..n], r) && Enabled(r, actions[n]) && Obeys(r, need, actions[n])
          && t == Do(r, actions[n]);
      DrainKeeps(s, need, actions[..n], r);
      DrainStep(r, need, actions[n]);
      SameWorkers(r, actions[n]);
    }
  }

  lemma {:induction false} OccursOnce(s: seq<Work>, w: Work)
    requires w in s && forall j, k {:trigger s[j], s[k]} :: 0 <= j < k < |s| ==> s[j] != s[k]
    ensures multiset(s)[w] == 1
  {
    var n := |s| - 1;
    assert s == s[..n] + [s[n]];
    if s[n] == w {
      assert w !in s[..n];
    } else {
      OccursOnce(s[..n], w);
    }
  }

  lemma NothingPending(s: State, need: multiset<Work>, w: Work)
    requires DrainInv(s, need) && Drained(s)
    ensures Done(s, need, w)
  {
    if w in s.pending {
      assert false;
    }
  }

  lemma DoneCounts(s: State, t: State, need: multiset<Work>, w: Work)
    requires Loaded(s, need) && Done(t, need, w)
    ensures multiset(t.started)[w] == need[w] && multiset(t.completed)[w] == multiset(s.backlog)[w]
    ensures w in s.backlog ==> w in t.status && t.status[w] == Complete
  {
    assert need[w] > 0 <==> w in s.backlog;
    if w in s.backlog {
      OccursOnce(s.backlog, w);
    }
  }

  /** However the workers interleave, draining costs exactly the needed calls and completes every item once. */
  lemma DrainsExactly(s: State, need: multiset<Work>, actions: seq<Action>, t: State)
    requires Loaded(s, need) && Drains(s, need, actions, t) && Drained(t)
    ensures multiset(t.started) == need && |t.started| == |need|
    ensures multiset(t.completed) == multiset(s.backlog)
    ensures forall w :: w in s.backlog ==> w in t.status && t.status[w] == Complete
  {
    hide *;
    LoadedInv(s, need);
    DrainKeeps(s, need, actions, t);
    forall w: Work
      ensures multiset(t.started)[w] == need[w] && multiset(t.completed)[w] == multiset(s.backlog)[w]
      ensures w in s.backlog ==> w in t.status && t.status[w] == Complete
    {
      NothingPending(t, need, w);
      DoneCounts(s, t, need, w);
    }
    assert |multiset(t.started)| == |t.started|;
  }

  // ---------------------------------------------------------------------------
  // Draining ends
  // ---------------------------------------------------------------------------

  function Weight(worker: Worker): nat {
    match worker
    case Idle => 2
    case Checking(_) => 1
    case Starting(_) => 0
    case Running(_) => 5
    case Deciding(_, _) => 4
    case Returning(_) => 3
  }

  function Weights(workers: seq<Worker>): nat {
    if workers == [] then 0 else Weights(workers[..|workers| - 1]) + Weight(workers[|workers| - 1])
  }

  lemma {:induction false} WeightsUpdate(workers: seq<Worker>, i: nat, to: Worker)
    requires i < |workers|
    ensures Weights(workers[i := to]) == Weights(workers) - Weight(workers[i]) + Weight(to)
  {
    var n := |workers| - 1;
    if i == n {
      assert workers[i := to][..n] == workers[..n];
    } else {
      assert workers[i := to][..n] == workers[..n][i := to];
      WeightsUpdate(workers[..n], i, to);
    }
  }

  /** A bound on the steps still to come, six for each call not yet made. */
  function StepsLeft(s: State, need: multiset<Work>): int {
    6 * (|need| - |s.started|) + Weights(s.workers)
  }

  /** Every step but a look at the empty backlog brings the end nearer. */
  lemma StepsDecrease(s: State, need: multiset<Work>, a: Action)
    requires AtStage(s, a) && Obeys(s, need, a)
    ensures Do(s, a) == s || StepsLeft(Do(s, a), need) < StepsLeft(s, need)
    ensures Do(s, a) == s ==> a.Take? && s.backlog == []
  {
    hide Weights;
    WeightsUpdate(s.workers, a.i, Do(s, a).workers[a.i]);
    assert s.workers[a.i := Do(s, a).workers[a.i]] == Do(s, a).workers;
    assert Do(s, a).workers[a.i] == s.workers[a.i] ==> a.Take? && s.backlog == [];
  }

  lemma StartsWithinNeed(s: State, need: multiset<Work>, w: Work)
    requires DrainInv(s, need)
    ensures Starts(s, w) <= need[w]
  {
    if w !in s.pending {
      assert Done(s, need, w);
    } else if w in s.backlog {
      assert Unfinished(s, need, w);
    } else {
      var i :| Holds(s, i, w);
      assert WorkerInv(s, need, i);
    }
  }

  lemma CardinalityWithin(a: multiset<Work>, b: multiset<Work>)
    requires a <= b
    ensures |a| <= |b|
  {
    assert b == a + (b - a);
  }

  lemma StepsBounded(s: State, need: multiset<Work>)
    requires DrainInv(s, need)
    ensures StepsLeft(s, need) >= 0
  {
    forall w: Work
      ensures multiset(s.started)[w] <= need[w]
    {
      StartsWithinNeed(s, need, w);
    }
    CardinalityWithin(multiset(s.started), need);
  }

  /** As long as something is left to do, some worker has a step that brings the end nearer. */
  lemma SomeoneMoves(s: State, need: multiset<Work>) returns (a: Action)
    requires !Drained(s) && |s.workers| > 0
    ensures Enabled(s, a) && Obeys(s, need, a) && Do(s, a) != s
  {
    var i :| 0 <= i < |s.workers| && (s.workers[i].Idle? ==> s.backlog != []);
    match s.workers[i]
    case Idle => a := Take(i);
    case Checking(_) => a := Check(i);
    case Starting(_) => a := Start(i);
    case Running(w) => a := Finish(i, if Starts(s, w) < need[w] then 1 else 0);
    case Deciding(_, _) => a := Decide(i);
    case Returning(_) => a := Return(i);
    assert Do(s, a).workers[i] != s.workers[i];
  }

  lemma DrainsOneMore(s: State, need: multiset<Work>, actions: seq<Action>, r: State, a: Action)
    requires Drains(s, need, actions, r) && Enabled(r, a) && Obeys(r, need, a)
    ensures Drains(s, need, actions + [a], Do(r, a))
  {
    hide Do, Obeys, Enabled;
    assert (actions + [a])[..|actions|] == actions;
  }

  /** Every run of a drain can be carried on to its end, within the bound. */
  lemma {:induction false} DrainEnds(s: State, need: multiset<Work>, actions: seq<Action>, r: State)
      returns (more: seq<Action>, t: State)
    requires Loaded(s, need) && |s.workers| > 0 && Drains(s, need, actions, r)
    ensures actions <= more && Drains(s, need, more, t) && Drained(t)
    ensures |more| <= |actions| + StepsLeft(r, need)
    decreases StepsLeft(r, need)
  {
    hide Loaded, DrainInv, Drained, StepsLeft, Do, Obeys, Drains;
    LoadedInv(s, need);
    DrainKeeps(s, need, actions, r);
    StepsBounded(r, need);
    if Drained(r) {
      return actions, r;
    }
    var a := SomeoneMoves(r, need);
    StepsDecrease(r, need, a);
    DrainsOneMore(s, need, actions, r, a);
    DrainKeeps(s, need, actions + [a], Do(r, a));
    StepsBounded(Do(r, a), need);
    more, t := DrainEnds(s, need, actions + [a], Do(r, a));
  }
}
