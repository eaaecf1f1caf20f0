/** What a submission to the work queue of src/workqueue.c is owed, told from the actions of a run alone. */
module Submissions {
  import opened Basics
  import opened WorkQueues

  // ---------------------------------------------------------------------------
  // A new submission drops an old cancel request
  // ---------------------------------------------------------------------------

  /** Action k is a request to cancel w, and w was not submitted after it. */
  predicate Stands(actions: seq<Action>, w: Work, k: nat) {
    k < |actions| && actions[k] == Cancel(w) && Add(w) !in actions[k + 1..]
  }

  /** Some request to cancel w has not been followed by a submission of w. */
  ghost predicate Requested(actions: seq<Action>, w: Work) {
    exists k :: Stands(actions, w, k)
  }

  lemma StandsStep(actions: seq<Action>, a: Action, w: Work, k: nat)
    ensures k < |actions| ==> (Stands(actions + [a], w, k) <==> Stands(actions, w, k) && a != Add(w))
    ensures k >= |actions| ==> (Stands(actions + [a], w, k) <==> k == |actions| && a == Cancel(w))
  {
    if k < |actions| {
      assert (actions + [a])[k + 1..] == actions[k + 1..] + [a];
    }
  }

  lemma RequestedStep(actions: seq<Action>, a: Action, w: Work)
    ensures Requested(actions + [a], w) <==> a == Cancel(w) || (Requested(actions, w) && a != Add(w))
  {
    hide Stands;
    if a == Cancel(w) {
      StandsStep(actions, a, w, |actions|);
    }
    if Requested(actions, w) && a != Add(w) {
      var k :| Stands(actions, w, k);
      StandsInside(actions, w, k);
      StandsStep(actions, a, w, k);
    }
    if Requested(actions + [a], w) && a != Cancel(w) {
      var k :| Stands(actions + [a], w, k);
      StandsStep(actions, a, w, k);
    }
  }

  lemma StandsInside(actions: seq<Action>, w: Work, k: nat)
    requires Stands(actions, w, k)
    ensures k < |actions|
  {
  }

  /** In every run an item counts as cancelled if and only if the request came after its last submission. */
  lemma {:induction false} CancelledExactly(workers: nat, actions: seq<Action>, s: State, w: Work)
    requires Reaches(Initial(workers), actions, s)
    ensures w in s.cancelled <==> Requested(actions, w)
    decreases |actions|
  {
    hide Requested, Do;
    if actions == [] {
      NothingRequested(w);
    } else {
      var n := |actions| - 1;
      var r :| Reaches(Initial(workers), actions[..n], r) && Enabled(r, actions[n]) && s == Do(r, actions[n]);
      CancelledExactly(workers, actions[..n], r, w);
      CancelledByStep(r, actions[n], w);
      RequestedStep(actions[..n], actions[n], w);
      assert actions[..n] + [actions[n]] == actions;
    }
  }

  lemma CancelledByStep(s: State, a: Action, w: Work)
    requires Enabled(s, a)
    ensures w in Do(s, a).cancelled <==> a == Cancel(w) || (w in s.cancelled && a != Add(w))
  {
  }

  lemma NothingRequested(w: Work)
    ensures !Requested([], w)
  {
  }

  // ---------------------------------------------------------------------------
  // What happens after a call of work_fn
  // ---------------------------------------------------------------------------

  /** Whether the action is a step of worker i. */
  predicate By(a: Action, i: nat) {
    !a.Add? && !a.Cancel? && a.i == i
  }

  /** What the latest call of work_fn by worker i returned, if that was its latest step. */
  function Result(actions: seq<Action>, i: nat): Option<int> {
    if actions == [] then None else
      var a := actions[|actions| - 1];
      if !By(a, i) then Result(actions[..|actions| - 1], i) else if a.Finish? then Some(a.rc) else None
  }

  lemma WorkerByStep(s: State, a: Action, i: nat)
    requires Enabled(s, a)
    ensures |Do(s, a).workers| == |s.workers|
    ensures i < |s.workers| && !By(a, i) ==> Do(s, a).workers[i] == s.workers[i]
    ensures i < |s.workers| && By(a, i) ==>
              if a.Finish? then Do(s, a).workers[i].Deciding? && Do(s, a).workers[i].rc == a.rc
              else !Do(s, a).workers[i].Deciding?
  {
  }

  /** A worker decides on what its call returned. */
  lemma {:induction false} DecidesOnResult(workers: nat, actions: seq<Action>, s: State, i: nat)
    requires Reaches(Initial(workers), actions, s) && i < |s.workers|
    ensures s.workers[i].Deciding? <==> Result(actions, i) != None
    ensures s.workers[i].Deciding? ==> Result(actions, i) == Some(s.workers[i].rc)
    decreases |actions|
  {
    hide Do;
    if actions != [] {
      var n := |actions| - 1;
      var r :| Reaches(Initial(workers), actions[..n], r) && Enabled(r, actions[n]) && s == Do(r, actions[n]);
      WorkerByStep(r, actions[n], i);
      DecidesOnResult(workers, actions[..n], r, i);
    }
  }

  ghost predicate NoneBy(actions: seq<Action>, i: nat) {
    forall k {:trigger actions[k]} :: 0 <= k < |actions| ==> !By(actions[k], i)
  }

  /** The next step of worker i puts w at the end of the backlog and leaves its status alone. */
  ghost predicate GoesBack(u: State, i: nat, w: Work) {
    && Enabled(u, Return(i)) && Do(u, Return(i)).backlog == u.backlog + [w]
    && Do(u, Return(i)).status == u.status && Do(u, Return(i)).workers == u.workers[i := Idle]
  }

  lemma {:induction false} StaysReturning(t: State, more: seq<Action>, u: State, i: nat, w: Work)
    requires i < |t.workers| && t.workers[i] == Returning(w) && Reaches(t, more, u)
    requires NoneBy(more, i)
    ensures i < |u.workers| && u.workers[i] == Returning(w)
    decreases |more|
  {
    hide Do, By;
    if more != [] {
      var n := |more| - 1;
      var r :| Reaches(t, more[..n], r) && Enabled(r, more[n]) && u == Do(r, more[n]);
      WorkerByStep(r, more[n], i);
      StaysReturning(t, more[..n], r, i, w);
    }
  }

  lemma HeldInRun(workers: nat, actions: seq<Action>, s: State, i: nat)
    requires Reaches(Initial(workers), actions, s) && i < |s.workers| && s.workers[i].Deciding?
    ensures s.workers[i].work in s.pending
  {
    hide Reaches;
    InitialInv(workers);
    RunKeeps(Initial(workers), actions, s);
    assert Holds(s, i, s.workers[i].work);
  }

  lemma DecideOutcome(s: State, i: nat)
    requires Enabled(s, Decide(i)) && s.workers[i].work in s.pending
    ensures var w, t := s.workers[i].work, Do(s, Decide(i));
      if s.workers[i].rc > 0 && w !in s.cancelled then
        t.completed == s.completed && t.status == s.status && w in t.pending
        && |t.workers| == |s.workers| && t.workers[i] == Returning(w)
      else
        t.completed == s.completed + [w] && w in t.status && t.status[w] == Complete && w !in t.pending
  {
  }

  lemma ReturnGoesBack(u: State, i: nat, w: Work)
    requires i < |u.workers| && u.workers[i] == Returning(w)
    ensures GoesBack(u, i, w)
  {
  }

  /**
   * When a call returned more than 0 and no cancel request came after the last submission, the item goes to the end
   * of the backlog, whatever happens before it gets there. Otherwise it is completed and done with.
   */
  lemma YieldExactly(workers: nat, actions: seq<Action>, s: State, i: nat)
    requires Reaches(Initial(workers), actions, s) && i < |s.workers| && s.workers[i].Deciding?
    ensures Result(actions, i) != None
    ensures var w, t := s.workers[i].work, Do(s, Decide(i));
      if Result(actions, i).value > 0 && !Requested(actions, w) then
        && t.completed == s.completed && t.status == s.status && w in t.pending
        && forall more, u :: Reaches(t, more, u) && NoneBy(more, i) ==> GoesBack(u, i, w)
      else
        t.completed == s.completed + [w] && w in t.status && t.status[w] == Complete && w !in t.pending
  {
    hide Do, Requested, Result, NoneBy, GoesBack, Reaches;
    var w, t := s.workers[i].work, Do(s, Decide(i));
    DecidesOnResult(workers, actions, s, i);
    CancelledExactly(workers, actions, s, w);
    HeldInRun(workers, actions, s, i);
    DecideOutcome(s, i);
    if Result(actions, i).value > 0 && !Requested(actions, w) {
      forall more, u | Reaches(t, more, u) && NoneBy(more, i)
        ensures GoesBack(u, i, w)
      {
        StaysReturning(t, more, u, i, w);
        ReturnGoesBack(u, i, w);
      }
    }
  }

  /**
   * An item with a cancel request after its last submission is completed when a worker has taken it; any other is left
   * as it is. Both are then started.
   */
  lemma CheckExactly(workers: nat, actions: seq<Action>, s: State, i: nat)
    requires Reaches(Initial(workers), actions, s) && Enabled(s, Check(i))
    ensures var w, t := s.workers[i].work, Do(s, Check(i));
      && t.workers == s.workers[i := Starting(w)] && t.backlog == s.backlog && t.pending == s.pending
      && if Requested(actions, w) then t.completed == s.completed + [w] && w in t.status && t.status[w] == Complete
         else t.completed == s.completed && t.status == s.status
  {
    hide Requested, Reaches;
    CancelledExactly(workers, actions, s, s.workers[i].work);
  }

  // ---------------------------------------------------------------------------
  // What the status says on the way
  // ---------------------------------------------------------------------------

  /** Queued until the first start, in progress from a start until the item is complete; never new. */
  ghost predicate Told(s: State) {
    && (forall w {:trigger s.status[w]} :: w in s.status ==> s.status[w] != New)
    && (forall i: nat, w {:trigger Holds(s, i, w)} ::
          Holds(s, i, w) && (s.workers[i].Running? || s.workers[i].Deciding? || s.workers[i].Returning?) ==>
            w in s.status && s.status[w] == InProgress)
    && (forall w {:trigger w in s.pending} :: w in s.pending && w !in s.started ==>
          w in s.status && (s.status[w] == Queued || s.status[w] == Complete))
    && (forall w {:trigger w in s.pending} :: w in s.pending ==> w in s.status)
  }

  lemma ToldStep(s: State, a: Action)
    requires Inv(s) && Told(s) && Enabled(s, a)
    ensures Told(Do(s, a))
  {
    hide InOnePlace;
    var t := Do(s, a);
    forall i: nat, w | Holds(t, i, w) && (t.workers[i].Running? || t.workers[i].Deciding? || t.workers[i].Returning?)
      ensures w in t.status && t.status[w] == InProgress
    {
      ToldOfHeld(s, a, i, w);
    }
    forall w | w in t.pending
      ensures w in t.status && (w !in t.started ==> t.status[w] == Queued || t.status[w] == Complete)
    {
      ToldOfPending(s, a, w);
    }
  }

  lemma ToldOfHeld(s: State, a: Action, i: nat, w: Work)
    requires Inv(s) && Told(s) && Enabled(s, a) && Holds(Do(s, a), i, w)
    requires Do(s, a).workers[i].Running? || Do(s, a).workers[i].Deciding? || Do(s, a).workers[i].Returning?
    ensures w in Do(s, a).status && Do(s, a).status[w] == InProgress
  {
    hide InOnePlace;
    assert Holds(s, i, w);
    if a.Add? {
      HeldIsPending(s, i, w);
    } else if !a.Cancel? && a.i != i && !s.workers[a.i].Idle? {
      OtherWork(s, a.i, i, w);
    }
  }

  lemma HeldIsPending(s: State, i: nat, w: Work)
    requires InOnePlace(s) && Holds(s, i, w)
    ensures w in s.pending
  {
  }

  lemma ToldOfPending(s: State, a: Action, w: Work)
    requires Told(s) && Enabled(s, a) && w in Do(s, a).pending
    ensures w in Do(s, a).status
    ensures w !in Do(s, a).started ==> Do(s, a).status[w] == Queued || Do(s, a).status[w] == Complete
  {
  }

  lemma {:induction false} RunTold(workers: nat, actions: seq<Action>, s: State)
    requires Reaches(Initial(workers), actions, s)
    ensures Told(s)
    decreases |actions|
  {
    hide Told, Inv, Do;
    if actions == [] {
      NothingTold(workers);
    } else {
      var n := |actions| - 1;
      var r :| Reaches(Initial(workers), actions[..n], r) && Enabled(r, actions[n]) && s == Do(r, actions[n]);
      InitialInv(workers);
      RunKeeps(Initial(workers), actions[..n], r);
      RunTold(workers, actions[..n], r);
      ToldStep(r, actions[n]);
    }
  }

  lemma NothingTold(workers: nat)
    ensures Told(Initial(workers))
  {
  }

  /**
   * In every run: an item that waits is queued if it was never started; it is in progress from its start until it is
   * put back; and no item that was submitted is new.
   */
  lemma StatusTells(workers: nat, actions: seq<Action>, s: State, w: Work)
    requires Reaches(Initial(workers), actions, s) && w in s.status
    ensures s.status[w] != New
    ensures w in s.backlog && w !in s.started ==> s.status[w] == Queued
    ensures Running(w) in s.workers || Returning(w) in s.workers ==> s.status[w] == InProgress
  {
    hide Do, Reaches;
    InitialInv(workers);
    RunKeeps(Initial(workers), actions, s);
    RunTold(workers, actions, s);
    NoStatus(workers);
    RunKeepsStatus(Initial(workers), actions, s);
    if i :| 0 <= i < |s.workers| && (s.workers[i] == Running(w) || s.workers[i] == Returning(w)) {
      assert Holds(s, i, w);
    }
  }

  lemma NoStatus(workers: nat)
    ensures StatusInv(Initial(workers))
  {
  }

  // ---------------------------------------------------------------------------
  // What the records count
  // ---------------------------------------------------------------------------

  /** The steps in which a worker calls work_fn. */
  function Calls(actions: seq<Action>): nat {
    if actions == [] then 0
    else Calls(actions[..|actions| - 1]) + if actions[|actions| - 1].Start? then 1 else 0
  }

  /** The steps in which an item is submitted, or put back by a worker. */
  function Puts(actions: seq<Action>): nat {
    if actions == [] then 0
    else
      var a := actions[|actions| - 1];
      Puts(actions[..|actions| - 1]) + if a.Add? || a.Return? then 1 else 0
  }

  /** Every call of work_fn is recorded, and every item put into the backlog is there or was taken out. */
  lemma {:induction false} RecordsCount(workers: nat, actions: seq<Action>, s: State)
    requires Reaches(Initial(workers), actions, s)
    ensures |s.started| == Calls(actions)
    ensures |s.taken| + |s.backlog| == |s.put| == Puts(actions)
    decreases |actions|
  {
    hide Do, Inv;
    InitialInv(workers);
    RunKeeps(Initial(workers), actions, s);
    PutIsTakenOrWaits(s);
    if actions != [] {
      var n := |actions| - 1;
      var r :| Reaches(Initial(workers), actions[..n], r) && Enabled(r, actions[n]) && s == Do(r, actions[n]);
      RecordsCount(workers, actions[..n], r);
      RecordsStep(r, actions[n]);
    }
  }

  lemma PutIsTakenOrWaits(s: State)
    requires Inv(s)
    ensures |s.put| == |s.taken| + |s.backlog|
  {
  }

  lemma RecordsStep(s: State, a: Action)
    requires Enabled(s, a)
    ensures |Do(s, a).started| == |s.started| + if a.Start? then 1 else 0
    ensures |Do(s, a).put| == |s.put| + if a.Add? || a.Return? then 1 else 0
  {
  }
}
