/** What happens to a work item of src/workqueue.c once its cancellation has been requested. */
module Cancelling {
  import opened WorkQueues

  /** Whether a worker at this point of its loop may call work_fn before it next reads the requests. */
  predicate ToStart(worker: Worker) {
    worker.Checking? || worker.Starting? || worker.Returning?
  }

  /** Whether an item whose cancellation has been requested can still be started. */
  ghost predicate MayStart(s: State, w: Work) {
    w in s.backlog || exists i: nat :: Holds(s, i, w) && ToStart(s.workers[i])
  }

  /** The starts so far and the one that may still come. */
  ghost function StartBudget(s: State, w: Work): nat {
    Starts(s, w) + if MayStart(s, w) then 1 else 0
  }

  /** Starting an item uses up its one start: nobody else holds it. */
  lemma CancelledStart(s: State, i: nat, w: Work)
    requires Inv(s) && Enabled(s, Start(i)) && s.workers[i].work == w
    ensures MayStart(s, w) && !MayStart(Do(s, Start(i)), w)
  {
    var t := Do(s, Start(i));
    assert Holds(s, i, w) && ToStart(s.workers[i]);
    forall j: nat | Holds(t, j, w)
      ensures !ToStart(t.workers[j])
    {
      assert Holds(s, j, w);
    }
  }

  /** No other step lets a cancelled item start that could not before. */
  lemma CancelledOther(s: State, a: Action, w: Work)
    requires Enabled(s, a) && w in s.cancelled && a != Add(w) && MayStart(Do(s, a), w)
    ensures MayStart(s, w)
  {
    var t := Do(s, a);
    if w in t.backlog {
      if a.Return? && s.workers[a.i].work == w {
        assert Holds(s, a.i, w) && ToStart(s.workers[a.i]);
      }
    } else {
      var j: nat :| Holds(t, j, w) && ToStart(t.workers[j]);
      if s.workers[j] == t.workers[j] {
        assert Holds(s, j, w);
      } else if !a.Take? {
        assert Holds(s, j, w) && ToStart(s.workers[j]);
      }
    }
  }

  lemma CancelledStep(s: State, a: Action, w: Work)
    requires Inv(s) && Enabled(s, a) && w in s.cancelled && a != Add(w)
    ensures w in Do(s, a).cancelled && StartBudget(Do(s, a), w) <= StartBudget(s, w)
  {
    hide Inv, MayStart;
    if MayStart(Do(s, a), w) {
      CancelledOther(s, a, w);
    }
    if a.Start? && s.workers[a.i].work == w {
      CancelledStart(s, a.i, w);
    }
  }

  lemma {:induction false} BudgetKept(s: State, w: Work, actions: seq<Action>, t: State)
    requires Inv(s) && w in s.cancelled && Reaches(s, actions, t) && Add(w) !in actions
    ensures w in t.cancelled && StartBudget(t, w) <= StartBudget(s, w)
  {
    hide Do, Inv, StartBudget;
    if actions != [] {
      var n := |actions| - 1;
      var r :| Reaches(s, actions[..n], r) && Enabled(r, actions[n]) && t == Do(r, actions[n]);
      RunKeeps(s, actions[..n], r);
      BudgetKept(s, w, actions[..n], r);
      CancelledStep(r, actions[n], w);
    }
  }

  /** A cancelled item that cannot start any more never does, and never waits again, unless it is added anew. */
  lemma GoneForGood(s: State, w: Work, actions: seq<Action>, t: State)
    requires Inv(s) && w in s.cancelled && !MayStart(s, w) && Reaches(s, actions, t) && Add(w) !in actions
    ensures Starts(t, w) == Starts(s, w) && !MayStart(t, w) && w !in t.backlog
  {
    hide Inv, Reaches;
    BudgetKept(s, w, actions, t);
    StartsGrow(s, w, actions, t);
  }

  lemma StartsGrow(s: State, w: Work, actions: seq<Action>, t: State)
    requires Reaches(s, actions, t)
    ensures Starts(s, w) <= Starts(t, w)
  {
    hide Reaches;
    HistoriesGrow(s, actions, t);
    assert t.started == s.started + t.started[|s.started|..];
  }

  /**
   * After its cancellation is requested an item is started at most once more; once it has been, or if it could
   * not be, it is not started again and never waits again.
   */
  lemma CancelBound(s: State, w: Work, actions: seq<Action>, t: State)
    requires Inv(s) && Reaches(Do(s, Cancel(w)), actions, t) && Add(w) !in actions
    ensures Starts(s, w) <= Starts(t, w) <= Starts(s, w) + if MayStart(s, w) then 1 else 0
    ensures Starts(t, w) > Starts(s, w) || !MayStart(s, w) ==> !MayStart(t, w) && w !in t.backlog
  {
    hide Inv, Reaches;
    var c := Do(s, Cancel(w));
    StepKeeps(s, Cancel(w));
    SameWhenCancelled(s, w);
    BudgetKept(c, w, actions, t);
    StartsGrow(c, w, actions, t);
  }

  lemma SameWhenCancelled(s: State, w: Work)
    ensures MayStart(Do(s, Cancel(w)), w) <==> MayStart(s, w)
    ensures Starts(Do(s, Cancel(w)), w) == Starts(s, w)
  {
    var c := Do(s, Cancel(w));
    forall i: nat
      ensures Holds(c, i, w) <==> Holds(s, i, w)
    {
    }
  }

  // ---------------------------------------------------------------------------
  // The start that is still possible does happen in some run
  // ---------------------------------------------------------------------------

  /** A worker that holds the item before its start starts it. */
  lemma HeldStarts(s: State, actions: seq<Action>, r: State, w: Work, i: nat) returns (more: seq<Action>, t: State)
    requires Reaches(s, actions, r) && Holds(r, i, w) && (r.workers[i].Checking? || r.workers[i].Starting?)
    requires Add(w) !in actions
    ensures Reaches(s, more, t) && Add(w) !in more && Starts(t, w) == Starts(r, w) + 1
  {
    hide Reaches;
    more, t := actions, r;
    if r.workers[i].Checking? {
      more, t := Follow(s, more, t, Check(i));
    }
    more, t := Follow(s, more, t, Start(i));
  }

  /** How far a worker is from being idle. */
  function ToIdle(worker: Worker): nat {
    match worker
    case Idle => 0
    case Returning(_) => 1
    case Deciding(_, _) => 2
    case Running(_) => 3
    case Starting(_) => 4
    case Checking(_) => 5
  }

  /** The next step of the first worker; its work_fn is done at once. */
  function FirstWorkerStep(s: State): Action
    requires |s.workers| > 0
  {
    match s.workers[0]
    case Idle => Take(0)
    case Returning(_) => Return(0)
    case Deciding(_, _) => Decide(0)
    case Running(_) => Finish(0, 0)
    case Starting(_) => Start(0)
    case Checking(_) => Check(0)
  }

  /** A step of the first worker brings it nearer to taking the item that waits at k. */
  lemma FirstWorkerMoves(s: State, w: Work, k: nat)
    requires Inv(s) && |s.workers| > 0 && k < |s.backlog| && s.backlog[k] == w
    requires s.workers[0].Idle? ==> k > 0
    ensures var a := FirstWorkerStep(s); var t, l := Do(s, a), if s.workers[0].Idle? then k - 1 else k;
      && Enabled(s, a) && a != Add(w) && |t.workers| > 0 && Starts(t, w) == Starts(s, w)
      && l < |t.backlog| && t.backlog[l] == w && (!s.workers[0].Idle? ==> ToIdle(t.workers[0]) < ToIdle(s.workers[0]))
  {
    if !s.workers[0].Idle? {
      assert Holds(s, 0, s.workers[0].work);
    }
  }

  /** An item that waits is started in some run: the first worker takes what is in front of it. */
  lemma {:induction false} WaitingStarts(s: State, actions: seq<Action>, r: State, w: Work, k: nat)
      returns (more: seq<Action>, t: State)
    requires Inv(r) && |r.workers| > 0 && Reaches(s, actions, r) && Add(w) !in actions
    requires k < |r.backlog| && r.backlog[k] == w
    ensures Reaches(s, more, t) && Add(w) !in more && Starts(t, w) == Starts(r, w) + 1
    decreases k, ToIdle(r.workers[0])
  {
    hide Reaches, Inv;
    if r.workers[0].Idle? && k == 0 {
      more, t := Follow(s, actions, r, Take(0));
      more, t := HeldStarts(s, more, t, w, 0);
    } else {
      var a := FirstWorkerStep(r);
      FirstWorkerMoves(r, w, k);
      StepKeeps(r, a);
      more, t := Follow(s, actions, r, a);
      more, t := WaitingStarts(s, more, t, w, if r.workers[0].Idle? then k - 1 else k);
    }
  }

  lemma SomeRunStarts(s: State, w: Work) returns (actions: seq<Action>, t: State)
    requires Inv(s) && |s.workers| > 0 && MayStart(s, w)
    ensures Reaches(s, actions, t) && Add(w) !in actions && Starts(t, w) == Starts(s, w) + 1
  {
    hide Reaches, Inv;
    ReachesNothing(s);
    if w in s.backlog {
      var k :| 0 <= k < |s.backlog| && s.backlog[k] == w;
      actions, t := WaitingStarts(s, [], s, w, k);
    } else {
      var i: nat :| Holds(s, i, w) && ToStart(s.workers[i]);
      if s.workers[i].Returning? {
        StepKeeps(s, Return(i));
        actions, t := Follow(s, [], s, Return(i));
        actions, t := WaitingStarts(s, actions, t, w, |s.backlog|);
      } else {
        actions, t := HeldStarts(s, [], s, w, i);
      }
    }
  }

  /** A run from the cancel request on in which the item is started and not added anew. */
  ghost predicate Restarts(s: State, w: Work, actions: seq<Action>, t: State) {
    Reaches(Do(s, Cancel(w)), actions, t) && Add(w) !in actions && Starts(t, w) > Starts(s, w)
  }

  lemma {:induction false} NobodyStarts(s: State, actions: seq<Action>, t: State)
    requires |s.workers| == 0 && Reaches(s, actions, t)
    ensures |t.workers| == 0 && t.started == s.started
  {
    if actions != [] {
      var n := |actions| - 1;
      var r :| Reaches(s, actions[..n], r) && Enabled(r, actions[n]) && t == Do(r, actions[n]);
      NobodyStarts(s, actions[..n], r);
    }
  }

  /**
   * Exactly when a cancelled item can run again: while it waits, or a worker holds it between taking it and
   * starting it or between deciding to put it back and doing so.
   */
  lemma CancelExactly(s: State, w: Work)
    requires Inv(s)
    ensures |s.workers| > 0 && MayStart(s, w) <==> exists actions, t :: Restarts(s, w, actions, t)
  {
    hide Inv, Reaches, MayStart;
    var c := Do(s, Cancel(w));
    StepKeeps(s, Cancel(w));
    SameWhenCancelled(s, w);
    if |s.workers| > 0 && MayStart(s, w) {
      var actions, t := SomeRunStarts(c, w);
      assert Restarts(s, w, actions, t);
    } else {
      forall actions, t | Restarts(s, w, actions, t)
        ensures false
      {
        CancelBound(s, w, actions, t);
        if |s.workers| == 0 {
          NobodyStarts(c, actions, t);
        }
      }
    }
  }
}
