/**
 * src/workqueue.c as a transition system: any number of workers, each at a point of its loop, share the
 * locked backlog. Everything done under the lock is one step.
 */
module WorkQueues {

  /** A work item's identity. */
  type Work = nat

  datatype Status = New | Queued | InProgress | Complete

  /** Where a worker is in the loop of workqueue_factory, and the item it holds there. */
  datatype Worker =
    | Idle
    | Checking(work: Work)
    | Starting(work: Work)
    | Running(work: Work)
    | Deciding(work: Work, rc: int)
    | Returning(work: Work)

  /**
   * backlog, count, status and cancelled are the shared state. The rest records the run: the items submitted
   * and not yet done with, the items put into and taken from the backlog, and the calls of work_fn and
   * complete_work, all in order.
   */
  datatype State = State(backlog: seq<Work>, count: int, workers: seq<Worker>,
                         status: map<Work, Status>, cancelled: set<Work>,
                         pending: set<Work>, put: seq<Work>, taken: seq<Work>,
                         started: seq<Work>, completed: seq<Work>)

  datatype Action =
    | Add(work: Work)
    | Cancel(work: Work)
    | Take(i: nat)
    | Check(i: nat)
    | Start(i: nat)
    | Finish(i: nat, rc: int)
    | Decide(i: nat)
    | Return(i: nat)

  function Initial(workers: nat): State {
    State([], 0, seq(workers, _ => Idle), map[], {}, {}, [], [], [], [])
  }

  predicate AtStage(s: State, a: Action) {
    match a
    case Add(_) => true
    case Cancel(_) => true
    case Take(i) => i < |s.workers| && s.workers[i].Idle?
    case Check(i) => i < |s.workers| && s.workers[i].Checking?
    case Start(i) => i < |s.workers| && s.workers[i].Starting?
    case Finish(i, _) => i < |s.workers| && s.workers[i].Running?
    case Decide(i) => i < |s.workers| && s.workers[i].Deciding?
    case Return(i) => i < |s.workers| && s.workers[i].Returning?
  }

  /** Only an item that is not already pending is added. */
  predicate Enabled(s: State, a: Action) {
    AtStage(s, a) && (a.Add? ==> a.work !in s.pending)
  }

  /** put_backlog */
  function Put(s: State, w: Work): State {
    s.(backlog := s.backlog + [w], count := s.count + 1, put := s.put + [w])
  }

  /** complete_work */
  function CompleteWork(s: State, w: Work): State {
    s.(status := s.status[w := Complete], completed := s.completed + [w])
  }

  function Move(s: State, i: nat, to: Worker): State
    requires i < |s.workers|
  {
    s.(workers := s.workers[i := to])
  }

  function Do(s: State, a: Action): State
    requires AtStage(s, a)
  {
    match a
    case Add(w) =>
      Put(s.(status := s.status[w := Queued], cancelled := s.cancelled - {w}, pending := s.pending + {w}), w)
    case Cancel(w) => s.(cancelled := s.cancelled + {w})
    case Take(i) =>
      if s.backlog == [] then s else
        var w := s.backlog[0];
        Move(s.(backlog := s.backlog[1..], count := s.count - 1, taken := s.taken + [w]), i, Checking(w))
    case Check(i) =>
      var w := s.workers[i].work;
      Move(if w in s.cancelled then CompleteWork(s, w) else s, i, Starting(w))
    case Start(i) =>
      var w := s.workers[i].work;
      Move(s.(status := s.status[w := InProgress], started := s.started + [w]), i, Running(w))
    case Finish(i, rc) => Move(s, i, Deciding(s.workers[i].work, rc))
    case Decide(i) =>
      var w := s.workers[i].work;
      if s.workers[i].rc <= 0 || w in s.cancelled then
        Move(CompleteWork(s, w).(pending := s.pending - {w}), i, Idle)
      else
        Move(s, i, Returning(w))
    case Return(i) => Move(Put(s, s.workers[i].work), i, Idle)
  }

  /** t is reached from s by these actions, each enabled when it happens. */
  ghost predicate Reaches(s: State, actions: seq<Action>, t: State) {
    if actions == [] then t == s
    else
      var n := |actions| - 1;
      exists r :: Reaches(s, actions[..n], r) && Enabled(r, actions[n]) && t == Do(r, actions[n])
  }

  // ---------------------------------------------------------------------------
  // The invariant
  // ---------------------------------------------------------------------------

  ghost predicate Holds(s: State, i: nat, w: Work) {
    i < |s.workers| && !s.workers[i].Idle? && s.workers[i].work == w
  }

  /** Every pending item is in one place: one position of the backlog, or one worker's hands. */
  ghost predicate InOnePlace(s: State) {
    && (forall w {:trigger w in s.pending} :: w in s.pending ==> w in s.backlog || exists i :: Holds(s, i, w))
    && (forall k {:trigger s.backlog[k]} :: 0 <= k < |s.backlog| ==> s.backlog[k] in s.pending)
    && (forall i, w {:trigger Holds(s, i, w)} :: Holds(s, i, w) ==> w in s.pending && w !in s.backlog)
    && (forall i, j, w {:trigger Holds(s, i, w), Holds(s, j, w)} :: Holds(s, i, w) && Holds(s, j, w) ==> i == j)
    && (forall j, k {:trigger s.backlog[j], s.backlog[k]} :: 0 <= j < k < |s.backlog| ==> s.backlog[j] != s.backlog[k])
  }

  ghost predicate Inv(s: State) {
    s.count == |s.backlog| && InOnePlace(s) && s.put == s.taken + s.backlog
  }

  lemma InitialInv(workers: nat)
    ensures Inv(Initial(workers))
  {
  }

  lemma AddKeeps(s: State, w: Work)
    requires Inv(s) && w !in s.pending
    ensures Inv(Do(s, Add(w)))
  {
    var t := Do(s, Add(w));
    forall v | v in t.pending
      ensures v in t.backlog || exists i :: Holds(t, i, v)
    {
      if v in s.pending && v !in s.backlog {
        var i :| Holds(s, i, v);
        assert Holds(t, i, v);
      }
    }
    forall i, v | Holds(t, i, v)
      ensures v in t.pending && v !in t.backlog
    {
      assert Holds(s, i, v);
    }
    forall i, j, v | Holds(t, i, v) && Holds(t, j, v)
      ensures i == j
    {
      assert Holds(s, i, v) && Holds(s, j, v);
    }
  }

  lemma TakeKeeps(s: State, i: nat)
    requires Inv(s) && Enabled(s, Take(i))
    ensures Inv(Do(s, Take(i)))
  {
    if s.backlog == [] {
      return;
    }
    var t, w := Do(s, Take(i)), s.backlog[0];
    forall v | v in t.pending
      ensures v in t.backlog || exists j :: Holds(t, j, v)
    {
      if v == w {
        assert Holds(t, i, v);
      } else if v !in s.backlog {
        var j :| Holds(s, j, v);
        assert Holds(t, j, v);
      }
    }
    forall j, v | Holds(t, j, v)
      ensures v in t.pending && v !in t.backlog && (v == w <==> j == i)
    {
      assert j != i ==> Holds(s, j, v);
      assert s.backlog[0] in s.pending;
    }
    forall j, k, v | Holds(t, j, v) && Holds(t, k, v)
      ensures j == k
    {
      assert j != i && k != i ==> Holds(s, j, v) && Holds(s, k, v);
    }
  }

  /** A worker that goes on with the item it holds changes nobody's place. */
  lemma MoveKeeps(s: State, i: nat, to: Worker)
    requires InOnePlace(s) && i < |s.workers| && !s.workers[i].Idle? && !to.Idle? && to.work == s.workers[i].work
    ensures InOnePlace(Move(s, i, to))
  {
    var t := Move(s, i, to);
    forall j, v
      ensures Holds(t, j, v) <==> Holds(s, j, v)
    {
    }
    forall v | v in t.pending
      ensures v in t.backlog || exists j :: Holds(t, j, v)
    {
      if v !in s.backlog {
        var j :| Holds(s, j, v);
        assert Holds(t, j, v);
      }
    }
  }

  /** A worker that lets go of a finished item. */
  lemma DropKeeps(s: State, i: nat, w: Work)
    requires InOnePlace(s) && Holds(s, i, w)
    ensures InOnePlace(Move(s, i, Idle).(pending := s.pending - {w}))
  {
    var t := Move(s, i, Idle).(pending := s.pending - {w});
    forall v | v in t.pending
      ensures v in t.backlog || exists j :: Holds(t, j, v)
    {
      if v !in s.backlog {
        var j :| Holds(s, j, v);
        assert Holds(t, j, v);
      }
    }
    forall j, v | Holds(t, j, v)
      ensures v in t.pending && v !in t.backlog
    {
      assert Holds(s, j, v);
    }
    forall j, k, v | Holds(t, j, v) && Holds(t, k, v)
      ensures j == k
    {
      assert Holds(s, j, v) && Holds(s, k, v);
    }
  }

  lemma ReturnKeeps(s: State, i: nat)
    requires Inv(s) && Enabled(s, Return(i))
    ensures Inv(Do(s, Return(i)))
  {
    var t, w := Do(s, Return(i)), s.workers[i].work;
    assert Holds(s, i, w);
    forall v | v in t.pending
      ensures v in t.backlog || exists j :: Holds(t, j, v)
    {
      if v !in s.backlog && v != w {
        var j :| Holds(s, j, v);
        assert Holds(t, j, v);
      } else if v == w {
        assert t.backlog[|s.backlog|] == w;
      }
    }
    forall j, v | Holds(t, j, v)
      ensures v in t.pending && v !in t.backlog
    {
      assert Holds(s, j, v);
    }
    forall j, k, v | Holds(t, j, v) && Holds(t, k, v)
      ensures j == k
    {
      assert Holds(s, j, v) && Holds(s, k, v);
    }
  }

  lemma StepKeeps(s: State, a: Action)
    requires Inv(s) && Enabled(s, a)
    ensures Inv(Do(s, a))
  {
    hide InOnePlace;
    match a
    case Add(w) => AddKeeps(s, w);
    case Cancel(w) => SamePlaces(s, Do(s, a));
    case Take(i) => TakeKeeps(s, i);
    case Check(i) => 
      MoveKeeps(s, i, Starting(s.workers[i].work));
      SamePlaces(Move(s, i, Starting(s.workers[i].work)), Do(s, a));
    case Start(i) =>
      MoveKeeps(s, i, Running(s.workers[i].work));
      SamePlaces(Move(s, i, Running(s.workers[i].work)), Do(s, a));
    case Finish(i, rc) => MoveKeeps(s, i, Deciding(s.workers[i].work, rc));
    case Decide(i) =>
      var w := s.workers[i].work;
      MoveKeeps(s, i, Returning(w));
      assert Holds(s, i, w);
      DropKeeps(s, i, w);
      SamePlaces(Move(s, i, Idle).(pending := s.pending - {w}),
        Move(CompleteWork(s, w).(pending := s.pending - {w}), i, Idle));
    case Return(i) => ReturnKeeps(s, i);
  }

  lemma SamePlaces(s: State, t: State)
    requires InOnePlace(s) && t.backlog == s.backlog && t.workers == s.workers && t.pending == s.pending
    ensures InOnePlace(t)
  {
    forall i, w
      ensures Holds(t, i, w) <==> Holds(s, i, w)
    {
    }
    forall w | w in t.pending
      ensures w in t.backlog || exists i :: Holds(t, i, w)
    {
      if w !in s.backlog {
        var i :| Holds(s, i, w);
        assert Holds(t, i, w);
      }
    }
  }

  lemma {:induction false} RunKeeps(s: State, actions: seq<Action>, t: State)
    requires Inv(s) && Reaches(s, actions, t)
    ensures Inv(t)
  {
    hide Inv, Do;
    if actions != [] {
      var n := |actions| - 1;
      var r :| Reaches(s, actions[..n], r) && Enabled(r, actions[n]) && t == Do(r, actions[n]);
      RunKeeps(s, actions[..n], r);
      StepKeeps(r, actions[n]);
    }
  }

  // ---------------------------------------------------------------------------
  // Exclusive ownership
  // ---------------------------------------------------------------------------

  /**
   * Whatever the workers do: the count is the length of the backlog; an item is pending exactly when it is in
   * the backlog or held, never both; it is in the backlog once, held by one worker, and run by one.
   */
  lemma Exclusive(workers: nat, actions: seq<Action>, s: State, w: Work)
    requires Reaches(Initial(workers), actions, s)
    ensures s.count == |s.backlog|
    ensures w in s.pending <==> (w in s.backlog) != (exists i :: Holds(s, i, w))
    ensures forall i, j :: Holds(s, i, w) && Holds(s, j, w) ==> i == j
    ensures forall j, k :: 0 <= j < k < |s.backlog| ==> s.backlog[j] != s.backlog[k]
    ensures forall i, j :: 0 <= i < j < |s.workers| ==> !(s.workers[i] == Running(w) && s.workers[j] == Running(w))
  {
    InitialInv(workers);
    RunKeeps(Initial(workers), actions, s);
    forall i, j | 0 <= i < j < |s.workers|
      ensures !(s.workers[i] == Running(w) && s.workers[j] == Running(w))
    {
      assert s.workers[i] == Running(w) && s.workers[j] == Running(w) ==> Holds(s, i, w) && Holds(s, j, w);
    }
  }

  /**
   * Adding an item keeps every item in one place exactly when it was not already pending. It is then queued, last, and
   * no cancel request stands.
   */
  lemma AddExactly(s: State, w: Work)
    requires Inv(s)
    ensures Inv(Do(s, Add(w))) <==> w !in s.pending
    ensures var t := Do(s, Add(w));
      && w !in t.cancelled && (forall v :: v != w ==> (v in t.cancelled <==> v in s.cancelled))
      && t.backlog == s.backlog + [w] && t.workers == s.workers && t.status == s.status[w := Queued]
  {
    var t := Do(s, Add(w));
    if w !in s.pending {
      AddKeeps(s, w);
    } else {
      assert t.backlog[|s.backlog|] == w;
      if w in s.backlog {
        var k :| 0 <= k < |s.backlog| && s.backlog[k] == w;
        assert t.backlog[k] == t.backlog[|s.backlog|];
      } else {
        var i :| Holds(s, i, w);
        assert Holds(t, i, w);
      }
    }
  }

  // ---------------------------------------------------------------------------
  // Round robin
  // ---------------------------------------------------------------------------

  lemma {:induction false} HistoriesGrow(s: State, actions: seq<Action>, t: State)
    requires Reaches(s, actions, t)
    ensures s.put <= t.put && s.taken <= t.taken && s.started <= t.started
  {
    hide Do;
    if actions != [] {
      var n := |actions| - 1;
      var r :| Reaches(s, actions[..n], r) && Enabled(r, actions[n]) && t == Do(r, actions[n]);
      HistoriesGrow(s, actions[..n], r);
      HistoryStep(r, actions[n]);
    }
  }

  lemma HistoryStep(s: State, a: Action)
    requires AtStage(s, a)
    ensures s.put <= Do(s, a).put && s.taken <= Do(s, a).taken && s.started <= Do(s, a).started
  {
  }

  /** Two moments of a queue: what is taken in between comes off the front of the earlier one. */
  lemma TakenFromFront(taken: seq<Work>, backlog: seq<Work>, taken': seq<Work>, backlog': seq<Work>, j: nat)
    requires taken + backlog <= taken' + backlog'
    requires |taken| <= j < |taken| + |backlog| && j < |taken'|
    ensures taken'[j] == backlog[j - |taken|]
  {
    assert taken'[j] == (taken' + backlog')[j] == (taken + backlog)[j];
  }

  /** The item at k of the backlog is next taken after exactly the k items in front of it, in order. */
  lemma TakenInTurn(s: State, k: nat, actions: seq<Action>, t: State, m: nat)
    requires Inv(s) && Reaches(s, actions, t) && k < |s.backlog|
    requires |s.taken| <= m < |t.taken| && t.taken[m] == s.backlog[k]
    ensures m >= |s.taken| + k
    ensures t.taken[|s.taken|..|s.taken| + k] == s.backlog[..k]
  {
    hide Reaches, Do;
    HistoriesGrow(s, actions, t);
    RunKeeps(s, actions, t);
    assert s.put == s.taken + s.backlog && t.put == t.taken + t.backlog;
    var n := |s.taken|;
    if m < n + k {
      TakenFromFront(s.taken, s.backlog, t.taken, t.backlog, m);
      assert false;
    }
    forall j | n <= j < n + k
      ensures t.taken[j] == s.backlog[j - n]
    {
      TakenFromFront(s.taken, s.backlog, t.taken, t.backlog, j);
    }
  }

  /** A yielded item is taken again only after every item that was waiting when it was put back. */
  lemma RoundRobin(r: State, i: nat, actions: seq<Action>, t: State, m: nat)
    requires Inv(r) && Enabled(r, Return(i)) && Reaches(Do(r, Return(i)), actions, t)
    requires |r.taken| <= m < |t.taken| && t.taken[m] == r.workers[i].work
    ensures m >= |r.taken| + |r.backlog|
    ensures t.taken[|r.taken|..|r.taken| + |r.backlog|] == r.backlog
  {
    var s := Do(r, Return(i));
    StepKeeps(r, Return(i));
    TakenInTurn(s, |r.backlog|, actions, t, m);
    assert s.backlog[..|r.backlog|] == r.backlog;
  }

  /** The calls of work_fn for w so far. */
  function Starts(s: State, w: Work): nat {
    multiset(s.started)[w]
  }

  // ---------------------------------------------------------------------------
  // What the status tells
  // ---------------------------------------------------------------------------

  ghost predicate StatusInv(s: State) {
    && (forall w {:trigger w in s.pending} :: w in s.pending ==> w in s.status)
    && (forall w {:trigger w in s.status} :: w in s.status && w !in s.pending ==> s.status[w] == Complete)
    && (forall w {:trigger w in s.backlog} :: w in s.backlog && w in s.status ==> s.status[w] != Complete)
    && (forall i: nat, w {:trigger Holds(s, i, w)} :: Holds(s, i, w) && w in s.status && s.status[w] == Complete ==>
          s.workers[i].Starting? && w in s.cancelled)
  }

  lemma OtherWork(s: State, i: nat, j: nat, w: Work)
    requires InOnePlace(s) && i < |s.workers| && !s.workers[i].Idle? && Holds(s, j, w) && i != j
    ensures s.workers[i].work != w
  {
    assert Holds(s, i, s.workers[i].work);
  }

  lemma StatusOfHeld(s: State, a: Action, i: nat, w: Work)
    requires Inv(s) && StatusInv(s) && Enabled(s, a)
    requires Holds(Do(s, a), i, w) && w in Do(s, a).status && Do(s, a).status[w] == Complete
    ensures Do(s, a).workers[i].Starting? && w in Do(s, a).cancelled
  {
    hide InOnePlace;
    var t := Do(s, a);
    if a.Add? {
      assert Holds(s, i, w);
    } else if a.Cancel? {
      assert Holds(s, i, w);
    } else if i != a.i {
      assert Holds(s, i, w);
      if !s.workers[a.i].Idle? {
        OtherWork(s, a.i, i, w);
      }
    } else if a.Take? {
      assert w in s.backlog;
      BacklogHasStatus(s, w);
    } else {
      assert Holds(s, i, w);
    }
  }

  lemma BacklogHasStatus(s: State, w: Work)
    requires InOnePlace(s) && StatusInv(s) && w in s.backlog
    ensures w in s.status && s.status[w] != Complete
  {
  }

  lemma StatusStep(s: State, a: Action)
    requires Inv(s) && StatusInv(s) && Enabled(s, a)
    ensures StatusInv(Do(s, a))
  {
    var t := Do(s, a);
    forall i: nat, w {:trigger Holds(t, i, w)} | Holds(t, i, w) && w in t.status && t.status[w] == Complete
      ensures t.workers[i].Starting? && w in t.cancelled
    {
      StatusOfHeld(s, a, i, w);
    }
    if !a.Add? && !a.Cancel? && !s.workers[a.i].Idle? {
      assert Holds(s, a.i, s.workers[a.i].work);
    }
  }

  lemma {:induction false} RunKeepsStatus(s: State, actions: seq<Action>, t: State)
    requires Inv(s) && StatusInv(s) && Reaches(s, actions, t)
    ensures StatusInv(t)
  {
    hide Inv, Do, StatusInv;
    if actions != [] {
      var n := |actions| - 1;
      var r :| Reaches(s, actions[..n], r) && Enabled(r, actions[n]) && t == Do(r, actions[n]);
      RunKeeps(s, actions[..n], r);
      RunKeepsStatus(s, actions[..n], r);
      StatusStep(r, actions[n]);
    }
  }

  /**
   * What workqueue_work_is_complete tells: an item that was not cancelled is complete exactly when it is done
   * with; a cancelled one may be reported complete while a worker is about to run it once more, and only then.
   */
  lemma CompleteMeans(workers: nat, actions: seq<Action>, s: State, w: Work)
    requires Reaches(Initial(workers), actions, s) && w in s.status
    ensures w !in s.cancelled ==> (s.status[w] == Complete <==> w !in s.pending)
    ensures s.status[w] == Complete ==> (w in s.pending <==> Starting(w) in s.workers)
  {
    InitialInv(workers);
    RunKeeps(Initial(workers), actions, s);
    RunKeepsStatus(Initial(workers), actions, s);
    if w in s.pending && w !in s.backlog {
      var i :| Holds(s, i, w);
    }
    if Starting(w) in s.workers {
      var i :| 0 <= i < |s.workers| && s.workers[i] == Starting(w);
      assert Holds(s, i, w);
    }
  }

  /** An item cancelled before any worker took it is completed, and then run all the same. */
  lemma CancelledStillRuns(w: Work) returns (actions: seq<Action>, s: State)
    ensures actions == [Add(w), Cancel(w), Take(0), Check(0), Start(0)] && Reaches(Initial(1), actions, s)
    ensures s.completed == [w] && s.started == [w] && s.workers == [Running(w)]
  {
    hide Reaches;
    actions, s := [], Initial(1);
    ReachesNothing(s);
    actions, s := Follow(Initial(1), actions, s, Add(w));
    actions, s := Follow(Initial(1), actions, s, Cancel(w));
    actions, s := Follow(Initial(1), actions, s, Take(0));
    actions, s := Follow(Initial(1), actions, s, Check(0));
    actions, s := Follow(Initial(1), actions, s, Start(0));
  }

  lemma ReachesNothing(s: State)
    ensures Reaches(s, [], s)
  {
  }

  lemma Follow(s: State, actions: seq<Action>, t: State, a: Action) returns (more: seq<Action>, u: State)
    requires Reaches(s, actions, t) && Enabled(t, a)
    ensures more == actions + [a] && u == Do(t, a) && Reaches(s, more, u)
  {
    more, u := actions + [a], Do(t, a);
    assert (actions + [a])[..|actions|] == actions;
  }
}
