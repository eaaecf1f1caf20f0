/**
 * What the callers of src/circbuf.c get for what they pass: the elements handed to accepted pushes, in order, are the
 * ones that pops and peeks return. Everything is counted from the actions alone.
 */
module Deliveries {
  import opened CircularBuffers
  import opened ProducerConsumer

  /** The pushes that have been published. */
  function Pushes(actions: seq<Action>): nat {
    if actions == [] then 0
    else Pushes(actions[..|actions| - 1]) + if actions[|actions| - 1].PublishPush? then 1 else 0
  }

  /** The pops that have been published. */
  function Pops(actions: seq<Action>): nat {
    if actions == [] then 0
    else Pops(actions[..|actions| - 1]) + if actions[|actions| - 1].PublishPop? then 1 else 0
  }

  /** The elements passed to pushes that found a free slot, by the count they read, in order. */
  function Offered(size: nat, actions: seq<Action>): seq<Elem> {
    if actions == [] then [] else
      var before, a := actions[..|actions| - 1], actions[|actions| - 1];
      Offered(size, before) + if a.StartPush? && Pushes(before) < a.seen.count + size then [a.elem] else []
  }

  /** The peeks that have ended. */
  function Peeks(actions: seq<Action>): nat {
    if actions == [] then 0
    else Peeks(actions[..|actions| - 1]) + if actions[|actions| - 1].EndPeek? then 1 else 0
  }

  /** The pops, or the peeks, that found an element, by the count they read. */
  function Taken(actions: seq<Action>, peek: bool): nat {
    if actions == [] then 0 else
      var before, a := actions[..|actions| - 1], actions[|actions| - 1];
      Taken(before, peek) + if a.StartPop? && a.peek == peek && Pops(before) < a.seen.count then 1 else 0
  }

  /** The element of a push under way. */
  function InHand(s: State): seq<Elem> {
    if s.producer.Copying? then [s.producer.elem] else []
  }

  /** Whether a pop, not a peek, is under way and not yet published. */
  predicate Taking(s: State) {
    (s.consumer.Reading? && !s.consumer.peek) || s.consumer.Clearing?
  }

  predicate Peeking(s: State) {
    s.consumer.Reading? && s.consumer.peek
  }

  /** The state agrees with the actions that led to it. */
  ghost predicate Agrees(c: Config, actions: seq<Action>, s: State) {
    && |s.pushed| == Pushes(actions) && |s.popped| == Pops(actions)
    && s.pushed + InHand(s) == Offered(c.size, actions)
    && |s.popped| + (if Taking(s) then 1 else 0) == Taken(actions, false)
    && Peeks(actions) + (if Peeking(s) then 1 else 0) == Taken(actions, true)
  }

  lemma AgreesStep(c: Config, actions: seq<Action>, s: State, a: Action)
    requires Inv(c, s) && Agrees(c, actions, s) && Enabled(c, s, a) && Safe(c, s, a) && !Misled(c, s, a)
    ensures Agrees(c, actions + [a], Do(c, s, a))
  {
    hide Refused, Misled, Safe;
    RefusedMeans(c, s, a);
    InvMeans(c, s);
    hide Inv, Counter;
    var more := actions + [a];
    assert more[..|more| - 1] == actions && more[|more| - 1] == a;
  }

  lemma {:induction false} RunAgrees(c: Config, slots: seq<Elem>, actions: seq<Action>, s: State)
    requires Shaped(c, slots) && Reaches(c, slots, actions, s) && Unmisled(c, slots, actions)
    ensures Agrees(c, actions, s)
  {
    hide Agrees, Inv, Do, Misled, Enabled, Safe, Shaped;
    if actions == [] {
      NothingAgrees(c, slots);
    } else {
      var n := |actions| - 1;
      var r :| Reaches(c, slots, actions[..n], r) && Enabled(c, r, actions[n]) && Safe(c, r, actions[n])
          && s == Do(c, r, actions[n]);
      UnmisledPrefix(c, slots, actions, n);
      RunAgrees(c, slots, actions[..n], r);
      ReachableInv(c, slots, actions[..n], r);
      AgreesStep(c, actions[..n], r, actions[n]);
      assert actions[..n] + [actions[n]] == actions;
    }
  }

  lemma NothingAgrees(c: Config, slots: seq<Elem>)
    ensures Agrees(c, [], Initial(c, slots))
  {
  }

  /**
   * The accepted elements, as the callers passed them, are the published ones and then the one being copied. The
   * popped elements are a prefix of them; each accepted pop takes one, each accepted peek ends without taking one, and
   * both return the first one not popped before.
   */
  lemma Delivers(c: Config, slots: seq<Elem>, actions: seq<Action>, s: State)
    requires Shaped(c, slots) && Reaches(c, slots, actions, s) && Unmisled(c, slots, actions)
    ensures s.pushed + InHand(s) == Offered(c.size, actions)
    ensures s.popped <= Offered(c.size, actions)
    ensures |s.popped| + (if Taking(s) then 1 else 0) == Taken(actions, false)
    ensures Peeks(actions) + (if Peeking(s) then 1 else 0) == Taken(actions, true)
    ensures Enabled(c, s, PublishPop) || Enabled(c, s, EndPeek) ==>
              |s.popped| < |Offered(c.size, actions)| && s.consumer.got == Offered(c.size, actions)[|s.popped|]
  {
    hide Inv, Offered, Taken, Peeks, Unmisled, Reaches;
    Fifo(c, slots, actions, s);
    RunAgrees(c, slots, actions, s);
  }

  /** When each counter advance is one store, this holds over every interleaving. */
  lemma AtomicDelivers(c: Config, slots: seq<Elem>, actions: seq<Action>, s: State)
    requires c.atomic && Shaped(c, slots) && Reaches(c, slots, actions, s)
    ensures s.pushed + InHand(s) == Offered(c.size, actions)
    ensures s.popped <= Offered(c.size, actions) && |s.popped| + (if Taking(s) then 1 else 0) == Taken(actions, false)
    ensures Enabled(c, s, PublishPop) || Enabled(c, s, EndPeek) ==>
              |s.popped| < |Offered(c.size, actions)| && s.consumer.got == Offered(c.size, actions)[|s.popped|]
  {
    hide *;
    AtomicFifo(c, slots, actions, s);
    Delivers(c, slots, actions, s);
  }

  // ---------------------------------------------------------------------------
  // What a pop leaves in its slot
  // ---------------------------------------------------------------------------

  ghost predicate Zero(e: Elem) {
    forall i {:trigger e[i]} :: 0 <= i < |e| ==> e[i] == 0
  }

  /** What slot k holds when element k has been popped and nothing has been written over it. */
  ghost predicate Left(c: Config, s: State, k: nat)
    requires k < |s.pushed| && c.size > 0
  {
    Slot(c.size, k) < |s.slots|
    && if c.clean then Zero(s.slots[Slot(c.size, k)]) else s.slots[Slot(c.size, k)] == s.pushed[k]
  }

  ghost predicate LeavesSlots(c: Config, s: State) {
    && |s.popped| <= |s.pushed|
    && (forall k: nat {:trigger Left(c, s, k)} ::
          c.size > 0 && k < |s.popped| && |s.pushed| + |InHand(s)| <= k + c.size ==> Left(c, s, k))
    && (s.consumer.Clearing? && c.size > 0 ==>
          Slot(c.size, |s.popped|) < |s.slots| && s.consumer.cleared <= |s.slots[Slot(c.size, |s.popped|)]|
          && Zero(s.slots[Slot(c.size, |s.popped|)][..s.consumer.cleared]))
    && (s.consumer.Clearing? ==> c.clean)
  }

  lemma CopyInLeaves(c: Config, s: State)
    requires Inv(c, s) && LeavesSlots(c, s) && Enabled(c, s, CopyIn) && Safe(c, s, CopyIn)
    ensures LeavesSlots(c, Do(c, s, CopyIn))
  {
    hide Slot, Wrap, Intact;
    SlotOfWrap(c.size, |s.pushed|);
    var t := Do(c, s, CopyIn);
    forall k: nat | k < |t.popped| && |t.pushed| + 1 <= k + c.size
      ensures Left(c, t, k)
    {
      assert Left(c, s, k);
      SlotsDiffer(c.size, k, |s.pushed|);
    }
    if s.consumer.Clearing? {
      SlotsDiffer(c.size, |s.popped|, |s.pushed|);
    }
  }

  lemma ClearLeaves(c: Config, s: State)
    requires Inv(c, s) && LeavesSlots(c, s) && Enabled(c, s, Clear) && Safe(c, s, Clear)
    ensures LeavesSlots(c, Do(c, s, Clear))
  {
    hide Slot, Wrap, Intact;
    SlotOfWrap(c.size, |s.popped|);
    var t := Do(c, s, Clear);
    forall k: nat | k < |t.popped| && |t.pushed| + |InHand(t)| <= k + c.size
      ensures Left(c, t, k)
    {
      assert Left(c, s, k);
      SlotsDiffer(c.size, k, |s.popped|);
    }
  }

  lemma PublishPopLeaves(c: Config, s: State)
    requires Inv(c, s) && LeavesSlots(c, s) && Enabled(c, s, PublishPop)
    ensures LeavesSlots(c, Do(c, s, PublishPop))
  {
    hide Slot, Wrap;
    var t := Do(c, s, PublishPop);
    forall k: nat | c.size > 0 && k < |t.popped| && |t.pushed| + |InHand(t)| <= k + c.size
      ensures Left(c, t, k)
    {
      if k < |s.popped| {
        assert Left(c, s, k);
      } else {
        assert Slot(c.size, k) < |s.slots|;
      }
    }
  }

  /** The steps that write no slot and publish no pop. */
  lemma OtherLeaves(c: Config, s: State, a: Action)
    requires Inv(c, s) && LeavesSlots(c, s) && Enabled(c, s, a) && Safe(c, s, a)
    requires !a.CopyIn? && !a.Clear? && !a.PublishPop?
    ensures LeavesSlots(c, Do(c, s, a))
  {
    hide Slot, Wrap, Intact, Refused;
    var t := Do(c, s, a);
    forall k: nat | c.size > 0 && k < |t.popped| && |t.pushed| + |InHand(t)| <= k + c.size
      ensures Left(c, t, k)
    {
      assert Left(c, s, k);
    }
  }

  lemma StepLeaves(c: Config, s: State, a: Action)
    requires Inv(c, s) && LeavesSlots(c, s) && Enabled(c, s, a) && Safe(c, s, a)
    ensures LeavesSlots(c, Do(c, s, a))
  {
    hide Inv, LeavesSlots, Safe;
    if a.CopyIn? {
      CopyInLeaves(c, s);
    } else if a.Clear? {
      ClearLeaves(c, s);
    } else if a.PublishPop? {
      PublishPopLeaves(c, s);
    } else {
      OtherLeaves(c, s, a);
    }
  }

  lemma {:induction false} RunLeaves(c: Config, slots: seq<Elem>, actions: seq<Action>, s: State)
    requires Shaped(c, slots) && Reaches(c, slots, actions, s) && Unmisled(c, slots, actions)
    ensures LeavesSlots(c, s)
  {
    hide LeavesSlots, Inv, Do, Misled, Enabled, Safe, Shaped;
    if actions == [] {
      NothingLeft(c, slots);
    } else {
      var n := |actions| - 1;
      var r :| Reaches(c, slots, actions[..n], r) && Enabled(c, r, actions[n]) && Safe(c, r, actions[n])
          && s == Do(c, r, actions[n]);
      UnmisledPrefix(c, slots, actions, n);
      RunLeaves(c, slots, actions[..n], r);
      ReachableInv(c, slots, actions[..n], r);
      StepLeaves(c, r, actions[n]);
    }
  }

  lemma NothingLeft(c: Config, slots: seq<Elem>)
    ensures LeavesSlots(c, Initial(c, slots))
  {
  }

  /**
   * A popped slot that no later push has begun to fill is all zeros when pops clean up, and still holds its element
   * when they do not.
   */
  lemma PoppedSlots(c: Config, slots: seq<Elem>, actions: seq<Action>, s: State, k: nat)
    requires Shaped(c, slots) && Reaches(c, slots, actions, s) && Unmisled(c, slots, actions)
    requires k < |s.popped| && |s.pushed| + |InHand(s)| <= k + c.size
    ensures c.size > 0 && |s.slots| == c.size && |s.popped| <= |s.pushed|
    ensures var slot := s.slots[Slot(c.size, k)];
      |slot| == c.width && if c.clean then forall i :: 0 <= i < c.width ==> slot[i] == 0 else slot == s.pushed[k]
  {
    ReachableInv(c, slots, actions, s);
    RunLeaves(c, slots, actions, s);
    assert Left(c, s, k);
  }

  // ---------------------------------------------------------------------------
  // A side that is not in a call can start one
  // ---------------------------------------------------------------------------

  /** What each side has read of the other is not ahead of what the counter shows now. */
  ghost predicate Current(c: Config, s: State) {
    && (s.consumer.WrappingPop? ==> !c.atomic && |s.popped| > 0)
    && (s.producer.WrappingPush? ==> !c.atomic && |s.pushed| > 0)
    && (s.consumer.WrappingPop? && s.popSeen.count == |s.popped| ==> s.popSeen.raw)
    && (s.producer.WrappingPush? && s.pushSeen.count == |s.pushed| ==> s.pushSeen.raw)
  }

  lemma CurrentStep(c: Config, s: State, a: Action)
    requires Inv(c, s) && Current(c, s) && Enabled(c, s, a) && Safe(c, s, a)
    ensures Current(c, Do(c, s, a))
  {
    InvMeans(c, s);
    hide Inv, Safe, Refused;
  }

  lemma {:induction false} RunCurrent(c: Config, slots: seq<Elem>, actions: seq<Action>, s: State)
    requires Shaped(c, slots) && Reaches(c, slots, actions, s) && Unmisled(c, slots, actions)
    ensures Current(c, s)
  {
    hide Inv, Do, Misled, Enabled, Safe, Shaped;
    if actions != [] {
      var n := |actions| - 1;
      var r :| Reaches(c, slots, actions[..n], r) && Enabled(c, r, actions[n]) && Safe(c, r, actions[n])
          && s == Do(c, r, actions[n]);
      UnmisledPrefix(c, slots, actions, n);
      RunCurrent(c, slots, actions[..n], r);
      ReachableInv(c, slots, actions[..n], r);
      CurrentStep(c, r, actions[n]);
    }
  }

  /** In every reachable state an idle side can start a call with what the other counter shows at that moment. */
  lemma CanStart(c: Config, slots: seq<Elem>, actions: seq<Action>, s: State, elem: Elem, peek: bool)
    requires Shaped(c, slots) && Reaches(c, slots, actions, s) && Unmisled(c, slots, actions)
    requires |elem| == c.width
    ensures s.producer.Ready? ==> Enabled(c, s, StartPush(elem, Snapshot(|s.popped|, s.consumer.WrappingPop?)))
    ensures s.consumer.Waiting? ==> Enabled(c, s, StartPop(peek, Snapshot(|s.pushed|, s.producer.WrappingPush?)))
  {
    hide Reaches, Unmisled, Shaped;
    RunCurrent(c, slots, actions, s);
    ReachableInv(c, slots, actions, s);
    InvMeans(c, s);
  }
}
