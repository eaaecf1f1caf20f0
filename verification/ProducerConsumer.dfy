/**
 * src/circbuf.c shared by one producer thread and one consumer thread, as interleaved steps.
 * Each call reads the other side's counter once, possibly stale, copies its element byte by byte, and publishes
 * its own counter: in one store, or, as the code is written, by an increment and a wrap that follows it.
 */
module ProducerConsumer {
  import opened Basics
  import opened CircularBuffers

  type Elem = seq<bv8>

  /**
   * The number of slots, the bytes of an element, whether popped slots are zeroed, and whether a publish is one store.
   */
  datatype Config = Config(size: nat, width: nat, clean: bool, atomic: bool)

  /** A count of the other side as read: `raw` when it was read between the increment and the wrap. */
  datatype Snapshot = Snapshot(count: nat, raw: bool)

  datatype Producer = Ready | Copying(elem: Elem, done: nat) | WrappingPush
  datatype Consumer = Waiting | Reading(got: Elem, peek: bool) | Clearing(got: Elem, cleared: nat) | WrappingPop

  /**
   * slots, pushCount and popCount are shared. `pushed` and `popped` are the histories of both ends;
   * pushSeen and popSeen say which value of the other side's counter was read last.
   */
  datatype State = State(slots: seq<Elem>, pushCount: int, popCount: int,
                         producer: Producer, consumer: Consumer,
                         pushSeen: Snapshot, popSeen: Snapshot,
                         pushed: seq<Elem>, popped: seq<Elem>)

  datatype Action =
    | StartPush(elem: Elem, seen: Snapshot)
    | CopyIn
    | PublishPush
    | WrapPush
    | StartPop(peek: bool, seen: Snapshot)
    | CopyOut
    | EndPeek
    | StartClear
    | Clear
    | PublishPop
    | WrapPop

  predicate ByProducer(a: Action) {
    a.StartPush? || a.CopyIn? || a.PublishPush? || a.WrapPush?
  }

  function Initial(c: Config, slots: seq<Elem>): State {
    State(slots, 0, 0, Ready, Waiting, Snapshot(0, false), Snapshot(0, false), [], [])
  }

  /** The value the counter shows for this count. */
  function Value(size: nat, seen: Snapshot): int {
    if seen.raw && seen.count > 0 then Wrap(size, seen.count - 1) + 1 else Wrap(size, seen.count)
  }

  /**
   * Whether the counter has shown this value since `last` was read, when `count` is the true count and `wrapping`
   * says that its last wrap is still to come.
   */
  predicate Shown(c: Config, last: Snapshot, seen: Snapshot, count: nat, wrapping: bool) {
    && last.count <= seen.count <= count
    && (seen.count == last.count && seen.raw ==> last.raw)
    && (seen.raw ==> !c.atomic && seen.count > 0)
    && (seen.count == count && wrapping ==> seen.raw)
  }

  /** Whether the thread concerned is at the point of its code where it does this next. */
  predicate Enabled(c: Config, s: State, a: Action) {
    match a
    case StartPush(elem, seen) =>
      s.producer.Ready? && |elem| == c.width && Shown(c, s.popSeen, seen, |s.popped|, s.consumer.WrappingPop?)
    case CopyIn => s.producer.Copying? && s.producer.done < c.width
    case PublishPush => s.producer.Copying? && s.producer.done >= c.width
    case WrapPush => s.producer.WrappingPush?
    case StartPop(_, seen) =>
      s.consumer.Waiting? && Shown(c, s.pushSeen, seen, |s.pushed|, s.producer.WrappingPush?)
    case CopyOut => s.consumer.Reading? && |s.consumer.got| < c.width
    case EndPeek => s.consumer.Reading? && |s.consumer.got| >= c.width && s.consumer.peek
    case StartClear => s.consumer.Reading? && |s.consumer.got| >= c.width && !s.consumer.peek && c.clean
    case Clear => s.consumer.Clearing? && s.consumer.cleared < c.width
    case PublishPop =>
      || (s.consumer.Reading? && |s.consumer.got| >= c.width && !s.consumer.peek && !c.clean)
      || (s.consumer.Clearing? && s.consumer.cleared >= c.width)
    case WrapPop => s.consumer.WrappingPop?
  }

  /** The byte at offset i of the slot a counter selects is inside the buffer. */
  predicate InBounds(c: Config, s: State, count: int, i: nat) {
    c.size > 0 && 0 <= count && count % c.size < |s.slots| && i < |s.slots[count % c.size]|
  }

  /** Whether the step only touches memory that is there. */
  predicate Safe(c: Config, s: State, a: Action)
    requires Enabled(c, s, a)
  {
    match a
    case CopyIn => InBounds(c, s, s.pushCount, s.producer.done) && s.producer.done < |s.producer.elem|
    case CopyOut => InBounds(c, s, s.popCount, |s.consumer.got|)
    case Clear => InBounds(c, s, s.popCount, s.consumer.cleared)
    case _ => true
  }

  /** Whether the push finds the buffer full, or the pop finds it empty. */
  predicate Refused(c: Config, s: State, a: Action) {
    match a
    case StartPush(_, seen) => Total(c.size, s.pushCount, Value(c.size, seen)) >= c.size
    case StartPop(_, seen) => Total(c.size, Value(c.size, seen), s.popCount) == 0
    case _ => false
  }

  /**
   * The one misleading snapshot: the push counter read between increment and wrap, at the wrap, by a consumer
   * that has taken everything.
   */
  predicate Misled(c: Config, s: State, a: Action) {
    a.StartPop? && a.seen.raw && a.seen.count == |s.popped| && c.size > 0 && Wrap(c.size, a.seen.count) == 0
  }

  function Store(s: State, slot: nat, i: nat, b: bv8): seq<Elem>
    requires slot < |s.slots| && i < |s.slots[slot]|
  {
    s.slots[slot := s.slots[slot][i := b]]
  }

  function Do(c: Config, s: State, a: Action): State
    requires Enabled(c, s, a) && Safe(c, s, a)
  {
    match a
    case StartPush(elem, seen) =>
      s.(popSeen := seen, producer := if Refused(c, s, a) then Ready else Copying(elem, 0))
    case CopyIn =>
      var i := s.producer.done;
      s.(slots := Store(s, s.pushCount % c.size, i, s.producer.elem[i]), producer := Copying(s.producer.elem, i + 1))
    case PublishPush =>
      if c.atomic then
        s.(pushCount := Advance(c.size, s.pushCount), pushed := s.pushed + [s.producer.elem], producer := Ready)
      else
        s.(pushCount := s.pushCount + 1, pushed := s.pushed + [s.producer.elem], producer := WrappingPush)
    case WrapPush =>
      s.(pushCount := if s.pushCount >= 2 * c.size then 0 else s.pushCount, producer := Ready)
    case StartPop(peek, seen) =>
      s.(pushSeen := seen, consumer := if Refused(c, s, a) then Waiting else Reading([], peek))
    case CopyOut =>
      var got := s.consumer.got;
      s.(consumer := Reading(got + [s.slots[s.popCount % c.size][|got|]], s.consumer.peek))
    case EndPeek => s.(consumer := Waiting)
    case StartClear => s.(consumer := Clearing(s.consumer.got, 0))
    case Clear =>
      var i := s.consumer.cleared;
      s.(slots := Store(s, s.popCount % c.size, i, 0), consumer := Clearing(s.consumer.got, i + 1))
    case PublishPop =>
      if c.atomic then
        s.(popCount := Advance(c.size, s.popCount), popped := s.popped + [s.consumer.got], consumer := Waiting)
      else
        s.(popCount := s.popCount + 1, popped := s.popped + [s.consumer.got], consumer := WrappingPop)
    case WrapPop =>
      s.(popCount := if s.popCount >= 2 * c.size then 0 else s.popCount, consumer := Waiting)
  }

  /** s is reached from a fresh buffer by these actions, each enabled when it happens. */
  ghost predicate Reaches(c: Config, slots: seq<Elem>, actions: seq<Action>, s: State) {
    if actions == [] then s == Initial(c, slots)
    else
      var n := |actions| - 1;
      exists r :: Reaches(c, slots, actions[..n], r) && Enabled(c, r, actions[n]) && Safe(c, r, actions[n])
          && s == Do(c, r, actions[n])
  }

  // ---------------------------------------------------------------------------
  // The invariant
  // ---------------------------------------------------------------------------

  ghost predicate Shaped(c: Config, slots: seq<Elem>) {
    |slots| == c.size && forall i {:trigger slots[i]} :: 0 <= i < c.size ==> |slots[i]| == c.width
  }

  /** A counter is the wrapped count, or still one above the wrapped count before. */
  ghost predicate Counter(size: nat, value: int, count: nat, wrapping: bool) {
    if wrapping then size > 0 && count > 0 && value == Wrap(size, count - 1) + 1 else value == Wrap(size, count)
  }

  /** Counters, histories, and what each side has seen of the other. */
  ghost predicate Counts(c: Config, s: State) {
    && Counter(c.size, s.pushCount, |s.pushed|, s.producer.WrappingPush?)
    && Counter(c.size, s.popCount, |s.popped|, s.consumer.WrappingPop?)
    && s.popSeen.count <= |s.popped| <= s.pushSeen.count <= |s.pushed| <= s.popSeen.count + c.size
    && (forall k {:trigger s.pushed[k]} :: 0 <= k < |s.pushed| ==> |s.pushed[k]| == c.width)
    && s.popped <= s.pushed && (c.size == 0 ==> s.pushed == [])
  }

  /** Whether the element with this number is in its slot; the consumer may have zeroed the oldest one already. */
  ghost predicate Intact(c: Config, s: State) {
    forall k: nat {:trigger Slot(c.size, k)} ::
        c.size > 0 && |s.popped| <= k < |s.pushed| && !(k == |s.popped| && s.consumer.Clearing?) ==>
      Slot(c.size, k) < |s.slots| && s.slots[Slot(c.size, k)] == s.pushed[k]
  }

  ghost predicate ProducerInv(c: Config, s: State) {
    s.producer.Copying? ==>
      && c.size > 0 && |s.pushed| < s.popSeen.count + c.size && |s.producer.elem| == c.width
          && s.producer.done <= c.width
      && Slot(c.size, |s.pushed|) < |s.slots|
      && s.producer.done <= |s.slots[Slot(c.size, |s.pushed|)]|
      && s.slots[Slot(c.size, |s.pushed|)][..s.producer.done] == s.producer.elem[..s.producer.done]
  }

  ghost predicate ConsumerInv(c: Config, s: State) {
    && (s.consumer.Reading? ==>
          |s.popped| < s.pushSeen.count <= |s.pushed| && |s.consumer.got| <= c.width
          && |s.consumer.got| <= |s.pushed[|s.popped|]| && s.consumer.got == s.pushed[|s.popped|][..|s.consumer.got|])
    && (s.consumer.Clearing? ==>
          |s.popped| < s.pushSeen.count <= |s.pushed| && s.consumer.cleared <= c.width
              && s.consumer.got == s.pushed[|s.popped|])
  }

  ghost predicate Inv(c: Config, s: State) {
    Shaped(c, s.slots) && Counts(c, s) && Intact(c, s) && ProducerInv(c, s) && ConsumerInv(c, s)
  }

  lemma InitialInv(c: Config, slots: seq<Elem>)
    requires Shaped(c, slots)
    ensures Inv(c, Initial(c, slots))
  {
  }

  // ---------------------------------------------------------------------------
  // Counters read between increment and wrap
  // ---------------------------------------------------------------------------

  /**
   * The push counter between increment and wrap gives the right number of elements unless the reader has taken
   * everything and its own counter has wrapped; then it seems to hold two buffers full.
   */
  lemma TornPush(size: nat, count: nat, pops: nat)
    requires size > 0 && 0 < count && pops <= count <= pops + size
    ensures var total := Total(size, Value(size, Snapshot(count, true)), Wrap(size, pops));
      total == if Wrap(size, count) == 0 && pops == count then 2 * size else count - pops
  {
    hide Wrap;
    WrapAdvance(size, count - 1);
    TotalOfWraps(size, count, pops);
  }

  /** The pop counter between increment and wrap misleads nobody. */
  lemma TornPop(size: nat, pushes: nat, count: nat)
    requires size > 0 && 0 < count <= pushes <= count + size
    ensures Total(size, Wrap(size, pushes), Value(size, Snapshot(count, true))) == pushes - count
  {
    hide Wrap;
    WrapAdvance(size, count - 1);
    TotalOfWraps(size, pushes, count);
  }

  lemma PushTotal(c: Config, s: State, a: Action)
    requires Inv(c, s) && Enabled(c, s, a) && a.StartPush?
    ensures Total(c.size, s.pushCount, Value(c.size, a.seen)) == |s.pushed| - a.seen.count
  {
    hide Wrap, Total, Shaped, Intact, ProducerInv, ConsumerInv;
    if a.seen.raw {
      TornPop(c.size, |s.pushed|, a.seen.count);
    } else {
      TotalOfWraps(c.size, |s.pushed|, a.seen.count);
    }
  }

  lemma PopTotal(c: Config, s: State, a: Action)
    requires Inv(c, s) && Enabled(c, s, a) && a.StartPop?
    ensures Total(c.size, Value(c.size, a.seen), s.popCount) ==
            if Misled(c, s, a) then 2 * c.size else a.seen.count - |s.popped|
  {
    hide Wrap, Total, Shaped, Intact, ProducerInv, ConsumerInv;
    if a.seen.raw {
      TornPush(c.size, a.seen.count, |s.popped|);
    } else {
      TotalOfWraps(c.size, a.seen.count, |s.popped|);
    }
  }

  /** A call is refused exactly when the buffer was full, or empty, by the count it read. */
  lemma RefusedMeans(c: Config, s: State, a: Action)
    requires Inv(c, s) && Enabled(c, s, a) && !Misled(c, s, a)
    ensures a.StartPush? ==> (Refused(c, s, a) <==> |s.pushed| - a.seen.count == c.size)
    ensures a.StartPop? ==> (Refused(c, s, a) <==> a.seen.count == |s.popped|)
  {
    if a.StartPush? {
      hide Total, Inv;
      InvMeans(c, s);
      PushTotal(c, s, a);
    } else if a.StartPop? {
      hide Total, Inv;
      PopTotal(c, s, a);
    }
  }

  lemma InvMeans(c: Config, s: State)
    requires Inv(c, s)
    ensures Counts(c, s)
  {
  }

  // ---------------------------------------------------------------------------
  // Every step keeps the invariant, but for the misleading snapshot
  // ---------------------------------------------------------------------------

  lemma StartPushKeeps(c: Config, s: State, a: Action)
    requires Inv(c, s) && Enabled(c, s, a) && a.StartPush?
    ensures Inv(c, Do(c, s, a))
  {
    hide Slot, Wrap, Total, Value;
    RefusedMeans(c, s, a);
  }

  lemma StartPopExactly(c: Config, s: State, a: Action)
    requires Inv(c, s) && Enabled(c, s, a) && a.StartPop?
    ensures Inv(c, Do(c, s, a)) <==> !Misled(c, s, a)
  {
    hide Slot, Wrap, Total, Value;
    PopTotal(c, s, a);
    assert Refused(c, s, a) <==> !Misled(c, s, a) && a.seen.count == |s.popped|;
  }

  lemma CopyInKeeps(c: Config, s: State)
    requires Inv(c, s) && Enabled(c, s, CopyIn) && Safe(c, s, CopyIn)
    ensures Inv(c, Do(c, s, CopyIn))
  {
    hide Slot, Wrap;
    SlotOfWrap(c.size, |s.pushed|);
    SlotAlone(c.size, |s.popped|, |s.pushed|);
  }

  lemma PublishPushKeeps(c: Config, s: State)
    requires Inv(c, s) && Enabled(c, s, PublishPush)
    ensures Inv(c, Do(c, s, PublishPush))
  {
    hide Slot, Wrap;
    WrapAdvance(c.size, |s.pushed|);
  }

  lemma WrapKeeps(c: Config, s: State, a: Action)
    requires Inv(c, s) && Enabled(c, s, a) && (a.WrapPush? || a.WrapPop?)
    ensures Inv(c, Do(c, s, a))
  {
    hide Slot, Wrap;
    if a.WrapPush? {
      WrapAdvance(c.size, |s.pushed| - 1);
    } else {
      WrapAdvance(c.size, |s.popped| - 1);
    }
  }

  lemma CopyOutKeeps(c: Config, s: State)
    requires Inv(c, s) && Enabled(c, s, CopyOut) && Safe(c, s, CopyOut)
    ensures Inv(c, Do(c, s, CopyOut))
  {
    hide Slot, Wrap;
    SlotOfWrap(c.size, |s.popped|);
  }

  lemma ClearKeeps(c: Config, s: State)
    requires Inv(c, s) && Enabled(c, s, Clear) && Safe(c, s, Clear)
    ensures Inv(c, Do(c, s, Clear))
  {
    hide Slot, Wrap;
    SlotOfWrap(c.size, |s.popped|);
    SlotAlone(c.size, |s.popped|, |s.popped|);
    if s.producer.Copying? {
      SlotAlone(c.size, |s.popped|, |s.pushed|);
    }
  }

  lemma PublishPopKeeps(c: Config, s: State)
    requires Inv(c, s) && Enabled(c, s, PublishPop)
    ensures Inv(c, Do(c, s, PublishPop))
  {
    hide Slot, Wrap;
    WrapAdvance(c.size, |s.popped|);
    assert s.consumer.got == s.pushed[|s.popped|];
    assert s.popped + [s.consumer.got] <= s.pushed;
  }

  /** A step keeps the invariant if and only if it is not the misleading snapshot. */
  lemma StepExactly(c: Config, s: State, a: Action)
    requires Inv(c, s) && Enabled(c, s, a) && Safe(c, s, a)
    ensures Inv(c, Do(c, s, a)) <==> !Misled(c, s, a)
  {
    match a
    case StartPush(_, _) => StartPushKeeps(c, s, a);
    case CopyIn => CopyInKeeps(c, s);
    case PublishPush => PublishPushKeeps(c, s);
    case WrapPush => WrapKeeps(c, s, a);
    case StartPop(_, _) => StartPopExactly(c, s, a);
    case CopyOut => CopyOutKeeps(c, s);
    case EndPeek =>
    case StartClear =>
    case Clear => ClearKeeps(c, s);
    case PublishPop => PublishPopKeeps(c, s);
    case WrapPop => WrapKeeps(c, s, a);
  }

  /** With a publish of one store no snapshot misleads. */
  lemma AtomicNeverMisled(c: Config, s: State, a: Action)
    requires c.atomic && Enabled(c, s, a)
    ensures !Misled(c, s, a)
  {
  }

  /** No step of the run takes the misleading snapshot. */
  ghost predicate Unmisled(c: Config, slots: seq<Elem>, actions: seq<Action>) {
    forall k, r {:trigger Reaches(c, slots, actions[..k], r)} ::
      0 <= k < |actions| && Reaches(c, slots, actions[..k], r) ==> !Misled(c, r, actions[k])
  }

  lemma UnmisledPrefix(c: Config, slots: seq<Elem>, actions: seq<Action>, n: nat)
    requires Unmisled(c, slots, actions) && n <= |actions|
    ensures Unmisled(c, slots, actions[..n])
  {
    hide Reaches, Misled;
    forall k, r | 0 <= k < n && Reaches(c, slots, actions[..n][..k], r)
      ensures !Misled(c, r, actions[..n][k])
    {
      assert actions[..n][..k] == actions[..k] && actions[..n][k] == actions[k];
    }
  }

  lemma {:induction false} ReachableInv(c: Config, slots: seq<Elem>, actions: seq<Action>, s: State)
    requires Shaped(c, slots) && Reaches(c, slots, actions, s) && Unmisled(c, slots, actions)
    ensures Inv(c, s)
  {
    hide Inv, Do, Misled;
    if actions == [] {
      InitialInv(c, slots);
    } else {
      var n := |actions| - 1;
      var r :| Reaches(c, slots, actions[..n], r) && Enabled(c, r, actions[n]) && Safe(c, r, actions[n])
          && s == Do(c, r, actions[n]);
      UnmisledPrefix(c, slots, actions, n);
      ReachableInv(c, slots, actions[..n], r);
      StepExactly(c, r, actions[n]);
    }
  }

  // ---------------------------------------------------------------------------
  // What every run keeps
  // ---------------------------------------------------------------------------

  /** While both sides are at work, the slot being written is not the slot being read. */
  lemma Exclusive(c: Config, s: State)
    requires Inv(c, s) && s.producer.Copying? && (s.consumer.Reading? || s.consumer.Clearing?)
    ensures c.size > 0 && s.pushCount % c.size != s.popCount % c.size
  {
    hide Slot, Wrap, Shaped, Intact;
    SlotOfWrap(c.size, |s.pushed|);
    SlotOfWrap(c.size, |s.popped|);
    SlotsDiffer(c.size, |s.popped|, |s.pushed|);
  }

  /** No step touches memory outside the buffer or its own element. */
  lemma AlwaysSafe(c: Config, s: State, a: Action)
    requires Inv(c, s) && Enabled(c, s, a)
    ensures Safe(c, s, a)
  {
    hide Slot, Wrap, Intact;
    if a.CopyIn? {
      SlotOfWrap(c.size, |s.pushed|);
    } else if a.CopyOut? || a.Clear? {
      SlotOfWrap(c.size, |s.popped|);
    }
  }

  /**
   * First in, first out, over every interleaving without the misleading snapshot: nothing is lost, repeated,
   * reordered or torn, and at most size elements are outstanding.
   */
  lemma Fifo(c: Config, slots: seq<Elem>, actions: seq<Action>, s: State)
    requires Shaped(c, slots) && Reaches(c, slots, actions, s) && Unmisled(c, slots, actions)
    ensures s.popped <= s.pushed && |s.pushed| <= |s.popped| + c.size
    ensures Enabled(c, s, PublishPop) || Enabled(c, s, EndPeek) ==>
              |s.popped| < |s.pushed| && s.consumer.got == s.pushed[|s.popped|]
    ensures !s.producer.Copying? && !s.consumer.Clearing? ==>
              forall k: nat {:trigger s.pushed[k]} :: |s.popped| <= k < |s.pushed| ==>
                c.size > 0 && |s.slots| == c.size && s.slots[Slot(c.size, k)] == s.pushed[k]
  {
    ReachableInv(c, slots, actions, s);
  }

  /** When each publish is one store, this is so over every interleaving. */
  lemma AtomicFifo(c: Config, slots: seq<Elem>, actions: seq<Action>, s: State)
    requires c.atomic && Shaped(c, slots) && Reaches(c, slots, actions, s)
    ensures Unmisled(c, slots, actions) && s.popped <= s.pushed && |s.pushed| <= |s.popped| + c.size
  {
    NeverMisled(c, slots, actions, s);
    Fifo(c, slots, actions, s);
  }

  /** In a run every step is enabled where it is taken. */
  lemma {:induction false} TakenWhenEnabled(c: Config, slots: seq<Elem>, actions: seq<Action>, s: State, k: nat,
      r: State)
    requires Reaches(c, slots, actions, s) && k < |actions| && Reaches(c, slots, actions[..k], r)
    ensures Enabled(c, r, actions[k])
    decreases |actions|
  {
    hide Do, Enabled, Safe;
    var n := |actions| - 1;
    var q :| Reaches(c, slots, actions[..n], q) && Enabled(c, q, actions[n]) && Safe(c, q, actions[n])
        && s == Do(c, q, actions[n]);
    if k < n {
      assert actions[..n][..k] == actions[..k];
      TakenWhenEnabled(c, slots, actions[..n], q, k, r);
    } else {
      OneState(c, slots, actions[..n], q, r);
    }
  }

  /** The actions determine the state. */
  lemma {:induction false} OneState(c: Config, slots: seq<Elem>, actions: seq<Action>, s: State, t: State)
    requires Reaches(c, slots, actions, s) && Reaches(c, slots, actions, t)
    ensures s == t
  {
    hide Do, Enabled, Safe;
    if actions != [] {
      var n := |actions| - 1;
      var q :| Reaches(c, slots, actions[..n], q) && Enabled(c, q, actions[n]) && Safe(c, q, actions[n])
          && s == Do(c, q, actions[n]);
      var r :| Reaches(c, slots, actions[..n], r) && Enabled(c, r, actions[n]) && Safe(c, r, actions[n])
          && t == Do(c, r, actions[n]);
      OneState(c, slots, actions[..n], q, r);
    }
  }

  lemma NeverMisled(c: Config, slots: seq<Elem>, actions: seq<Action>, s: State)
    requires c.atomic && Reaches(c, slots, actions, s)
    ensures Unmisled(c, slots, actions)
  {
    hide Reaches, Enabled, Misled;
    forall k, r | 0 <= k < |actions| && Reaches(c, slots, actions[..k], r)
      ensures !Misled(c, r, actions[k])
    {
      TakenWhenEnabled(c, slots, actions, s, k, r);
      AtomicNeverMisled(c, r, actions[k]);
    }
  }

  /** Both sides at work never touch the same slot, and no step leaves the buffer. */
  lemma NoConflict(c: Config, slots: seq<Elem>, actions: seq<Action>, s: State, a: Action)
    requires Shaped(c, slots) && Reaches(c, slots, actions, s) && Unmisled(c, slots, actions)
    ensures s.producer.Copying? && (s.consumer.Reading? || s.consumer.Clearing?) ==>
              c.size > 0 && s.pushCount % c.size != s.popCount % c.size
    ensures Enabled(c, s, a) ==> Safe(c, s, a)
  {
    hide Inv;
    ReachableInv(c, slots, actions, s);
    if s.producer.Copying? && (s.consumer.Reading? || s.consumer.Clearing?) {
      Exclusive(c, s);
    }
    if Enabled(c, s, a) {
      AlwaysSafe(c, s, a);
    }
  }

  /** A call is refused exactly when the buffer was full, or empty, at the moment its snapshot was current. */
  lemma Refusals(c: Config, slots: seq<Elem>, actions: seq<Action>, s: State, a: Action)
    requires Shaped(c, slots) && Reaches(c, slots, actions, s) && Unmisled(c, slots, actions)
    requires Enabled(c, s, a) && !Misled(c, s, a)
    ensures a.StartPush? ==> (Refused(c, s, a) <==> |s.pushed| - a.seen.count == c.size)
    ensures a.StartPop? ==> (Refused(c, s, a) <==> a.seen.count == |s.popped|)
  {
    hide Inv;
    ReachableInv(c, slots, actions, s);
    RefusedMeans(c, s, a);
  }

  // ---------------------------------------------------------------------------
  // Neither side waits for the other
  // ---------------------------------------------------------------------------

  /** The steps the producer still has to take before its call returns. */
  function PushSteps(c: Config, s: State): int {
    match s.producer
    case Ready => 0
    case Copying(_, done) => c.width - done + 1 + if c.atomic then 0 else 1
    case WrappingPush => 1
  }

  /** The steps the consumer still has to take before its call returns. */
  function PopSteps(c: Config, s: State): int {
    var publish := if c.atomic then 1 else 2;
    match s.consumer
    case Waiting => 0
    case Reading(got, peek) => c.width - |got| + if peek then 1 else if c.clean then c.width + 1 + publish else publish
    case Clearing(_, cleared) => c.width - cleared + publish
    case WrappingPop => 1
  }

  ghost predicate PushStep(c: Config, s: State, a: Action) {
    Enabled(c, s, a) && Safe(c, s, a) && ByProducer(a) && PushSteps(c, Do(c, s, a)) == PushSteps(c, s) - 1
  }

  ghost predicate PopStep(c: Config, s: State, a: Action) {
    Enabled(c, s, a) && Safe(c, s, a) && !ByProducer(a) && PopSteps(c, Do(c, s, a)) == PopSteps(c, s) - 1
  }

  /** A step of one side leaves the other where it is in its call. */
  lemma OtherSide(c: Config, s: State, a: Action)
    requires Enabled(c, s, a) && Safe(c, s, a)
    ensures ByProducer(a) ==> PopSteps(c, Do(c, s, a)) == PopSteps(c, s)
    ensures !ByProducer(a) ==> PushSteps(c, Do(c, s, a)) == PushSteps(c, s)
  {
  }

  /**
   * A call under way always has a next step of its own, each one brings it nearer its end, and no step of the
   * other side takes it back.
   */
  lemma WaitFree(c: Config, slots: seq<Elem>, actions: seq<Action>, s: State)
    requires Shaped(c, slots) && Reaches(c, slots, actions, s) && Unmisled(c, slots, actions)
    ensures PushSteps(c, s) >= 0 && PopSteps(c, s) >= 0
    ensures !s.producer.Ready? ==> exists a :: PushStep(c, s, a)
    ensures !s.consumer.Waiting? ==> exists a :: PopStep(c, s, a)
    ensures forall a {:trigger ByProducer(a)} :: Enabled(c, s, a) && Safe(c, s, a) ==>
              if ByProducer(a) then PopSteps(c, Do(c, s, a)) == PopSteps(c, s)
              else PushSteps(c, Do(c, s, a)) == PushSteps(c, s)
  {
    hide *;
    ReachableInv(c, slots, actions, s);
    StepsLeft(c, s);
    if !s.producer.Ready? {
      var a := PushMoves(c, s);
    }
    if !s.consumer.Waiting? {
      var a := PopMoves(c, s);
    }
    forall a | Enabled(c, s, a) && Safe(c, s, a)
      ensures ByProducer(a) ==> PopSteps(c, Do(c, s, a)) == PopSteps(c, s)
      ensures !ByProducer(a) ==> PushSteps(c, Do(c, s, a)) == PushSteps(c, s)
    {
      OtherSide(c, s, a);
    }
  }

  lemma StepsLeft(c: Config, s: State)
    requires Inv(c, s)
    ensures PushSteps(c, s) >= 0 && PopSteps(c, s) >= 0
    ensures s.producer.Copying? ==> s.producer.done <= c.width
    ensures s.consumer.Reading? ==> |s.consumer.got| <= c.width
    ensures s.consumer.Clearing? ==> s.consumer.cleared <= c.width
  {
    hide Shaped, Counts, Intact;
  }

  lemma PushMoves(c: Config, s: State) returns (a: Action)
    requires Inv(c, s) && !s.producer.Ready?
    ensures PushStep(c, s, a)
  {
    hide Inv, Safe;
    StepsLeft(c, s);
    if s.producer.Copying? {
      a := if s.producer.done < c.width then CopyIn else PublishPush;
    } else {
      a := WrapPush;
    }
    AlwaysSafe(c, s, a);
  }

  lemma PopMoves(c: Config, s: State) returns (a: Action)
    requires Inv(c, s) && !s.consumer.Waiting?
    ensures PopStep(c, s, a)
  {
    hide Inv, Safe;
    StepsLeft(c, s);
    a := ConsumerStep(c, s);
    AlwaysSafe(c, s, a);
  }

  /** What the consumer does next in a call under way. */
  function ConsumerStep(c: Config, s: State): Action
    requires !s.consumer.Waiting?
  {
    match s.consumer
    case Reading(got, peek) =>
      if |got| < c.width then CopyOut else if peek then EndPeek else if c.clean then StartClear else PublishPop
    case Clearing(_, cleared) => if cleared < c.width then Clear else PublishPop
    case WrappingPop => WrapPop
  }
}
