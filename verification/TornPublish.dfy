/**
 * The gap between the increment and the wrap of the push counter (src/circbuf.c): in a buffer of any size a
 * consumer can read the counter there after taking everything, and then pops what was never pushed.
 */
module TornPublish {
  import opened Basics
  import opened CircularBuffers
  import opened ProducerConsumer

  /** s is reached by these actions, none of which took the misleading snapshot. */
  ghost predicate Soundly(c: Config, slots: seq<Elem>, actions: seq<Action>, s: State) {
    Shaped(c, slots) && Reaches(c, slots, actions, s) && Unmisled(c, slots, actions) && Inv(c, s)
  }

  lemma ReachesStep(c: Config, slots: seq<Elem>, actions: seq<Action>, s: State, a: Action)
    requires Reaches(c, slots, actions, s) && Enabled(c, s, a) && Safe(c, s, a)
    ensures Reaches(c, slots, actions + [a], Do(c, s, a))
  {
    hide Enabled, Safe, Do;
    assert (actions + [a])[..|actions|] == actions;
  }

  lemma UnmisledStep(c: Config, slots: seq<Elem>, actions: seq<Action>, s: State, a: Action)
    requires Reaches(c, slots, actions, s) && Unmisled(c, slots, actions) && !Misled(c, s, a)
    ensures Unmisled(c, slots, actions + [a])
  {
    hide Misled, Reaches;
    var more := actions + [a];
    forall k, r | 0 <= k < |more| && Reaches(c, slots, more[..k], r)
      ensures !Misled(c, r, more[k])
    {
      assert more[..k] == actions[..k];
      if k == |actions| {
        assert actions[..k] == actions;
        OneState(c, slots, actions, s, r);
      }
    }
  }

  /** One more step of a sound run. */
  lemma Next(c: Config, slots: seq<Elem>, actions: seq<Action>, s: State, a: Action)
      returns (more: seq<Action>, t: State)
    requires Soundly(c, slots, actions, s) && Enabled(c, s, a) && !Misled(c, s, a)
    ensures more == actions + [a] && Soundly(c, slots, more, t) && Safe(c, s, a) && t == Do(c, s, a)
  {
    hide Enabled, Safe, Do, Misled, Inv, Reaches, Unmisled, Shaped;
    AlwaysSafe(c, s, a);
    ReachesStep(c, slots, actions, s, a);
    UnmisledStep(c, slots, actions, s, a);
    StepExactly(c, s, a);
    more, t := actions + [a], Do(c, s, a);
  }

  /** A push under way is carried on to its increment. */
  lemma {:induction false} PushOn(c: Config, slots: seq<Elem>, actions: seq<Action>, s: State)
      returns (more: seq<Action>, t: State)
    requires !c.atomic && Soundly(c, slots, actions, s) && s.producer.Copying? && s.producer.done <= c.width
    ensures Soundly(c, slots, more, t) && t.producer.WrappingPush? && t.pushed == s.pushed + [s.producer.elem]
    ensures t.consumer == s.consumer && t.popped == s.popped && t.pushSeen == s.pushSeen && t.popSeen == s.popSeen
    decreases c.width - s.producer.done
  {
    hide Soundly, InBounds;
    if s.producer.done < c.width {
      more, t := Next(c, slots, actions, s, CopyIn);
      more, t := PushOn(c, slots, more, t);
    } else {
      more, t := Next(c, slots, actions, s, PublishPush);
    }
  }

  ghost predicate StepsOk(c: Config, s: State) {
    && (s.consumer.Reading? ==> |s.consumer.got| <= c.width)
    && (s.consumer.Clearing? ==> s.consumer.cleared <= c.width)
  }

  /** A pop under way is carried on to its increment. */
  lemma {:induction false} PopOn(c: Config, slots: seq<Elem>, actions: seq<Action>, s: State)
      returns (more: seq<Action>, t: State)
    requires !c.atomic && Soundly(c, slots, actions, s) && PopUnderWay(s)
    ensures Soundly(c, slots, more, t) && t.consumer.WrappingPop? && |t.popped| == |s.popped| + 1
    ensures t.producer == s.producer && t.pushed == s.pushed && t.pushSeen == s.pushSeen && t.popSeen == s.popSeen
    decreases PopSteps(c, s)
  {
    hide *;
    SoundlyMeans(c, slots, actions, s);
    var a := NextInPop(c, s);
    more, t := Next(c, slots, actions, s, a);
    if !a.PublishPop? {
      SoundlyMeans(c, slots, more, t);
      more, t := PopOn(c, slots, more, t);
    }
  }

  /** The consumer's next step in a pop: the increment, or one that leaves it in the pop. */
  lemma NextInPop(c: Config, s: State) returns (a: Action)
    requires !c.atomic && PopUnderWay(s) && StepsOk(c, s)
    ensures Enabled(c, s, a) && !Misled(c, s, a) && !ByProducer(a) && !a.StartPop? && !a.WrapPop?
    ensures Safe(c, s, a) ==>
              var t := Do(c, s, a);
              && t.producer == s.producer && t.pushed == s.pushed && t.pushSeen == s.pushSeen && t.popSeen == s.popSeen
              && (if a.PublishPop? then t.consumer.WrappingPop? && |t.popped| == |s.popped| + 1
                  else PopUnderWay(t) && t.popped == s.popped && PopSteps(c, t) < PopSteps(c, s))
  {
    a := ConsumerStep(c, s);
  }

  ghost predicate PopUnderWay(s: State) {
    (s.consumer.Reading? && !s.consumer.peek) || s.consumer.Clearing?
  }

  lemma SoundlyMeans(c: Config, slots: seq<Elem>, actions: seq<Action>, s: State)
    requires Soundly(c, slots, actions, s)
    ensures Inv(c, s) && Reaches(c, slots, actions, s) && Shaped(c, slots) && StepsOk(c, s) && PopSteps(c, s) >= 0
  {
    StepsLeft(c, s);
  }

  // ---------------------------------------------------------------------------
  // The gap is reached in every buffer
  // ---------------------------------------------------------------------------

  /** Both sides idle and everything pushed has been popped. */
  ghost predicate Level(s: State, k: nat) {
    s.producer.Ready? && s.consumer.Waiting? && |s.pushed| == |s.popped| == k
  }

  /** One element has been pushed, but for the wrap of its counter, and not seen by the consumer. */
  ghost predicate Ahead(s: State, k: nat) {
    s.producer.WrappingPush? && s.consumer.Waiting? && |s.pushed| == k + 1 && |s.popped| == k && s.pushSeen.count <= k
  }

  lemma LevelMeans(c: Config, s: State, k: nat)
    requires Inv(c, s) && Level(s, k)
    ensures s.popSeen.count <= k && s.pushSeen.count == k
  {
  }

  /** A push from level, up to its increment. */
  lemma PushFromLevel(c: Config, slots: seq<Elem>, actions: seq<Action>, s: State, k: nat)
      returns (more: seq<Action>, t: State)
    requires !c.atomic && c.size > 0 && Soundly(c, slots, actions, s) && Level(s, k)
    ensures Soundly(c, slots, more, t) && Ahead(t, k)
  {
    hide Soundly, Inv, Refused;
    SoundlyMeans(c, slots, actions, s);
    LevelMeans(c, s, k);
    var a := StartPush(seq(c.width, _ => 0), Snapshot(k, false));
    RefusedMeans(c, s, a);
    more, t := Next(c, slots, actions, s, a);
    more, t := PushOn(c, slots, more, t);
  }

  /** The consumer takes that element, whichever way it read the counter. */
  lemma PopAhead(c: Config, slots: seq<Elem>, actions: seq<Action>, s: State, k: nat, seen: Snapshot)
      returns (more: seq<Action>, t: State)
    requires !c.atomic && c.size > 0 && Soundly(c, slots, actions, s)
    requires |s.pushed| == k + 1 && |s.popped| == k && s.pushSeen.count <= k && s.consumer.Waiting?
        && !s.producer.Copying?
    requires seen.count == k + 1 && (s.producer.WrappingPush? ==> seen.raw)
    ensures Soundly(c, slots, more, t) && t.producer == s.producer && t.consumer.Waiting?
    ensures t.pushed == s.pushed && |t.popped| == k + 1 && t.pushSeen == seen
  {
    hide *;
    SoundlyMeans(c, slots, actions, s);
    var a := StartPop(false, seen);
    StartsPop(c, s, k, seen);
    more, t := Next(c, slots, actions, s, a);
    more, t := PopOn(c, slots, more, t);
    EndsPop(c, t);
    more, t := Next(c, slots, more, t, WrapPop);
  }

  lemma StartsPop(c: Config, s: State, k: nat, seen: Snapshot)
    requires !c.atomic && c.size > 0 && Inv(c, s)
    requires |s.pushed| == k + 1 && |s.popped| == k && s.pushSeen.count <= k && s.consumer.Waiting?
        && !s.producer.Copying?
    requires seen.count == k + 1 && (s.producer.WrappingPush? ==> seen.raw)
    ensures var a := StartPop(false, seen);
      && Enabled(c, s, a) && !Misled(c, s, a)
      && Do(c, s, a) == s.(pushSeen := seen, consumer := Reading([], false)) && PopUnderWay(Do(c, s, a))
  {
    hide Inv, Refused;
    RefusedMeans(c, s, StartPop(false, seen));
  }

  lemma EndsPop(c: Config, s: State)
    requires s.consumer.WrappingPop?
    ensures Enabled(c, s, WrapPop) && !Misled(c, s, WrapPop)
    ensures var t := Do(c, s, WrapPop);
      t.consumer.Waiting? && t.producer == s.producer && t.pushed == s.pushed && t.popped == s.popped
          && t.pushSeen == s.pushSeen
  {
  }

  /** One element through the buffer. */
  lemma Round(c: Config, slots: seq<Elem>, actions: seq<Action>, s: State, k: nat) returns (more: seq<Action>, t: State)
    requires !c.atomic && c.size > 0 && Soundly(c, slots, actions, s) && Level(s, k)
    ensures Soundly(c, slots, more, t) && Level(t, k + 1)
  {
    hide Soundly, Inv;
    more, t := PushFromLevel(c, slots, actions, s, k);
    more, t := Next(c, slots, more, t, WrapPush);
    more, t := PopAhead(c, slots, more, t, k, Snapshot(k + 1, false));
  }

  lemma {:induction false} Rounds(c: Config, slots: seq<Elem>, k: nat) returns (actions: seq<Action>, s: State)
    requires !c.atomic && c.size > 0 && Shaped(c, slots)
    ensures Soundly(c, slots, actions, s) && Level(s, k)
    decreases k
  {
    if k == 0 {
      actions, s := [], Initial(c, slots);
      InitialInv(c, slots);
    } else {
      hide Soundly, Level;
      actions, s := Rounds(c, slots, k - 1);
      actions, s := Round(c, slots, actions, s, k - 1);
    }
  }

  /** In a buffer of any size there is a run, sound so far, whose next pop can take the misleading snapshot. */
  lemma GapReached(c: Config, slots: seq<Elem>) returns (actions: seq<Action>, s: State, a: Action)
    requires !c.atomic && c.size > 0 && Shaped(c, slots)
    ensures Soundly(c, slots, actions, s) && a == StartPop(false, Snapshot(|s.pushed|, true))
    ensures Enabled(c, s, a) && Misled(c, s, a)
  {
    hide Soundly, Inv;
    var k := 2 * c.size - 1;
    actions, s := Rounds(c, slots, k);
    actions, s := PushFromLevel(c, slots, actions, s, k);
    actions, s := PopAhead(c, slots, actions, s, k, Snapshot(k + 1, true));
    a := StartPop(false, Snapshot(k + 1, true));
    ModIs(2 * c.size, 2 * c.size, 1, 0);
  }

  // ---------------------------------------------------------------------------
  // What comes of it
  // ---------------------------------------------------------------------------

  /** The memory is there for the consumer to read. */
  ghost predicate Readable(c: Config, s: State) {
    c.size > 0 && Shaped(c, s.slots) && s.popCount >= 0
  }

  lemma ReadNext(c: Config, s: State, a: Action)
    requires Readable(c, s) && StepsOk(c, s) && Enabled(c, s, a) && !ByProducer(a) && !a.StartPop?
    ensures Safe(c, s, a)
    ensures !a.PublishPop? && !a.WrapPop? ==> Readable(c, Do(c, s, a)) && StepsOk(c, Do(c, s, a))
  {
  }

  lemma {:induction false} ReadOn(c: Config, slots: seq<Elem>, actions: seq<Action>, s: State)
      returns (more: seq<Action>, t: State)
    requires !c.atomic && Reaches(c, slots, actions, s) && Readable(c, s) && StepsOk(c, s) && PopUnderWay(s)
    ensures actions <= more && Reaches(c, slots, more, t) && |t.popped| == |s.popped| + 1 && t.pushed == s.pushed
    decreases PopSteps(c, s)
  {
    hide *;
    var a := NextInPop(c, s);
    ReadNext(c, s, a);
    ReachesStep(c, slots, actions, s, a);
    more, t := actions + [a], Do(c, s, a);
    if !a.PublishPop? {
      StepsNatural(c, t);
      more, t := ReadOn(c, slots, more, t);
    }
  }

  lemma StepsNatural(c: Config, s: State)
    requires StepsOk(c, s)
    ensures PopSteps(c, s) >= 0
  {
  }

  /**
   * What the misleading snapshot leads to: if it is the latest one, the run can go on to a pop that returns an
   * element although everything pushed had been popped.
   */
  lemma MisledOvertakes(c: Config, slots: seq<Elem>, actions: seq<Action>, s: State, a: Action)
      returns (more: seq<Action>, t: State)
    requires Soundly(c, slots, actions, s) && Enabled(c, s, a) && Misled(c, s, a)
    requires !a.peek && a.seen.count == |s.pushed|
    ensures actions <= more && Reaches(c, slots, more, t) && |t.popped| > |t.pushed|
  {
    hide Soundly, Reaches, Inv, Shaped, InBounds, Wrap;
    SoundlyMeans(c, slots, actions, s);
    PopTotal(c, s, a);
    SizesMean(c, s);
    ReachesStep(c, slots, actions, s, a);
    more, t := ReadOn(c, slots, actions + [a], Do(c, s, a));
  }

  lemma SizesMean(c: Config, s: State)
    requires Inv(c, s)
    ensures Shaped(c, s.slots) && s.popCount >= 0 && |s.popped| <= |s.pushed|
  {
  }

  /** Nothing is popped that was not pushed before. */
  ghost predicate InOrder(c: Config, slots: seq<Elem>, actions: seq<Action>, s: State) {
    Reaches(c, slots, actions, s) ==> s.popped <= s.pushed
  }

  /**
   * The buffer is first in, first out over every interleaving if and only if a publish is one store (or there is no
   * slot).
   */
  lemma InOrderExactly(c: Config, slots: seq<Elem>)
    requires Shaped(c, slots)
    ensures (forall actions, s :: InOrder(c, slots, actions, s)) <==> c.atomic || c.size == 0
  {
    hide Reaches, Misled, Enabled;
    if c.atomic || c.size == 0 {
      forall actions, s
        ensures InOrder(c, slots, actions, s)
      {
        if Reaches(c, slots, actions, s) {
          if c.atomic {
            NeverMisled(c, slots, actions, s);
          } else {
            NoSlotNoGap(c, slots, actions);
          }
          Fifo(c, slots, actions, s);
        }
      }
    } else {
      var actions, s, a := GapReached(c, slots);
      var more, t := MisledOvertakes(c, slots, actions, s, a);
      assert !InOrder(c, slots, more, t);
    }
  }

  lemma NoSlotNoGap(c: Config, slots: seq<Elem>, actions: seq<Action>)
    requires c.size == 0
    ensures Unmisled(c, slots, actions)
  {
    hide Reaches;
  }
}
