/**
  What a turn of the feeder does (feed_carousel_from_highest_priority_bucket,
  crawler/domain_carousel.h, and feed_carousel_worker, crawler/bucket_manager.h): it
  empties the first bucket that is not empty, in order, into the slots or the backoff
  queue.  First over all runs of the protocol, with workers and listeners taking steps in
  between, and then as the loop that runs while no other thread does.
*/
module FeederTurns {
  import opened Bytes
  import opened Frontier

  // ---------------------------------------------------------------- what has gone to a slot

  /** The targets pulled from a slot, in order. */
  function PulledFrom(pulls: seq<Pull>, slot: nat): seq<Target> {
    if pulls == [] then []
    else PulledFrom(pulls[..|pulls| - 1], slot) + if pulls[|pulls| - 1].slot == slot then [pulls[|pulls| - 1].target] else []
  }

  /** Everything that ever went to a slot, in order: what was pulled from it and what still waits. */
  function Lane(f: Frontier, slot: nat): seq<Target>
    requires Shaped(f) && slot < CRAWLER_CAROUSEL_SIZE
  {
    PulledFrom(f.pulls, slot) + f.slots[slot]
  }

  lemma PushGrowsLane(f: Frontier, target: Target, slot: nat)
    requires Shaped(f) && slot < CRAWLER_CAROUSEL_SIZE
    ensures Shaped(Push(f, target))
    ensures Lane(Push(f, target), slot) == Lane(f, slot) + if SlotOf(target.domain) == slot then [target] else []
  {
    hide SlotOf, PulledFrom;
    Regroup(PulledFrom(f.pulls, slot), f.slots[slot], [target]);
  }

  lemma Regroup(a: seq<Target>, b: seq<Target>, c: seq<Target>)
    ensures a + (b + c) == a + b + c && a + [] == a
  {
  }

  lemma PullKeepsLane(f: Frontier, worker: nat, pulled: nat, slot: nat)
    requires Shaped(f) && Enabled(f, PullFrom(worker, pulled)) && slot < CRAWLER_CAROUSEL_SIZE
    ensures Shaped(Next(f, PullFrom(worker, pulled))) && Lane(Next(f, PullFrom(worker, pulled)), slot) == Lane(f, slot)
  {
    hide Watches, ElapsedSeconds;
    var p := Pull(f.slots[pulled][0], pulled, f.now);
    assert (f.pulls + [p])[..|f.pulls|] == f.pulls;
    assert f.slots[pulled] == [f.slots[pulled][0]] + f.slots[pulled][1..];
    if slot == pulled { Regroup(PulledFrom(f.pulls, slot), [f.slots[pulled][0]], f.slots[pulled][1..]); }
  }

  /** What one step adds to a lane: only the feeder adds, a target that has room, at the end. */
  lemma LaneStep(f: Frontier, step: Step, g: Frontier, slot: nat)
    requires Stepped(f, step, g) && slot < CRAWLER_CAROUSEL_SIZE
    ensures Shaped(g) && Lane(f, slot) <= Lane(g, slot)
    ensures !step.Feed? || !(f.feeder.Placing? || f.feeder.Pushing?) || !(g.feeder.Emptying? || g.feeder.Draining?) ==>
              Lane(g, slot) == Lane(f, slot)
    ensures step.Feed? && f.feeder.Placing? && g.feeder.Emptying? ==>
              Lane(g, slot) == Lane(f, slot) + if SlotOf(f.feeder.target.domain) == slot then [f.feeder.target] else []
  {
    hide SlotOf, PulledFrom, ElapsedSeconds, Push, HasRoom;
    match step
    case PullFrom(worker, pulled) => PullKeepsLane(f, worker, pulled, slot);
    case Feed(_) =>
      if f.feeder.Placing? || f.feeder.Pushing? {
        PushGrowsLane(f, f.feeder.target, slot);
        PushKeepsRest(f, f.feeder.target);
      }
    case _ =>
  }

  lemma PushKeepsRest(f: Frontier, target: Target)
    requires Shaped(f)
    ensures Push(f, target) == f.(slots := Push(f, target).slots) && |Push(f, target).slots| == |f.slots|
  {
    hide SlotOf;
  }

  /** In any run targets leave a slot in the order in which they came to it. */
  lemma {:induction false} LanesGrow(states: seq<Frontier>, steps: seq<Step>, m: nat, n: nat, slot: nat)
    requires IsRun(states, steps) && m <= n < |states| && slot < CRAWLER_CAROUSEL_SIZE
    ensures Shaped(states[m]) && Shaped(states[n]) && Lane(states[m], slot) <= Lane(states[n], slot)
    decreases n - m
  {
    hide Inv, Stepped, Lane, Shaped;
    RunInv(states, steps, m);
    RunInv(states, steps, n);
    InvShaped(states[m]);
    InvShaped(states[n]);
    if m < n {
      LanesGrow(states, steps, m, n - 1, slot);
      LaneStep(states[n - 1], steps[n - 1], states[n], slot);
      PrefixThrough(Lane(states[m], slot), Lane(states[n - 1], slot), Lane(states[n], slot));
    }
  }

  lemma PrefixThrough(a: seq<Target>, b: seq<Target>, c: seq<Target>)
    requires a <= b <= c
    ensures a <= c
  {
    assert c[..|a|] == b[..|a|];
  }

  // ---------------------------------------------------------------- what waits in a bucket

  /** What was brought to a bucket, in order. */
  function Brought(steps: seq<Step>, b: nat): seq<Target> {
    if steps == [] then []
    else
      var last := steps[|steps| - 1];
      Brought(steps[..|steps| - 1], b) + if last.Enqueue? && last.bucket == b then [last.target] else []
  }

  lemma BucketStep(f: Frontier, step: Step, g: Frontier, b: nat)
    requires Stepped(f, step, g) && b < PRIORITY_BUCKETS && !HoldsBucket(f.feeder, b)
    ensures Shaped(g) && g.buckets[b] == f.buckets[b] + if step.Enqueue? && step.bucket == b then [step.target] else []
  {
    hide SlotOf, ElapsedSeconds, HasRoom, Watches;
  }

  /** Until the feeder takes it, a bucket queues up what is brought to it, and nothing leaves it. */
  lemma {:induction false} BucketQueues(states: seq<Frontier>, steps: seq<Step>, m: nat, n: nat, b: nat)
    requires IsRun(states, steps) && m <= n < |states| && b < 8
    requires forall i | m <= i < n :: !HoldsBucket(states[i].feeder, b)
    ensures Shaped(states[m]) && Shaped(states[n]) && states[n].buckets[b] == states[m].buckets[b] + Brought(steps[m..n], b)
    decreases n - m
  {
    hide Inv, Stepped, Shaped;
    RunInv(states, steps, m);
    InvShaped(states[m]);
    if m < n {
      BucketQueues(states, steps, m, n - 1, b);
      assert steps[m..n][..n - 1 - m] == steps[m..n - 1];
      BucketStep(states[n - 1], steps[n - 1], states[n], b);
    }
  }

  // ---------------------------------------------------------------- which bucket is emptied

  predicate AtLevel(feeder: Feeder, level: nat) {
    feeder == Scanning(level) || HoldsBucket(feeder, level)
  }

  /** The feeder looked at this bucket and found it empty. */
  ghost predicate FoundEmpty(states: seq<Frontier>, steps: seq<Step>, m: nat, level: nat) {
    m < |steps| < |states| && steps[m].Feed? && states[m].feeder == Scanning(level)
    && level < |states[m].buckets| && states[m].buckets[level] == []
  }

  ghost predicate NoRest(states: seq<Frontier>, m: nat, n: nat) {
    n < |states| && forall i | m <= i <= n :: states[i].feeder != Resting
  }

  /** Earlier in the same turn. */
  ghost predicate PassedEmpty(states: seq<Frontier>, steps: seq<Step>, n: nat, level: nat) {
    exists m: nat :: m < n && FoundEmpty(states, steps, m, level) && NoRest(states, m, n)
  }

  /** When the feeder is at a bucket, it has found each bucket before it empty in the same turn. */
  lemma {:induction false} ScannedBefore(states: seq<Frontier>, steps: seq<Step>, n: nat, level: nat, before: nat) returns (m: nat)
    requires IsRun(states, steps) && n < |states| && AtLevel(states[n].feeder, level) && before < level
    ensures m < n && FoundEmpty(states, steps, m, before) && NoRest(states, m, n)
    decreases n
  {
    hide SlotOf, ElapsedSeconds, Inv;
    assert n > 0;
    RunInv(states, steps, n - 1);
    InvShaped(states[n - 1]);
    CameTo(states[n - 1], steps[n - 1], states[n], level);
    if AtLevel(states[n - 1].feeder, level) {
      m := ScannedBefore(states, steps, n - 1, level, before);
    } else if before == level - 1 {
      m := n - 1;
    } else {
      m := ScannedBefore(states, steps, n - 1, level - 1, before);
    }
  }

  /** How the feeder comes to a bucket: it was there, or has just passed the one before, or begins its turn. */
  lemma CameTo(f: Frontier, step: Step, g: Frontier, level: nat)
    requires Stepped(f, step, g) && AtLevel(g.feeder, level)
    ensures AtLevel(f.feeder, level) || (step.Feed? && f.feeder == Resting && level == 0)
            || (step.Feed? && level > 0 && f.feeder == Scanning(level - 1) && level - 1 < |f.buckets| && f.buckets[level - 1] == [])
  {
    hide SlotOf, ElapsedSeconds, HasRoom, Watches;
  }

  /** A bucket is entered only when it is not empty and all before it were empty when they were looked at. */
  lemma EntersFirstNonEmpty(states: seq<Frontier>, steps: seq<Step>, n: nat, level: nat)
    requires IsRun(states, steps) && n < |steps|
    requires states[n].feeder == Scanning(level) && states[n + 1].feeder == Emptying(level)
    ensures level < |states[n].buckets| && states[n].buckets[level] != [] && states[n + 1].buckets == states[n].buckets
    ensures forall before | 0 <= before < level :: PassedEmpty(states, steps, n, before)
  {
    hide FoundEmpty, NoRest, Inv;
    RunInv(states, steps, n);
    InvShaped(states[n]);
    Entered(states[n], steps[n], states[n + 1], level);
    forall before | 0 <= before < level ensures PassedEmpty(states, steps, n, before) {
      var m := ScannedBefore(states, steps, n, level, before);
    }
  }

  lemma Entered(f: Frontier, step: Step, g: Frontier, level: nat)
    requires Stepped(f, step, g) && f.feeder == Scanning(level) && g.feeder == Emptying(level)
    ensures level < |f.buckets| && f.buckets[level] != [] && g.buckets == f.buckets
  {
  }

  // ---------------------------------------------------------------- what emptying does

  /** Of the first targets of a bucket those that went to this slot. */
  function Chosen(bucket: seq<Target>, fits: seq<bool>, slot: nat): seq<Target>
    requires |fits| <= |bucket|
    decreases |fits|
  {
    if fits == [] then []
    else
      var k := |fits| - 1;
      Chosen(bucket, fits[..k], slot) + if fits[k] && SlotOf(bucket[k].domain) == slot then [bucket[k]] else []
  }

  /** And those that were refused. */
  function Refused(bucket: seq<Target>, fits: seq<bool>): seq<Target>
    requires |fits| <= |bucket|
    decreases |fits|
  {
    if fits == [] then []
    else
      var k := |fits| - 1;
      Refused(bucket, fits[..k]) + if fits[k] then [] else [bucket[k]]
  }

  lemma OneDecisionMore(bucket: seq<Target>, fits: seq<bool>, fit: bool)
    requires |fits| < |bucket|
    ensures var k := |fits|;
            && (forall slot :: Chosen(bucket, fits + [fit], slot) ==
                  Chosen(bucket, fits, slot) + if fit && SlotOf(bucket[k].domain) == slot then [bucket[k]] else [])
            && Refused(bucket, fits + [fit]) == Refused(bucket, fits) + if fit then [] else [bucket[k]]
  {
    assert (fits + [fit])[..|fits|] == fits;
  }

  /** Since f0 the first |fits| targets of its bucket b have gone, each where its decision says. */
  ghost predicate FedSince(f0: Frontier, f: Frontier, b: nat, fits: seq<bool>)
    requires Shaped(f0) && Shaped(f) && b < PRIORITY_BUCKETS
  {
    var bucket := f0.buckets[b];
    && |fits| <= |bucket|
    && (forall slot | 0 <= slot < CRAWLER_CAROUSEL_SIZE :: Lane(f, slot) == Lane(f0, slot) + Chosen(bucket, fits, slot))
    && RejectedTargets(f.backoff) == RejectedTargets(f0.backoff) + Refused(bucket, fits)
  }

  /** The rest of the bucket, and the target in hand. */
  ghost predicate StillThere(f0: Frontier, f: Frontier, b: nat, done: nat)
    requires Shaped(f0) && Shaped(f) && b < PRIORITY_BUCKETS && done <= |f0.buckets[b]|
  {
    var bucket := f0.buckets[b];
    match f.feeder
    case Emptying(level) => level == b && f.buckets[b] == bucket[done..]
    case Placing(level, t) => level == b && done < |bucket| && t == bucket[done] && f.buckets[b] == bucket[done + 1..]
    case Spilling(level, t) => level == b && done < |bucket| && t == bucket[done] && f.buckets[b] == bucket[done + 1..]
    case Fed => done == |bucket| && f.buckets[b] == []
    case _ => false
  }

  lemma FedFromStart(f: Frontier, b: nat)
    requires Shaped(f) && b < PRIORITY_BUCKETS && f.feeder == Emptying(b)
    ensures FedSince(f, f, b, []) && StillThere(f, f, b, 0)
  {
    hide Lane;
    assert f.buckets[b][0..] == f.buckets[b];
    assert forall slot :: Chosen(f.buckets[b], [], slot) == [];
  }

  /** One step, whoever takes it. */
  lemma FedStep(f0: Frontier, f: Frontier, step: Step, g: Frontier, b: nat, fits: seq<bool>) returns (more: seq<bool>)
    requires Shaped(f0) && b < PRIORITY_BUCKETS && Stepped(f, step, g) && f.feeder != Fed
    requires FedSince(f0, f, b, fits) && StillThere(f0, f, b, |fits|)
    ensures Shaped(g) && FedSince(f0, g, b, more) && StillThere(f0, g, b, |more|)
  {
    hide FedSince, Lane, SlotOf, ElapsedSeconds, HasRoom, Watches;
    FewerThanBucket(f0, f, b, fits);
    forall slot | 0 <= slot < CRAWLER_CAROUSEL_SIZE { LaneStep(f, step, g, slot); }
    LaneStep(f, step, g, 0);
    more := fits;
    if step.Feed? && f.feeder.Placing? && g.feeder.Emptying? {
      more := fits + [true];
      PlacedOne(f0, f, g, b, fits);
    } else if step.Feed? && f.feeder.Spilling? {
      more := fits + [false];
      SpilledOne(f0, f, g, b, fits);
    } else {
      NothingFed(f0, f, g, b, fits);
    }
  }

  lemma FewerThanBucket(f0: Frontier, f: Frontier, b: nat, fits: seq<bool>)
    requires Shaped(f0) && Shaped(f) && b < PRIORITY_BUCKETS && FedSince(f0, f, b, fits)
    ensures |fits| <= |f0.buckets[b]|
  {
  }

  lemma NothingFed(f0: Frontier, f: Frontier, g: Frontier, b: nat, fits: seq<bool>)
    requires Shaped(f0) && Shaped(f) && Shaped(g) && b < PRIORITY_BUCKETS && FedSince(f0, f, b, fits)
    requires g.backoff == f.backoff && forall slot | 0 <= slot < CRAWLER_CAROUSEL_SIZE :: Lane(g, slot) == Lane(f, slot)
    ensures FedSince(f0, g, b, fits)
  {
    hide Lane, Chosen, Refused;
  }

  lemma PlacedOne(f0: Frontier, f: Frontier, g: Frontier, b: nat, fits: seq<bool>)
    requires Shaped(f0) && Shaped(f) && Shaped(g) && b < PRIORITY_BUCKETS && FedSince(f0, f, b, fits) && |fits| < |f0.buckets[b]|
    requires var t := f0.buckets[b][|fits|];
             && g.backoff == f.backoff
             && forall slot | 0 <= slot < CRAWLER_CAROUSEL_SIZE ::
                  Lane(g, slot) == Lane(f, slot) + if SlotOf(t.domain) == slot then [t] else []
    ensures FedSince(f0, g, b, fits + [true])
  {
    hide Lane, Chosen, Refused, SlotOf, RejectedTargets;
    OneDecisionMore(f0.buckets[b], fits, true);
  }

  lemma SpilledOne(f0: Frontier, f: Frontier, g: Frontier, b: nat, fits: seq<bool>)
    requires Shaped(f0) && Shaped(f) && Shaped(g) && b < PRIORITY_BUCKETS && FedSince(f0, f, b, fits) && |fits| < |f0.buckets[b]|
    requires g.backoff == f.backoff + [Rejected(f0.buckets[b][|fits|], f.now)]
    requires forall slot | 0 <= slot < CRAWLER_CAROUSEL_SIZE :: Lane(g, slot) == Lane(f, slot)
    ensures FedSince(f0, g, b, fits + [false])
  {
    hide Lane, Chosen, Refused, SlotOf;
    OneDecisionMore(f0.buckets[b], fits, false);
    assert RejectedTargets(g.backoff) == RejectedTargets(f.backoff) + [f0.buckets[b][|fits|]];
  }

  /**
    From the moment the feeder holds a bucket to the moment it is fed, whatever the other
    threads do: the bucket is empty then, and each of its targets, in order, has gone to
    the end of its slot's lane or to the end of the backoff queue.
  */
  lemma {:induction false} BucketIsEmptied(states: seq<Frontier>, steps: seq<Step>, m: nat, n: nat, b: nat) returns (fits: seq<bool>)
    requires IsRun(states, steps) && m <= n < |states| && b < PRIORITY_BUCKETS && states[m].feeder == Emptying(b)
    requires forall i | m <= i < n :: HoldsBucket(states[i].feeder, b)
    requires HoldsBucket(states[n].feeder, b) || states[n].feeder == Fed
    ensures Shaped(states[m]) && Shaped(states[n]) && FedSince(states[m], states[n], b, fits)
    ensures StillThere(states[m], states[n], b, |fits|)
    ensures states[n].feeder == Fed ==> |fits| == |states[m].buckets[b]| && states[n].buckets[b] == []
    decreases n - m
  {
    hide Inv, FedSince, Stepped;
    RunInv(states, steps, m);
    InvShaped(states[m]);
    if m == n {
      FedFromStart(states[m], b);
      fits := [];
    } else {
      var before := BucketIsEmptied(states, steps, m, n - 1, b);
      fits := FedStep(states[m], states[n - 1], steps[n - 1], states[n], b, before);
    }
    FewerThanBucket(states[m], states[n], b, fits);
  }

  /** A target goes to its slot exactly when its lock is free and fewer than 32 targets wait there. */
  lemma PlacedWhenRoom(f: Frontier, contended: bool)
    requires Shaped(f) && f.feeder.Placing?
    ensures FeedNext(f, contended).feeder == Emptying(f.feeder.level) <==>
            !contended && |f.slots[SlotOf(f.feeder.target.domain)]| < 32
  {
    hide SlotOf;
  }

  // ---------------------------------------------------------------- a turn that has something to feed

  /** Within a turn that began with bucket `full` not empty, the feeder is at or before it, or has entered a bucket no later. */
  lemma {:induction false} TurnFinds(states: seq<Frontier>, steps: seq<Step>, m: nat, n: nat, full: nat) returns (e: nat, b: nat)
    requires IsRun(states, steps) && m < n < |states| && full < PRIORITY_BUCKETS
    requires states[m].feeder == Resting && full < |states[m].buckets| && states[m].buckets[full] != []
    requires forall i | m < i < n :: states[i].feeder != Resting && states[i].feeder != Fed
    requires states[n].feeder != Resting
    ensures states[n].feeder.Scanning? ==>
              states[n].feeder.level <= full && full < |states[n].buckets| && states[n].buckets[full] != []
    ensures !states[n].feeder.Scanning? ==>
              && m < e <= n && b <= full && states[e].feeder == Emptying(b) && b < |states[e].buckets| && states[e].buckets[b] != []
              && (forall i | e <= i < n :: HoldsBucket(states[i].feeder, b))
              && (HoldsBucket(states[n].feeder, b) || states[n].feeder == Fed)
    decreases n
  {
    hide Inv, SlotOf, ElapsedSeconds, HasRoom, Stepped;
    e, b := n, 0;
    RunInv(states, steps, n - 1);
    InvShaped(states[n - 1]);
    if n == m + 1 {
      TurnBegins(states[m], steps[m], states[n], full);
    } else {
      e, b := TurnFinds(states, steps, m, n - 1, full);
      if states[n - 1].feeder.Scanning? {
        ScanGoesOn(states[n - 1], steps[n - 1], states[n], full);
        e := n;
        if !states[n].feeder.Scanning? { b := states[n].feeder.level; }
      } else {
        HoldGoesOn(states[n - 1], steps[n - 1], states[n], b);
      }
    }
  }

  lemma TurnBegins(f: Frontier, step: Step, g: Frontier, full: nat)
    requires Stepped(f, step, g) && f.feeder == Resting && g.feeder != Resting && full < |f.buckets| && f.buckets[full] != []
    ensures g.feeder == Scanning(0) && full < |g.buckets| && g.buckets[full] != []
  {
    hide SlotOf, ElapsedSeconds, HasRoom;
  }

  lemma ScanGoesOn(f: Frontier, step: Step, g: Frontier, full: nat)
    requires Stepped(f, step, g) && f.feeder.Scanning? && f.feeder.level <= full < |f.buckets| && f.buckets[full] != []
    ensures full < |g.buckets| && g.buckets[full] != []
    ensures || (g.feeder.Scanning? && g.feeder.level <= full)
            || (g.feeder.Emptying? && g.feeder.level <= full && g.feeder.level < |g.buckets| && g.buckets[g.feeder.level] != [])
  {
    hide SlotOf, ElapsedSeconds, HasRoom;
  }

  lemma HoldGoesOn(f: Frontier, step: Step, g: Frontier, b: nat)
    requires Stepped(f, step, g) && HoldsBucket(f.feeder, b)
    ensures HoldsBucket(g.feeder, b) || g.feeder == Fed
  {
    hide SlotOf, ElapsedSeconds, HasRoom;
  }

  /** A turn that begins with some bucket not empty empties one, the same or an earlier one. */
  lemma TurnFeeds(states: seq<Frontier>, steps: seq<Step>, m: nat, n: nat, full: nat) returns (e: nat, b: nat, fits: seq<bool>)
    requires IsRun(states, steps) && m < n < |states| && full < PRIORITY_BUCKETS
    requires states[m].feeder == Resting && full < |states[m].buckets| && states[m].buckets[full] != []
    requires states[n].feeder == Fed && forall i | m < i < n :: states[i].feeder != Resting && states[i].feeder != Fed
    ensures m < e < n && b <= full && Shaped(states[e]) && Shaped(states[n])
    ensures states[e].buckets[b] != [] && |fits| == |states[e].buckets[b]| && FedSince(states[e], states[n], b, fits)
    ensures states[n].buckets[b] == []
  {
    hide FedSince, StillThere;
    e, b := TurnFinds(states, steps, m, n, full);
    fits := BucketIsEmptied(states, steps, e, n, b);
  }

  // ---------------------------------------------------------------- when a worker may pull

  /** In any run some worker may pull from a slot exactly when a target waits there and two seconds have passed. */
  lemma PullsWhenDue(states: seq<Frontier>, steps: seq<Step>, n: nat, slot: nat)
    requires IsRun(states, steps) && n < |states| && slot < CRAWLER_CAROUSEL_SIZE
    ensures var f := states[n];
            Shaped(f) && ((exists worker :: Enabled(f, PullFrom(worker, slot))) <==>
                          f.slots[slot] != [] && f.now >= f.lastSent[slot] + 2_000_000_000)
  {
    hide Watches, SlotOf, All;
    RunInv(states, steps, n);
    EachSlotWatchedOnce(slot, slot / 16);
    if states[n].slots[slot] != [] && states[n].now >= states[n].lastSent[slot] + 2_000_000_000 {
      assert Enabled(states[n], PullFrom(slot / 16, slot));
    }
  }

  /** Each turn looks at the backoff queue too, and leaves no rejection in it that was due then. */
  lemma TurnDrains(states: seq<Frontier>, steps: seq<Step>, m: nat, n: nat) returns (start: nat)
    requires IsRun(states, steps) && m + 1 < n < |states|
    requires states[m].feeder == states[n].feeder == Resting && forall i | m < i < n :: states[i].feeder != Resting
    ensures states[m].now <= start <= states[n].now
    ensures forall k | 0 <= k < |states[n].backoff| :: start < states[n].backoff[k].at + 2_000_000_000
  {
    hide Inv, SlotOf;
    RunInv(states, steps, n - 1);
    InvShaped(states[n - 1]);
    RestsAfterDrain(states[n - 1], steps[n - 1], states[n]);
    start := states[n - 1].feeder.start;
    DrainLeavesNoneDue(states, steps, n - 1);
    StartedSince(states, steps, m, n - 1);
  }

  lemma RestsAfterDrain(f: Frontier, step: Step, g: Frontier)
    requires Stepped(f, step, g) && f.feeder != Resting && g.feeder == Resting
    ensures f.feeder.Draining? && f.now <= g.now
  {
    hide SlotOf, ElapsedSeconds, HasRoom, Watches;
  }

  predicate Drains(feeder: Feeder) {
    feeder.Draining? || feeder.Pushing? || feeder.Returning?
  }

  /** A drain bears the time at which it started, within its turn. */
  lemma {:induction false} StartedSince(states: seq<Frontier>, steps: seq<Step>, m: nat, n: nat)
    requires IsRun(states, steps) && m <= n < |states| && !Drains(states[m].feeder)
    ensures states[m].now <= states[n].now
    ensures Drains(states[n].feeder) ==> states[m].now <= states[n].feeder.start <= states[n].now
    decreases n - m
  {
    hide Inv, Stepped;
    if m < n {
      StartedSince(states, steps, m, n - 1);
      DrainSince(states[n - 1], steps[n - 1], states[n]);
    }
  }

  lemma DrainSince(f: Frontier, step: Step, g: Frontier)
    requires Stepped(f, step, g)
    ensures f.now <= g.now
    ensures Drains(g.feeder) ==> if Drains(f.feeder) then g.feeder.start == f.feeder.start else g.feeder.start == f.now
  {
    hide SlotOf, ElapsedSeconds, HasRoom, Watches;
  }

  /** In any run the drain takes a rejection up exactly when it is the first and has waited two seconds. */
  lemma DrainsWhenDue(states: seq<Frontier>, steps: seq<Step>, n: nat)
    requires IsRun(states, steps) && n < |steps| && steps[n].Feed? && states[n].feeder.Draining?
    ensures var f, g := states[n], states[n + 1];
            if f.backoff != [] && f.feeder.start >= f.backoff[0].at + 2_000_000_000
            then g.feeder == Pushing(f.feeder.start, f.backoff[0].target) && g.backoff == f.backoff[1..]
            else g.feeder == Resting && g.backoff == f.backoff
  {
    hide SlotOf, All;
    RunInv(states, steps, n);
  }

  // ---------------------------------------------------------------- the feeding loop while no other thread runs

  predicate FirstNonEmpty(buckets: seq<seq<Target>>, level: int) {
    && -1 <= level < |buckets|
    && (forall i | 0 <= i < |buckets| && (level == -1 || i < level) :: buckets[i] == [])
    && (level >= 0 ==> buckets[level] != [])
  }

  /** The refused targets with the times of their refusal. */
  function RefusedAt(bucket: seq<Target>, fits: seq<bool>, clock: nat -> nat): seq<Rejected>
    requires |fits| <= |bucket|
    decreases |fits|
  {
    if fits == [] then []
    else
      var k := |fits| - 1;
      RefusedAt(bucket, fits[..k], clock) + if fits[k] then [] else [Rejected(bucket[k], clock(k))]
  }

  lemma OneRefusedMore(bucket: seq<Target>, fits: seq<bool>, fit: bool, clock: nat -> nat)
    requires |fits| < |bucket|
    ensures RefusedAt(bucket, fits + [fit], clock) ==
            RefusedAt(bucket, fits, clock) + if fit then [] else [Rejected(bucket[|fits|], clock(|fits|))]
  {
    assert (fits + [fit])[..|fits|] == fits;
  }

  /** A target fits when its slot's lock is free and the slot, with what went there before it, holds fewer than 32. */
  ghost predicate Fits(slots: seq<seq<Target>>, bucket: seq<Target>, fits: seq<bool>, contended: nat -> bool, k: nat)
    requires k < |fits| <= |bucket| && |slots| == CRAWLER_CAROUSEL_SIZE
  {
    var slot := SlotOf(bucket[k].domain);
    fits[k] <==> !contended(k) && |slots[slot]| + |Chosen(bucket, fits[..k], slot)| < 32
  }

  /** Where the first targets of a bucket have gone, decided one by one. */
  ghost predicate Gone(slots: seq<seq<Target>>, backoff: seq<Rejected>, after: seq<seq<Target>>, queue: seq<Rejected>,
      bucket: seq<Target>, fits: seq<bool>, contended: nat -> bool, clock: nat -> nat)
  {
    && |slots| == |after| == CRAWLER_CAROUSEL_SIZE && |fits| <= |bucket|
    && (forall slot | 0 <= slot < CRAWLER_CAROUSEL_SIZE :: after[slot] == slots[slot] + Chosen(bucket, fits, slot))
    && queue == backoff + RefusedAt(bucket, fits, clock)
    && forall k | 0 <= k < |fits| :: Fits(slots, bucket, fits, contended, k)
  }

  /**
    feed_carousel_from_highest_priority_bucket: the level of the bucket it emptied, -1 when
    all are empty.  `contended` says which try-locks fail, `clock` what the clock shows.
  */
  method FeedCarousel(buckets: array<seq<Target>>, m: BucketManager, contended: nat -> bool, clock: nat -> nat)
      returns (level: int, ghost fits: seq<bool>)
    requires buckets.Length == PRIORITY_BUCKETS && m.carousel.Length == CRAWLER_CAROUSEL_SIZE && buckets != m.carousel
    modifies buckets, m`backoffQueue, m.carousel
    ensures FirstNonEmpty(old(buckets[..]), level)
    ensures level == -1 ==>
              buckets[..] == old(buckets[..]) && m.carousel[..] == old(m.carousel[..]) && m.backoffQueue == old(m.backoffQueue)
    ensures level >= 0 ==>
              && buckets[..] == old(buckets[..])[level := []] && |fits| == |old(buckets[level])|
              && Gone(old(m.carousel[..]), old(m.backoffQueue), m.carousel[..], m.backoffQueue, old(buckets[level]), fits, contended, clock)
  {
    fits := [];
    for plevel := 0 to PRIORITY_BUCKETS
      invariant buckets[..] == old(buckets[..]) && m.carousel[..] == old(m.carousel[..]) && m.backoffQueue == old(m.backoffQueue)
      invariant forall i | 0 <= i < plevel :: buckets[i] == []
    {
      if |buckets[plevel]| > 0 {
        fits := EmptyBucket(buckets, plevel, m, contended, clock);
        return plevel, fits;
      }
    }
    return -1, fits;
  }

  /** The loop over one bucket. */
  method EmptyBucket(buckets: array<seq<Target>>, plevel: nat, m: BucketManager, contended: nat -> bool, clock: nat -> nat)
      returns (ghost fits: seq<bool>)
    requires plevel < buckets.Length && m.carousel.Length == CRAWLER_CAROUSEL_SIZE && buckets != m.carousel
    modifies buckets, m`backoffQueue, m.carousel
    ensures buckets[..] == old(buckets[..])[plevel := []] && |fits| == |old(buckets[plevel])|
    ensures Gone(old(m.carousel[..]), old(m.backoffQueue), m.carousel[..], m.backoffQueue, old(buckets[plevel]), fits, contended, clock)
  {
    hide Gone, SlotOf;
    ghost var bucket, slots, backoff := buckets[plevel], m.carousel[..], m.backoffQueue;
    fits := [];
    NothingGone(slots, backoff, bucket, contended, clock);
    assert bucket[0..] == bucket;
    var k := 0;
    while |buckets[plevel]| > 0
      invariant |fits| == k <= |bucket| && buckets[plevel] == bucket[k..]
      invariant forall i | 0 <= i < buckets.Length && i != plevel :: buckets[i] == old(buckets[i])
      invariant Gone(slots, backoff, m.carousel[..], m.backoffQueue, bucket, fits, contended, clock)
      decreases |buckets[plevel]|
    {
      var target := buckets[plevel][0];
      buckets[plevel] := buckets[plevel][1..];
      var hash := ComputeHash(target.domain);
      var i := hash % CRAWLER_CAROUSEL_SIZE;
      ghost var before, queue := m.carousel[..], m.backoffQueue;
      HashIsSlot(target.domain, hash);
      OneGoes(slots, backoff, before, queue, bucket, fits, contended, clock);
      if !contended(k) && |m.carousel[i]| < CRAWLER_MAX_QUEUE_SIZE {
        m.carousel[i] := m.carousel[i] + [target];
        assert m.carousel[..] == before[i := before[i] + [target]];
        fits := fits + [true];
      } else {
        m.backoffQueue := m.backoffQueue + [Rejected(target, clock(k))];
        assert m.carousel[..] == before;
        fits := fits + [false];
      }
      k := k + 1;
    }
  }

  lemma HashIsSlot(domain: Text, hash: nat)
    requires hash == HashDomain(domain)
    ensures hash % CRAWLER_CAROUSEL_SIZE == SlotOf(domain)
  {
  }

  lemma NothingGone(slots: seq<seq<Target>>, backoff: seq<Rejected>, bucket: seq<Target>, contended: nat -> bool, clock: nat -> nat)
    requires |slots| == CRAWLER_CAROUSEL_SIZE
    ensures Gone(slots, backoff, slots, backoff, bucket, [], contended, clock)
  {
    assert forall slot :: Chosen(bucket, [], slot) == [];
  }

  /** One more target: into its slot when it fits, and on the backoff queue when it does not. */
  lemma OneGoes(slots: seq<seq<Target>>, backoff: seq<Rejected>, after: seq<seq<Target>>, queue: seq<Rejected>,
      bucket: seq<Target>, fits: seq<bool>, contended: nat -> bool, clock: nat -> nat)
    requires Gone(slots, backoff, after, queue, bucket, fits, contended, clock) && |fits| < |bucket|
    ensures |after| == CRAWLER_CAROUSEL_SIZE
    ensures var k := |fits|;
            var t := bucket[k];
            var i := SlotOf(t.domain);
            if !contended(k) && |after[i]| < CRAWLER_MAX_QUEUE_SIZE
            then Gone(slots, backoff, after[i := after[i] + [t]], queue, bucket, fits + [true], contended, clock)
            else Gone(slots, backoff, after, queue + [Rejected(t, clock(k))], bucket, fits + [false], contended, clock)
  {
    hide Chosen, RefusedAt, SlotOf;
    var k := |fits|;
    var t := bucket[k];
    var fit := !contended(k) && |after[SlotOf(t.domain)]| < CRAWLER_MAX_QUEUE_SIZE;
    OneDecisionMore(bucket, fits, fit);
    OneRefusedMore(bucket, fits, fit, clock);
    forall l | 0 <= l < k + 1 ensures Fits(slots, bucket, fits + [fit], contended, l) {
      if l < k {
        assert Fits(slots, bucket, fits, contended, l);
        assert (fits + [fit])[..l] == fits[..l];
      } else {
        assert (fits + [fit])[..k] == fits;
      }
    }
  }
}
