/**
  The crawler's frontier as a protocol: priority buckets, the domain carousel, the
  backoff queue, the one feeder thread and the workers (crawler/domain_carousel.h,
  crawler/bucket_manager.h, crawler/crawler_worker.h). A step is what one thread does
  while it holds one lock; threads take steps in any order, and the clock only moves on.
*/
module Frontier {
  import opened Bytes

  const PRIORITY_BUCKETS: nat := 8
  const CRAWLER_THREADPOOL_SIZE: nat := 256
  const CRAWLER_CAROUSEL_SIZE: nat := CRAWLER_THREADPOOL_SIZE * 16
  const CRAWLER_MAX_QUEUE_SIZE: nat := 32
  const CRAWLER_BACKOFF_SEC: nat := 2

  /** The steady clock counts nanoseconds. */
  const TICKS_PER_SECOND: nat := 1_000_000_000

  const FNV_OFFSET: nat := 0xcbf2_9ce4_8422_2325
  const FNV_PRIME: nat := 0x100_0000_01b3
  const TWO_TO_64: nat := 0x1_0000_0000_0000_0000

  datatype Target = Target(domain: Text, url: Text, seedDistance: nat, domainDistance: nat)

  function XorByte(h: nat, b: byte): nat {
    h / 256 * 256 + ((h % 256) as bv8 ^ b as bv8) as nat
  }

  /** The 64-bit hash, one byte at a time. */
  function HashDomain(domain: Text): nat {
    if domain == [] then FNV_OFFSET
    else XorByte(HashDomain(domain[..|domain| - 1]), domain[|domain| - 1]) * FNV_PRIME % TWO_TO_64
  }

  function SlotOf(domain: Text): (r: nat)
    ensures r < CRAWLER_CAROUSEL_SIZE
  {
    HashDomain(domain) % CRAWLER_CAROUSEL_SIZE
  }

  /** The published values of the 64-bit hash for no bytes and for "a", and the slots they give. */
  lemma HashValues()
    ensures HashDomain([]) == 0xcbf2_9ce4_8422_2325 && HashDomain([97]) == 0xaf63_dc4c_8601_ec8c
    ensures SlotOf([]) == 0x325 && SlotOf([97]) == 0xc8c
  {
    assert [97][..0] == [];
    assert (0x25 as bv8) ^ (97 as bv8) == 0x44;
    assert XorByte(FNV_OFFSET, 97) == 0xcbf2_9ce4_8422_2344;
  }

  /** duration_cast truncates to whole seconds. */
  function ElapsedSeconds(since: nat, now: nat): int {
    if since <= now then (now - since) / TICKS_PER_SECOND else -((since - now) / TICKS_PER_SECOND)
  }

  datatype Rejected = Rejected(target: Target, at: nat)

  datatype Pull = Pull(target: Target, slot: nat, at: nat)

  /** Where the feeder thread stands in one turn of its loop, and the target it has in hand. */
  datatype Feeder =
    | Resting
    | Scanning(level: nat)                                // about to lock this bucket
    | Emptying(level: nat)                                // holds the bucket's lock
    | Placing(level: nat, target: Target)                 // took a target, tries its slot
    | Spilling(level: nat, target: Target)                // the slot refused it
    | Fed                                                 // about to look at the backoff queue
    | Draining(start: nat)                                // holds the backoff lock
    | Pushing(start: nat, target: Target)
    | Returning(start: nat, target: Target)

  datatype Frontier = Frontier(
    now: nat,
    buckets: seq<seq<Target>>,
    slots: seq<seq<Target>>,
    lastSent: seq<nat>,
    backoff: seq<Rejected>,
    feeder: Feeder,
    entered: seq<Target>,
    pulls: seq<Pull>)

  datatype Step =
    | Tick(duration: nat)
    | Enqueue(bucket: nat, target: Target)
    | Feed(contended: bool)
    | PullFrom(worker: nat, slot: nat)

  function Init(now: nat): Frontier {
    Frontier(now, seq(PRIORITY_BUCKETS, i => []), seq(CRAWLER_CAROUSEL_SIZE, i => []),
             seq(CRAWLER_CAROUSEL_SIZE, i => 0), [], Resting, [], [])
  }

  // ---------------------------------------------------------------- the steps

  predicate HoldsBucket(feeder: Feeder, bucket: nat) {
    match feeder
    case Emptying(level) => level == bucket
    case Placing(level, _) => level == bucket
    case Spilling(level, _) => level == bucket
    case _ => false
  }

  function FirstSlot(worker: nat): nat {
    worker * (CRAWLER_CAROUSEL_SIZE / CRAWLER_THREADPOOL_SIZE)
  }

  predicate Watches(worker: nat, slot: nat) {
    worker < CRAWLER_THREADPOOL_SIZE && FirstSlot(worker) <= slot < FirstSlot(worker + 1)
  }

  /** The fields have their fixed sizes and the feeder points at a bucket there is. */
  predicate Shaped(f: Frontier) {
    && |f.buckets| == PRIORITY_BUCKETS && |f.slots| == CRAWLER_CAROUSEL_SIZE && |f.lastSent| == CRAWLER_CAROUSEL_SIZE
    && (f.feeder.Scanning? ==> f.feeder.level <= PRIORITY_BUCKETS)
    && (f.feeder.Emptying? || f.feeder.Placing? || f.feeder.Spilling? ==> f.feeder.level < PRIORITY_BUCKETS)
  }

  predicate Enabled(f: Frontier, step: Step)
    requires Shaped(f)
  {
    match step
    case Tick(_) => true
    case Enqueue(bucket, _) => bucket < PRIORITY_BUCKETS && !HoldsBucket(f.feeder, bucket)
    case Feed(_) => true
    case PullFrom(worker, slot) =>
      && Watches(worker, slot) && slot < CRAWLER_CAROUSEL_SIZE && f.slots[slot] != []
      && ElapsedSeconds(f.lastSent[slot], f.now) >= CRAWLER_BACKOFF_SEC
  }

  function Push(f: Frontier, target: Target): Frontier
    requires Shaped(f)
  {
    var i := SlotOf(target.domain);
    f.(slots := f.slots[i := f.slots[i] + [target]])
  }

  predicate HasRoom(f: Frontier, target: Target)
    requires Shaped(f)
  {
    |f.slots[SlotOf(target.domain)]| < CRAWLER_MAX_QUEUE_SIZE
  }

  /** The feeder's next step; `contended` says whether the try-lock of a slot fails. */
  function FeedNext(f: Frontier, contended: bool): Frontier
    requires Shaped(f)
  {
    match f.feeder
    case Resting => f.(feeder := Scanning(0))
    case Scanning(level) =>
      if level == PRIORITY_BUCKETS then f.(feeder := Fed)
      else if f.buckets[level] == [] then f.(feeder := Scanning(level + 1))
      else f.(feeder := Emptying(level))
    case Emptying(level) =>
      if f.buckets[level] == [] then f.(feeder := Fed)
      else f.(buckets := f.buckets[level := f.buckets[level][1..]], feeder := Placing(level, f.buckets[level][0]))
    case Placing(level, target) =>
      if !contended && HasRoom(f, target) then Push(f, target).(feeder := Emptying(level))
      else f.(feeder := Spilling(level, target))
    case Spilling(level, target) =>
      f.(backoff := f.backoff + [Rejected(target, f.now)], feeder := Emptying(level))
    case Fed => f.(feeder := Draining(f.now))
    case Draining(start) =>
      if f.backoff == [] || ElapsedSeconds(f.backoff[0].at, start) < CRAWLER_BACKOFF_SEC then f.(feeder := Resting)
      else f.(backoff := f.backoff[1..], feeder := Pushing(start, f.backoff[0].target))
    case Pushing(start, target) =>
      if HasRoom(f, target) then Push(f, target).(feeder := Draining(start))
      else f.(feeder := Returning(start, target))
    case Returning(start, target) =>
      f.(backoff := f.backoff + [Rejected(target, start)], feeder := Draining(start))
  }

  function Next(f: Frontier, step: Step): Frontier
    requires Shaped(f) && Enabled(f, step)
  {
    match step
    case Tick(duration) => f.(now := f.now + duration)
    case Enqueue(bucket, target) =>
      f.(buckets := f.buckets[bucket := f.buckets[bucket] + [target]], entered := f.entered + [target])
    case Feed(contended) => FeedNext(f, contended)
    case PullFrom(_, slot) =>
      f.(slots := f.slots[slot := f.slots[slot][1..]], lastSent := f.lastSent[slot := f.now],
         pulls := f.pulls + [Pull(f.slots[slot][0], slot, f.now)])
  }

  /** The step is one some thread may take in f, and g is what it leaves. */
  ghost predicate Stepped(f: Frontier, step: Step, g: Frontier) {
    Shaped(f) && Enabled(f, step) && g == Next(f, step)
  }

  // ---------------------------------------------------------------- what every step keeps

  /** Every target waits, and was pulled, where its domain hashes to; no slot is over its cap. */
  ghost predicate Placed(f: Frontier)
    requires Shaped(f)
  {
    && (forall i, k | 0 <= i < CRAWLER_CAROUSEL_SIZE && 0 <= k < |f.slots[i]| :: SlotOf(f.slots[i][k].domain) == i)
    && (forall i | 0 <= i < CRAWLER_CAROUSEL_SIZE :: |f.slots[i]| <= CRAWLER_MAX_QUEUE_SIZE)
    && (forall k | 0 <= k < |f.pulls| :: f.pulls[k].slot == SlotOf(f.pulls[k].target.domain))
  }

  /** Rejections queue up in order of their times, none later than the time the drain started. */
  ghost predicate Queued(f: Frontier) {
    && (forall j, k | 0 <= j < k < |f.backoff| :: f.backoff[j].at <= f.backoff[k].at)
    && (forall k | 0 <= k < |f.backoff| :: f.backoff[k].at <= f.now)
    && (f.feeder.Draining? || f.feeder.Pushing? || f.feeder.Returning? ==>
          && f.feeder.start <= f.now
          && forall k | 0 <= k < |f.backoff| :: f.backoff[k].at <= f.feeder.start)
  }

  /** A slot remembers a time no earlier than any pull from it, and pulls from it lie apart. */
  ghost predicate Spaced(f: Frontier)
    requires Shaped(f)
  {
    && (forall i | 0 <= i < CRAWLER_CAROUSEL_SIZE :: f.lastSent[i] <= f.now)
    && (forall k | 0 <= k < |f.pulls| :: f.pulls[k].slot < CRAWLER_CAROUSEL_SIZE && f.pulls[k].at <= f.lastSent[f.pulls[k].slot])
    && (forall j, k | 0 <= j < k < |f.pulls| && f.pulls[j].slot == f.pulls[k].slot ::
          f.pulls[j].at + CRAWLER_BACKOFF_SEC * TICKS_PER_SECOND <= f.pulls[k].at)
  }

  function All(queues: seq<seq<Target>>): multiset<Target> {
    if queues == [] then multiset{}
    else All(queues[..|queues| - 1]) + multiset(queues[|queues| - 1])
  }

  function RejectedTargets(backoff: seq<Rejected>): (r: seq<Target>)
    ensures |r| == |backoff|
  {
    seq(|backoff|, i requires 0 <= i < |backoff| => backoff[i].target)
  }

  function PulledTargets(pulls: seq<Pull>): (r: seq<Target>)
    ensures |r| == |pulls|
  {
    seq(|pulls|, i requires 0 <= i < |pulls| => pulls[i].target)
  }

  function InHand(feeder: Feeder): multiset<Target> {
    match feeder
    case Placing(_, target) => multiset{target}
    case Spilling(_, target) => multiset{target}
    case Pushing(_, target) => multiset{target}
    case Returning(_, target) => multiset{target}
    case _ => multiset{}
  }

  /** Every target that entered is in one place, and nothing else is anywhere. */
  ghost predicate Conserved(f: Frontier) {
    multiset(f.entered) ==
      All(f.buckets) + InHand(f.feeder) + All(f.slots) + multiset(RejectedTargets(f.backoff)) + multiset(PulledTargets(f.pulls))
  }

  ghost predicate Inv(f: Frontier) {
    Shaped(f) && Placed(f) && Queued(f) && Spaced(f) && Conserved(f)
  }

  lemma {:induction false} AllSet(queues: seq<seq<Target>>, i: nat, x: seq<Target>)
    requires i < |queues|
    ensures multiset(queues[i]) <= All(queues)
    ensures All(queues[i := x]) == All(queues) - multiset(queues[i]) + multiset(x)
  {
    var last := |queues| - 1;
    if i == last {
      assert queues[i := x][..last] == queues[..last];
    } else {
      assert queues[i := x][..last] == queues[..last][i := x];
      AllSet(queues[..last], i, x);
    }
  }

  lemma AllAdd(queues: seq<seq<Target>>, i: nat, t: Target)
    requires i < |queues|
    ensures All(queues[i := queues[i] + [t]]) == All(queues) + multiset{t}
  {
    hide All;
    AllSet(queues, i, queues[i] + [t]);
  }

  lemma AllTake(queues: seq<seq<Target>>, i: nat)
    requires i < |queues| && queues[i] != []
    ensures All(queues) == All(queues[i := queues[i][1..]]) + multiset{queues[i][0]}
  {
    hide All;
    AllSet(queues, i, queues[i][1..]);
    assert queues[i] == [queues[i][0]] + queues[i][1..];
  }

  lemma RejectedEnds(backoff: seq<Rejected>, r: Rejected)
    ensures multiset(RejectedTargets(backoff + [r])) == multiset(RejectedTargets(backoff)) + multiset{r.target}
    ensures backoff != [] ==>
              multiset(RejectedTargets(backoff)) == multiset(RejectedTargets(backoff[1..])) + multiset{backoff[0].target}
  {
    assert RejectedTargets(backoff + [r]) == RejectedTargets(backoff) + [r.target];
    if backoff != [] {
      assert RejectedTargets(backoff) == [backoff[0].target] + RejectedTargets(backoff[1..]);
    }
  }

  lemma PulledEnd(pulls: seq<Pull>, p: Pull)
    ensures multiset(PulledTargets(pulls + [p])) == multiset(PulledTargets(pulls)) + multiset{p.target}
  {
    assert PulledTargets(pulls + [p]) == PulledTargets(pulls) + [p.target];
  }

  lemma {:induction false} AllEmpty(n: nat)
    ensures All(seq(n, i => [])) == multiset{}
  {
    if n > 0 {
      AllEmpty(n - 1);
      assert seq(n, i => [])[..n - 1] == seq<seq<Target>>(n - 1, i => []);
    }
  }

  lemma InvInit(now: nat)
    ensures Inv(Init(now))
  {
    hide SlotOf, All;
    AllEmpty(PRIORITY_BUCKETS);
    AllEmpty(CRAWLER_CAROUSEL_SIZE);
    assert RejectedTargets([]) == [] && PulledTargets([]) == [];
  }

  lemma PlacedNext(f: Frontier, step: Step)
    requires Shaped(f) && Placed(f) && Enabled(f, step)
    ensures Shaped(Next(f, step)) && Placed(Next(f, step))
  {
    hide SlotOf, ElapsedSeconds, Watches, HoldsBucket;
  }

  lemma QueuedNext(f: Frontier, step: Step)
    requires Shaped(f) && Queued(f) && Enabled(f, step)
    ensures Queued(Next(f, step))
  {
    hide Queued, Shaped, SlotOf, ElapsedSeconds, Watches, HoldsBucket, HasRoom;
    QueuedHere(f);
    var g := Next(f, step);
    if g.backoff == f.backoff {
      QueueStays(f, g);
    } else if |g.backoff| < |f.backoff| {
      QueuePops(f, g);
    } else {
      QueueGrows(f, g, g.backoff[|f.backoff|]);
    }
  }

  /** The times of a drain are not in the future. */
  lemma QueuedHere(f: Frontier)
    requires Queued(f)
    ensures f.feeder.Draining? || f.feeder.Pushing? || f.feeder.Returning? ==> f.feeder.start <= f.now
  {
  }

  /** The drain the feeder is in began at the same time, or has just begun. */
  ghost predicate SameDrain(f: Frontier, g: Frontier) {
    g.feeder.Draining? || g.feeder.Pushing? || g.feeder.Returning? ==>
      || ((f.feeder.Draining? || f.feeder.Pushing? || f.feeder.Returning?) && g.feeder.start == f.feeder.start)
      || g.feeder.start == f.now
  }

  lemma QueueStays(f: Frontier, g: Frontier)
    requires Queued(f) && g.backoff == f.backoff && f.now <= g.now && SameDrain(f, g)
    ensures Queued(g)
  {
  }

  lemma QueuePops(f: Frontier, g: Frontier)
    requires Queued(f) && f.backoff != [] && g.backoff == f.backoff[1..] && f.now <= g.now && SameDrain(f, g)
    ensures Queued(g)
  {
  }

  lemma QueueGrows(f: Frontier, g: Frontier, r: Rejected)
    requires Queued(f) && g.backoff == f.backoff + [r] && f.now <= g.now && SameDrain(f, g)
    requires if f.feeder.Returning? then r.at == f.feeder.start && g.feeder == Draining(r.at)
             else r.at == f.now && g.feeder.Emptying?
    ensures Queued(g)
  {
  }

  lemma SpacedNext(f: Frontier, step: Step)
    requires Shaped(f) && Spaced(f) && Enabled(f, step)
    ensures Shaped(Next(f, step)) && Spaced(Next(f, step))
  {
    hide SlotOf;
  }

  lemma ConservedNext(f: Frontier, step: Step)
    requires Shaped(f) && Conserved(f) && Enabled(f, step)
    ensures Conserved(Next(f, step))
  {
    hide SlotOf, All, RejectedTargets, PulledTargets;
    match step
    case Tick(_) =>
    case Enqueue(bucket, target) => AllAdd(f.buckets, bucket, target);
    case Feed(contended) => ConservedFeed(f, contended);
    case PullFrom(_, slot) =>
      AllTake(f.slots, slot);
      PulledEnd(f.pulls, Pull(f.slots[slot][0], slot, f.now));
  }

  lemma ConservedFeed(f: Frontier, contended: bool)
    requires Shaped(f) && Conserved(f)
    ensures Conserved(FeedNext(f, contended))
  {
    hide *;
    if f.feeder.Emptying? {
      BucketTaken(f, f.feeder.level, contended);
    } else if f.feeder.Draining? {
      BackoffTaken(f, f.feeder.start, contended);
    } else if f.feeder.Placing? || f.feeder.Pushing? {
      Offered(f, contended);
    } else if f.feeder.Spilling? || f.feeder.Returning? {
      GivenBack(f, contended);
    } else {
      NothingMoved(f, contended);
    }
  }

  lemma Offered(f: Frontier, contended: bool)
    requires Shaped(f) && Conserved(f) && (f.feeder.Placing? || f.feeder.Pushing?)
    ensures Conserved(FeedNext(f, contended))
  {
    hide SlotOf, Conserved, Push, HasRoom;
    var g := FeedNext(f, contended);
    if InHand(g.feeder) == multiset{} { SlotGiven(f, f.feeder.target, g.feeder); } else { OnlyFeeder(f, g); }
  }

  lemma GivenBack(f: Frontier, contended: bool)
    requires Shaped(f) && Conserved(f) && (f.feeder.Spilling? || f.feeder.Returning?)
    ensures Conserved(FeedNext(f, contended))
  {
    hide SlotOf, Conserved;
    var g := FeedNext(f, contended);
    BackoffGiven(f, f.feeder.target, if f.feeder.Spilling? then f.now else f.feeder.start, g.feeder);
  }

  lemma NothingMoved(f: Frontier, contended: bool)
    requires Shaped(f) && Conserved(f) && (f.feeder.Resting? || f.feeder.Scanning? || f.feeder.Fed?)
    ensures Conserved(FeedNext(f, contended))
  {
    hide SlotOf, Conserved;
    OnlyFeeder(f, FeedNext(f, contended));
  }

  lemma OnlyFeeder(f: Frontier, g: Frontier)
    requires Conserved(f) && g == f.(feeder := g.feeder) && InHand(g.feeder) == InHand(f.feeder)
    ensures Conserved(g)
  {
  }

  lemma BucketTaken(f: Frontier, level: nat, contended: bool)
    requires Shaped(f) && Conserved(f) && f.feeder == Emptying(level)
    ensures Conserved(FeedNext(f, contended))
  {
    hide SlotOf, All, RejectedTargets, PulledTargets;
    if f.buckets[level] != [] { AllTake(f.buckets, level); }
  }

  lemma SlotGiven(f: Frontier, target: Target, feeder: Feeder)
    requires Shaped(f) && Conserved(f) && InHand(f.feeder) == multiset{target} && InHand(feeder) == multiset{}
    ensures Conserved(Push(f, target).(feeder := feeder))
  {
    hide SlotOf, All, RejectedTargets, PulledTargets, InHand;
    AllAdd(f.slots, SlotOf(target.domain), target);
  }

  lemma BackoffGiven(f: Frontier, target: Target, at: nat, feeder: Feeder)
    requires Shaped(f) && Conserved(f) && InHand(f.feeder) == multiset{target} && InHand(feeder) == multiset{}
    ensures Conserved(f.(backoff := f.backoff + [Rejected(target, at)], feeder := feeder))
  {
    hide SlotOf, All, RejectedTargets, PulledTargets, InHand;
    RejectedEnds(f.backoff, Rejected(target, at));
  }

  lemma BackoffTaken(f: Frontier, start: nat, contended: bool)
    requires Shaped(f) && Conserved(f) && f.feeder == Draining(start)
    ensures Conserved(FeedNext(f, contended))
  {
    hide SlotOf, All, RejectedTargets, PulledTargets, ElapsedSeconds, HasRoom, Push;
    if f.backoff != [] { RejectedEnds(f.backoff, f.backoff[0]); }
  }

  /** Every step of every thread keeps the invariant. */
  lemma InvNext(f: Frontier, step: Step, g: Frontier)
    requires Inv(f) && Stepped(f, step, g)
    ensures Inv(g)
  {
    hide Placed, Queued, Spaced, Conserved, Next;
    PlacedNext(f, step);
    QueuedNext(f, step);
    SpacedNext(f, step);
    ConservedNext(f, step);
  }

  // ---------------------------------------------------------------- whole runs

  ghost predicate IsRun(states: seq<Frontier>, steps: seq<Step>) {
    && |states| == |steps| + 1 && states[0] == Init(states[0].now)
    && forall i | 0 <= i < |steps| :: Stepped(states[i], steps[i], states[i + 1])
  }

  lemma {:induction false} RunInv(states: seq<Frontier>, steps: seq<Step>, i: nat)
    requires IsRun(states, steps) && i < |states|
    ensures Inv(states[i])
  {
    hide Inv, Stepped, Init;
    if i == 0 {
      InvInit(states[0].now);
    } else {
      RunInv(states, steps, i - 1);
      InvNext(states[i - 1], steps[i - 1], states[i]);
    }
  }

  /** Whatever the interleaving: placement, cap, conservation. */
  lemma EveryTargetInOnePlace(states: seq<Frontier>, steps: seq<Step>, n: nat)
    requires IsRun(states, steps) && n < |states|
    ensures var f := states[n];
            && Shaped(f)
            && (forall i, t | 0 <= i < CRAWLER_CAROUSEL_SIZE && t in f.slots[i] :: SlotOf(t.domain) == i)
            && (forall i | 0 <= i < CRAWLER_CAROUSEL_SIZE :: |f.slots[i]| <= 32)
            && multiset(f.entered) ==
                 All(f.buckets) + InHand(f.feeder) + All(f.slots)
                 + multiset(RejectedTargets(f.backoff)) + multiset(PulledTargets(f.pulls))
  {
    hide SlotOf, All, IsRun;
    RunInv(states, steps, n);
  }

  /** Whatever the interleaving, two pulls for one domain are at least the backoff apart. */
  lemma DomainPullsApart(states: seq<Frontier>, steps: seq<Step>, n: nat, j: nat, k: nat)
    requires IsRun(states, steps) && n < |states| && j < k < |states[n].pulls|
    requires states[n].pulls[j].target.domain == states[n].pulls[k].target.domain
    ensures states[n].pulls[k].at - states[n].pulls[j].at >= 2_000_000_000
  {
    hide SlotOf, All, IsRun;
    RunInv(states, steps, n);
  }

  // ---------------------------------------------------------------- the feeder's turn ends

  /** Rejections the drain that started at `start` will still take up. */
  function Due(backoff: seq<Rejected>, start: nat): nat {
    if backoff == [] then 0
    else Due(backoff[..|backoff| - 1], start) + if ElapsedSeconds(backoff[|backoff| - 1].at, start) >= CRAWLER_BACKOFF_SEC then 1 else 0
  }

  lemma {:induction false} DueFirst(backoff: seq<Rejected>, start: nat)
    requires backoff != []
    ensures Due(backoff, start) == Due(backoff[1..], start) + if ElapsedSeconds(backoff[0].at, start) >= CRAWLER_BACKOFF_SEC then 1 else 0
  {
    var last := |backoff| - 1;
    if last > 0 {
      DueFirst(backoff[..last], start);
      assert backoff[1..][..last - 1] == backoff[..last][1..];
    }
  }

  lemma DueReturned(backoff: seq<Rejected>, target: Target, start: nat)
    ensures Due(backoff + [Rejected(target, start)], start) == Due(backoff, start)
  {
    assert (backoff + [Rejected(target, start)])[..|backoff|] == backoff;
  }

  /** Which part of its turn the feeder is in, counting down to its rest. */
  function Phase(feeder: Feeder): int {
    match feeder
    case Resting => 0
    case Draining(_) => 1
    case Pushing(_, _) => 1
    case Returning(_, _) => 1
    case Fed => 2
    case Emptying(_) => 3
    case Placing(_, _) => 3
    case Spilling(_, _) => 3
    case Scanning(level) => 4 + PRIORITY_BUCKETS - level
  }

  /** Steps left in that part, at most. */
  function Left(f: Frontier): nat
    requires Shaped(f)
  {
    match f.feeder
    case Emptying(level) => 3 * |f.buckets[level]|
    case Placing(level, _) => 3 * |f.buckets[level]| + 2
    case Spilling(level, _) => 3 * |f.buckets[level]| + 1
    case Draining(start) => 3 * Due(f.backoff, start)
    case Pushing(start, _) => 3 * Due(f.backoff, start) + 2
    case Returning(start, _) => 3 * Due(f.backoff, start) + 1
    case _ => 0
  }

  /**
    The feeder's turn ends whatever the other threads do: each of its own steps moves it
    on to a later phase or leaves fewer steps in this one, and no step of another thread
    takes it back, since what it still has to work off is behind a lock it holds.
  */
  lemma FeederProgress(f: Frontier, step: Step, g: Frontier)
    requires Stepped(f, step, g) && f.feeder != Resting
    ensures Shaped(g)
    ensures if step.Feed? then Phase(g.feeder) < Phase(f.feeder) || (Phase(g.feeder) == Phase(f.feeder) && Left(g) < Left(f))
            else g.feeder == f.feeder && Left(g) == Left(f)
  {
    hide SlotOf, Due;
    if step.Feed? {
      match f.feeder
      case Draining(start) => if f.backoff != [] { DueFirst(f.backoff, start); }
      case Returning(start, target) => DueReturned(f.backoff, target, start);
      case _ =>
    }
  }

  function FeedSteps(steps: seq<Step>): nat {
    if steps == [] then 0 else FeedSteps(steps[..|steps| - 1]) + if steps[|steps| - 1].Feed? then 1 else 0
  }

  lemma {:induction false} DueAtMost(backoff: seq<Rejected>, start: nat)
    ensures Due(backoff, start) <= |backoff|
  {
    if backoff != [] { DueAtMost(backoff[..|backoff| - 1], start); }
  }

  /** In any run the feeder takes at most so many steps in one part of its turn as are left when it is there. */
  lemma {:induction false} PhaseEnds(states: seq<Frontier>, steps: seq<Step>, m: nat, n: nat)
    requires IsRun(states, steps) && m <= n < |states| && states[m].feeder != Resting
    requires forall i | m <= i <= n :: Phase(states[i].feeder) == Phase(states[m].feeder)
    ensures Shaped(states[m]) && Shaped(states[n]) && FeedSteps(steps[m..n]) + Left(states[n]) <= Left(states[m])
    decreases n - m
  {
    hide Due, SlotOf, Inv, Stepped;
    RunInv(states, steps, m);
    RunInv(states, steps, n);
    InvShaped(states[m]);
    InvShaped(states[n]);
    if n > m {
      PhaseEnds(states, steps, m, n - 1);
      assert Phase(states[n - 1].feeder) == Phase(states[n].feeder) == Phase(states[m].feeder);
      FeederProgress(states[n - 1], steps[n - 1], states[n]);
      assert steps[m..n][..n - m - 1] == steps[m..n - 1];
    }
  }

  /**
    The backoff drain ends although it puts what is refused again back on the queue it
    works off: in any run, from a point within a drain, the feeder takes at most three
    steps a rejection queued there before the drain is over.
  */
  lemma DrainEnds(states: seq<Frontier>, steps: seq<Step>, m: nat, n: nat)
    requires IsRun(states, steps) && m <= n < |states|
    requires forall i | m <= i <= n :: Phase(states[i].feeder) == 1
    ensures Shaped(states[m]) && Shaped(states[n]) && FeedSteps(steps[m..n]) + Left(states[n]) <= Left(states[m])
    ensures FeedSteps(steps[m..n]) <= 3 * |states[m].backoff| + 2
  {
    hide Due, IsRun;
    PhaseEnds(states, steps, m, n);
    DueAtMost(states[m].backoff, states[m].feeder.start);
  }

  /** Nor does the feeder stay with a bucket for longer than three steps a target. */
  lemma EmptyingEnds(states: seq<Frontier>, steps: seq<Step>, m: nat, n: nat, level: nat)
    requires IsRun(states, steps) && m <= n < |states| && states[m].feeder == Emptying(level) && level < |states[m].buckets|
    requires forall i | m <= i <= n :: HoldsBucket(states[i].feeder, level)
    ensures FeedSteps(steps[m..n]) <= 3 * |states[m].buckets[level]|
  {
    hide IsRun;
    PhaseEnds(states, steps, m, n);
  }

  lemma InvShaped(f: Frontier)
    requires Inv(f)
    ensures Shaped(f)
  {
  }

  /** Although the drain stops at the first rejection not yet due, it leaves none behind that is. */
  lemma DrainLeavesNoneDue(states: seq<Frontier>, steps: seq<Step>, n: nat)
    requires IsRun(states, steps) && n < |steps|
    requires states[n].feeder.Draining? && states[n + 1].feeder.Resting?
    ensures var start := states[n].feeder.start; forall r | r in states[n + 1].backoff :: start < r.at + 2_000_000_000
  {
    hide SlotOf, All;
    RunInv(states, steps, n);
  }

  // ---------------------------------------------------------------- the drain as the feeder runs it

  /** The rest of a drain in which no other thread takes a step. */
  function DrainAlone(f: Frontier): (r: Frontier)
    requires Shaped(f) && Phase(f.feeder) <= 1
    ensures Shaped(r) && r.feeder == Resting && r.pulls == f.pulls && r.buckets == f.buckets
    decreases Phase(f.feeder), Left(f)
  {
    if f.feeder == Resting then f
    else
      FeederProgress(f, Feed(false), FeedNext(f, false));
      DrainAlone(FeedNext(f, false))
  }

  lemma {:induction false} DrainAloneKeeps(f: Frontier)
    requires Inv(f) && Phase(f.feeder) <= 1
    ensures Inv(DrainAlone(f))
    decreases Phase(f.feeder), Left(f)
  {
    hide Placed, Queued, Spaced, Conserved, Left, FeedNext, SlotOf;
    if f.feeder != Resting {
      FeederProgress(f, Feed(false), FeedNext(f, false));
      InvNext(f, Feed(false), FeedNext(f, false));
      DrainAloneKeeps(FeedNext(f, false));
    }
  }

  lemma DrainAloneStep(f: Frontier)
    requires Shaped(f) && Phase(f.feeder) == 1
    ensures Phase(FeedNext(f, false).feeder) <= 1 && Shaped(FeedNext(f, false))
    ensures DrainAlone(f) == DrainAlone(FeedNext(f, false))
  {
    hide SlotOf, Due;
    FeederProgress(f, Feed(false), FeedNext(f, false));
  }

  method ComputeHash(domain: Text) returns (hash: nat)
    ensures hash == HashDomain(domain)
  {
    hash := FNV_OFFSET;
    var i := 0;
    while i < |domain|
      invariant i <= |domain| && hash == HashDomain(domain[..i])
    {
      assert domain[..i + 1][..i] == domain[..i];
      hash := XorByte(hash, domain[i]) * FNV_PRIME % TWO_TO_64;
      i := i + 1;
    }
    assert domain[..i] == domain;
  }

  class BucketManager {
    const carousel: array<seq<Target>>
    var backoffQueue: seq<Rejected>

    constructor (carousel: array<seq<Target>>)
      ensures this.carousel == carousel && backoffQueue == []
    {
      this.carousel := carousel;
      backoffQueue := [];
    }

    /** Refused exactly when the slot is full, and then nothing changes. */
    method PushTarget(target: Target) returns (ok: bool)
      requires carousel.Length == CRAWLER_CAROUSEL_SIZE
      modifies carousel
      ensures var i := SlotOf(target.domain);
              && ok == (|old(carousel[i])| < 32)
              && carousel[..] == if ok then old(carousel[..])[i := old(carousel[i]) + [target]] else old(carousel[..])
    {
      var hash := ComputeHash(target.domain);
      var i := hash % CRAWLER_CAROUSEL_SIZE;
      if |carousel[i]| >= CRAWLER_MAX_QUEUE_SIZE { return false; }
      carousel[i] := carousel[i] + [target];
      return true;
    }

    /** The loop over the backoff queue is the protocol's drain, run from where f stands. */
    method DrainBackoff(now: nat, ghost f: Frontier)
      requires Shaped(f) && f.feeder == Draining(now)
      requires f.slots == carousel[..] && f.backoff == backoffQueue
      modifies this, carousel
      ensures carousel[..] == DrainAlone(f).slots && backoffQueue == DrainAlone(f).backoff
    {
      ghost var g := f;
      while backoffQueue != []
        invariant Shaped(g) && g.feeder == Draining(now) && g.slots == carousel[..] && g.backoff == backoffQueue
        invariant DrainAlone(f) == DrainAlone(g)
        decreases Left(g)
      {
        if ElapsedSeconds(backoffQueue[0].at, now) < CRAWLER_BACKOFF_SEC { break; }
        ghost var turn := g;
        var target := backoffQueue[0].target;
        backoffQueue := backoffQueue[1..];
        g := TakenUp(g);
        var ok := PushTarget(target);
        if !ok { backoffQueue := backoffQueue + [Rejected(target, now)]; }
        g := PutBack(g);
        assert Left(g) < Left(turn);
      }
      DrainAloneStep(g);
    }
  }

  /** One turn of the drain loop: a rejection that is due is taken up ... */
  lemma TakenUp(f: Frontier) returns (g: Frontier)
    requires Shaped(f) && f.feeder.Draining? && f.backoff != []
    requires ElapsedSeconds(f.backoff[0].at, f.feeder.start) >= CRAWLER_BACKOFF_SEC
    ensures Shaped(g) && g.feeder == Pushing(f.feeder.start, f.backoff[0].target) && DrainAlone(g) == DrainAlone(f)
    ensures g.backoff == f.backoff[1..] && g.slots == f.slots && Left(g) < Left(f)
  {
    hide DrainAlone, SlotOf, Due, ElapsedSeconds;
    g := FeedNext(f, false);
    FeederProgress(f, Feed(false), g);
    DrainAloneStep(f);
  }

  /** ... and goes to its slot, or back to the end of the queue. */
  lemma PutBack(f: Frontier) returns (g: Frontier)
    requires Shaped(f) && f.feeder.Pushing?
    ensures Shaped(g) && g.feeder == Draining(f.feeder.start) && DrainAlone(g) == DrainAlone(f) && Left(g) < Left(f)
    ensures var i := SlotOf(f.feeder.target.domain);
            if |f.slots[i]| < CRAWLER_MAX_QUEUE_SIZE then g.slots == f.slots[i := f.slots[i] + [f.feeder.target]] && g.backoff == f.backoff
            else g.slots == f.slots && g.backoff == f.backoff + [Rejected(f.feeder.target, f.feeder.start)]
  {
    hide DrainAlone, SlotOf, Due;
    g := FeedNext(f, false);
    FeederProgress(f, Feed(false), g);
    DrainAloneStep(f);
    if g.feeder.Returning? {
      var h := FeedNext(g, false);
      FeederProgress(g, Feed(false), h);
      DrainAloneStep(g);
      g := h;
    }
  }

  // ---------------------------------------------------------------- the workers' ranges

  /** The inclusive range of slots of each worker that is spawned. */
  method SpawnCrawlerWorkers(size: nat, workers: nat) returns (ranges: seq<(nat, nat)>)
    requires 0 < workers <= size && size % workers == 0
    ensures |ranges| == workers
    ensures forall i | 0 <= i < workers :: ranges[i] == (i * (size / workers), (i + 1) * (size / workers) - 1)
  {
    var interval := size / workers;
    Divides(size, workers);
    var left, right := 0, interval - 1;
    ranges := [];
    while right < size
      invariant |ranges| <= workers
      invariant left == |ranges| * interval && right == left + interval - 1
      invariant forall i | 0 <= i < |ranges| :: ranges[i] == (i * interval, (i + 1) * interval - 1)
      decreases workers - |ranges|
    {
      OneMore(|ranges|, workers, interval);
      ranges := ranges + [(left, right)];
      left := right + 1;
      right := left + interval - 1;
    }
    AllGone(|ranges|, workers, interval);
  }

  lemma Divides(size: nat, workers: nat)
    requires 0 < workers <= size && size % workers == 0
    ensures workers * (size / workers) == size && size / workers >= 1
  {
  }

  lemma OneMore(done: nat, workers: nat, interval: nat)
    requires done <= workers && interval >= 1 && done * interval + interval - 1 < workers * interval
    ensures done < workers && (done + 1) * interval == done * interval + interval
  {
  }

  lemma {:induction false} AllGone(done: nat, workers: nat, interval: nat)
    ensures done < workers ==> done * interval + interval <= workers * interval
  {
    if done < workers {
      AllGone(done, workers - 1, interval);
      assert workers * interval == (workers - 1) * interval + interval;
    }
  }

  /** The ranges cover the carousel: each slot is watched by one worker and no other. */
  lemma EachSlotWatchedOnce(slot: nat, other: nat)
    requires slot < CRAWLER_CAROUSEL_SIZE
    ensures Watches(other, slot) <==> other == slot / 16
    ensures slot < 4096 && slot / 16 < 256
  {
  }
}
