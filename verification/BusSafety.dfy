/** What every interleaving of the bus keeps. */
module BusSafety {
  import opened Words
  import opened Counting
  import opened BusProtocol

  /** Consumers whose advance of tail is not yet settled. */
  function Unsettled(): Consumer -> bool { (c: Consumer) => c.Claimed? || c.Refused? }

  /** Consumers that were granted an index and have not copied it yet. */
  function Fetching(): Consumer -> bool { (c: Consumer) => c.Granted? }

  /** Consumers that hold an untested claim below k. */
  function ClaimBelow(k: int): Consumer -> bool { (c: Consumer) => c.Claimed? && c.t < k }

  /** Producers that hold a loaded head below k and may still reserve. */
  function HeadBelow(k: int): Producer -> bool { (p: Producer) => (p.LoadedHead? || p.Checked?) && p.h < k }

  function ClaimsBelow(s: State, k: int): nat { Count(s.consumers, ClaimBelow(k)) }

  function HeadsBelow(s: State, k: int): nat { Count(s.producers, HeadBelow(k)) }

  // ---------------------------------------------------------------- counters and claims

  /** The counters are the histories: head counts reservations, tail grants plus unsettled claims. */
  ghost predicate CountersMatch(s: State) {
    && s.head == |s.log|
    && s.tail == |s.grants| + Count(s.consumers, Unsettled())
    && |s.grants| == |s.received| + Count(s.consumers, Fetching())
  }

  /** Grants so far, plus the untested claims that could still pass below k, never exceed k. */
  ghost predicate ClaimsCovered(s: State) {
    forall k {:trigger ClaimsBelow(s, k)} | k >= s.head :: |s.grants| + ClaimsBelow(s, k) <= k
  }

  ghost predicate Safe(s: State) {
    NoWrap(s) ==> CountersMatch(s) && ClaimsCovered(s)
  }

  lemma TailBounds(s: State)
    requires NoWrap(s) && Safe(s)
    ensures |s.grants| <= s.head
    ensures |s.received| <= |s.grants| <= s.tail <= |s.received| + |s.consumers|
  {
    assert |s.grants| + ClaimsBelow(s, s.head) <= s.head;
    CountBounds(s.consumers, Unsettled());
    CountDisjoint(s.consumers, Unsettled(), Fetching());
  }

  lemma CountersStep(s: State, step: Step)
    requires Enabled(s, step) && NoWrap(s) && Safe(s)
    ensures CountersMatch(Apply(s, step))
  {
    TailBounds(s);
    if step.Claim? || step.Test? || step.Fetch? || step.RollBack? {
      var after := Apply(s, step).consumers[step.c];
      CountUpdate(s.consumers, step.c, after, Unsettled());
      CountUpdate(s.consumers, step.c, after, Fetching());
    }
  }

  lemma ClaimsStep(s: State, step: Step)
    requires Enabled(s, step) && NoWrap(s) && Safe(s)
    ensures ClaimsCovered(Apply(s, step))
  {
    var s' := Apply(s, step);
    TailBounds(s);
    forall k | k >= s'.head
      ensures |s'.grants| + ClaimsBelow(s', k) <= k
    {
      assert |s.grants| + ClaimsBelow(s, k) <= k;
      if step.Claim? || step.Test? || step.Fetch? || step.RollBack? {
        CountUpdate(s.consumers, step.c, s'.consumers[step.c], ClaimBelow(k));
        CountMonotone(s.consumers, ClaimBelow(k), Unsettled());
      }
    }
  }

  lemma SafeStep(s: State, step: Step)
    requires Enabled(s, step) && Safe(s)
    ensures Safe(Apply(s, step))
  {
    if NoWrap(Apply(s, step)) {
      CountersStep(s, step);
      ClaimsStep(s, step);
    }
  }

  lemma InitSafe(capacity: Word, producers: nat, consumers: nat)
    requires capacity > 0
    ensures Safe(Init(capacity, producers, consumers))
  {
    var s := Init(capacity, producers, consumers);
    CountBounds(s.consumers, Unsettled());
    CountBounds(s.consumers, Fetching());
    forall k ensures ClaimsBelow(s, k) == 0 {
      CountBounds(s.consumers, ClaimBelow(k));
    }
  }

  lemma {:induction false} RunKeepsSafe(s: State, steps: seq<Step>)
    requires ValidRun(s, steps) && Safe(s)
    ensures Safe(After(s, steps))
    decreases |steps|
  {
    if steps != [] {
      SafeStep(s, steps[0]);
      RunKeepsSafe(Apply(s, steps[0]), steps[1..]);
    }
  }

  lemma ReachableSafe(capacity: Word, producers: nat, consumers: nat, s: State)
    requires Reachable(capacity, producers, consumers, s)
    ensures Safe(s)
  {
    var init := Init(capacity, producers, consumers);
    var steps :| ValidRun(init, steps) && After(init, steps) == s;
    InitSafe(capacity, producers, consumers);
    RunKeepsSafe(init, steps);
  }

  /**
   In every interleaving, consumers are never granted more events than producers reserved, and tail runs
   ahead of the deliveries by at most one for each consumer.
   */
  lemma GrantsNeverExceedReservations(capacity: Word, producers: nat, consumers: nat, s: State)
    requires Reachable(capacity, producers, consumers, s) && NoWrap(s)
    ensures |s.received| <= |s.grants| <= |s.log| == s.head
    ensures |s.grants| <= s.tail <= |s.received| + consumers
  {
    ReachableSafe(capacity, producers, consumers, s);
    ReachableShape(capacity, producers, consumers, s);
    TailBounds(s);
  }

  /** With no call in flight the pending count is exactly publishes accepted minus events delivered. */
  lemma QuiescentPending(capacity: Word, producers: nat, consumers: nat, s: State)
    requires Reachable(capacity, producers, consumers, s) && NoWrap(s) && Quiescent(s)
    ensures s.tail <= s.head
    ensures |s.received| <= |s.log| && Diff(s.head, s.tail) == |s.log| - |s.received|
  {
    GrantsNeverExceedReservations(capacity, producers, consumers, s);
    ReachableSafe(capacity, producers, consumers, s);
    CountBounds(s.consumers, Unsettled());
    CountBounds(s.consumers, Fetching());
  }

  // ---------------------------------------------------------------- how full the ring can get

  /** Every producer that found room loaded a head within reach of the deliveries so far. */
  ghost predicate CheckedInReach(s: State) {
    forall i | 0 <= i < |s.producers| && s.producers[i].Checked? ::
      s.producers[i].h < |s.received| + |s.consumers| + |s.slots|
  }

  /** Beyond reach k, each reservation was paid for by a producer that had loaded an older head. */
  ghost predicate OvershootPaid(s: State) {
    forall k {:trigger HeadsBelow(s, k)} | |s.received| + |s.consumers| + |s.slots| <= k <= s.head ::
      s.head - k + HeadsBelow(s, k) <= |s.producers| - 1
  }

  ghost predicate Bounded(s: State) {
    NoWrap(s) ==> CheckedInReach(s) && OvershootPaid(s)
  }

  lemma CheckedStep(s: State, step: Step)
    requires Enabled(s, step) && NoWrap(s) && Safe(s) && Bounded(s)
    ensures CheckedInReach(Apply(s, step))
  {
    TailBounds(s);
  }

  lemma OvershootStep(s: State, step: Step)
    requires Enabled(s, step) && NoWrap(s) && Safe(s) && Bounded(s)
    ensures OvershootPaid(Apply(s, step))
  {
    var s' := Apply(s, step);
    TailBounds(s);
    forall k | |s'.received| + |s'.consumers| + |s'.slots| <= k <= s'.head
      ensures s'.head - k + HeadsBelow(s', k) <= |s'.producers| - 1
    {
      if k <= s.head {
        assert s.head - k + HeadsBelow(s, k) <= |s.producers| - 1;
      }
      if step.LoadHead? || step.CheckRoom? || step.Reserve? || step.Store? {
        CountUpdate(s.producers, step.p, s'.producers[step.p], HeadBelow(k));
        if k > s.head {
          CountMisses(s'.producers, step.p, HeadBelow(k));
        }
      }
    }
  }

  lemma BoundedStep(s: State, step: Step)
    requires Enabled(s, step) && Safe(s) && Bounded(s)
    ensures Bounded(Apply(s, step))
  {
    if NoWrap(Apply(s, step)) {
      CheckedStep(s, step);
      OvershootStep(s, step);
    }
  }

  lemma {:induction false} RunKeepsBounded(s: State, steps: seq<Step>)
    requires ValidRun(s, steps) && Safe(s) && Bounded(s)
    ensures Bounded(After(s, steps))
    decreases |steps|
  {
    if steps != [] {
      SafeStep(s, steps[0]);
      BoundedStep(s, steps[0]);
      RunKeepsBounded(Apply(s, steps[0]), steps[1..]);
    }
  }

  /**
   However the steps interleave, reservations outrun deliveries by at most the capacity, one for each
   producer but the one that is in time, and one for each consumer whose claim is ahead of its delivery.
   */
  lemma OccupancyBound(capacity: Word, producers: nat, consumers: nat, s: State)
    requires Reachable(capacity, producers, consumers, s) && NoWrap(s)
    requires producers >= 1
    ensures |s.log| - |s.received| <= capacity + producers - 1 + consumers
  {
    var init := Init(capacity, producers, consumers);
    var steps :| ValidRun(init, steps) && After(init, steps) == s;
    InitSafe(capacity, producers, consumers);
    RunKeepsSafe(init, steps);
    RunKeepsBounded(init, steps);
    ReachableShape(capacity, producers, consumers, s);
    var k := |s.received| + consumers + capacity;
    assert k <= s.head ==> s.head - k + HeadsBelow(s, k) <= producers - 1;
  }
}
