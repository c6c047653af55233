/** Which event a consumer of the bus receives, and which indices consumers are granted. */
module BusDelivery {
  import opened Words
  import opened Events
  import opened Counting
  import opened BusProtocol
  import opened BusSafety

  // ---------------------------------------------------------------- where delivered bytes come from

  /** Index i falls on slot p. */
  predicate FallsOn(capacity: nat, i: int, p: int)
    requires capacity > 0
  {
    i % capacity == p
  }

  /** ev is the zero event or was published under an index that falls on slot p. */
  ghost predicate Genuine(s: State, p: int, ev: Event)
    requires |s.slots| > 0
  {
    ev == ZeroEvent() || exists i :: 0 <= i < |s.log| && s.log[i] == ev && FallsOn(|s.slots|, i, p)
  }

  predicate ReservationLogged(s: State, p: Producer) {
    p.Reserved? ==> p.idx < |s.log| && s.log[p.idx] == p.ev
  }

  ghost predicate SlotsGenuine(s: State) {
    && |s.slots| > 0
    && s.head == |s.log|
    && (forall p | 0 <= p < |s.slots| :: Genuine(s, p, s.slots[p]))
    && (forall i | 0 <= i < |s.producers| :: ReservationLogged(s, s.producers[i]))
    && (forall r | r in s.received :: Genuine(s, r.0 % |s.slots|, r.1))
  }

  lemma SlotsGenuineStep(s: State, step: Step)
    requires Enabled(s, step) && NoWrap(Apply(s, step)) && SlotsGenuine(s)
    ensures SlotsGenuine(Apply(s, step))
  {
    var s' := Apply(s, step);
    forall p | 0 <= p < |s'.slots|
      ensures Genuine(s', p, s'.slots[p])
    {
      SlotStep(s, step, p);
    }
    forall r | r in s'.received
      ensures Genuine(s', r.0 % |s'.slots|, r.1)
    {
      ReceivedStep(s, step, r);
    }
    forall i | 0 <= i < |s'.producers|
      ensures ReservationLogged(s', s'.producers[i])
    {
      assert ReservationLogged(s, s.producers[i]);
    }
  }

  lemma SlotStep(s: State, step: Step, p: nat)
    requires Enabled(s, step) && NoWrap(Apply(s, step)) && SlotsGenuine(s) && p < |s.slots|
    ensures Genuine(Apply(s, step), p, Apply(s, step).slots[p])
  {
  }

  lemma ReceivedStep(s: State, step: Step, r: (Word, Event))
    requires Enabled(s, step) && NoWrap(Apply(s, step)) && SlotsGenuine(s) && r in Apply(s, step).received
    ensures Genuine(Apply(s, step), r.0 % |s.slots|, r.1)
  {
  }

  lemma {:induction false} RunKeepsSlotsGenuine(s: State, steps: seq<Step>)
    requires ValidRun(s, steps) && (NoWrap(s) ==> SlotsGenuine(s))
    ensures NoWrap(After(s, steps)) ==> SlotsGenuine(After(s, steps))
    decreases |steps|
  {
    if steps != [] {
      if NoWrap(Apply(s, steps[0])) {
        SlotsGenuineStep(s, steps[0]);
      }
      RunKeepsSlotsGenuine(Apply(s, steps[0]), steps[1..]);
    }
  }

  /**
   Whatever a consumer copies out under claim t is the zero event or an event that was really published
   under an index congruent to t; the same holds of every slot at every moment.
   */
  lemma DeliveredEventsAreGenuine(capacity: Word, producers: nat, consumers: nat, s: State)
    requires Reachable(capacity, producers, consumers, s) && NoWrap(s)
    ensures |s.slots| == capacity > 0
    ensures forall r | r in s.received :: Genuine(s, r.0 % |s.slots|, r.1)
    ensures forall p | 0 <= p < capacity :: Genuine(s, p, s.slots[p])
  {
    var init := Init(capacity, producers, consumers);
    var steps :| ValidRun(init, steps) && After(init, steps) == s;
    RunKeepsSlotsGenuine(init, steps);
    ReachableShape(capacity, producers, consumers, s);
  }

  // ---------------------------------------------------------------- one consumer

  /** Grants are 0, 1, 2, ... in order, and the consumer's own index is the next or the last of them. */
  ghost predicate InOrder(s: State) {
    && |s.consumers| <= 1
    && (forall k | 0 <= k < |s.grants| :: s.grants[k] == k)
    && s.tail == |s.grants| + Count(s.consumers, Unsettled())
    && (|s.consumers| == 1 ==>
          match s.consumers[0]
          case Waiting => true
          case Claimed(t) => t == |s.grants|
          case Refused(t) => t == |s.grants|
          case Granted(t) => t + 1 == |s.grants|)
  }

  lemma InOrderStep(s: State, step: Step)
    requires Enabled(s, step) && NoWrap(s) && Safe(s) && InOrder(s)
    ensures InOrder(Apply(s, step))
  {
    TailBounds(s);
  }

  lemma {:induction false} RunKeepsInOrder(s: State, steps: seq<Step>)
    requires ValidRun(s, steps) && Safe(s) && (NoWrap(s) ==> InOrder(s))
    ensures NoWrap(After(s, steps)) ==> InOrder(After(s, steps))
    decreases |steps|
  {
    if steps != [] {
      SafeStep(s, steps[0]);
      if NoWrap(Apply(s, steps[0])) {
        InOrderStep(s, steps[0]);
      }
      RunKeepsInOrder(Apply(s, steps[0]), steps[1..]);
    }
  }

  /** With one consumer and any number of producers, the k-th successful claim is index k. */
  lemma SingleConsumerInOrder(capacity: Word, producers: nat, consumers: nat, s: State)
    requires Reachable(capacity, producers, consumers, s) && NoWrap(s) && consumers <= 1
    ensures forall k | 0 <= k < |s.grants| :: s.grants[k] == k
  {
    var init := Init(capacity, producers, consumers);
    var steps :| ValidRun(init, steps) && After(init, steps) == s;
    InitSafe(capacity, producers, consumers);
    RunKeepsInOrder(init, steps);
  }

  // ---------------------------------------------------------------- before the first rollback

  ghost predicate ClaimsContiguous(s: State) {
    s.rollbacks == 0 ==> s.tail == |s.claims| && forall k | 0 <= k < |s.claims| :: s.claims[k] == k
  }

  lemma {:induction false} RunKeepsClaimsContiguous(s: State, steps: seq<Step>)
    requires ValidRun(s, steps) && Safe(s) && (NoWrap(s) ==> ClaimsContiguous(s))
    ensures NoWrap(After(s, steps)) ==> ClaimsContiguous(After(s, steps))
    decreases |steps|
  {
    if steps != [] {
      if NoWrap(s) {
        TailBounds(s);
      }
      SafeStep(s, steps[0]);
      RunKeepsClaimsContiguous(Apply(s, steps[0]), steps[1..]);
    }
  }

  /** With any number of consumers, the claims made before the first rollback are 0, 1, 2, ... in order. */
  lemma ClaimsBeforeFirstRollback(capacity: Word, producers: nat, consumers: nat, s: State)
    requires Reachable(capacity, producers, consumers, s) && NoWrap(s) && s.rollbacks == 0
    ensures forall k | 0 <= k < |s.claims| :: s.claims[k] == k
  {
    var init := Init(capacity, producers, consumers);
    var steps :| ValidRun(init, steps) && After(init, steps) == s;
    InitSafe(capacity, producers, consumers);
    RunKeepsClaimsContiguous(init, steps);
  }
}
