/** Exactly which event each slot holds, and so exactly what a consumer reads. */
module BusReads {
  import opened Words
  import opened Events
  import opened Arithmetic
  import opened BusProtocol
  import opened BusDelivery

  /** The last store that fell on slot p, or -1. */
  function LastStore(stores: seq<Word>, capacity: nat, p: nat): (j: int)
    requires capacity > 0
    ensures j == -1 || (j in stores && j % capacity == p)
  {
    if stores == [] then -1
    else
      var last := stores[|stores| - 1];
      if last % capacity == p then last else LastStore(stores[..|stores| - 1], capacity, p)
  }

  /** Store number i was of index t, and none after it fell on the same slot. */
  predicate Latest(stores: seq<Word>, capacity: nat, t: nat, i: nat)
    requires capacity > 0
  {
    && i < |stores| && stores[i] == t
    && forall k | i < k < |stores| :: stores[k] % capacity != t % capacity
  }

  lemma {:induction false} LastStoreIs(stores: seq<Word>, capacity: nat, t: nat)
    requires capacity > 0
    ensures LastStore(stores, capacity, t % capacity) == t <==> exists i: nat :: Latest(stores, capacity, t, i)
  {
    if stores != [] {
      var n, rest := |stores| - 1, stores[..|stores| - 1];
      LastStoreIs(rest, capacity, t);
      if stores[n] % capacity == t % capacity {
        assert stores[n] == t ==> Latest(stores, capacity, t, n);
        assert forall i: nat :: Latest(stores, capacity, t, i) ==> i == n;
      } else {
        assert forall i: nat | i < n :: Latest(rest, capacity, t, i) <==> Latest(stores, capacity, t, i);
      }
    }
  }

  /** Stores made in the order of their indices, as by one producer. */
  predicate Consecutive(stores: seq<Word>) {
    forall k | 0 <= k < |stores| :: stores[k] == k
  }

  /** Then store t is the last one to its slot exactly while fewer than capacity further stores have followed it. */
  lemma LastIndexIs(stores: seq<Word>, capacity: nat, t: nat)
    requires capacity > 0 && Consecutive(stores)
    ensures LastStore(stores, capacity, t % capacity) == t <==> t < |stores| <= t + capacity
  {
    LastStoreIs(stores, capacity, t);
    if t < |stores| <= t + capacity {
      forall k | t < k < |stores|
        ensures stores[k] % capacity != t % capacity
      {
        WindowDistinct(t, k, capacity);
      }
      assert Latest(stores, capacity, t, t);
    } else if t < |stores| {
      ModPlus(t, capacity);
      assert stores[t + capacity] % capacity == t % capacity;
    }
  }

  // ---------------------------------------------------------------- any number of producers

  /** Only reserved indices have been stored. */
  predicate Logged(log: seq<Event>, stores: seq<Word>) {
    forall k | 0 <= k < |stores| :: stores[k] < |log|
  }

  function SlotOf(log: seq<Event>, stores: seq<Word>, capacity: nat, p: nat): Event
    requires capacity > 0 && Logged(log, stores)
  {
    var j := LastStore(stores, capacity, p);
    if j < 0 then ZeroEvent() else log[j]
  }

  ghost predicate SlotsExact(s: State) {
    && |s.slots| > 0
    && s.head == |s.log|
    && Logged(s.log, s.stores)
    && (forall i | 0 <= i < |s.producers| :: ReservationLogged(s, s.producers[i]))
    && (forall p | 0 <= p < |s.slots| :: s.slots[p] == SlotOf(s.log, s.stores, |s.slots|, p))
  }

  /** Indices in stores and in producers' hands stay reserved. */
  lemma LoggedStep(s: State, step: Step)
    requires Enabled(s, step) && NoWrap(Apply(s, step)) && SlotsExact(s)
    ensures var s' := Apply(s, step);
            && s'.head == |s'.log| && s.log <= s'.log && Logged(s'.log, s'.stores)
            && (step.Store? ==> s'.stores == s.stores + [s.producers[step.p].idx])
            && forall i | 0 <= i < |s'.producers| :: ReservationLogged(s', s'.producers[i])
  {
    var s' := Apply(s, step);
    forall i | 0 <= i < |s'.producers|
      ensures ReservationLogged(s', s'.producers[i])
    {
      assert ReservationLogged(s, s.producers[i]);
    }
    if step.Store? {
      assert ReservationLogged(s, s.producers[step.p]);
    }
  }

  lemma SlotStep(s: State, step: Step, p: nat)
    requires Enabled(s, step) && NoWrap(Apply(s, step)) && SlotsExact(s) && p < |s.slots|
    requires s.log <= Apply(s, step).log && Logged(Apply(s, step).log, Apply(s, step).stores)
    ensures Apply(s, step).slots[p] == SlotOf(Apply(s, step).log, Apply(s, step).stores, |s.slots|, p)
  {
    assert s.slots[p] == SlotOf(s.log, s.stores, |s.slots|, p);
    if step.Store? {
      assert ReservationLogged(s, s.producers[step.p]);
      assert Apply(s, step).stores[..|s.stores|] == s.stores;
    }
  }

  lemma SlotsExactStep(s: State, step: Step)
    requires Enabled(s, step) && NoWrap(Apply(s, step)) && SlotsExact(s)
    ensures SlotsExact(Apply(s, step))
  {
    var s' := Apply(s, step);
    LoggedStep(s, step);
    forall p | 0 <= p < |s'.slots|
      ensures s'.slots[p] == SlotOf(s'.log, s'.stores, |s'.slots|, p)
    {
      SlotStep(s, step, p);
    }
  }

  lemma {:induction false} RunKeepsSlotsExact(s: State, steps: seq<Step>)
    requires ValidRun(s, steps) && (NoWrap(s) ==> SlotsExact(s))
    ensures NoWrap(After(s, steps)) ==> SlotsExact(After(s, steps))
    decreases |steps|
  {
    if steps != [] {
      if NoWrap(Apply(s, steps[0])) {
        SlotsExactStep(s, steps[0]);
      }
      RunKeepsSlotsExact(Apply(s, steps[0]), steps[1..]);
    }
  }

  lemma ReachableSlotsExact(capacity: Word, producers: nat, consumers: nat, s: State)
    requires Reachable(capacity, producers, consumers, s) && NoWrap(s)
    ensures SlotsExact(s) && |s.slots| == capacity && |s.consumers| == consumers
  {
    var init := Init(capacity, producers, consumers);
    var steps :| ValidRun(init, steps) && After(init, steps) == s;
    RunKeepsSlotsExact(init, steps);
    ReachableShape(capacity, producers, consumers, s);
  }

  /**
   Under any interleaving, a consumer granted index t reads the event of the last store to t's slot. That is
   store t itself exactly when t has been stored and no index congruent to t has been stored since.
   */
  lemma ReadIsLastStore(capacity: Word, producers: nat, consumers: nat, s: State, c: nat)
    requires Reachable(capacity, producers, consumers, s) && NoWrap(s)
    requires c < |s.consumers| && s.consumers[c].Granted?
    ensures SlotsExact(s) && |s.slots| == capacity
    ensures var t := s.consumers[c].t;
            var j := LastStore(s.stores, capacity, t % capacity);
            && Enabled(s, Fetch(c))
            && Apply(s, Fetch(c)).received ==
                 s.received + [(t, if j < 0 then ZeroEvent() else s.log[j])]
            && (j == t <==> exists i: nat :: Latest(s.stores, capacity, t, i))
  {
    ReachableSlotsExact(capacity, producers, consumers, s);
    LastStoreIs(s.stores, capacity, s.consumers[c].t);
  }

  // ---------------------------------------------------------------- one producer

  /** One producer stores its reservations in order, and lags them by at most the one in flight. */
  ghost predicate StoresInOrder(s: State) {
    && |s.producers| == 1
    && s.head == |s.log|
    && Consecutive(s.stores)
    && match s.producers[0]
       case Reserved(_, idx) => idx == |s.stores| && |s.log| == idx + 1
       case _ => |s.log| == |s.stores|
  }

  lemma StoresInOrderStep(s: State, step: Step)
    requires Enabled(s, step) && NoWrap(Apply(s, step)) && StoresInOrder(s)
    ensures StoresInOrder(Apply(s, step))
  {
  }

  lemma {:induction false} RunKeepsStoresInOrder(s: State, steps: seq<Step>)
    requires ValidRun(s, steps) && (NoWrap(s) ==> StoresInOrder(s))
    ensures NoWrap(After(s, steps)) ==> StoresInOrder(After(s, steps))
    decreases |steps|
  {
    if steps != [] {
      if NoWrap(Apply(s, steps[0])) {
        StoresInOrderStep(s, steps[0]);
      }
      RunKeepsStoresInOrder(Apply(s, steps[0]), steps[1..]);
    }
  }

  lemma ReachableStoresInOrder(capacity: Word, consumers: nat, s: State)
    requires Reachable(capacity, 1, consumers, s) && NoWrap(s)
    ensures StoresInOrder(s)
  {
    var init := Init(capacity, 1, consumers);
    var steps :| ValidRun(init, steps) && After(init, steps) == s;
    RunKeepsStoresInOrder(init, steps);
  }

  /**
   With one producer, a consumer granted index t reads event t exactly when the producer has finished
   copying t and has not yet copied t + capacity.
   */
  lemma SingleProducerRead(capacity: Word, consumers: nat, s: State, c: nat)
    requires Reachable(capacity, 1, consumers, s) && NoWrap(s)
    requires c < |s.consumers| && s.consumers[c].Granted?
    ensures |s.log| - 1 <= |s.stores| <= |s.log|
    ensures var t := s.consumers[c].t;
            && (exists i: nat :: Latest(s.stores, capacity, t, i)) <==> t < |s.stores| <= t + capacity
  {
    ReachableStoresInOrder(capacity, consumers, s);
    LastStoreIs(s.stores, capacity, s.consumers[c].t);
    LastIndexIs(s.stores, capacity, s.consumers[c].t);
  }
}
