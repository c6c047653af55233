/** Whole calls of the step machine, run without interleaving, are the one-step calls of the sequential bus. */
module BusAtomic {
  import opened Words
  import opened Events
  import opened BusProtocol
  import opened BusSafety
  import opened BusReads
  import opened EventBus

  function RingOf(s: State): Ring {
    Ring(s.slots, s.head, s.tail)
  }

  /** A publish that nothing interrupts, by producer p, and the steps it takes. */
  lemma AtomicPublish(s: State, p: nat, ev: Event) returns (steps: seq<Step>)
    requires Enabled(s, LoadHead(p, ev))
    ensures ValidRun(s, steps) && steps <= [LoadHead(p, ev), CheckRoom(p), Reserve(p), Store(p)]
    ensures var (ring, status) := PublishRing(RingOf(s), ev);
            var e := After(s, steps);
            && |steps| == (if status == Accepted then 4 else 2)
            && RingOf(e) == ring && e.producers == s.producers && e.consumers == s.consumers
            && e.log == if status == Accepted then s.log + [ev] else s.log
  {
    var s1 := Apply(s, LoadHead(p, ev));
    var s2 := Apply(s1, CheckRoom(p));
    steps := [LoadHead(p, ev), CheckRoom(p)];
    assert s.producers[p] == Idle;
    RunSnoc(s, [], LoadHead(p, ev));
    assert [] + [LoadHead(p, ev)] == [LoadHead(p, ev)];
    RunSnoc(s, [LoadHead(p, ev)], CheckRoom(p));
    assert [LoadHead(p, ev)] + [CheckRoom(p)] == steps;
    if s2.producers[p].Checked? {
      var s3 := Apply(s2, Reserve(p));
      RunSnoc(s, steps, Reserve(p));
      RunSnoc(s, steps + [Reserve(p)], Store(p));
      steps := steps + [Reserve(p)] + [Store(p)];
      assert After(s, steps).producers == s.producers;
    } else {
      assert s2.producers == s.producers;
    }
  }

  /** A consume that nothing interrupts, by consumer c, and the steps it takes. */
  lemma AtomicConsume(s: State, c: nat) returns (steps: seq<Step>)
    requires Enabled(s, Claim(c))
    ensures ValidRun(s, steps)
    ensures var (ring, out) := ConsumeRing(RingOf(s));
            var e := After(s, steps);
            && steps == [Claim(c), Test(c), if out.Some? then Fetch(c) else RollBack(c)]
            && RingOf(e) == ring && e.producers == s.producers && e.consumers == s.consumers
            && e.received == if out.Some? then s.received + [(s.tail, out.value)] else s.received
  {
    var s1 := Apply(s, Claim(c));
    var s2 := Apply(s1, Test(c));
    assert s.consumers[c] == Waiting;
    steps := [Claim(c), Test(c)];
    RunSnoc(s, [], Claim(c));
    assert [] + [Claim(c)] == [Claim(c)];
    RunSnoc(s, [Claim(c)], Test(c));
    assert [Claim(c)] + [Test(c)] == steps;
    var last := if s2.consumers[c].Granted? then Fetch(c) else RollBack(c);
    RunSnoc(s, steps, last);
    steps := steps + [last];
    DecInc(s.tail);
    assert After(s, steps).consumers == s.consumers;
  }

  /**
   When one producer and any consumers have come to rest, the ring is again a queue of the sequential bus,
   holding the reservations from tail on, if and only if the pending count is at most the capacity.
   */
  lemma RestingRingIsQueue(capacity: Word, consumers: nat, s: State)
    requires Reachable(capacity, 1, consumers, s) && NoWrap(s) && Quiescent(s)
    ensures s.tail <= |s.log|
    ensures Represents(RingOf(s), s.log[s.tail..]) <==> |s.log| - s.tail <= capacity
  {
    QuiescentPending(capacity, 1, consumers, s);
    ReachableSlotsExact(capacity, 1, consumers, s);
    ReachableStoresInOrder(capacity, consumers, s);
    ReachableSafe(capacity, 1, consumers, s);
    var q := s.log[s.tail..];
    if |q| <= capacity {
      forall k | 0 <= k < |q|
        ensures s.slots[(s.tail + k) % capacity] == q[k]
      {
        LastIndexIs(s.stores, capacity, s.tail + k);
      }
    }
  }
}
