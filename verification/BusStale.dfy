/** What a publish decides on a head and a tail that are no longer, or not yet, what they seem. */
module BusStale {
  import opened Words
  import opened Events
  import opened Arithmetic
  import opened Counting
  import opened BusProtocol
  import opened BusSafety
  import opened BusRuns

  /** Producer p is about to test the head it has loaded. */
  predicate AboutToCheck(s: State, p: nat) {
    p < |s.producers| && s.producers[p].LoadedHead? && 0 < |s.slots| < WORD
  }

  predicate Refuses(s: State, p: nat)
    requires AboutToCheck(s, p)
  {
    Apply(s, CheckRoom(p)).producers[p].Idle?
  }

  /**
   A producer that loaded head h is refused exactly when tail has passed h or h is a capacity ahead of tail,
   whatever head is by then; otherwise it keeps h. Nothing else changes.
   */
  lemma CheckIsStale(capacity: Word, producers: nat, consumers: nat, s: State, p: nat)
    requires Reachable(capacity, producers, consumers, s) && NoWrap(s)
    requires p < |s.producers| && s.producers[p].LoadedHead?
    ensures AboutToCheck(s, p)
    ensures var (ev, h) := (s.producers[p].ev, s.producers[p].h);
            && (Refuses(s, p) <==> h < s.tail || s.tail + capacity <= h)
            && Apply(s, CheckRoom(p)) ==
                 s.(producers := s.producers[p := if Refuses(s, p) then Idle else Checked(ev, h)])
  {
    ReachableSafe(capacity, producers, consumers, s);
    ReachableShape(capacity, producers, consumers, s);
    TailBounds(s);
  }

  /**
   A consumer that claimed t, by contrast, passes its test exactly when t is reserved by the time of the test,
   wherever tail is by then.
   */
  lemma TestIsCurrent(capacity: Word, producers: nat, consumers: nat, s: State, c: nat)
    requires Reachable(capacity, producers, consumers, s) && NoWrap(s)
    requires c < |s.consumers| && s.consumers[c].Claimed?
    ensures Enabled(s, Test(c))
    ensures var t := s.consumers[c].t;
            Apply(s, Test(c)) ==
              if t < |s.log| then s.(grants := s.grants + [t], consumers := s.consumers[c := Granted(t)])
              else s.(consumers := s.consumers[c := Refused(t)])
  {
    ReachableSafe(capacity, producers, consumers, s);
    ReachableShape(capacity, producers, consumers, s);
  }

  // ---------------------------------------------------------------- room in a full ring

  /** A publish finds room only if at that moment head is less than a capacity ahead of tail. */
  ghost predicate RoomIsReal(capacity: Word, producers: nat, consumers: nat) {
    forall s, p: nat | Reachable(capacity, producers, consumers, s) && NoWrap(s) && AboutToCheck(s, p) ::
      Refuses(s, p) || s.head < s.tail + |s.slots|
  }

  /**
   Producer 0 loads head, producer 1 takes the last slot, nothing has been claimed: producer 0 still finds
   room in the full ring.
   */
  lemma FullRingFindsRoom(capacity: Word, producers: nat, consumers: nat, ev: Event) returns (s: State)
    requires capacity > 0 && producers >= 2 && 2 * capacity + consumers + 1 < WORD
    ensures Reachable(capacity, producers, consumers, s) && NoWrap(s) && |s.slots| == capacity
    ensures s.claims == [] && s.tail == 0 && s.head == |s.log| == capacity && |s.producers| == producers
    ensures AboutToCheck(s, 0) && s.producers[0].ev == ev && !Refuses(s, 0)
  {
    var s0 := Fill(capacity, producers, consumers, 0, capacity - 1);
    StepReachable(capacity, producers, consumers, s0, LoadHead(0, ev));
    var s1 := Apply(s0, LoadHead(0, ev));
    var s2 := PassCheck(capacity, producers, consumers, s1, 1, ZeroEvent());
    s := ReserveAndStore(capacity, producers, consumers, s2, 1);
    assert s.producers[0] == LoadedHead(ev, capacity - 1);
    GrantsNeverExceedReservations(capacity, producers, consumers, s);
    ReachableShape(capacity, producers, consumers, s);
  }

  /** It goes on to overwrite the oldest event, which nobody has claimed. */
  lemma OldestOverwritten(capacity: Word, producers: nat, consumers: nat, ev: Event) returns (s: State)
    requires capacity > 0 && producers >= 2 && 2 * capacity + consumers + 1 < WORD
    ensures Reachable(capacity, producers, consumers, s) && NoWrap(s)
    ensures s.claims == [] && |s.log| == capacity + 1 && |s.slots| == capacity && s.slots[0] == s.log[capacity] == ev
  {
    var s0 := FullRingFindsRoom(capacity, producers, consumers, ev);
    StepReachable(capacity, producers, consumers, s0, CheckRoom(0));
    var s1 := Apply(s0, CheckRoom(0));
    assert s1.producers[0].Checked? && s1.producers[0].ev == ev;
    ModUnique(capacity, capacity, 1, 0);
    s := ReserveAndStore(capacity, producers, consumers, s1, 0);
    ReachableShape(capacity, producers, consumers, s);
  }

  /** The head that a single producer has loaded is still head. */
  ghost predicate LoadedIsHead(s: State) {
    |s.producers| <= 1 && forall p | 0 <= p < |s.producers| && s.producers[p].LoadedHead? :: s.producers[p].h == s.head
  }

  lemma {:induction false} RunKeepsLoadedIsHead(s: State, steps: seq<Step>)
    requires ValidRun(s, steps) && LoadedIsHead(s)
    ensures LoadedIsHead(After(s, steps))
    decreases |steps|
  {
    if steps != [] {
      RunKeepsLoadedIsHead(Apply(s, steps[0]), steps[1..]);
    }
  }

  /** In all interleavings room is real if and only if there is at most one producer. */
  lemma RoomIsRealNeedsOneProducer(capacity: Word, producers: nat, consumers: nat)
    requires capacity > 0 && 2 * capacity + consumers + 1 < WORD
    ensures RoomIsReal(capacity, producers, consumers) <==> producers <= 1
  {
    if producers <= 1 {
      forall s, p: nat | Reachable(capacity, producers, consumers, s) && NoWrap(s) && AboutToCheck(s, p)
        ensures Refuses(s, p) || s.head < s.tail + |s.slots|
      {
        CheckIsStale(capacity, producers, consumers, s, p);
        ReachableShape(capacity, producers, consumers, s);
        var init := Init(capacity, producers, consumers);
        var steps :| ValidRun(init, steps) && After(init, steps) == s;
        RunKeepsLoadedIsHead(init, steps);
      }
    } else {
      var s := FullRingFindsRoom(capacity, producers, consumers, ZeroEvent());
    }
  }

  // ---------------------------------------------------------------- refused by an empty ring

  /** A publish is refused only if at that moment a capacity of events is reserved and not delivered. */
  ghost predicate RefusalIsReal(capacity: Word, producers: nat, consumers: nat) {
    forall s, p: nat | Reachable(capacity, producers, consumers, s) && NoWrap(s) && AboutToCheck(s, p) ::
      Refuses(s, p) ==> |s.log| - |s.received| >= |s.slots|
  }

  /**
   Producer 0 loads head, producer 1 publishes, and the event is consumed: head and tail are equal, no other
   call is in flight, and producer 0 is refused, because the unsigned difference wraps once tail has passed
   the loaded head.
   */
  lemma EmptyRingRefuses(capacity: Word, producers: nat, consumers: nat, ev: Event) returns (s: State)
    requires capacity > 0 && producers >= 2 && consumers >= 1 && capacity + consumers + 1 < WORD
    ensures Reachable(capacity, producers, consumers, s) && NoWrap(s) && |s.slots| == capacity
    ensures s.head == s.tail == |s.received| == |s.log| == 1
    ensures forall c | 0 <= c < |s.consumers| :: s.consumers[c].Waiting?
    ensures forall p | 1 <= p < |s.producers| :: s.producers[p].Idle?
    ensures AboutToCheck(s, 0) && Refuses(s, 0)
  {
    InitReachable(capacity, producers, consumers);
    var s0 := Init(capacity, producers, consumers);
    StepReachable(capacity, producers, consumers, s0, LoadHead(0, ev));
    var s1 := PassCheck(capacity, producers, consumers, Apply(s0, LoadHead(0, ev)), 1, ZeroEvent());
    var s2 := ReserveAndStore(capacity, producers, consumers, s1, 1);
    assert s2.producers[0] == LoadedHead(ev, 0);
    s := ConsumeOne(capacity, producers, consumers, s2, 0);
    QuiescentConsumers(capacity, producers, consumers, s);
  }

  /** One whole consume call with nothing interleaved. */
  lemma ConsumeOne(capacity: Word, producers: nat, consumers: nat, s: State, c: nat) returns (s': State)
    requires Reachable(capacity, producers, consumers, s) && Enabled(s, Claim(c)) && s.tail < s.head
    ensures Reachable(capacity, producers, consumers, s')
    ensures s'.tail == s.tail + 1 && s'.head == s.head && s'.log == s.log && s'.slots == s.slots
    ensures s'.producers == s.producers && s'.consumers == s.consumers
  {
    StepReachable(capacity, producers, consumers, s, Claim(c));
    var s1 := Apply(s, Claim(c));
    StepReachable(capacity, producers, consumers, s1, Test(c));
    var s2 := Apply(s1, Test(c));
    StepReachable(capacity, producers, consumers, s2, Fetch(c));
    s' := Apply(s2, Fetch(c));
  }

  /** While all consumers wait, tail counts the deliveries. */
  lemma QuiescentConsumers(capacity: Word, producers: nat, consumers: nat, s: State)
    requires Reachable(capacity, producers, consumers, s) && NoWrap(s)
    requires forall c | 0 <= c < |s.consumers| :: s.consumers[c].Waiting?
    ensures s.tail == |s.received|
  {
    ReachableSafe(capacity, producers, consumers, s);
    CountBounds(s.consumers, Unsettled());
    CountBounds(s.consumers, Fetching());
  }

  /** One producer and one consumer: a claim on the empty ring, not yet rolled back, makes it refuse a publish. */
  lemma ClaimRefuses(capacity: Word, producers: nat, consumers: nat) returns (s: State)
    requires capacity > 0 && producers >= 1 && consumers >= 1 && capacity + consumers < WORD
    ensures Reachable(capacity, producers, consumers, s) && NoWrap(s) && s.log == []
    ensures AboutToCheck(s, 0) && Refuses(s, 0)
  {
    InitReachable(capacity, producers, consumers);
    var s0 := Init(capacity, producers, consumers);
    StepReachable(capacity, producers, consumers, s0, Claim(0));
    var s1 := Apply(s0, Claim(0));
    StepReachable(capacity, producers, consumers, s1, LoadHead(0, ZeroEvent()));
    s := Apply(s1, LoadHead(0, ZeroEvent()));
  }

  lemma {:induction false} RunWithoutConsumers(s: State, steps: seq<Step>)
    requires ValidRun(s, steps) && s.consumers == [] && (NoWrap(s) ==> LoadedBelowHead(s))
    ensures NoWrap(After(s, steps)) ==> LoadedBelowHead(After(s, steps))
    decreases |steps|
  {
    if steps != [] {
      RunWithoutConsumers(Apply(s, steps[0]), steps[1..]);
    }
  }

  ghost predicate LoadedBelowHead(s: State) {
    && s.head == |s.log| && s.tail == 0
    && forall p | 0 <= p < |s.producers| && s.producers[p].LoadedHead? :: s.producers[p].h <= s.head
  }

  /** In all interleavings refusals are real if and only if there are no producers or no consumers. */
  lemma RefusalIsRealIffOneSided(capacity: Word, producers: nat, consumers: nat)
    requires capacity > 0 && capacity + consumers < WORD
    ensures RefusalIsReal(capacity, producers, consumers) <==> producers == 0 || consumers == 0
  {
    if producers == 0 || consumers == 0 {
      forall s, p: nat | Reachable(capacity, producers, consumers, s) && NoWrap(s) && AboutToCheck(s, p)
        ensures Refuses(s, p) ==> |s.log| - |s.received| >= |s.slots|
      {
        CheckIsStale(capacity, producers, consumers, s, p);
        ReachableShape(capacity, producers, consumers, s);
        var init := Init(capacity, producers, consumers);
        var steps :| ValidRun(init, steps) && After(init, steps) == s;
        RunWithoutConsumers(init, steps);
        RunWithoutPeers(init, steps);
      }
    } else {
      var s := ClaimRefuses(capacity, producers, consumers);
    }
  }
}
