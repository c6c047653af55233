/** Concrete interleavings: a double grant, a misread, and a ring as full as it can get; and when there are none. */
module BusRuns {
  import opened Words
  import opened Events
  import opened BusProtocol
  import opened BusSafety
  import opened BusDelivery

  // ---------------------------------------------------------------- exactly-once grants

  ghost predicate GrantsDistinct(s: State) {
    forall i, j | 0 <= i < j < |s.grants| :: s.grants[i] != s.grants[j]
  }

  /** No interleaving grants the same index twice. */
  ghost predicate NeverGrantsTwice(capacity: Word, producers: nat, consumers: nat) {
    forall s | Reachable(capacity, producers, consumers, s) && NoWrap(s) :: GrantsDistinct(s)
  }

  /** One whole publish call with nothing interleaved, from a producer that had already passed its check. */
  lemma ReserveAndStore(capacity: Word, producers: nat, consumers: nat, s: State, p: nat) returns (s': State)
    requires Reachable(capacity, producers, consumers, s)
    requires |s.producers| == producers && p < producers && s.producers[p].Checked?
    requires |s.slots| == capacity && s.head + 1 < WORD
    ensures Reachable(capacity, producers, consumers, s')
    ensures s'.producers == s.producers[p := Idle]
    ensures s'.slots == s.slots[s.head % capacity := s.producers[p].ev]
    ensures s'.head == s.head + 1 && s'.log == s.log + [s.producers[p].ev]
    ensures s'.tail == s.tail && s'.consumers == s.consumers && s'.grants == s.grants && s'.claims == s.claims
  {
    StepReachable(capacity, producers, consumers, s, Reserve(p));
    var r := Apply(s, Reserve(p));
    StepReachable(capacity, producers, consumers, r, Store(p));
    s' := Apply(r, Store(p));
  }

  lemma PassCheck(capacity: Word, producers: nat, consumers: nat, s: State, p: nat, ev: Event)
    returns (s': State)
    requires Reachable(capacity, producers, consumers, s)
    requires |s.producers| == producers && p < producers && s.producers[p].Idle?
    requires |s.slots| == capacity && Diff(s.head, s.tail) < capacity
    ensures Reachable(capacity, producers, consumers, s')
    ensures s'.producers == s.producers[p := Checked(ev, s.head)]
    ensures s' == s.(producers := s'.producers)
  {
    StepReachable(capacity, producers, consumers, s, LoadHead(p, ev));
    var l := Apply(s, LoadHead(p, ev));
    StepReachable(capacity, producers, consumers, l, CheckRoom(p));
    s' := Apply(l, CheckRoom(p));
  }

  /** The grants have passed index k, and no consumer is about to test a claim on it. */
  ghost predicate Passed(s: State, k: nat) {
    k < |s.grants| && forall c | 0 <= c < |s.consumers| && s.consumers[c].Claimed? :: s.consumers[c].t != k
  }

  /** An index that the grants have passed is not granted by any continuation. */
  lemma {:induction false} PassedIsFinal(s: State, steps: seq<Step>, k: nat)
    requires Safe(s) && Passed(s, k) && ValidRun(s, steps) && NoWrap(After(s, steps))
    ensures NoWrap(s) && |s.grants| <= |After(s, steps).grants|
    ensures forall i | |s.grants| <= i < |After(s, steps).grants| :: After(s, steps).grants[i] != k
    ensures s.grants <= After(s, steps).grants
    decreases |steps|
  {
    if steps != [] {
      var s' := Apply(s, steps[0]);
      SafeStep(s, steps[0]);
      LogGrows(s', steps[1..]);
      TailBounds(s);
      PassedIsFinal(s', steps[1..], k);
    }
  }

  lemma {:induction false} LogGrows(s: State, steps: seq<Step>)
    requires ValidRun(s, steps)
    ensures |s.log| <= |After(s, steps).log| && (NoWrap(After(s, steps)) ==> NoWrap(s))
    decreases |steps|
  {
    RunKeepsShape(s, steps);
    if steps != [] {
      LogGrows(Apply(s, steps[0]), steps[1..]);
    }
  }

  /** No continuation of s grants index k: the event published under it is lost. */
  ghost predicate Lost(s: State, k: nat) {
    forall steps | ValidRun(s, steps) && NoWrap(After(s, steps)) :: k !in After(s, steps).grants
  }

  lemma PassedIsLost(s: State, k: nat)
    requires Safe(s) && Passed(s, k) && k !in s.grants
    ensures Lost(s, k)
  {
    forall steps | ValidRun(s, steps) && NoWrap(After(s, steps))
      ensures k !in After(s, steps).grants
    {
      PassedIsFinal(s, steps, k);
    }
  }

  /** The first half of a bad run: consumer 0 rolls back its claim on 0 while consumer 1 holds one on 1. */
  lemma RollBackBetween(capacity: Word, producers: nat, consumers: nat) returns (s: State)
    requires capacity > 0 && producers >= 1 && consumers >= 2 && capacity + consumers + 2 < WORD
    ensures Reachable(capacity, producers, consumers, s) && |s.slots| == capacity
    ensures |s.producers| == producers && s.producers[0] == Idle && |s.log| == s.head == s.tail == 1
    ensures |s.consumers| == consumers && s.consumers[0] == Waiting && s.consumers[1] == Claimed(1)
    ensures s.grants == [] && forall c | 2 <= c < consumers :: s.consumers[c] == Waiting
  {
    InitReachable(capacity, producers, consumers);
    var s0 := PassCheck(capacity, producers, consumers, Init(capacity, producers, consumers), 0, ZeroEvent());
    StepReachable(capacity, producers, consumers, s0, Claim(0));
    var s1 := Apply(s0, Claim(0));
    StepReachable(capacity, producers, consumers, s1, Claim(1));
    var s2 := Apply(s1, Claim(1));
    StepReachable(capacity, producers, consumers, s2, Test(0));
    var s3 := Apply(s2, Test(0));
    var s4 := ReserveAndStore(capacity, producers, consumers, s3, 0);
    StepReachable(capacity, producers, consumers, s4, RollBack(0));
    s := Apply(s4, RollBack(0));
  }

  /** Two consumers and one producer suffice to grant index 1 twice and to lose index 0 for good. */
  lemma TwoConsumersGrantTwice(capacity: Word, producers: nat, consumers: nat) returns (s: State)
    requires capacity > 0 && producers >= 1 && consumers >= 2 && capacity + consumers + 2 < WORD
    ensures Reachable(capacity, producers, consumers, s) && NoWrap(s)
    ensures s.grants == [1, 1] && |s.log| == 2 && Lost(s, 0)
  {
    var s0 := RollBackBetween(capacity, producers, consumers);
    var s1 := PassCheck(capacity, producers, consumers, s0, 0, ZeroEvent());
    var s2 := ReserveAndStore(capacity, producers, consumers, s1, 0);
    StepReachable(capacity, producers, consumers, s2, Test(1));
    var s3 := Apply(s2, Test(1));
    StepReachable(capacity, producers, consumers, s3, Claim(0));
    var s4 := Apply(s3, Claim(0));
    StepReachable(capacity, producers, consumers, s4, Test(0));
    s := Apply(s4, Test(0));
    ReachableSafe(capacity, producers, consumers, s);
    PassedIsLost(s, 0);
  }

  /** The bus grants every index at most once in all interleavings exactly when it has at most one consumer. */
  lemma ExactlyOnceNeedsOneConsumer(capacity: Word, producers: nat, consumers: nat)
    requires capacity > 0 && producers >= 1 && capacity + consumers + 2 < WORD
    ensures NeverGrantsTwice(capacity, producers, consumers) <==> consumers <= 1
  {
    if consumers <= 1 {
      forall s | Reachable(capacity, producers, consumers, s) && NoWrap(s)
        ensures GrantsDistinct(s)
      {
        SingleConsumerInOrder(capacity, producers, consumers, s);
      }
    } else {
      var s := TwoConsumersGrantTwice(capacity, producers, consumers);
      assert s.grants[0] == s.grants[1];
    }
  }

  // ---------------------------------------------------------------- reading one's own event

  /** Every consumer received the event that was published under the index it was granted. */
  ghost predicate ReadsOwn(s: State) {
    forall r | r in s.received :: r.0 < |s.log| && r.1 == s.log[r.0]
  }

  ghost predicate NeverMisreads(capacity: Word, producers: nat, consumers: nat) {
    forall s | Reachable(capacity, producers, consumers, s) && NoWrap(s) :: ReadsOwn(s)
  }

  /** A consumer that is granted a slot between its reservation and the copy into it reads the old content. */
  lemma FetchBeforeStore(capacity: Word, producers: nat, consumers: nat, ev: Event) returns (s: State)
    requires capacity > 0 && producers >= 1 && consumers >= 1 && capacity + consumers + 1 < WORD
    ensures Reachable(capacity, producers, consumers, s) && NoWrap(s)
    ensures s.log == [ev] && s.received == [(0, ZeroEvent())]
  {
    InitReachable(capacity, producers, consumers);
    var s0 := PassCheck(capacity, producers, consumers, Init(capacity, producers, consumers), 0, ev);
    StepReachable(capacity, producers, consumers, s0, Reserve(0));
    var s1 := Apply(s0, Reserve(0));
    StepReachable(capacity, producers, consumers, s1, Claim(0));
    var s2 := Apply(s1, Claim(0));
    StepReachable(capacity, producers, consumers, s2, Test(0));
    var s3 := Apply(s2, Test(0));
    StepReachable(capacity, producers, consumers, s3, Fetch(0));
    s := Apply(s3, Fetch(0));
  }

  lemma {:induction false} RunWithoutPeers(s: State, steps: seq<Step>)
    requires ValidRun(s, steps)
    ensures s.producers == [] ==> After(s, steps).log == s.log
    ensures s.consumers == [] ==> After(s, steps).received == s.received
    decreases |steps|
  {
    if steps != [] {
      RunWithoutPeers(Apply(s, steps[0]), steps[1..]);
    }
  }

  /**
   Consumers receive the event they were granted in all interleavings exactly when there is nobody to
   publish or nobody to consume: a single producer and a single consumer already misread.
   */
  lemma NeverMisreadsIffOneSided(capacity: Word, producers: nat, consumers: nat)
    requires capacity > 0 && capacity + consumers + 1 < WORD
    ensures NeverMisreads(capacity, producers, consumers) <==> producers == 0 || consumers == 0
  {
    if producers == 0 || consumers == 0 {
      forall s | Reachable(capacity, producers, consumers, s) && NoWrap(s)
        ensures ReadsOwn(s)
      {
        var init := Init(capacity, producers, consumers);
        var steps :| ValidRun(init, steps) && After(init, steps) == s;
        RunWithoutPeers(init, steps);
        GrantsNeverExceedReservations(capacity, producers, consumers, s);
      }
    } else {
      var s := FetchBeforeStore(capacity, producers, consumers, ZeroEvent().(ts := 1));
      assert (0, ZeroEvent()) in s.received;
    }
  }

  // ---------------------------------------------------------------- the occupancy bound is reached

  predicate AllIdle(s: State) {
    forall i | 0 <= i < |s.producers| :: s.producers[i].Idle?
  }

  /** The first j consumers hold untested claims and the others wait. */
  predicate FirstClaimed(s: State, j: nat) {
    && (forall i | 0 <= i < |s.consumers| && i < j :: s.consumers[i].Claimed?)
    && (forall i | j <= i < |s.consumers| :: s.consumers[i].Waiting?)
  }

  /** The first i producers passed their check with head h, and the others are idle. */
  predicate FirstChecked(s: State, i: nat, h: Word) {
    && (forall p | 0 <= p < |s.producers| && p < i :: s.producers[p].Checked? && s.producers[p].h == h)
    && (forall p | i <= p < |s.producers| :: s.producers[p].Idle?)
  }

  /** j rounds of one publish and one claim that stays untested. */
  lemma {:induction false} ClaimBehind(capacity: Word, producers: nat, consumers: nat, j: nat) returns (s: State)
    requires capacity > 0 && producers >= 1 && j <= consumers && j + capacity < WORD
    ensures Reachable(capacity, producers, consumers, s)
    ensures |s.slots| == capacity && |s.producers| == producers && |s.consumers| == consumers
    ensures s.head == s.tail == |s.log| == |s.claims| == j && s.grants == [] && AllIdle(s) && FirstClaimed(s, j)
  {
    if j == 0 {
      InitReachable(capacity, producers, consumers);
      s := Init(capacity, producers, consumers);
    } else {
      var s0 := ClaimBehind(capacity, producers, consumers, j - 1);
      var s1 := PassCheck(capacity, producers, consumers, s0, 0, ZeroEvent());
      var s2 := ReserveAndStore(capacity, producers, consumers, s1, 0);
      StepReachable(capacity, producers, consumers, s2, Claim(j - 1));
      s := Apply(s2, Claim(j - 1));
    }
  }

  /** n further publishes, up to one short of a full ring. */
  lemma {:induction false} Fill(capacity: Word, producers: nat, consumers: nat, j: nat, n: nat) returns (s: State)
    requires capacity > 0 && producers >= 1 && j <= consumers && n < capacity && j + capacity < WORD
    ensures Reachable(capacity, producers, consumers, s)
    ensures |s.slots| == capacity && |s.producers| == producers && |s.consumers| == consumers
    ensures s.head == |s.log| == j + n && s.tail == |s.claims| == j && s.grants == []
    ensures AllIdle(s) && FirstClaimed(s, j)
  {
    if n == 0 {
      s := ClaimBehind(capacity, producers, consumers, j);
    } else {
      var s0 := Fill(capacity, producers, consumers, j, n - 1);
      var s1 := PassCheck(capacity, producers, consumers, s0, 0, ZeroEvent());
      s := ReserveAndStore(capacity, producers, consumers, s1, 0);
    }
  }

  /** Producers check one after another before any of them reserves. */
  lemma {:induction false} CheckAll(capacity: Word, producers: nat, consumers: nat, i: nat) returns (s: State)
    requires capacity > 0 && 1 <= producers && i <= producers && consumers + capacity < WORD
    ensures Reachable(capacity, producers, consumers, s)
    ensures |s.slots| == capacity && |s.producers| == producers && |s.consumers| == consumers
    ensures s.head == |s.log| == consumers + capacity - 1 && s.tail == consumers && s.grants == []
    ensures FirstChecked(s, i, s.head)
  {
    if i == 0 {
      s := Fill(capacity, producers, consumers, consumers, capacity - 1);
    } else {
      var s0 := CheckAll(capacity, producers, consumers, i - 1);
      s := PassCheck(capacity, producers, consumers, s0, i - 1, ZeroEvent());
    }
  }

  /** Then i of them reserve. */
  lemma {:induction false} ReserveAll(capacity: Word, producers: nat, consumers: nat, i: nat) returns (s: State)
    requires capacity > 0 && 1 <= producers && i <= producers && consumers + capacity + i < WORD
    ensures Reachable(capacity, producers, consumers, s)
    ensures |s.slots| == capacity && |s.producers| == producers && |s.consumers| == consumers
    ensures s.head == |s.log| == consumers + capacity - 1 + i && s.grants == []
    ensures forall p | i <= p < producers :: s.producers[p].Checked?
  {
    if i == 0 {
      s := CheckAll(capacity, producers, consumers, producers);
    } else {
      var s0 := ReserveAll(capacity, producers, consumers, i - 1);
      StepReachable(capacity, producers, consumers, s0, Reserve(i - 1));
      s := Apply(s0, Reserve(i - 1));
    }
  }

  /** For every configuration some interleaving reaches the bound of OccupancyBound exactly. */
  lemma OccupancyBoundReached(capacity: Word, producers: nat, consumers: nat) returns (s: State)
    requires capacity > 0 && producers >= 1 && 2 * (capacity + consumers) + producers < WORD
    ensures Reachable(capacity, producers, consumers, s) && NoWrap(s)
    ensures |s.log| - |s.received| == capacity + producers - 1 + consumers
  {
    s := ReserveAll(capacity, producers, consumers, producers);
    GrantsNeverExceedReservations(capacity, producers, consumers, s);
  }
}
