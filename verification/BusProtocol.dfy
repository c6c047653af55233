/**
 The event bus as a step machine: any number of producer and consumer threads, one step for each
 atomic access of the two counters and one for each copy of a slot.
 */
module BusProtocol {
  import opened Words
  import opened Events

  /** Where a producer stands inside a publish call. */
  datatype Producer =
    | Idle
    | LoadedHead(ev: Event, h: Word)    // head read, tail not yet
    | Checked(ev: Event, h: Word)       // room found, slot not yet reserved
    | Reserved(ev: Event, idx: Word)    // slot reserved, event not yet copied

  /** Where a consumer stands inside a consume call. */
  datatype Consumer =
    | Waiting
    | Claimed(t: Word)                  // tail advanced, not yet tested
    | Granted(t: Word)                  // test passed, event not yet copied
    | Refused(t: Word)                  // test failed, tail not yet put back

  /**
   The shared memory, the threads, and a history that no step reads: the event of every reservation, the
   index of every copy into a slot in the order of the copies, the index of every claim and of every claim
   that passed its test, what each copy out of a slot delivered, and how many claims were rolled back.
   */
  datatype State = State(
    slots: seq<Event>,
    head: Word,
    tail: Word,
    producers: seq<Producer>,
    consumers: seq<Consumer>,
    log: seq<Event>,
    stores: seq<Word>,
    claims: seq<Word>,
    grants: seq<Word>,
    received: seq<(Word, Event)>,
    rollbacks: nat)

  datatype Step =
    | LoadHead(p: nat, ev: Event)
    | CheckRoom(p: nat)
    | Reserve(p: nat)
    | Store(p: nat)
    | Claim(c: nat)
    | Test(c: nat)
    | Fetch(c: nat)
    | RollBack(c: nat)

  function Init(capacity: Word, producers: nat, consumers: nat): State
    requires capacity > 0
  {
    State(seq(capacity, _ => ZeroEvent()), 0, 0, seq(producers, _ => Idle), seq(consumers, _ => Waiting),
          [], [], [], [], [], 0)
  }

  predicate Enabled(s: State, step: Step) {
    && 0 < |s.slots| < WORD
    && match step
       case LoadHead(p, _) => p < |s.producers| && s.producers[p].Idle?
       case CheckRoom(p) => p < |s.producers| && s.producers[p].LoadedHead?
       case Reserve(p) => p < |s.producers| && s.producers[p].Checked?
       case Store(p) => p < |s.producers| && s.producers[p].Reserved?
       case Claim(c) => c < |s.consumers| && s.consumers[c].Waiting?
       case Test(c) => c < |s.consumers| && s.consumers[c].Claimed?
       case Fetch(c) => c < |s.consumers| && s.consumers[c].Granted?
       case RollBack(c) => c < |s.consumers| && s.consumers[c].Refused?
  }

  function Apply(s: State, step: Step): State
    requires Enabled(s, step)
  {
    match step
    case LoadHead(p, ev) =>
      s.(producers := s.producers[p := LoadedHead(ev, s.head)])
    case CheckRoom(p) =>
      var me := s.producers[p];
      if Diff(me.h, s.tail) >= |s.slots| then
        s.(producers := s.producers[p := Idle])
      else
        s.(producers := s.producers[p := Checked(me.ev, me.h)])
    case Reserve(p) =>
      var me := s.producers[p];
      s.(head := Inc(s.head), log := s.log + [me.ev], producers := s.producers[p := Reserved(me.ev, s.head)])
    case Store(p) =>
      var me := s.producers[p];
      s.(slots := s.slots[me.idx % |s.slots| := me.ev], stores := s.stores + [me.idx],
         producers := s.producers[p := Idle])
    case Claim(c) =>
      s.(tail := Inc(s.tail), claims := s.claims + [s.tail], consumers := s.consumers[c := Claimed(s.tail)])
    case Test(c) =>
      var t := s.consumers[c].t;
      if t >= s.head then
        s.(consumers := s.consumers[c := Refused(t)])
      else
        s.(grants := s.grants + [t], consumers := s.consumers[c := Granted(t)])
    case Fetch(c) =>
      var t := s.consumers[c].t;
      s.(received := s.received + [(t, s.slots[t % |s.slots|])], consumers := s.consumers[c := Waiting])
    case RollBack(c) =>
      s.(tail := Dec(s.tail), rollbacks := s.rollbacks + 1, consumers := s.consumers[c := Waiting])
  }

  /** The steps can be taken one after the other. */
  predicate ValidRun(s: State, steps: seq<Step>)
    decreases |steps|
  {
    steps == [] || (Enabled(s, steps[0]) && ValidRun(Apply(s, steps[0]), steps[1..]))
  }

  function After(s: State, steps: seq<Step>): State
    requires ValidRun(s, steps)
    decreases |steps|
  {
    if steps == [] then s else After(Apply(s, steps[0]), steps[1..])
  }

  /** s ends some interleaving of this many producers and consumers over a fresh ring. */
  ghost predicate Reachable(capacity: Word, producers: nat, consumers: nat, s: State) {
    && capacity > 0
    && exists steps :: ValidRun(Init(capacity, producers, consumers), steps)
                    && After(Init(capacity, producers, consumers), steps) == s
  }

  /** Few enough reservations so far that no counter can have wrapped. */
  predicate NoWrap(s: State) {
    |s.log| + |s.slots| + |s.consumers| < WORD
  }

  /** No call is in flight. */
  predicate Quiescent(s: State) {
    && (forall i | 0 <= i < |s.producers| :: s.producers[i].Idle?)
    && (forall i | 0 <= i < |s.consumers| :: s.consumers[i].Waiting?)
  }

  lemma {:induction false} RunSnoc(s: State, steps: seq<Step>, step: Step)
    requires ValidRun(s, steps) && Enabled(After(s, steps), step)
    ensures ValidRun(s, steps + [step])
    ensures After(s, steps + [step]) == Apply(After(s, steps), step)
    decreases |steps|
  {
    if steps == [] {
      assert (steps + [step])[1..] == [];
    } else {
      RunSnoc(Apply(s, steps[0]), steps[1..], step);
      assert (steps + [step])[1..] == steps[1..] + [step];
    }
  }

  lemma InitReachable(capacity: Word, producers: nat, consumers: nat)
    requires capacity > 0
    ensures Reachable(capacity, producers, consumers, Init(capacity, producers, consumers))
  {
    assert ValidRun(Init(capacity, producers, consumers), []);
  }

  lemma StepReachable(capacity: Word, producers: nat, consumers: nat, s: State, step: Step)
    requires Reachable(capacity, producers, consumers, s) && Enabled(s, step)
    ensures Reachable(capacity, producers, consumers, Apply(s, step))
  {
    var init := Init(capacity, producers, consumers);
    var steps :| ValidRun(init, steps) && After(init, steps) == s;
    RunSnoc(init, steps, step);
  }

  lemma {:induction false} ReachableShape(capacity: Word, producers: nat, consumers: nat, s: State)
    requires Reachable(capacity, producers, consumers, s)
    ensures |s.slots| == capacity && |s.producers| == producers && |s.consumers| == consumers
  {
    var init := Init(capacity, producers, consumers);
    var steps :| ValidRun(init, steps) && After(init, steps) == s;
    RunKeepsShape(init, steps);
  }

  lemma {:induction false} RunKeepsShape(s: State, steps: seq<Step>)
    requires ValidRun(s, steps)
    ensures var e := After(s, steps);
            |e.slots| == |s.slots| && |e.producers| == |s.producers| && |e.consumers| == |s.consumers|
    decreases |steps|
  {
    if steps != [] {
      RunKeepsShape(Apply(s, steps[0]), steps[1..]);
    }
  }
}
