/** The event bus with each call taken as one step: the ring in memory refines a bounded FIFO queue. */
module EventBus {
  import opened Words
  import opened Events
  import opened Arithmetic
  import opened Options

  /** The return codes 0, -EINVAL, -ENOBUFS and -ENOMEM. */
  datatype Status = Accepted | Invalid | NoBuffers | NoMemory

  /** The globals of the bus as a value; no slots means no ring is allocated. */
  datatype Ring = Ring(slots: seq<Event>, head: Word, tail: Word)

  function PublishRing(r: Ring, ev: Event): (Ring, Status)
    requires |r.slots| < WORD
  {
    if r.slots == [] then (r, Invalid)
    else if Diff(r.head, r.tail) >= |r.slots| then (r, NoBuffers)
    else (r.(slots := r.slots[r.head % |r.slots| := ev], head := Inc(r.head)), Accepted)
  }

  function ConsumeRing(r: Ring): (Ring, Option<Event>)
    requires |r.slots| < WORD
  {
    if r.slots == [] || r.tail >= r.head then (r, None)
    else (r.(tail := Inc(r.tail)), Some(r.slots[r.tail % |r.slots|]))
  }

  // ---------------------------------------------------------------- the implementation

  class Bus {
    var ring: array?<Event>
    var capacity: Word
    var head: Word
    var tail: Word

    ghost predicate Valid()
      reads this
    {
      ring != null ==> capacity == ring.Length > 0
    }

    ghost function View(): (r: Ring)
      requires Valid()
      reads this, ring
      ensures |r.slots| == if ring == null then 0 else capacity
    {
      Ring(if ring == null then [] else ring[..], head, tail)
    }

    constructor ()
      ensures Valid() && View() == Ring([], 0, 0)
    {
      ring, capacity, head, tail := null, 0, 0, 0;
    }

    /** Capacity 0 changes nothing; when calloc fails the bus is left without a ring. */
    method Init(n: Word, allocates: bool) returns (status: Status)
      requires Valid()
      modifies this
      ensures Valid() && status == if n == 0 then Invalid else if allocates then Accepted else NoMemory
      ensures status == Accepted ==> View() == Ring(seq(n, _ => ZeroEvent()), 0, 0) && fresh(ring)
      ensures status == Invalid ==> View() == old(View())
      ensures status == NoMemory ==> View() == old(View()).(slots := [])
    {
      if n == 0 {
        return Invalid;
      }
      if !allocates {
        ring := null;
        return NoMemory;
      }
      ring := new Event[n](_ => ZeroEvent());
      capacity, head, tail := n, 0, 0;
      assert ring[..] == seq(n, _ => ZeroEvent());
      return Accepted;
    }

    /** Drops the ring; the counters keep their values. */
    method Shutdown()
      requires Valid()
      modifies this
      ensures Valid() && View() == old(View()).(slots := [])
    {
      ring, capacity := null, 0;
    }

    method Publish(ev: Option<Event>) returns (status: Status)
      requires Valid()
      modifies this`head, ring
      ensures Valid() && ring == old(ring)
      ensures ev.None? ==> status == Invalid && View() == old(View())
      ensures ev.Some? ==> (View(), status) == PublishRing(old(View()), ev.value)
    {
      if ring == null || ev.None? {
        return Invalid;
      }
      var h, t := head, tail;
      if Diff(h, t) >= capacity {
        return NoBuffers;
      }
      var idx := head;
      head := Inc(head);
      var pos := idx % capacity;
      ring[pos] := ev.value;
      return Accepted;
    }

    /** hasOut is false when the caller passes no place to copy the event to. The result is -1, 0 (empty) or 1. */
    method Consume(hasOut: bool) returns (rc: int, out: Option<Event>)
      requires Valid()
      modifies this`tail
      ensures Valid() && rc in {-1, 0, 1}
      ensures rc == -1 <==> ring == null || !hasOut
      ensures rc == -1 ==> View() == old(View())
      ensures rc != -1 ==> (View(), out) == ConsumeRing(old(View()))
      ensures rc == 1 <==> out.Some?
    {
      if ring == null || !hasOut {
        return -1, None;
      }
      var t := tail;
      tail := Inc(tail);
      var h := head;
      if t >= h {
        tail := Dec(tail);
        DecInc(t);
        return 0, None;
      }
      var pos := t % capacity;
      return 1, Some(ring[pos]);
    }

    /** While the ring represents a queue this is its length. */
    method Pending() returns (n: Word)
      requires Valid()
      ensures n == Diff(head, tail)
      ensures forall q :: Represents(View(), q) ==> n == |q|
    {
      var h, t := head, tail;
      return Diff(h, t);
    }
  }

  /** A failed consume's add and subtract cancel, also across the wrap. */
  lemma DecInc(w: Word)
    ensures Dec(Inc(w)) == w
  {
  }

  // ---------------------------------------------------------------- refinement of a bounded queue

  /** The ring holds exactly the events of q, oldest first. */
  ghost predicate Represents(r: Ring, q: seq<Event>) {
    && 0 < |r.slots| < WORD
    && |q| <= |r.slots|
    && r.head == r.tail + |q|
    && forall k | 0 <= k < |q| :: r.slots[(r.tail + k) % |r.slots|] == q[k]
  }

  /** Publish fails exactly on a full queue; otherwise it appends, and disturbs no queued event. */
  lemma PublishRefines(r: Ring, q: seq<Event>, ev: Event)
    requires Represents(r, q) && (|q| < |r.slots| ==> r.head + 1 < WORD)
    ensures var (r', status) := PublishRing(r, ev);
            if |q| == |r.slots| then r' == r && status == NoBuffers
            else status == Accepted && Represents(r', q + [ev])
  {
    var cap := |r.slots|;
    var (r', status) := PublishRing(r, ev);
    if |q| < cap {
      forall k | 0 <= k < |q| + 1
        ensures r'.slots[(r'.tail + k) % cap] == (q + [ev])[k]
      {
        if k < |q| {
          WindowDistinct(r.tail + k, r.head, cap);
          assert r.slots[(r.tail + k) % cap] == q[k];
        }
      }
    }
  }

  /** Consume returns the oldest event, and nothing exactly on an empty queue. */
  lemma ConsumeRefines(r: Ring, q: seq<Event>)
    requires Represents(r, q)
    ensures var (r', out) := ConsumeRing(r);
            if q == [] then r' == r && out == None
            else out == Some(q[0]) && Represents(r', q[1..])
  {
    var cap := |r.slots|;
    var (r', out) := ConsumeRing(r);
    if q != [] {
      assert r.slots[(r.tail + 0) % cap] == q[0];
      forall k | 0 <= k < |q[1..]|
        ensures r'.slots[(r'.tail + k) % cap] == q[1..][k]
      {
        assert r'.tail + k == r.tail + (k + 1);
        assert r.slots[(r.tail + (k + 1)) % cap] == q[k + 1];
      }
    }
  }

  datatype Call = PublishCall(ev: Event) | ConsumeCall
  datatype Reply = Published(status: Status) | Consumed(out: Option<Event>)

  function RingReplies(r: Ring, calls: seq<Call>): seq<Reply>
    requires |r.slots| < WORD
    decreases |calls|
  {
    if calls == [] then []
    else match calls[0]
      case PublishCall(ev) =>
        var (r', status) := PublishRing(r, ev);
        [Published(status)] + RingReplies(r', calls[1..])
      case ConsumeCall =>
        var (r', out) := ConsumeRing(r);
        [Consumed(out)] + RingReplies(r', calls[1..])
  }

  /** The specification: a queue of at most capacity events. */
  function QueueReplies(q: seq<Event>, capacity: nat, calls: seq<Call>): seq<Reply>
    decreases |calls|
  {
    if calls == [] then []
    else match calls[0]
      case PublishCall(ev) =>
        if |q| >= capacity then [Published(NoBuffers)] + QueueReplies(q, capacity, calls[1..])
        else [Published(Accepted)] + QueueReplies(q + [ev], capacity, calls[1..])
      case ConsumeCall =>
        if q == [] then [Consumed(None)] + QueueReplies(q, capacity, calls[1..])
        else [Consumed(Some(q[0]))] + QueueReplies(q[1..], capacity, calls[1..])
  }

  /** How many publishes the queue accepts before the last consume; each of them advances head by one. */
  function Early(n: nat, capacity: nat, calls: seq<Call>): nat
    decreases |calls|
  {
    if ConsumeCall !in calls then 0
    else match calls[0]
      case PublishCall(_) =>
        if n >= capacity then Early(n, capacity, calls[1..]) else 1 + Early(n + 1, capacity, calls[1..])
      case ConsumeCall => Early(if n == 0 then 0 else n - 1, capacity, calls[1..])
  }

  /** Head has wrapped and tail has not: consume takes the ring for empty. */
  predicate Stuck(r: Ring) {
    0 < |r.slots| < WORD && r.head < r.tail && Diff(r.head, r.tail) <= |r.slots|
  }

  /** A ring that is stuck stays so: it accepts events until it is full, and no call ever returns one. */
  lemma {:induction false} StuckAfterWrap(r: Ring, calls: seq<Call>)
    requires Stuck(r)
    ensures |RingReplies(r, calls)| == |calls|
    ensures forall k | 0 <= k < |calls| && calls[k].ConsumeCall? :: RingReplies(r, calls)[k] == Consumed(None)
    decreases |calls|
  {
    if calls != [] {
      var next := match calls[0] case PublishCall(ev) => PublishRing(r, ev).0 case ConsumeCall => ConsumeRing(r).0;
      StuckAfterWrap(next, calls[1..]);
      assert RingReplies(r, calls)[1..] == RingReplies(next, calls[1..]);
    }
  }

  /** A queue that holds an event returns one at its first consume. */
  lemma {:induction false} QueueReturns(q: seq<Event>, capacity: nat, calls: seq<Call>) returns (k: nat)
    requires q != [] && ConsumeCall in calls
    ensures k < |calls| && calls[k] == ConsumeCall
    ensures k < |QueueReplies(q, capacity, calls)| && QueueReplies(q, capacity, calls)[k] == Consumed(Some(q[0]))
    decreases |calls|
  {
    match calls[0]
    case PublishCall(ev) =>
      k := QueueReturns(if |q| >= capacity then q else q + [ev], capacity, calls[1..]);
      k := k + 1;
    case ConsumeCall =>
      k := 0;
  }

  /** Publishes see only how full the ring is, across the wrap too. */
  lemma {:induction false} PublishesAgree(r: Ring, q: seq<Event>, calls: seq<Call>)
    requires 0 < |r.slots| < WORD && Diff(r.head, r.tail) == |q| <= |r.slots| && ConsumeCall !in calls
    ensures RingReplies(r, calls) == QueueReplies(q, |r.slots|, calls)
    decreases |calls|
  {
    if calls != [] {
      var ev := calls[0].ev;
      PublishesAgree(PublishRing(r, ev).0, if |q| == |r.slots| then q else q + [ev], calls[1..]);
    }
  }

  /** A publish at the last index before the wrap, with a consume to follow, is where the ring leaves the queue. */
  lemma WrapDiverges(r: Ring, q: seq<Event>, calls: seq<Call>)
    requires Represents(r, q) && |q| < |r.slots| && r.head + 1 == WORD
    requires ConsumeCall in calls && calls[0].PublishCall?
    ensures RingReplies(r, calls) != QueueReplies(q, |r.slots|, calls)
  {
    var ev, rest := calls[0].ev, calls[1..];
    var (r', status) := PublishRing(r, ev);
    StuckAfterWrap(r', rest);
    var k := QueueReturns(q + [ev], |r.slots|, rest);
    assert RingReplies(r, calls)[k + 1] == RingReplies(r', rest)[k] == Consumed(None);
    assert QueueReplies(q, |r.slots|, calls)[k + 1] == QueueReplies(q + [ev], |r.slots|, rest)[k];
  }

  /**
   A sequence of calls gets from the ring the replies a bounded FIFO queue would give exactly when head does
   not wrap before the last consume.
   */
  lemma {:induction false} RingRefinesQueue(r: Ring, q: seq<Event>, calls: seq<Call>)
    requires Represents(r, q)
    ensures RingReplies(r, calls) == QueueReplies(q, |r.slots|, calls) <==>
              r.head + Early(|q|, |r.slots|, calls) < WORD
    decreases |calls|
  {
    if ConsumeCall !in calls {
      PublishesAgree(r, q, calls);
    } else if calls[0].ConsumeCall? {
      ConsumeStep(r, q, calls);
      RingRefinesQueue(ConsumeRing(r).0, if q == [] then q else q[1..], calls[1..]);
    } else if |q| < |r.slots| && r.head + 1 == WORD {
      WrapDiverges(r, q, calls);
    } else {
      PublishStep(r, q, calls);
      RingRefinesQueue(PublishRing(r, calls[0].ev).0, if |q| == |r.slots| then q else q + [calls[0].ev], calls[1..]);
    }
  }

  /** A publish gets the same reply from both, and what follows decides. */
  lemma PublishStep(r: Ring, q: seq<Event>, calls: seq<Call>)
    requires Represents(r, q) && (|q| < |r.slots| ==> r.head + 1 < WORD) && calls != [] && calls[0].PublishCall?
    ensures var r', q' := PublishRing(r, calls[0].ev).0, if |q| == |r.slots| then q else q + [calls[0].ev];
            && Represents(r', q') && |r'.slots| == |r.slots|
            && (RingReplies(r, calls) == QueueReplies(q, |r.slots|, calls) <==>
                RingReplies(r', calls[1..]) == QueueReplies(q', |r.slots|, calls[1..]))
            && (ConsumeCall in calls ==>
                r.head + Early(|q|, |r.slots|, calls) == r'.head + Early(|q'|, |r.slots|, calls[1..]))
  {
    var ev, rest := calls[0].ev, calls[1..];
    PublishRefines(r, q, ev);
    var (r', status) := PublishRing(r, ev);
    var q' := if |q| == |r.slots| then q else q + [ev];
    assert RingReplies(r, calls)[1..] == RingReplies(r', rest);
    assert QueueReplies(q, |r.slots|, calls)[1..] == QueueReplies(q', |r.slots|, rest);
  }

  lemma ConsumeStep(r: Ring, q: seq<Event>, calls: seq<Call>)
    requires Represents(r, q) && calls != [] && calls[0].ConsumeCall?
    ensures var r', q' := ConsumeRing(r).0, if q == [] then q else q[1..];
            && Represents(r', q') && |r'.slots| == |r.slots|
            && (RingReplies(r, calls) == QueueReplies(q, |r.slots|, calls) <==>
                RingReplies(r', calls[1..]) == QueueReplies(q', |r.slots|, calls[1..]))
            && (ConsumeCall in calls ==>
                r.head + Early(|q|, |r.slots|, calls) == r'.head + Early(|q'|, |r.slots|, calls[1..]))
  {
    var rest := calls[1..];
    ConsumeRefines(r, q);
    var (r', out) := ConsumeRing(r);
    var q' := if q == [] then q else q[1..];
    assert RingReplies(r, calls)[1..] == RingReplies(r', rest);
    assert QueueReplies(q, |r.slots|, calls)[1..] == QueueReplies(q', |r.slots|, rest);
  }

  function FreshRing(capacity: Word): Ring {
    Ring(seq(capacity, _ => ZeroEvent()), 0, 0)
  }

  /** The same from a freshly initialised bus, for every capacity. */
  lemma FreshRingIsQueue(capacity: Word, calls: seq<Call>)
    requires capacity > 0
    ensures RingReplies(FreshRing(capacity), calls) == QueueReplies([], capacity, calls) <==>
              Early(0, capacity, calls) < WORD
  {
    RingRefinesQueue(FreshRing(capacity), [], calls);
  }

  // ---------------------------------------------------------------- at the wrap of the counters

  /** As Represents, for counters that have counted past the wrap; exact for capacities that divide it. */
  ghost predicate RepresentsWrapped(r: Ring, q: seq<Event>) {
    && 0 < |r.slots| < WORD
    && |q| <= |r.slots|
    && r.head == (r.tail + |q|) % WORD
    && forall k | 0 <= k < |q| :: r.slots[(r.tail + k) % WORD % |r.slots|] == q[k]
  }

  /**
   Consume answers as the queue would exactly when the queue is empty or head has not wrapped past tail:
   with tail about to wrap and head past it, events are pending but none is returned.
   */
  lemma ConsumeAtWrap(r: Ring, q: seq<Event>)
    requires RepresentsWrapped(r, q)
    ensures ConsumeRing(r).1 == (if q == [] then None else Some(q[0])) <==> q == [] || r.tail < r.head
  {
    if q != [] {
      assert r.slots[(r.tail + 0) % WORD % |r.slots|] == q[0];
    }
  }

  function RingAfter(r: Ring, calls: seq<Call>): (r': Ring)
    requires |r.slots| < WORD
    ensures |r'.slots| == |r.slots|
    decreases |calls|
  {
    if calls == [] then r
    else match calls[0]
      case PublishCall(ev) => RingAfter(PublishRing(r, ev).0, calls[1..])
      case ConsumeCall => RingAfter(ConsumeRing(r).0, calls[1..])
  }

  /** n times a publish and a consume. */
  function Rounds(n: nat, ev: Event): seq<Call> {
    if n == 0 then [] else [PublishCall(ev), ConsumeCall] + Rounds(n - 1, ev)
  }

  function Round(r: Ring, ev: Event): (r': Ring)
    requires |r.slots| < WORD
    ensures |r'.slots| == |r.slots|
  {
    ConsumeRing(PublishRing(r, ev).0).0
  }

  /** A round on an empty ring moves both counters on by one. */
  lemma RoundAdvances(r: Ring, ev: Event)
    requires Represents(r, []) && r.head + 1 < WORD
    ensures Represents(Round(r, ev), []) && Round(r, ev).head == r.head + 1
  {
    PublishRefines(r, [], ev);
    ConsumeRefines(PublishRing(r, ev).0, [] + [ev]);
  }

  lemma RoundFirst(r: Ring, ev: Event, rest: seq<Call>)
    requires |r.slots| < WORD
    ensures RingAfter(r, [PublishCall(ev), ConsumeCall] + rest) == RingAfter(Round(r, ev), rest)
  {
    var calls := [PublishCall(ev), ConsumeCall] + rest;
    assert calls[1..][0] == ConsumeCall && calls[1..][1..] == rest;
  }

  lemma {:induction false} RoundsAdvance(r: Ring, n: nat, ev: Event)
    requires Represents(r, []) && r.head + n < WORD
    ensures var e := RingAfter(r, Rounds(n, ev)); Represents(e, []) && e.head == r.head + n && |e.slots| == |r.slots|
    decreases n
  {
    if n > 0 {
      RoundAdvances(r, ev);
      RoundFirst(r, ev, Rounds(n - 1, ev));
      RoundsAdvance(Round(r, ev), n - 1, ev);
    }
  }

  /**
   Every bus gets there: after 2^64 - 1 rounds from initialisation and one more publish, an event is pending
   across the wrap, and consume does not return it.
   */
  lemma ConsumeMissesAcrossWrap(capacity: Word, ev: Event)
    requires capacity > 0
    ensures var r := PublishRing(RingAfter(FreshRing(capacity), Rounds(WORD - 1, ev)), ev).0;
            && r.head == 0 && r.tail == WORD - 1 && Stuck(r)
            && RepresentsWrapped(r, [ev]) && ConsumeRing(r) == (r, None)
  {
    RoundsAdvance(FreshRing(capacity), WORD - 1, ev);
  }
}
