/** With a single consumer the queue is a bounded first-in first-out queue, for every interleaving and with no
    timing assumption: the spare slot protects the read that follows the swap even when the producer's head
    load is stale. */
module SpmcFifo {
  import opened Bytes
  import opened Modular
  import opened SpmcQueue
  import opened SpmcTheorems

  // ---------------------------------------------------------------- the specification

  /** What callers see: puts and takes that succeed, and those refused. */
  datatype Event = Put(item: int) | PutRefused | Take(item: int) | TakeRefused

  /** A first-in first-out queue of at most `bound` items, refusing only when full or empty. */
  function Fifo(bound: nat, q: seq<int>, e: Event): Option<seq<int>> {
    match e
    case Put(item) => if |q| < bound then Some(q + [item]) else None
    case PutRefused => if |q| == bound then Some(q) else None
    case Take(item) => if q != [] && q[0] == item then Some(q[1..]) else None
    case TakeRefused => if q == [] then Some(q) else None
  }

  function FifoRun(bound: nat, q: seq<int>, events: seq<Event>): Option<seq<int>>
    decreases |events|
  {
    if events == [] then Some(q)
    else
      var r :- Fifo(bound, q, events[0]);
      FifoRun(bound, r, events[1..])
  }

  // ---------------------------------------------------------------- the refinement

  /** The waiting items. */
  function Queue(s: State): seq<int>
    requires s.claims <= |s.published|
  {
    s.published[s.claims..]
  }

  /** The step at which a call takes effect: the tail store, the head load that finds no room, the swap, the tail
      load that finds nothing. The item of a take is the one the later read will return. */
  function EventOf(s: State, a: Action): seq<Event>
    requires s.Capacity() > 0
  {
    match a
    case EnqueueStore => if s.producer.Wrote? then [Put(s.producer.item)] else []
    case EnqueueLoadHead =>
      if s.producer.LoadedTail? && (s.producer.at + 1) % s.Capacity() == s.head then [PutRefused] else []
    case DequeueLoadTail(i) =>
      if i < |s.consumers| && s.consumers[i].LoadedHead? && s.consumers[i].at == s.tail then [TakeRefused] else []
    case DequeueSwap(i) =>
      if i < |s.consumers| && s.consumers[i].Trying? && s.consumers[i].at == s.head && s.claims < |s.published| then
        [Take(s.published[s.claims])]
      else []
    case _ => []
  }

  function Events(s: State, actions: seq<Action>): seq<Event>
    requires s.Capacity() > 0
    decreases |actions|
  {
    if actions == [] || Step(s, actions[0]).None? then []
    else StepKeepsCapacity(s, actions[0]); EventOf(s, actions[0]) + Events(Step(s, actions[0]).value, actions[1..])
  }

  /** Takes that have been read back. */
  function Done(s: State): int
    requires |s.consumers| == 1
  {
    if s.consumers[0].Claimed? then s.claims - 1 else s.claims
  }

  /** Nobody else claims: what the consumer saw is still so, and deliveries are the items in order. */
  ghost predicate Sole(s: State) {
    && Inv(s)
    && |s.consumers| == 1
    && (match s.consumers[0]
        case Resting => true
        case LoadedHead(_, seen) => seen == s.claims
        case Trying(_, seen) => seen == s.claims
        case Claimed(_, ticket) => ticket + 1 == s.claims)
    && 0 <= Done(s) == |s.delivered| <= |s.published|
    && forall k :: 0 <= k < |s.delivered| ==> s.delivered[k] == Delivery(k, s.published[k])
  }

  lemma SoleStepInv(s: State, a: Action)
    requires Sole(s) && Step(s, a).Some?
    ensures Inv(Step(s, a).value)
  {
    assert SwapFindsItem(s, a) by {
      if a.DequeueSwap? && a.i < |s.consumers| && s.consumers[a.i].Trying? {
        assert a.i == 0 && ConsumerOk(s, s.consumers[0]);
      }
    }
    StepKeepsInv(s, a);
  }

  lemma SoleStepDeliveries(s: State, a: Action)
    requires s.Capacity() > 0 && Sole(s) && Step(s, a).Some?
    ensures Sole(Step(s, a).value)
  {
    hide Inv;
    SoleStepInv(s, a);
    SoleBounds(s);
    SoleBounds(Step(s, a).value);
    if a.DequeueRead? {
      SoleRead(s);
    }
  }

  lemma SoleRead(s: State)
    requires s.Capacity() > 0 && Sole(s) && Step(s, DequeueRead(0)).Some?
    ensures var k := |s.delivered|;
            && k < |s.published|
            && Step(s, DequeueRead(0)).value.delivered == s.delivered + [Delivery(k, s.published[k])]
  {
    hide Step;
    assert s.consumers[0].Claimed? by { ReadNeedsClaim(s); }
    IntactUntilNextClaim(s, s.consumers[0].ticket);
    ReadReturns(s, 0);
    WrittenPrefix(s);
  }

  lemma ReadNeedsClaim(s: State)
    requires s.Capacity() > 0 && Step(s, DequeueRead(0)).Some?
    ensures |s.consumers| > 0 && s.consumers[0].Claimed?
  {
  }

  lemma WrittenPrefix(s: State)
    ensures forall k :: 0 <= k < |s.published| ==> Written(s)[k] == s.published[k]
  {
  }

  lemma SoleBounds(s: State)
    requires Inv(s)
    ensures s.Capacity() >= 2 && s.claims <= |s.published| <= s.claims + s.Capacity() - 1
    ensures s.head == s.claims % s.Capacity() && s.tail == |s.published| % s.Capacity()
  {
  }

  /** One step either changes nothing a caller can see or is one step of the specification. */
  lemma SoleStepIsFifo(s: State, a: Action)
    requires s.Capacity() > 0 && s.claims <= |s.published| && Sole(s) && Step(s, a).Some?
    ensures var t := Step(s, a).value;
            && t.claims <= |t.published|
            && FifoRun(s.Capacity() - 1, Queue(s), EventOf(s, a)) == Some(Queue(t))
  {
    hide SlotsOk, TicketsOk;
    var t := Step(s, a).value;
    var cap := s.Capacity();
    SoleStepInv(s, a);
    SoleBounds(s);
    SoleBounds(t);
    match a
    case EnqueueStore =>
      assert t.published[t.claims..] == s.published[s.claims..] + [s.producer.item];
    case EnqueueLoadHead =>
      // no room: the next tail index is the head index, so a full lap separates them
      NextIndex(|s.published|, cap);
      StepUp(s.claims, cap);
      if t.producer.Idle? {
        SameIndexAcrossLap(s.claims, |s.published| + 1, cap);
      }
    case DequeueLoadTail(i) =>
      if t.consumers[0].Resting? {
        SameIndex(s.claims, |s.published|, cap);
      }
    case DequeueSwap(i) =>
      assert ConsumerOk(s, s.consumers[0]);
    case _ =>
  }

  lemma SameIndexAcrossLap(a: nat, b: nat, c: nat)
    requires c > 0 && a < b <= a + c && a % c == b % c
    ensures b == a + c
  {
    if b < a + c {
      SameIndex(a, b, c);
    }
  }

  lemma {:induction false} FifoRunAppend(bound: nat, q: seq<int>, a: seq<Event>, b: seq<Event>)
    requires FifoRun(bound, q, a).Some?
    ensures FifoRun(bound, q, a + b) == FifoRun(bound, FifoRun(bound, q, a).value, b)
    decreases |a|
  {
    if a == [] {
      assert a + b == b;
    } else {
      assert (a + b)[1..] == a[1..] + b;
      FifoRunAppend(bound, Fifo(bound, q, a[0]).value, a[1..], b);
    }
  }

  lemma {:induction false} SoleRunIsFifo(s: State, actions: seq<Action>)
    requires s.Capacity() > 0 && s.claims <= |s.published| && Sole(s) && Run(s, actions).Some?
    ensures var t := Run(s, actions).value;
            && Sole(t) && t.claims <= |t.published|
            && FifoRun(s.Capacity() - 1, Queue(s), Events(s, actions)) == Some(Queue(t))
    decreases |actions|
  {
    hide Step, Sole, EventOf, FifoRun;
    if actions == [] {
      EmptyRun(s.Capacity() - 1, Queue(s));
    } else {
      var a := actions[0];
      var t := Step(s, a).value;
      StepKeepsCapacity(s, a);
      SoleStepDeliveries(s, a);
      SoleStepIsFifo(s, a);
      SoleRunIsFifo(t, actions[1..]);
      FifoRunAppend(s.Capacity() - 1, Queue(s), EventOf(s, a), Events(t, actions[1..]));
    }
  }

  lemma EmptyRun(bound: nat, q: seq<int>)
    ensures FifoRun(bound, q, []) == Some(q)
  {
  }

  /** Every run from the empty queue with one consumer is a run of the bounded queue of capacity minus one; what
      the consumer has been handed is the published items in order, without gap, loss or repetition. */
  lemma SingleConsumerIsFifo(items: seq<int>, actions: seq<Action>)
    requires |items| >= 2 && Run(Init(items, 1), actions).Some?
    ensures var t := Run(Init(items, 1), actions).value;
            && t.claims <= |t.published|
            && FifoRun(|items| - 1, [], Events(Init(items, 1), actions)) == Some(Queue(t))
            && |t.delivered| <= t.claims <= |t.delivered| + 1
            && forall k :: 0 <= k < |t.delivered| ==> t.delivered[k] == Delivery(k, t.published[k])
  {
    hide Step, Run, Events, FifoRun;
    var s := Init(items, 1);
    InitInv(items, 1);
    assert Queue(s) == [];
    SoleRunIsFifo(s, actions);
  }
}
