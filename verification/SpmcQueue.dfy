/** The socket work queue of kit_webServer.h: one producer, consumers that claim by compare-and-swap, as a
    transition system over single loads, stores and swaps under sequential consistency. Tickets count claims
    and publications without wrapping; the memory only holds indices modulo the capacity. */
module SpmcQueue {
  import opened Bytes
  import opened Modular

  // ---------------------------------------------------------------- states

  /** Where the producer stands inside `spmcI32_enqueue`. */
  datatype Producer =
    | Idle
    | LoadedTail(item: int, at: nat)   // the head is read next
    | HasRoom(item: int, at: nat)      // the slot is written next
    | Wrote(item: int, at: nat)        // the tail is stored next

  /** Where a consumer stands inside `spmcI32_dequeue`; `seen` is the claim count when the head was loaded. */
  datatype Consumer =
    | Resting
    | LoadedHead(at: nat, seen: nat)   // the tail is read next
    | Trying(at: nat, seen: nat)       // the swap comes next
    | Claimed(at: nat, ticket: nat)    // the slot is read next

  /** A value handed to a caller, with the ticket it was claimed under. */
  datatype Delivery = Delivery(ticket: nat, value: int)

  /** `items`, `head` and `tail` are the queue's memory; `published` and `claims` are history: the items stored
      so far and how many swaps succeeded; `delivered` lists what dequeues returned, oldest first. */
  datatype State = State(
    items: seq<int>,
    head: nat,
    tail: nat,
    producer: Producer,
    consumers: seq<Consumer>,
    published: seq<int>,
    claims: nat,
    delivered: seq<Delivery>)
  {
    function Capacity(): nat {
      |items|
    }
  }

  /** One atomic step of one thread. */
  datatype Action =
    | EnqueueLoadTail(item: int)
    | EnqueueLoadHead
    | EnqueueWrite
    | EnqueueStore
    | DequeueLoadHead(i: nat)
    | DequeueLoadTail(i: nat)
    | DequeueSwap(i: nat)
    | DequeueRead(i: nat)

  function Init(items: seq<int>, consumers: nat): State {
    State(items, 0, 0, Idle, seq(consumers, _ => Resting), [], 0, [])
  }

  function Step(s: State, a: Action): Option<State>
    requires s.Capacity() > 0
  {
    var cap := s.Capacity();
    match a
    case EnqueueLoadTail(item) =>
      if s.producer == Idle then Some(s.(producer := LoadedTail(item, s.tail))) else None
    case EnqueueLoadHead =>
      if !s.producer.LoadedTail? then None
      else if (s.producer.at + 1) % cap == s.head then Some(s.(producer := Idle))
      else Some(s.(producer := HasRoom(s.producer.item, s.producer.at)))
    case EnqueueWrite =>
      if s.producer.HasRoom? && s.producer.at < cap then
        Some(s.(items := s.items[s.producer.at := s.producer.item], producer := Wrote(s.producer.item, s.producer.at)))
      else None
    case EnqueueStore =>
      if s.producer.Wrote? then
        Some(s.(tail := (s.producer.at + 1) % cap, producer := Idle, published := s.published + [s.producer.item]))
      else None
    case DequeueLoadHead(i) =>
      if i < |s.consumers| && s.consumers[i] == Resting then
        Some(s.(consumers := s.consumers[i := LoadedHead(s.head, s.claims)]))
      else None
    case DequeueLoadTail(i) =>
      if i < |s.consumers| && s.consumers[i].LoadedHead? then
        var c := s.consumers[i];
        // equal indices: the dequeue returns false
        Some(s.(consumers := s.consumers[i := if c.at == s.tail then Resting else Trying(c.at, c.seen)]))
      else None
    case DequeueSwap(i) =>
      if i < |s.consumers| && s.consumers[i].Trying? then
        var c := s.consumers[i];
        if s.head == c.at then
          Some(s.(head := (c.at + 1) % cap, claims := s.claims + 1,
                  consumers := s.consumers[i := Claimed(c.at, s.claims)]))
        else
          // a failed swap goes round the loop and loads the head again
          Some(s.(consumers := s.consumers[i := Resting]))
      else None
    case DequeueRead(i) =>
      if i < |s.consumers| && s.consumers[i].Claimed? && s.consumers[i].at < cap then
        var c := s.consumers[i];
        Some(s.(consumers := s.consumers[i := Resting], delivered := s.delivered + [Delivery(c.ticket, s.items[c.at])]))
      else None
  }

  lemma StepKeepsCapacity(s: State, a: Action)
    requires s.Capacity() > 0 && Step(s, a).Some?
    ensures Step(s, a).value.Capacity() == s.Capacity()
    ensures |Step(s, a).value.consumers| == |s.consumers|
  {
  }

  // ---------------------------------------------------------------- timing

  /** A successful swap of consumer `i` comes before a full lap of claims since its head load. */
  predicate TimelySwap(s: State, a: Action) {
    a.DequeueSwap? && a.i < |s.consumers| && s.consumers[a.i].Trying? && s.head == s.consumers[a.i].at ==>
      s.claims < s.consumers[a.i].seen + s.Capacity()
  }

  /** A run: actions taken one after another, every swap in time. */
  function Run(s: State, actions: seq<Action>): Option<State>
    requires s.Capacity() > 0
    decreases |actions|
  {
    if actions == [] then Some(s)
    else
      var t :- Step(s, actions[0]);
      StepKeepsCapacity(s, actions[0]);
      Run(t, actions[1..])
  }

  predicate TimelyRun(s: State, actions: seq<Action>)
    requires s.Capacity() > 0
    decreases |actions|
  {
    actions != [] && Step(s, actions[0]).Some? ==>
      && TimelySwap(s, actions[0])
      && (StepKeepsCapacity(s, actions[0]); TimelyRun(Step(s, actions[0]).value, actions[1..]))
  }

  // ---------------------------------------------------------------- the invariant

  /** Items written so far: those published, and one more between the slot write and the tail store. */
  function Written(s: State): seq<int> {
    if s.producer.Wrote? then s.published + [s.producer.item] else s.published
  }

  /** Indices are tickets modulo the capacity, and never more than capacity minus one items wait. */
  ghost predicate Counters(s: State) {
    && s.Capacity() >= 2
    && s.head == s.claims % s.Capacity()
    && s.tail == |s.published| % s.Capacity()
    && s.claims <= |s.published| <= s.claims + s.Capacity() - 1
  }

  /** A producer past its head check has room left for the item it is about to publish. */
  ghost predicate ProducerOk(s: State) {
    !s.producer.Idle? ==>
      && s.producer.at == s.tail
      && (!s.producer.LoadedTail? ==> |s.published| <= s.claims + s.Capacity() - 2)
  }

  /** The last lap of written items is in the slots. */
  ghost predicate SlotsOk(s: State) {
    forall t: nat :: |Written(s)| - s.Capacity() <= t < |Written(s)| ==> s.items[t % s.Capacity()] == Written(s)[t]
  }

  ghost predicate ConsumerOk(s: State, c: Consumer)
    requires s.Capacity() > 0
  {
    match c
    case Resting => true
    case LoadedHead(at, seen) => at == seen % s.Capacity() && seen <= s.claims
    case Trying(at, seen) => at == seen % s.Capacity() && seen <= s.claims && seen < |s.published|
    case Claimed(at, ticket) => at == ticket % s.Capacity() && ticket < s.claims
  }

  /** Claimed tickets are delivered or in the hands of one consumer, each exactly once. */
  ghost predicate TicketsOk(s: State) {
    && (forall d :: 0 <= d < |s.delivered| ==> s.delivered[d].ticket < s.claims)
    && (forall d, e :: 0 <= d < e < |s.delivered| ==> s.delivered[d].ticket != s.delivered[e].ticket)
    && (forall d, i :: 0 <= d < |s.delivered| && 0 <= i < |s.consumers| && s.consumers[i].Claimed? ==>
          s.delivered[d].ticket != s.consumers[i].ticket)
    && (forall i, j :: 0 <= i < j < |s.consumers| && s.consumers[i].Claimed? && s.consumers[j].Claimed? ==>
          s.consumers[i].ticket != s.consumers[j].ticket)
    && (forall t: nat :: t < s.claims ==> Held(s, t) || Handed(s, t))
  }

  ghost predicate Held(s: State, t: nat) {
    exists i :: 0 <= i < |s.consumers| && s.consumers[i].Claimed? && s.consumers[i].ticket == t
  }

  ghost predicate Handed(s: State, t: nat) {
    Among(s.delivered, t)
  }

  ghost predicate Among(ds: seq<Delivery>, t: nat) {
    exists d :: 0 <= d < |ds| && ds[d].ticket == t
  }

  ghost predicate Inv(s: State) {
    && Counters(s)
    && ProducerOk(s)
    && SlotsOk(s)
    && (forall i :: 0 <= i < |s.consumers| ==> ConsumerOk(s, s.consumers[i]))
    && TicketsOk(s)
  }

  lemma InitInv(items: seq<int>, n: nat)
    requires |items| >= 2
    ensures Inv(Init(items, n))
  {
  }

  // ---------------------------------------------------------------- one step

  /** A successful swap happens while some published item is unclaimed. */
  predicate SwapFindsItem(s: State, a: Action) {
    a.DequeueSwap? && a.i < |s.consumers| && s.consumers[a.i].Trying? && s.head == s.consumers[a.i].at ==>
      s.claims < |s.published|
  }

  /** Within a lap, equal head indices mean equal claim counts, and the item seen before is still unclaimed. */
  lemma TimelySwapFindsItem(s: State, a: Action)
    requires Inv(s) && TimelySwap(s, a)
    ensures SwapFindsItem(s, a)
  {
    if a.DequeueSwap? && a.i < |s.consumers| && s.consumers[a.i].Trying? && s.head == s.consumers[a.i].at {
      var c := s.consumers[a.i];
      assert ConsumerOk(s, c);
      SameIndex(c.seen, s.claims, s.Capacity());
    }
  }

  lemma ProducerStepKeepsInv(s: State, a: Action)
    requires Inv(s) && Step(s, a).Some? && (a.EnqueueLoadTail? || a.EnqueueLoadHead?)
    ensures Inv(Step(s, a).value)
  {
    var t := Step(s, a).value;
    assert Written(t) == Written(s);
    if t.producer.HasRoom? {
      var n := |s.published|;
      NextIndex(n, s.Capacity());
      if n == s.claims + s.Capacity() - 1 {
        StepUp(s.claims, s.Capacity());
        assert false;
      }
    }
    assert forall i :: 0 <= i < |s.consumers| ==> ConsumerOk(s, s.consumers[i]) == ConsumerOk(t, t.consumers[i]);
    TicketsFramed(s, t);
  }

  lemma TicketsFramed(s: State, t: State)
    requires TicketsOk(s) && t.consumers == s.consumers && t.claims == s.claims && t.delivered == s.delivered
    ensures TicketsOk(t)
  {
    assert forall k: nat :: Held(s, k) ==> Held(t, k);
    assert forall k: nat :: Handed(s, k) ==> Handed(t, k);
  }

  /** Writing slot `n mod capacity` replaces the item written one lap ago and no other. */
  lemma WriteKeepsInv(s: State)
    requires Inv(s) && Step(s, EnqueueWrite).Some?
    ensures Inv(Step(s, EnqueueWrite).value)
  {
    hide TicketsOk;
    var t := Step(s, EnqueueWrite).value;
    var cap, n := s.Capacity(), |s.published|;
    assert Written(t) == s.published + [s.producer.item];
    forall k: nat | n + 1 - cap <= k < n + 1
      ensures t.items[k % cap] == Written(t)[k]
    {
      if k < n {
        if k % cap == n % cap {
          SameIndex(k, n, cap);
        }
        assert s.items[k % cap] == Written(s)[k];
      }
    }
    assert forall i :: 0 <= i < |s.consumers| ==> ConsumerOk(s, s.consumers[i]) == ConsumerOk(t, t.consumers[i]);
    TicketsFramed(s, t);
  }

  lemma StoreKeepsInv(s: State)
    requires Inv(s) && Step(s, EnqueueStore).Some?
    ensures Inv(Step(s, EnqueueStore).value)
  {
    hide TicketsOk;
    var t := Step(s, EnqueueStore).value;
    assert Written(t) == Written(s);
    NextIndex(|s.published|, s.Capacity());
    assert forall i :: 0 <= i < |s.consumers| && ConsumerOk(s, s.consumers[i]) ==> ConsumerOk(t, t.consumers[i]);
    TicketsFramed(s, t);
  }

  /** Loads of a consumer touch nothing shared. */
  lemma LoadKeepsInv(s: State, a: Action)
    requires Inv(s) && Step(s, a).Some? && (a.DequeueLoadHead? || a.DequeueLoadTail?)
    ensures Inv(Step(s, a).value)
  {
    hide SlotsOk;
    var t := Step(s, a).value;
    assert Written(t) == Written(s);
    assert SlotsOk(t) by { SlotsFramed(s, t); }
    assert ConsumerOk(s, s.consumers[a.i]);
    forall i | 0 <= i < |t.consumers|
      ensures ConsumerOk(t, t.consumers[i])
    {
      assert i != a.i ==> t.consumers[i] == s.consumers[i] && ConsumerOk(s, s.consumers[i]);
    }
    TicketsKept(s, t, a.i);
  }

  lemma SlotsFramed(s: State, t: State)
    requires SlotsOk(s) && t.items == s.items && Written(t) == Written(s) && s.Capacity() > 0
    ensures SlotsOk(t)
  {
  }

  /** A consumer that holds no ticket before or after leaves the bookkeeping alone. */
  lemma TicketsKept(s: State, t: State, i: nat)
    requires TicketsOk(s) && i < |s.consumers| == |t.consumers|
    requires t.claims == s.claims && t.delivered == s.delivered
    requires forall j :: 0 <= j < |s.consumers| && j != i ==> t.consumers[j] == s.consumers[j]
    requires !s.consumers[i].Claimed? && !t.consumers[i].Claimed?
    ensures TicketsOk(t)
  {
    forall k: nat | k < t.claims
      ensures Held(t, k) || Handed(t, k)
    {
      assert Held(s, k) || Handed(s, k);
      if j :| 0 <= j < |s.consumers| && s.consumers[j].Claimed? && s.consumers[j].ticket == k {
        assert t.consumers[j].Claimed? && t.consumers[j].ticket == k;
      }
    }
  }

  /** A swap keeps the invariant exactly when it fails or finds an unclaimed item. */
  lemma SwapKeepsInv(s: State, i: nat)
    requires Inv(s) && Step(s, DequeueSwap(i)).Some?
    ensures Inv(Step(s, DequeueSwap(i)).value) <==> SwapFindsItem(s, DequeueSwap(i))
  {
    hide SlotsOk, TicketsOk;
    var t := Step(s, DequeueSwap(i)).value;
    assert Written(t) == Written(s);
    SlotsFramed(s, t);
    assert ConsumerOk(s, s.consumers[i]);
    NextIndex(s.claims, s.Capacity());
    forall j | 0 <= j < |t.consumers|
      ensures ConsumerOk(t, t.consumers[j])
    {
      assert j != i ==> t.consumers[j] == s.consumers[j] && ConsumerOk(s, s.consumers[j]);
    }
    if s.head == s.consumers[i].at {
      TicketsGrow(s, t, i);
    } else {
      TicketsKept(s, t, i);
    }
  }

  lemma TicketsGrow(s: State, t: State, i: nat)
    requires TicketsOk(s) && i < |s.consumers| == |t.consumers|
    requires t.claims == s.claims + 1 && t.delivered == s.delivered
    requires forall j :: 0 <= j < |s.consumers| && j != i ==> t.consumers[j] == s.consumers[j]
    requires forall j :: 0 <= j < |s.consumers| && s.consumers[j].Claimed? ==> s.consumers[j].ticket < s.claims
    requires !s.consumers[i].Claimed? && t.consumers[i].Claimed? && t.consumers[i].ticket == s.claims
    ensures TicketsOk(t)
  {
    forall k: nat | k < t.claims
      ensures Held(t, k) || Handed(t, k)
    {
      if k < s.claims {
        assert Held(s, k) || Handed(s, k);
        if j :| 0 <= j < |s.consumers| && s.consumers[j].Claimed? && s.consumers[j].ticket == k {
          assert t.consumers[j].Claimed? && t.consumers[j].ticket == k;
        }
      }
    }
  }

  lemma ReadKeepsInv(s: State, i: nat)
    requires Inv(s) && Step(s, DequeueRead(i)).Some?
    ensures Inv(Step(s, DequeueRead(i)).value)
  {
    hide SlotsOk, TicketsOk;
    var t := Step(s, DequeueRead(i)).value;
    assert Written(t) == Written(s);
    SlotsFramed(s, t);
    assert ConsumerOk(s, s.consumers[i]);
    forall j | 0 <= j < |t.consumers|
      ensures ConsumerOk(t, t.consumers[j])
    {
      assert j != i ==> t.consumers[j] == s.consumers[j] && ConsumerOk(s, s.consumers[j]);
    }
    TicketsHandedOver(s, t, i);
  }

  lemma TicketsHandedOver(s: State, t: State, i: nat)
    requires TicketsOk(s) && i < |s.consumers| == |t.consumers| && t.claims == s.claims
    requires forall j :: 0 <= j < |s.consumers| && j != i ==> t.consumers[j] == s.consumers[j]
    requires s.consumers[i].Claimed? && !t.consumers[i].Claimed? && s.consumers[i].ticket < s.claims
    requires |t.delivered| == |s.delivered| + 1 && t.delivered[..|s.delivered|] == s.delivered
    requires t.delivered[|s.delivered|].ticket == s.consumers[i].ticket
    ensures TicketsOk(t)
  {
    var n := |s.delivered|;
    assert forall d :: 0 <= d < n ==> t.delivered[d] == s.delivered[d];
    forall k: nat | k < t.claims
      ensures Held(t, k) || Handed(t, k)
    {
      assert Held(s, k) || Handed(s, k);
      if k == s.consumers[i].ticket {
        assert t.delivered[n].ticket == k;
      } else if j :| 0 <= j < |s.consumers| && s.consumers[j].Claimed? && s.consumers[j].ticket == k {
        assert t.consumers[j].Claimed? && t.consumers[j].ticket == k;
      } else if d :| 0 <= d < |s.delivered| && s.delivered[d].ticket == k {
        assert t.delivered[d].ticket == k;
      }
    }
  }

  /** Every step of every thread keeps the invariant, but for a swap that succeeds on an empty queue: that one
      breaks it always. */
  lemma StepKeepsInv(s: State, a: Action)
    requires Inv(s) && Step(s, a).Some?
    ensures Inv(Step(s, a).value) <==> SwapFindsItem(s, a)
  {
    hide Step, Inv;
    match a
    case EnqueueLoadTail(_) => ProducerStepKeepsInv(s, a);
    case EnqueueLoadHead => ProducerStepKeepsInv(s, a);
    case EnqueueWrite => WriteKeepsInv(s);
    case EnqueueStore => StoreKeepsInv(s);
    case DequeueLoadHead(_) => LoadKeepsInv(s, a);
    case DequeueLoadTail(_) => LoadKeepsInv(s, a);
    case DequeueSwap(i) => SwapKeepsInv(s, i);
    case DequeueRead(i) => ReadKeepsInv(s, i);
  }
}
