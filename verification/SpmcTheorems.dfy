/** What the queue guarantees over whole runs: with several consumers under a timing condition, with one
    consumer under none. */
module SpmcTheorems {
  import opened Bytes
  import opened Modular
  import opened SpmcQueue

  // ---------------------------------------------------------------- runs, several consumers

  /** Every state a run passes through satisfies the invariant. */
  ghost predicate InvAlong(s: State, actions: seq<Action>)
    requires s.Capacity() > 0
    decreases |actions|
  {
    && Inv(s)
    && (actions != [] && Step(s, actions[0]).Some? ==>
          (StepKeepsCapacity(s, actions[0]); InvAlong(Step(s, actions[0]).value, actions[1..])))
  }

  /** No swap of a run succeeds on an empty queue. */
  predicate SwapsFindItems(s: State, actions: seq<Action>)
    requires s.Capacity() > 0
    decreases |actions|
  {
    actions != [] && Step(s, actions[0]).Some? ==>
      && SwapFindsItem(s, actions[0])
      && (StepKeepsCapacity(s, actions[0]); SwapsFindItems(Step(s, actions[0]).value, actions[1..]))
  }

  /** Over any interleaving of any length: indices, room, slots and tickets stay right exactly as long as no
      swap succeeds on an empty queue. */
  lemma {:induction false} RunSafeExactly(s: State, actions: seq<Action>)
    requires s.Capacity() > 0 && Inv(s)
    ensures InvAlong(s, actions) <==> SwapsFindItems(s, actions)
    decreases |actions|
  {
    hide Step, Inv;
    if actions != [] && Step(s, actions[0]).Some? {
      StepKeepsInv(s, actions[0]);
      StepKeepsCapacity(s, actions[0]);
      if SwapFindsItem(s, actions[0]) {
        RunSafeExactly(Step(s, actions[0]).value, actions[1..]);
      }
    }
  }

  /** Fewer than a lap of claims between a head load and its successful swap is enough, whatever else happens. */
  lemma {:induction false} TimelyRunIsSafe(s: State, actions: seq<Action>)
    requires s.Capacity() > 0 && Inv(s) && TimelyRun(s, actions)
    ensures SwapsFindItems(s, actions)
    ensures Run(s, actions).Some? ==> Inv(Run(s, actions).value)
    decreases |actions|
  {
    hide Step, Inv;
    if actions != [] && Step(s, actions[0]).Some? {
      TimelySwapFindsItem(s, actions[0]);
      StepKeepsInv(s, actions[0]);
      StepKeepsCapacity(s, actions[0]);
      TimelyRunIsSafe(Step(s, actions[0]).value, actions[1..]);
    }
  }

  // ---------------------------------------------------------------- the read after the swap

  /** The slot of a claimed ticket has not been written for a later lap. */
  predicate Intact(s: State, ticket: nat) {
    |Written(s)| <= ticket + s.Capacity()
  }

  /** Until the next ticket is claimed as well, the slot is intact and holds the item published under the ticket:
      the spare place keeps the producer out. */
  lemma IntactUntilNextClaim(s: State, ticket: nat)
    requires Inv(s) && s.claims <= ticket + 1 && ticket < |s.published|
    ensures Intact(s, ticket) && s.items[ticket % s.Capacity()] == s.published[ticket]
  {
    assert s.items[ticket % s.Capacity()] == Written(s)[ticket];
  }

  /** The ticket whose item the slot of `ticket` holds: the last written one with the same index. */
  function Latest(s: State, ticket: nat): (u: nat)
    requires s.Capacity() > 0 && ticket < |Written(s)|
    ensures ticket <= u < |Written(s)|
    decreases |Written(s)| - ticket
  {
    if Intact(s, ticket) then ticket else Latest(s, ticket + s.Capacity())
  }

  lemma {:induction false} LatestIsWritten(s: State, ticket: nat)
    requires s.Capacity() > 0 && ticket < |Written(s)|
    ensures Intact(s, Latest(s, ticket)) && Latest(s, ticket) % s.Capacity() == ticket % s.Capacity()
    ensures Latest(s, ticket) == ticket <==> Intact(s, ticket)
    decreases |Written(s)| - ticket
  {
    if !Intact(s, ticket) {
      StepUp(ticket, s.Capacity());
      LatestIsWritten(s, ticket + s.Capacity());
    }
  }

  /** What a dequeue returns: the item of the last written ticket in that slot, which is its own ticket's item
      exactly while the slot is intact. */
  lemma ReadReturns(s: State, i: nat)
    requires Inv(s) && i < |s.consumers| && s.consumers[i].Claimed?
    ensures var ticket := s.consumers[i].ticket;
            && ticket < |s.published|
            && Step(s, DequeueRead(i)).Some?
            && Step(s, DequeueRead(i)).value.delivered ==
               s.delivered + [Delivery(ticket, Written(s)[Latest(s, ticket)])]
            && (Latest(s, ticket) == ticket <==> Intact(s, ticket))
  {
    var c := s.consumers[i];
    assert ConsumerOk(s, c);
    LatestIsWritten(s, c.ticket);
    var u := Latest(s, c.ticket);
    assert s.items[u % s.Capacity()] == Written(s)[u];
  }

  // ---------------------------------------------------------------- conservation

  predicate ReadInTime(s: State, a: Action) {
    a.DequeueRead? && a.i < |s.consumers| && s.consumers[a.i].Claimed? ==> Intact(s, s.consumers[a.i].ticket)
  }

  predicate ReadsInTime(s: State, actions: seq<Action>)
    requires s.Capacity() > 0
    decreases |actions|
  {
    actions != [] && Step(s, actions[0]).Some? ==>
      && ReadInTime(s, actions[0])
      && (StepKeepsCapacity(s, actions[0]); ReadsInTime(Step(s, actions[0]).value, actions[1..]))
  }

  /** Each delivery carries the item published under its ticket. */
  ghost predicate ValuesOk(s: State) {
    forall d :: 0 <= d < |s.delivered| ==>
      s.delivered[d].ticket < |s.published| && s.delivered[d].value == s.published[s.delivered[d].ticket]
  }

  lemma StepKeepsValues(s: State, a: Action)
    requires Inv(s) && ValuesOk(s) && Step(s, a).Some? && ReadInTime(s, a)
    ensures ValuesOk(Step(s, a).value)
  {
    var t := Step(s, a).value;
    if a.DequeueRead? {
      ReadReturns(s, a.i);
    }
  }

  lemma {:induction false} RunKeepsValues(s: State, actions: seq<Action>)
    requires s.Capacity() > 0 && Inv(s) && ValuesOk(s) && SwapsFindItems(s, actions) && ReadsInTime(s, actions)
    ensures Run(s, actions).Some? ==> Inv(Run(s, actions).value) && ValuesOk(Run(s, actions).value)
    decreases |actions|
  {
    hide Step, Inv, ValuesOk;
    if actions != [] && Step(s, actions[0]).Some? {
      StepKeepsInv(s, actions[0]);
      StepKeepsValues(s, actions[0]);
      StepKeepsCapacity(s, actions[0]);
      RunKeepsValues(Step(s, actions[0]).value, actions[1..]);
    }
  }

  function Values(ds: seq<Delivery>): multiset<int> {
    if ds == [] then multiset{} else Values(ds[..|ds| - 1]) + multiset{ds[|ds| - 1].value}
  }

  lemma {:induction false} ValuesSplit(a: seq<Delivery>, b: seq<Delivery>)
    ensures Values(a + b) == Values(a) + Values(b)
  {
    if b == [] {
      assert a + b == a;
    } else {
      var i := |b| - 1;
      assert (a + b)[..|a + b| - 1] == a + b[..i];
      ValuesSplit(a, b[..i]);
    }
  }

  /** Distinct tickets below `n`, every one of them there, each with its own item. */
  ghost predicate Matching(ds: seq<Delivery>, items: seq<int>, n: nat) {
    && n <= |items|
    && (forall d :: 0 <= d < |ds| ==> ds[d].ticket < n && ds[d].value == items[ds[d].ticket])
    && (forall d, e :: 0 <= d < e < |ds| ==> ds[d].ticket != ds[e].ticket)
    && (forall t: nat :: t < n ==> Among(ds, t))
  }

  function Without(ds: seq<Delivery>, d: nat): seq<Delivery>
    requires d < |ds|
  {
    ds[..d] + ds[d + 1..]
  }

  lemma ValuesWithout(ds: seq<Delivery>, d: nat)
    requires d < |ds|
    ensures Values(ds) == Values(Without(ds, d)) + multiset{ds[d].value}
  {
    hide Values;
    var left, right := ds[..d], ds[d + 1..];
    assert ds == left + [ds[d]] + right;
    ValuesSplit(left + [ds[d]], right);
    ValuesSplit(left, [ds[d]]);
    ValuesSplit(left, right);
    ValuesOne(ds[d]);
  }

  lemma ValuesOne(d: Delivery)
    ensures Values([d]) == multiset{d.value}
  {
    assert [d][..0] == [];
  }

  lemma MatchingWithoutLast(ds: seq<Delivery>, items: seq<int>, n: nat, d: nat)
    requires n > 0 && Matching(ds, items, n) && d < |ds| && ds[d].ticket == n - 1
    ensures Matching(Without(ds, d), items, n - 1)
  {
    var rest := Without(ds, d);
    assert forall e :: 0 <= e < |rest| ==> rest[e] == ds[if e < d then e else e + 1];
    forall t: nat | t < n - 1
      ensures Among(rest, t)
    {
      assert Among(ds, t);
      var e :| 0 <= e < |ds| && ds[e].ticket == t;
      assert rest[if e < d then e else e - 1].ticket == t;
    }
  }

  lemma NothingMatches(ds: seq<Delivery>, items: seq<int>)
    requires Matching(ds, items, 0)
    ensures Values(ds) == multiset(items[..0])
  {
    assert |ds| > 0 ==> ds[0].ticket < 0;
    assert items[..0] == [];
  }

  lemma LastMatch(ds: seq<Delivery>, items: seq<int>, n: nat) returns (d: nat)
    requires n > 0 && Matching(ds, items, n)
    ensures n <= |items| && d < |ds| && ds[d].ticket == n - 1 && ds[d].value == items[n - 1]
  {
    assert Among(ds, n - 1);
    d :| 0 <= d < |ds| && ds[d].ticket == n - 1;
  }

  /** Matching deliveries carry exactly the first n items. */
  lemma {:induction false} OneToOne(ds: seq<Delivery>, items: seq<int>, n: nat)
    requires Matching(ds, items, n)
    ensures Values(ds) == multiset(items[..n])
    decreases n
  {
    hide Without, Values, Matching;
    if n == 0 {
      NothingMatches(ds, items);
    } else {
      var d := LastMatch(ds, items, n);
      MatchingWithoutLast(ds, items, n, d);
      ValuesWithout(ds, d);
      OneToOne(Without(ds, d), items, n - 1);
      assert items[..n] == items[..n - 1] + [items[n - 1]];
    }
  }

  /** Conservation: when no dequeue is between its swap and its read, the values handed out are exactly the
      items claimed, each once, and what is left in the queue is the rest. */
  lemma QuiescentConservation(s: State)
    requires Inv(s) && ValuesOk(s)
    requires forall i :: 0 <= i < |s.consumers| ==> !s.consumers[i].Claimed?
    ensures Values(s.delivered) + multiset(s.published[s.claims..]) == multiset(s.published)
  {
    hide SlotsOk, ProducerOk;
    forall t: nat | t < s.claims
      ensures Among(s.delivered, t)
    {
      assert Held(s, t) || Handed(s, t);
    }
    OneToOne(s.delivered, s.published, s.claims);
    assert s.published == s.published[..s.claims] + s.published[s.claims..];
  }

  /** From the empty queue, through any interleaving in which swaps and reads are in time. */
  lemma TimelyRunsConserve(items: seq<int>, n: nat, actions: seq<Action>)
    requires |items| >= 2 && TimelyRun(Init(items, n), actions) && ReadsInTime(Init(items, n), actions)
    requires Run(Init(items, n), actions).Some?
    requires forall i :: 0 <= i < |Run(Init(items, n), actions).value.consumers| ==>
               !Run(Init(items, n), actions).value.consumers[i].Claimed?
    ensures var t := Run(Init(items, n), actions).value;
            && t.claims <= |t.published| <= t.claims + |items| - 1
            && Values(t.delivered) + multiset(t.published[t.claims..]) == multiset(t.published)
  {
    hide Step, Inv, SwapsFindItems, TimelyRun, ReadsInTime, Run;
    var s := Init(items, n);
    InitInv(items, n);
    TimelyRunIsSafe(s, actions);
    RunKeepsValues(s, actions);
    RunKeepsCapacity(s, actions);
    QuiescentConservation(Run(s, actions).value);
    InvBounds(Run(s, actions).value);
  }

  lemma InvBounds(s: State)
    requires Inv(s)
    ensures s.claims <= |s.published| <= s.claims + s.Capacity() - 1
  {
  }

  lemma {:induction false} RunKeepsCapacity(s: State, actions: seq<Action>)
    requires s.Capacity() > 0
    ensures Run(s, actions).Some? ==> Run(s, actions).value.Capacity() == s.Capacity()
    decreases |actions|
  {
    hide Step;
    if actions != [] && Step(s, actions[0]).Some? {
      StepKeepsCapacity(s, actions[0]);
      RunKeepsCapacity(Step(s, actions[0]).value, actions[1..]);
    }
  }

  // ---------------------------------------------------------------- the timing conditions are needed

  /** One more action at the end of a run. */
  lemma {:induction false} RunMore(s: State, actions: seq<Action>, t: State, a: Action)
    requires s.Capacity() > 0 && Run(s, actions) == Some(t) && t.Capacity() > 0
    ensures Run(s, actions + [a]) == Step(t, a)
    decreases |actions|
  {
    hide Step;
    if actions == [] {
      assert actions + [a] == [a] && [a][1..] == [];
      if Step(s, a).Some? {
        StepKeepsCapacity(s, a);
      }
    } else {
      StepKeepsCapacity(s, actions[0]);
      assert (actions + [a])[1..] == actions[1..] + [a];
      RunMore(Step(s, actions[0]).value, actions[1..], t, a);
    }
  }

  lemma Then(s: State, actions: seq<Action>, t: State, a: Action) returns (longer: seq<Action>, u: State)
    requires s.Capacity() > 0 && Run(s, actions) == Some(t) && t.Capacity() > 0 && Step(t, a).Some?
    ensures longer == actions + [a] && Run(s, longer) == Some(u) && u == Step(t, a).value
    ensures u.Capacity() == t.Capacity()
  {
    RunMore(s, actions, t, a);
    StepKeepsCapacity(t, a);
    longer := actions + [a];
    u := Step(t, a).value;
  }

  lemma ThenEnqueue(s: State, actions: seq<Action>, t: State, item: int) returns (longer: seq<Action>, u: State)
    requires s.Capacity() > 0 && Run(s, actions) == Some(t) && t.Capacity() > 0
    requires t.producer == Idle && t.tail < t.Capacity() && (t.tail + 1) % t.Capacity() != t.head
    ensures Run(s, longer) == Some(u) && u.Capacity() == t.Capacity()
    ensures u == t.(items := t.items[t.tail := item], tail := (t.tail + 1) % t.Capacity(),
                    published := t.published + [item])
  {
    longer, u := Then(s, actions, t, EnqueueLoadTail(item));
    longer, u := Then(s, longer, u, EnqueueLoadHead);
    longer, u := Then(s, longer, u, EnqueueWrite);
    longer, u := Then(s, longer, u, EnqueueStore);
  }

  lemma ThenClaim(s: State, actions: seq<Action>, t: State, i: nat) returns (longer: seq<Action>, u: State)
    requires s.Capacity() > 0 && Run(s, actions) == Some(t) && t.Capacity() > 0
    requires i < |t.consumers| && t.consumers[i] == Resting && t.head != t.tail
    ensures Run(s, longer) == Some(u) && u.Capacity() == t.Capacity()
    ensures u == t.(head := (t.head + 1) % t.Capacity(), claims := t.claims + 1,
                    consumers := t.consumers[i := Claimed(t.head, t.claims)])
  {
    longer, u := Then(s, actions, t, DequeueLoadHead(i));
    longer, u := Then(s, longer, u, DequeueLoadTail(i));
    longer, u := Then(s, longer, u, DequeueSwap(i));
  }

  lemma ThenRead(s: State, actions: seq<Action>, t: State, i: nat) returns (longer: seq<Action>, u: State)
    requires s.Capacity() > 0 && Run(s, actions) == Some(t) && t.Capacity() > 0
    requires i < |t.consumers| && t.consumers[i].Claimed? && t.consumers[i].at < t.Capacity()
    ensures Run(s, longer) == Some(u) && u.Capacity() == t.Capacity()
    ensures u == t.(consumers := t.consumers[i := Resting],
                    delivered := t.delivered + [Delivery(t.consumers[i].ticket, t.items[t.consumers[i].at])])
  {
    longer, u := Then(s, actions, t, DequeueRead(i));
  }

  /** A consumer gets as far as the swap, and stops there. */
  lemma ThenPrepare(s: State, actions: seq<Action>, t: State, i: nat) returns (longer: seq<Action>, u: State)
    requires s.Capacity() > 0 && Run(s, actions) == Some(t) && t.Capacity() > 0
    requires i < |t.consumers| && t.consumers[i] == Resting && t.head != t.tail
    ensures Run(s, longer) == Some(u) && u.Capacity() == t.Capacity()
    ensures u == t.(consumers := t.consumers[i := Trying(t.head, t.claims)])
  {
    longer, u := Then(s, actions, t, DequeueLoadHead(i));
    longer, u := Then(s, longer, u, DequeueLoadTail(i));
  }

  lemma ThenSwap(s: State, actions: seq<Action>, t: State, i: nat) returns (longer: seq<Action>, u: State)
    requires s.Capacity() > 0 && Run(s, actions) == Some(t) && t.Capacity() > 0
    requires i < |t.consumers| && t.consumers[i].Trying? && t.consumers[i].at == t.head
    ensures Run(s, longer) == Some(u) && u.Capacity() == t.Capacity()
    ensures u == t.(head := (t.head + 1) % t.Capacity(), claims := t.claims + 1,
                    consumers := t.consumers[i := Claimed(t.head, t.claims)])
  {
    longer, u := Then(s, actions, t, DequeueSwap(i));
  }

  /** Without timely reads an item is lost and another handed out twice: with two slots, a consumer that claims
      the first ticket and reads only after the third item was stored returns the third item. */
  lemma LateReadDuplicates() returns (actions: seq<Action>, u: State)
    ensures Run(Init([0, 0], 2), actions) == Some(u)
    ensures u.published == [10, 20, 30] && u.claims == 3
    ensures u.delivered == [Delivery(1, 20), Delivery(0, 30), Delivery(2, 30)]
  {
    hide Step;
    var s := Init([0, 0], 2);
    actions, u := ThenEnqueue(s, [], s, 10);
    actions, u := ThenClaim(s, actions, u, 0);
    actions, u := ThenEnqueue(s, actions, u, 20);
    actions, u := ThenClaim(s, actions, u, 1);
    actions, u := ThenRead(s, actions, u, 1);
    actions, u := ThenEnqueue(s, actions, u, 30);
    actions, u := ThenRead(s, actions, u, 0);
    actions, u := ThenClaim(s, actions, u, 0);
    actions, u := ThenRead(s, actions, u, 0);
  }

  /** Without timely swaps the head overtakes the tail: a swap that was prepared a lap ago succeeds on the empty
      queue, claims a ticket nobody published and returns an item already returned. */
  lemma LateSwapOvertakes() returns (actions: seq<Action>, u: State)
    ensures Run(Init([0, 0], 2), actions) == Some(u)
    ensures u.published == [10, 20] && u.claims == 3
    ensures u.delivered == [Delivery(0, 10), Delivery(1, 20), Delivery(2, 10)]
  {
    hide Step;
    var s := Init([0, 0], 2);
    actions, u := ThenEnqueue(s, [], s, 10);
    actions, u := ThenPrepare(s, actions, u, 0);
    actions, u := ThenClaim(s, actions, u, 1);
    actions, u := ThenRead(s, actions, u, 1);
    actions, u := ThenEnqueue(s, actions, u, 20);
    actions, u := ThenClaim(s, actions, u, 1);
    actions, u := ThenRead(s, actions, u, 1);
    actions, u := ThenSwap(s, actions, u, 0);
    actions, u := ThenRead(s, actions, u, 0);
  }
}
