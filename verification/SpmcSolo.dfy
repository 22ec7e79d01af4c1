/** Calls of the queue that run to their end without another step in between, and a lost swap. */
module SpmcSolo {
  import opened Bytes
  import opened Modular
  import opened SpmcQueue
  import opened SpmcTheorems

  /** The indices tell a full queue and an empty one. */
  lemma FullAndEmpty(s: State)
    requires Inv(s)
    ensures (s.tail + 1) % s.Capacity() == s.head <==> |s.published| == s.claims + s.Capacity() - 1
    ensures s.head == s.tail <==> s.claims == |s.published|
  {
    hide SlotsOk, TicketsOk, ProducerOk;
    var cap, n := s.Capacity(), |s.published|;
    NextIndex(n, cap);
    StepUp(s.claims, cap);
    if s.head == s.tail {
      SameIndex(s.claims, n, cap);
    }
    if (n + 1) % cap == s.claims % cap && n + 1 < s.claims + cap {
      SameIndex(s.claims, n + 1, cap);
    }
  }

  lemma RunFirst(s: State, a: Action, rest: seq<Action>, t: State)
    requires s.Capacity() > 0 && Step(s, a) == Some(t)
    ensures t.Capacity() == s.Capacity()
    ensures Run(s, [a] + rest) == Run(t, rest)
  {
    hide Step;
    StepKeepsCapacity(s, a);
    assert ([a] + rest)[1..] == rest;
  }

  lemma RunEnd(s: State)
    requires s.Capacity() > 0
    ensures Run(s, []) == Some(s)
  {
  }

  /** An enqueue that is not interrupted: on a full queue it leaves everything as it was, otherwise the item is stored
      behind the others. */
  lemma EnqueueAlone(s: State, item: int)
    requires s.Capacity() > 0 && Inv(s) && s.producer == Idle
    ensures |s.published| == s.claims + s.Capacity() - 1 ==>
              Run(s, [EnqueueLoadTail(item)] + ([EnqueueLoadHead] + [])) == Some(s)
    ensures |s.published| < s.claims + s.Capacity() - 1 ==>
              Run(s, [EnqueueLoadTail(item)] + ([EnqueueLoadHead] + ([EnqueueWrite] + ([EnqueueStore] + [])))) ==
              Some(s.(items := s.items[s.tail := item], tail := (s.tail + 1) % s.Capacity(),
                      published := s.published + [item]))
  {
    hide Run, SlotsOk, TicketsOk;
    FullAndEmpty(s);
    var s1 := s.(producer := LoadedTail(item, s.tail));
    RunEnd(s);
    RunFirst(s1, EnqueueLoadHead, [], Step(s1, EnqueueLoadHead).value);
    RunFirst(s, EnqueueLoadTail(item), [EnqueueLoadHead] + [], s1);
    if |s.published| < s.claims + s.Capacity() - 1 {
      var s2 := s1.(producer := HasRoom(item, s.tail));
      var s3 := s2.(items := s.items[s.tail := item], producer := Wrote(item, s.tail));
      var s4 := s3.(tail := (s.tail + 1) % s.Capacity(), producer := Idle, published := s.published + [item]);
      RunEnd(s4);
      RunFirst(s3, EnqueueStore, [], s4);
      RunFirst(s2, EnqueueWrite, [EnqueueStore] + [], s3);
      RunFirst(s1, EnqueueLoadHead, [EnqueueWrite] + ([EnqueueStore] + []), s2);
      RunFirst(s, EnqueueLoadTail(item), [EnqueueLoadHead] + ([EnqueueWrite] + ([EnqueueStore] + [])), s1);
    }
  }

  lemma Twice(cs: seq<Consumer>, i: nat, a: Consumer, b: Consumer)
    requires i < |cs|
    ensures cs[i := a][i := b] == cs[i := b] && (cs[i] == b ==> cs[i := b] == cs)
  {
  }

  /** A dequeue that is not interrupted: on an empty queue it leaves everything as it was, otherwise it returns the
      oldest item. */
  lemma DequeueAlone(s: State, i: nat)
    requires s.Capacity() > 0 && Inv(s) && i < |s.consumers| && s.consumers[i] == Resting
    ensures s.claims == |s.published| ==>
              Run(s, [DequeueLoadHead(i)] + ([DequeueLoadTail(i)] + [])) == Some(s)
    ensures s.claims < |s.published| ==>
              Run(s, [DequeueLoadHead(i)] + ([DequeueLoadTail(i)] + ([DequeueSwap(i)] + ([DequeueRead(i)] + [])))) ==
              Some(s.(head := (s.head + 1) % s.Capacity(), claims := s.claims + 1,
                      delivered := s.delivered + [Delivery(s.claims, s.published[s.claims])]))
  {
    FullAndEmpty(s);
    if s.claims == |s.published| {
      DequeueNothing(s, i);
    } else {
      IntactUntilNextClaim(s, s.claims);
      DequeueOldest(s, i);
    }
  }

  lemma DequeueNothing(s: State, i: nat)
    requires s.Capacity() > 0 && i < |s.consumers| && s.consumers[i] == Resting && s.head == s.tail
    ensures Run(s, [DequeueLoadHead(i)] + ([DequeueLoadTail(i)] + [])) == Some(s)
  {
    hide Run;
    var c := LoadedHead(s.head, s.claims);
    var s1 := s.(consumers := s.consumers[i := c]);
    Twice(s.consumers, i, c, Resting);
    RunEnd(s);
    RunFirst(s1, DequeueLoadTail(i), [], s);
    RunFirst(s, DequeueLoadHead(i), [DequeueLoadTail(i)] + [], s1);
  }

  lemma DequeueOldest(s: State, i: nat)
    requires s.Capacity() > 0 && i < |s.consumers| && s.consumers[i] == Resting && s.head != s.tail
    requires s.head < s.Capacity() && s.claims < |s.published| && s.items[s.head] == s.published[s.claims]
    ensures Run(s, [DequeueLoadHead(i)] + ([DequeueLoadTail(i)] + ([DequeueSwap(i)] + ([DequeueRead(i)] + [])))) ==
            Some(s.(head := (s.head + 1) % s.Capacity(), claims := s.claims + 1,
                    delivered := s.delivered + [Delivery(s.claims, s.published[s.claims])]))
  {
    hide Run;
    var cs := s.consumers;
    var s1 := s.(consumers := cs[i := LoadedHead(s.head, s.claims)]);
    var s2 := s.(consumers := cs[i := Trying(s.head, s.claims)]);
    var s3 := s.(head := (s.head + 1) % s.Capacity(), claims := s.claims + 1,
                 consumers := cs[i := Claimed(s.head, s.claims)]);
    var s4 := s3.(consumers := cs, delivered := s.delivered + [Delivery(s.claims, s.published[s.claims])]);
    Twice(cs, i, LoadedHead(s.head, s.claims), Trying(s.head, s.claims));
    Twice(cs, i, Trying(s.head, s.claims), Claimed(s.head, s.claims));
    Twice(cs, i, Claimed(s.head, s.claims), Resting);
    RunEnd(s4);
    RunFirst(s3, DequeueRead(i), [], s4);
    RunFirst(s2, DequeueSwap(i), [DequeueRead(i)] + [], s3);
    RunFirst(s1, DequeueLoadTail(i), [DequeueSwap(i)] + ([DequeueRead(i)] + []), s2);
    RunFirst(s, DequeueLoadHead(i), [DequeueLoadTail(i)] + ([DequeueSwap(i)] + ([DequeueRead(i)] + [])), s1);
  }

  /** Of two consumers about to swap the same head one gets the item; the other loads the head again and gets the one
      behind it. */
  lemma LoserClaimsNext(s: State, i: nat, j: nat)
    requires s.Capacity() > 0 && Inv(s) && s.claims + 2 <= |s.published|
    requires i < |s.consumers| && j < |s.consumers| && i != j
    requires s.consumers[i].Trying? && s.consumers[i].at == s.head
    requires s.consumers[j].Trying? && s.consumers[j].at == s.head
    ensures var next := (s.head + 1) % s.Capacity();
            Run(s, [DequeueSwap(i)] + ([DequeueSwap(j)] + ([DequeueLoadHead(j)] + ([DequeueLoadTail(j)] +
                   ([DequeueSwap(j)] + []))))) ==
            Some(s.(head := (next + 1) % s.Capacity(), claims := s.claims + 2,
                    consumers := s.consumers[i := Claimed(s.head, s.claims)][j := Claimed(next, s.claims + 1)]))
  {
    hide Run, Inv;
    NextsDiffer(s);
    var next, cs := (s.head + 1) % s.Capacity(), s.consumers[i := Claimed(s.head, s.claims)];
    var s1 := s.(head := next, claims := s.claims + 1, consumers := cs);
    var s2 := s1.(consumers := cs[j := Resting]);
    var s3 := s1.(consumers := cs[j := LoadedHead(next, s.claims + 1)]);
    var s4 := s1.(consumers := cs[j := Trying(next, s.claims + 1)]);
    var s5 := s1.(head := (next + 1) % s.Capacity(), claims := s.claims + 2,
                  consumers := cs[j := Claimed(next, s.claims + 1)]);
    Twice(cs, j, Resting, LoadedHead(next, s.claims + 1));
    Twice(cs, j, LoadedHead(next, s.claims + 1), Trying(next, s.claims + 1));
    Twice(cs, j, Trying(next, s.claims + 1), Claimed(next, s.claims + 1));
    RunEnd(s5);
    RunFirst(s4, DequeueSwap(j), [], s5);
    RunFirst(s3, DequeueLoadTail(j), [DequeueSwap(j)] + [], s4);
    RunFirst(s2, DequeueLoadHead(j), [DequeueLoadTail(j)] + ([DequeueSwap(j)] + []), s3);
    RunFirst(s1, DequeueSwap(j), [DequeueLoadHead(j)] + ([DequeueLoadTail(j)] + ([DequeueSwap(j)] + [])), s2);
    RunFirst(s, DequeueSwap(i),
             [DequeueSwap(j)] + ([DequeueLoadHead(j)] + ([DequeueLoadTail(j)] + ([DequeueSwap(j)] + []))), s1);
  }

  /** With two items waiting, neither the head nor the index behind it is the tail. */
  lemma NextsDiffer(s: State)
    requires Inv(s) && s.claims + 2 <= |s.published|
    ensures s.Capacity() > 0 && (s.head + 1) % s.Capacity() != s.tail && (s.head + 1) % s.Capacity() != s.head
  {
    hide SlotsOk, TicketsOk, ProducerOk;
    var cap := s.Capacity();
    NextIndex(s.claims, cap);
    if (s.claims + 1) % cap == |s.published| % cap {
      SameIndex(s.claims + 1, |s.published|, cap);
    }
    if (s.claims + 1) % cap == s.claims % cap {
      SameIndex(s.claims, s.claims + 1, cap);
    }
  }
}
