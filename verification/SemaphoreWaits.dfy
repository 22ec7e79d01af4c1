/** What a single wait does: when it succeeds, when it may give up, and that a post wakes it. */
module SemaphoreWaits {
  import opened Bytes
  import opened Semaphore

  // ---------------------------------------------------------------- giving up needs a time-out

  /** A waiter that will give up at its next look. */
  predicate Expired(t: Thread) {
    (t.Awake? || t.Checking?) && t.expired
  }

  /** A wait that has been called and has not taken a unit, and has not run out of time. */
  predicate Waiting(t: Thread) {
    t.WantsWait? || t.Asleep? || ((t.Awake? || t.Checking?) && !t.expired)
  }

  /** Whether the wait was called with a time limit. */
  predicate Limited(t: Thread) {
    !t.Outside? && !t.WantsPost? && !t.Signalling? && !t.Leaving? && t.timed
  }

  /** A thread's time runs out in one way only: in its own time-out, while it sleeps in a wait with a time limit. */
  lemma ExpiresExactly(s: State, a: Action, i: nat)
    requires Step(s, a).Some? && i < |s.threads| && !Expired(s.threads[i])
    ensures |Step(s, a).value.threads| == |s.threads|
    ensures Expired(Step(s, a).value.threads[i]) <==> a == TimeOut(i)
    ensures a == TimeOut(i) ==> s.threads[i].Asleep? && Limited(s.threads[i])
  {
  }

  /** What a look at the count does: with time left it takes a unit if there is one and goes to sleep if not; with
      the time run out it leaves everything as it is and goes. */
  lemma LookExactly(s: State, i: nat)
    requires i < |s.threads| && s.threads[i].Checking?
    ensures Step(s, Test(i)).Some?
    ensures var t := Step(s, Test(i)).value;
            && (!Expired(s.threads[i]) && s.count > 0 ==>
                  t.count == s.count - 1 && t.taken == s.taken + 1 && t.threads[i] == Leaving && t.mutex == s.mutex)
            && (!Expired(s.threads[i]) && s.count <= 0 ==>
                  t.count == s.count && t.taken == s.taken && t.threads[i].Asleep? && t.mutex.None?)
            && (Expired(s.threads[i]) ==>
                  t.count == s.count && t.taken == s.taken && t.threads[i] == Leaving && t.mutex == s.mutex)
  {
  }

  /** Units a thread takes along a run. */
  function TakenBy(s: State, actions: seq<Action>, i: nat): nat
    decreases |actions|
  {
    if actions == [] || Step(s, actions[0]).None? then 0
    else
      var t := Step(s, actions[0]).value;
      (if actions[0] == Test(i) && t.taken != s.taken then 1 else 0) + TakenBy(t, actions[1..], i)
  }

  /** No further call of the thread. */
  predicate NoCall(actions: seq<Action>, i: nat) {
    forall k :: 0 <= k < |actions| ==> !((actions[k].CallPost? || actions[k].CallWait?) && actions[k].i == i)
  }

  predicate NoTimeOut(actions: seq<Action>, i: nat) {
    forall k :: 0 <= k < |actions| ==> actions[k] != TimeOut(i)
  }

  lemma LeavingStep(s: State, a: Action, i: nat)
    requires Step(s, a).Some? && i < |s.threads| && (s.threads[i] == Leaving || s.threads[i] == Outside)
    requires !((a.CallPost? || a.CallWait?) && a.i == i)
    ensures var t := Step(s, a).value;
            && i < |t.threads| && (t.threads[i] == Leaving || t.threads[i] == Outside) && a != Test(i)
  {
  }

  lemma WaitingStep(s: State, a: Action, i: nat)
    requires Step(s, a).Some? && i < |s.threads| && Waiting(s.threads[i]) && a != TimeOut(i)
    ensures var t := Step(s, a).value;
            && i < |t.threads|
            && (if a == Test(i) && t.taken != s.taken then t.threads[i] == Leaving else Waiting(t.threads[i]))
  {
  }

  lemma {:induction false} LeftTakesNothing(s: State, actions: seq<Action>, i: nat)
    requires i < |s.threads| && (s.threads[i] == Leaving || s.threads[i] == Outside)
    requires NoCall(actions, i) && Run(s, actions).Some?
    ensures var t := Run(s, actions).value;
            && TakenBy(s, actions, i) == 0
            && i < |t.threads| && (t.threads[i] == Leaving || t.threads[i] == Outside)
    decreases |actions|
  {
    hide Step;
    if actions != [] {
      LeavingStep(s, actions[0], i);
      LeftTakesNothing(Step(s, actions[0]).value, actions[1..], i);
    }
  }

  /** A wait without a time-out never leaves without a unit: whatever the other threads do, it is still waiting and has
      taken nothing, or it has left with exactly one. */
  lemma {:induction false} WaitTakesOne(s: State, actions: seq<Action>, i: nat)
    requires i < |s.threads| && Waiting(s.threads[i])
    requires NoCall(actions, i) && NoTimeOut(actions, i) && Run(s, actions).Some?
    ensures var t := Run(s, actions).value;
            && i < |t.threads|
            && (Waiting(t.threads[i]) || t.threads[i] == Leaving || t.threads[i] == Outside)
            && TakenBy(s, actions, i) == if Waiting(t.threads[i]) then 0 else 1
    decreases |actions|
  {
    hide Step;
    if actions != [] {
      var a, t := actions[0], Step(s, actions[0]).value;
      WaitingStep(s, a, i);
      if a == Test(i) && t.taken != s.taken {
        LeftTakesNothing(t, actions[1..], i);
      } else {
        WaitTakesOne(t, actions[1..], i);
      }
    }
  }

  lemma LimitedStep(s: State, a: Action, i: nat)
    requires Step(s, a).Some? && i < |s.threads| && Waiting(s.threads[i]) && !Limited(s.threads[i])
    ensures a != TimeOut(i)
    ensures var t := Step(s, a).value; i < |t.threads| && !Limited(t.threads[i])
  {
  }

  /** A wait without a time limit cannot time out. */
  lemma {:induction false} UnlimitedWaitTakesOne(s: State, actions: seq<Action>, i: nat)
    requires i < |s.threads| && Waiting(s.threads[i]) && !Limited(s.threads[i])
    requires NoCall(actions, i) && Run(s, actions).Some?
    ensures var t := Run(s, actions).value;
            && i < |t.threads|
            && (Waiting(t.threads[i]) || t.threads[i] == Leaving || t.threads[i] == Outside)
            && TakenBy(s, actions, i) == if Waiting(t.threads[i]) then 0 else 1
    decreases |actions|
  {
    hide Step;
    if actions != [] {
      var a, t := actions[0], Step(s, actions[0]).value;
      LimitedStep(s, a, i);
      WaitingStep(s, a, i);
      if a == Test(i) && t.taken != s.taken {
        LeftTakesNothing(t, actions[1..], i);
      } else {
        UnlimitedWaitTakesOne(t, actions[1..], i);
      }
    }
  }

  // ---------------------------------------------------------------- a wait alone, and a post that wakes it

  lemma Twice(ts: seq<Thread>, i: nat, t: Thread, u: Thread)
    requires i < |ts|
    ensures ts[i := t][i := u] == ts[i := u]
    ensures ts[i] == u ==> ts[i := u] == ts
  {
  }

  lemma RunOne(s: State, a: Action, rest: seq<Action>)
    requires Step(s, a).Some?
    ensures Run(s, [a] + rest) == Run(Step(s, a).value, rest)
  {
    assert ([a] + rest)[1..] == rest;
  }

  /** With the mutex free and a unit there a wait takes it at once, with a time limit or without. */
  lemma WaitFindsUnit(s: State, i: nat, timed: bool)
    requires i < |s.threads| && s.threads[i] == Outside && s.mutex.None? && s.count > 0
    ensures Run(s, [CallWait(i, timed)] + ([Lock(i)] + ([Test(i)] + ([Unlock(i)] + []))))
         == Some(s.(count := s.count - 1, taken := s.taken + 1))
  {
    hide Run;
    var ts := s.threads;
    var s1 := s.(threads := ts[i := WantsWait(timed)]);
    Twice(ts, i, WantsWait(timed), Checking(timed, false));
    var s2 := s.(mutex := Some(i), threads := ts[i := Checking(timed, false)]);
    Twice(ts, i, Checking(timed, false), Leaving);
    var s3 := s2.(count := s.count - 1, taken := s.taken + 1, threads := ts[i := Leaving]);
    Twice(ts, i, Leaving, Outside);
    RunOne(s, CallWait(i, timed), [Lock(i)] + ([Test(i)] + ([Unlock(i)] + [])));
    assert Step(s, CallWait(i, timed)) == Some(s1);
    RunOne(s1, Lock(i), [Test(i)] + ([Unlock(i)] + []));
    assert Step(s1, Lock(i)) == Some(s2);
    RunOne(s2, Test(i), [Unlock(i)] + []);
    assert Step(s2, Test(i)) == Some(s3);
    RunOne(s3, Unlock(i), []);
    EmptyRun(Step(s3, Unlock(i)).value);
  }

  lemma EmptyRun(s: State)
    ensures Run(s, []) == Some(s)
  {
  }

  /** A post of one unit wakes a sleeper, which takes the unit: afterwards both threads are outside and the count is as
      it was. */
  lemma PostWakes(s: State, i: nat, j: nat)
    requires i < |s.threads| && j < |s.threads| && i != j && s.threads[i].Asleep? && s.threads[j] == Outside
    requires s.mutex.None? && 0 <= s.count < I32_MAX
    ensures Run(s, [CallPost(j, 1)] + ([Lock(j)] + ([Signal(j, Some(i))] + ([Add(j)] + ([Unlock(j)] + ([Lock(i)] +
                   ([Test(i)] + ([Unlock(i)] + []))))))))
         == Some(s.(posted := s.posted + 1, taken := s.taken + 1, threads := s.threads[i := Outside]))
  {
    hide Run, Step;
    var ts, timed := s.threads, s.threads[i].timed;
    var woken := Awake(timed, false);
    var s5 := s.(posted := s.posted + 1, count := s.count + 1, threads := ts[i := woken]);
    PostDone(s, i, j);
    WokenLeaves(s5, i);
    Twice(ts, i, woken, Outside);
    var front := [CallPost(j, 1)] + ([Lock(j)] + ([Signal(j, Some(i))] + ([Add(j)] + ([Unlock(j)] + []))));
    var back := [Lock(i)] + ([Test(i)] + ([Unlock(i)] + []));
    RunAppend(s, front, back);
    assert front + back == [CallPost(j, 1)] + ([Lock(j)] + ([Signal(j, Some(i))] + ([Add(j)] + ([Unlock(j)] + back))));
  }

  lemma PostDone(s: State, i: nat, j: nat)
    requires i < |s.threads| && j < |s.threads| && i != j && s.threads[i].Asleep? && s.threads[j] == Outside
    requires s.mutex.None? && 0 <= s.count < I32_MAX
    ensures Run(s, [CallPost(j, 1)] + ([Lock(j)] + ([Signal(j, Some(i))] + ([Add(j)] + ([Unlock(j)] + [])))))
         == Some(s.(posted := s.posted + 1, count := s.count + 1,
                    threads := s.threads[i := Awake(s.threads[i].timed, false)]))
  {
    hide Run;
    var ts, woken := s.threads, Awake(s.threads[i].timed, false);
    var s1 := s.(threads := ts[j := WantsPost(1)]);
    var s2 := s.(mutex := Some(j), threads := ts[j := Signalling(1, 0)]);
    var s3 := s.(mutex := Some(j), threads := ts[i := woken][j := Signalling(1, 1)]);
    var s4 := s.(mutex := Some(j), count := s.count + 1, posted := s.posted + 1,
                 threads := ts[i := woken][j := Leaving]);
    Twice(ts, j, WantsPost(1), Signalling(1, 0));
    assert ts[j := Signalling(1, 0)][i := woken][j := Signalling(1, 1)] == ts[i := woken][j := Signalling(1, 1)];
    Twice(ts[i := woken], j, Signalling(1, 1), Leaving);
    Twice(ts[i := woken], j, Leaving, Outside);
    var r4 := [Unlock(j)] + [];
    var r3 := [Add(j)] + r4;
    var r2 := [Signal(j, Some(i))] + r3;
    RunOne(s, CallPost(j, 1), [Lock(j)] + r2);
    assert Step(s, CallPost(j, 1)) == Some(s1);
    RunOne(s1, Lock(j), r2);
    assert Step(s1, Lock(j)) == Some(s2);
    RunOne(s2, Signal(j, Some(i)), r3);
    assert Step(s2, Signal(j, Some(i))) == Some(s3);
    RunOne(s3, Add(j), r4);
    assert Step(s3, Add(j)) == Some(s4);
    RunOne(s4, Unlock(j), []);
    EmptyRun(Step(s4, Unlock(j)).value);
  }

  lemma WokenLeaves(s: State, i: nat)
    requires i < |s.threads| && s.threads[i].Awake? && !s.threads[i].expired && s.mutex.None? && s.count > 0
    ensures Run(s, [Lock(i)] + ([Test(i)] + ([Unlock(i)] + [])))
         == Some(s.(count := s.count - 1, taken := s.taken + 1, threads := s.threads[i := Outside]))
  {
    hide Run;
    var ts, timed := s.threads, s.threads[i].timed;
    var s1 := s.(mutex := Some(i), threads := ts[i := Checking(timed, false)]);
    var s2 := s1.(count := s.count - 1, taken := s.taken + 1, threads := ts[i := Leaving]);
    Twice(ts, i, Checking(timed, false), Leaving);
    Twice(ts, i, Leaving, Outside);
    RunOne(s, Lock(i), [Test(i)] + ([Unlock(i)] + []));
    assert Step(s, Lock(i)) == Some(s1);
    RunOne(s1, Test(i), [Unlock(i)] + []);
    assert Step(s1, Test(i)) == Some(s2);
    RunOne(s2, Unlock(i), []);
    EmptyRun(Step(s2, Unlock(i)).value);
  }
}
