/** The counting semaphore of base.c over a mutex and a condition variable, as a transition system: threads
    post and wait, a signal wakes one sleeper if there is one, sleepers may also wake for no reason or time out,
    and a woken thread must take the mutex again before it looks at the count. */
module Semaphore {
  import opened Bytes

  datatype Thread =
    | Outside
    | WantsPost(n: nat)                    // before the lock of a post
    | Signalling(n: nat, sent: nat)        // holds the mutex, `sent` of `n` signals sent
    | WantsWait(timed: bool)               // before the lock of a wait
    | Checking(timed: bool, expired: bool) // holds the mutex, at the loop test
    | Asleep(timed: bool)                  // inside the condition wait, mutex released
    | Awake(timed: bool, expired: bool)    // woken or timed out, mutex not yet taken again
    | Leaving                              // holds the mutex, unlock is next

  /** `count` is the 32-bit field; `posted` and `taken` are history: units posted, waits that succeeded. */
  datatype State = State(count: int, mutex: Option<nat>, threads: seq<Thread>, posted: nat, taken: nat)

  datatype Action =
    | CallPost(i: nat, n: nat)
    | CallWait(i: nat, timed: bool)
    | Lock(i: nat)
    | Signal(i: nat, woken: Option<nat>)
    | Add(i: nat)
    | Test(i: nat)
    | Unlock(i: nat)
    | WakeSpuriously(i: nat)
    | TimeOut(i: nat)

  const I32_MAX := 0x7FFF_FFFF

  /** Two's-complement truncation to 32 bits. */
  function ToI32(x: int): int {
    var r := x % U32_LIMIT;
    if r > I32_MAX then r - U32_LIMIT else r
  }

  function Init(threads: nat): State {
    State(0, None, seq(threads, _ => Outside), 0, 0)
  }

  predicate SomeAsleep(ts: seq<Thread>) {
    exists i :: 0 <= i < |ts| && ts[i].Asleep?
  }

  function Set(s: State, i: nat, t: Thread): State
    requires i < |s.threads|
  {
    s.(threads := s.threads[i := t])
  }

  function Step(s: State, a: Action): Option<State> {
    if a.i >= |s.threads| then None
    else
      var t := s.threads[a.i];
      match a
      case CallPost(i, n) => if t == Outside then Some(Set(s, i, WantsPost(n))) else None
      case CallWait(i, timed) => if t == Outside then Some(Set(s, i, WantsWait(timed))) else None
      case Lock(i) =>
        if s.mutex.Some? then None
        else if t.WantsPost? then Some(Set(s.(mutex := Some(i)), i, Signalling(t.n, 0)))
        else if t.WantsWait? then Some(Set(s.(mutex := Some(i)), i, Checking(t.timed, false)))
        else if t.Awake? then Some(Set(s.(mutex := Some(i)), i, Checking(t.timed, t.expired)))
        else None
      case Signal(i, woken) =>
        if !t.Signalling? || t.sent >= t.n then None
        else if woken.None? then
          if SomeAsleep(s.threads) then None else Some(Set(s, i, Signalling(t.n, t.sent + 1)))
        else if woken.value < |s.threads| && s.threads[woken.value].Asleep? then
          Some(Set(Set(s, woken.value, Awake(s.threads[woken.value].timed, false)), i, Signalling(t.n, t.sent + 1)))
        else None
      case Add(i) =>
        if t.Signalling? && t.sent == t.n then
          Some(Set(s.(count := ToI32(s.count + t.n), posted := s.posted + t.n), i, Leaving))
        else None
      case Test(i) =>
        if !t.Checking? then None
        else if !t.expired && 0 >= s.count then Some(Set(s.(mutex := None), i, Asleep(t.timed)))
        else if !t.expired then Some(Set(s.(count := s.count - 1, taken := s.taken + 1), i, Leaving))
        else Some(Set(s, i, Leaving))
      case Unlock(i) => if t.Leaving? then Some(Set(s.(mutex := None), i, Outside)) else None
      case WakeSpuriously(i) => if t.Asleep? then Some(Set(s, i, Awake(t.timed, false))) else None
      case TimeOut(i) => if t.Asleep? && t.timed then Some(Set(s, i, Awake(t.timed, true))) else None
  }

  // ---------------------------------------------------------------- counting threads

  /** A waiter that will look at the count: woken, or already holding the mutex at the test. */
  predicate WillLook(t: Thread) {
    (t.Awake? && !t.expired) || (t.Checking? && !t.expired)
  }

  function Lookers(ts: seq<Thread>): nat {
    if ts == [] then 0 else Lookers(ts[..|ts| - 1]) + if WillLook(ts[|ts| - 1]) then 1 else 0
  }

  lemma {:induction false} LookersUpdate(ts: seq<Thread>, i: nat, t: Thread)
    requires i < |ts|
    ensures Lookers(ts[i := t]) == Lookers(ts) - (if WillLook(ts[i]) then 1 else 0) + (if WillLook(t) then 1 else 0)
  {
    var k := |ts| - 1;
    if i == k {
      assert ts[i := t][..k] == ts[..k];
    } else {
      assert ts[i := t][..k] == ts[..k][i := t];
      LookersUpdate(ts[..k], i, t);
    }
  }

  // ---------------------------------------------------------------- the invariant

  predicate HoldsMutex(t: Thread) {
    t.Signalling? || t.Checking? || t.Leaving?
  }

  ghost predicate Exclusion(s: State) {
    && (s.mutex.Some? ==> s.mutex.value < |s.threads|)
    && forall i :: 0 <= i < |s.threads| ==> (HoldsMutex(s.threads[i]) <==> s.mutex == Some(i))
  }

  /** Signals already sent by the post in progress, whose units are not counted yet. */
  function Pending(s: State): nat {
    if s.mutex.Some? && s.mutex.value < |s.threads| && s.threads[s.mutex.value].Signalling? then
      s.threads[s.mutex.value].sent
    else 0
  }

  ghost predicate Inv(s: State) {
    && Exclusion(s)
    && 0 <= s.count <= I32_MAX
    && s.posted == s.count + s.taken
    && (SomeAsleep(s.threads) ==> s.count + Pending(s) <= Lookers(s.threads))
    && forall i :: 0 <= i < |s.threads| && s.threads[i].Signalling? ==> s.threads[i].sent <= s.threads[i].n
  }

  /** The addition of a post stays inside 32 bits. */
  predicate Fits(s: State, a: Action) {
    a.Add? && a.i < |s.threads| && s.threads[a.i].Signalling? && s.threads[a.i].sent == s.threads[a.i].n ==>
      s.count + s.threads[a.i].n <= I32_MAX
  }

  lemma InitInv(n: nat)
    ensures Inv(Init(n))
  {
  }

  /** Replacing one thread that neither held the mutex before nor holds it after, and was not asleep unless it
      leaves sleep. */
  lemma Quiet(s: State, i: nat, t: Thread)
    requires Inv(s) && i < |s.threads| && !HoldsMutex(s.threads[i]) && !HoldsMutex(t) && !t.Asleep?
    requires WillLook(s.threads[i]) ==> WillLook(t)
    ensures Inv(Set(s, i, t))
  {
    hide Lookers;
    var u := Set(s, i, t);
    LookersUpdate(s.threads, i, t);
    assert Pending(u) == Pending(s);
    if j :| 0 <= j < |u.threads| && u.threads[j].Asleep? {
      assert s.threads[j].Asleep?;
    }
  }

  lemma LockKeepsInv(s: State, i: nat)
    requires Inv(s) && Step(s, Lock(i)).Some?
    ensures Inv(Step(s, Lock(i)).value)
  {
    hide Lookers;
    var u := Step(s, Lock(i)).value;
    LookersUpdate(s.threads, i, u.threads[i]);
    if j :| 0 <= j < |u.threads| && u.threads[j].Asleep? {
      assert s.threads[j].Asleep?;
    }
  }

  lemma SignalKeepsInv(s: State, i: nat, woken: Option<nat>)
    requires Inv(s) && Step(s, Signal(i, woken)).Some?
    ensures Inv(Step(s, Signal(i, woken)).value)
  {
    hide Lookers;
    var u := Step(s, Signal(i, woken)).value;
    if woken.Some? {
      var mid := Set(s, woken.value, Awake(s.threads[woken.value].timed, false));
      LookersUpdate(s.threads, woken.value, mid.threads[woken.value]);
      LookersUpdate(mid.threads, i, u.threads[i]);
      assert SomeAsleep(s.threads);
    } else {
      LookersUpdate(s.threads, i, u.threads[i]);
      if j :| 0 <= j < |u.threads| && u.threads[j].Asleep? {
        assert s.threads[j].Asleep?;
      }
    }
  }

  lemma AddKeepsInv(s: State, i: nat)
    requires Inv(s) && Step(s, Add(i)).Some?
    ensures Inv(Step(s, Add(i)).value) <==> Fits(s, Add(i))
  {
    hide Lookers;
    var u := Step(s, Add(i)).value;
    LookersUpdate(s.threads, i, u.threads[i]);
    if SomeAsleep(u.threads) {
      var j :| 0 <= j < |u.threads| && u.threads[j].Asleep?;
      assert s.threads[j].Asleep?;
    }
  }

  lemma TestKeepsInv(s: State, i: nat)
    requires Inv(s) && Step(s, Test(i)).Some?
    ensures Inv(Step(s, Test(i)).value)
  {
    hide Lookers;
    var u := Step(s, Test(i)).value;
    LookersUpdate(s.threads, i, u.threads[i]);
    if s.threads[i].expired || s.count > 0 {
      if j :| 0 <= j < |u.threads| && u.threads[j].Asleep? {
        assert s.threads[j].Asleep?;
      }
    }
  }

  lemma UnlockKeepsInv(s: State, i: nat)
    requires Inv(s) && Step(s, Unlock(i)).Some?
    ensures Inv(Step(s, Unlock(i)).value)
  {
    hide Lookers;
    var u := Step(s, Unlock(i)).value;
    LookersUpdate(s.threads, i, u.threads[i]);
    if j :| 0 <= j < |u.threads| && u.threads[j].Asleep? {
      assert s.threads[j].Asleep?;
    }
  }

  /** Every step keeps the invariant, but for a post that overflows the 32-bit count, which always breaks it. */
  lemma StepKeepsInv(s: State, a: Action)
    requires Inv(s) && Step(s, a).Some?
    ensures Inv(Step(s, a).value) <==> Fits(s, a)
  {
    hide Inv;
    match a
    case CallPost(i, n) => Quiet(s, i, WantsPost(n));
    case CallWait(i, timed) => Quiet(s, i, WantsWait(timed));
    case Lock(i) => LockKeepsInv(s, i);
    case Signal(i, woken) => SignalKeepsInv(s, i, woken);
    case Add(i) => AddKeepsInv(s, i);
    case Test(i) => TestKeepsInv(s, i);
    case Unlock(i) => UnlockKeepsInv(s, i);
    case WakeSpuriously(i) => Quiet(s, i, Awake(s.threads[i].timed, false));
    case TimeOut(i) => Quiet(s, i, Awake(s.threads[i].timed, true));
  }

  // ---------------------------------------------------------------- runs

  function Run(s: State, actions: seq<Action>): Option<State>
    decreases |actions|
  {
    if actions == [] then Some(s)
    else
      var t :- Step(s, actions[0]);
      Run(t, actions[1..])
  }

  predicate PostsFit(s: State, actions: seq<Action>)
    decreases |actions|
  {
    actions != [] && Step(s, actions[0]).Some? ==>
      Fits(s, actions[0]) && PostsFit(Step(s, actions[0]).value, actions[1..])
  }

  lemma {:induction false} RunKeepsInv(s: State, actions: seq<Action>)
    requires Inv(s) && PostsFit(s, actions) && Run(s, actions).Some?
    ensures Inv(Run(s, actions).value)
    decreases |actions|
  {
    hide Inv, Step, Fits;
    if actions != [] {
      StepKeepsInv(s, actions[0]);
      RunKeepsInv(Step(s, actions[0]).value, actions[1..]);
    }
  }

  /** Woken waiters that have not run yet. */
  function Woken(ts: seq<Thread>): nat {
    if ts == [] then 0 else Woken(ts[..|ts| - 1]) + if ts[|ts| - 1].Awake? && !ts[|ts| - 1].expired then 1 else 0
  }

  lemma {:induction false} LookersAreWoken(ts: seq<Thread>)
    requires forall i :: 0 <= i < |ts| ==> !ts[i].Checking?
    ensures Lookers(ts) == Woken(ts)
  {
    if ts != [] {
      LookersAreWoken(ts[..|ts| - 1]);
    }
  }

  lemma {:induction false} NobodyWoken(ts: seq<Thread>)
    requires forall i :: 0 <= i < |ts| ==> ts[i] == Outside || ts[i].Asleep?
    ensures Woken(ts) == 0
  {
    if ts != [] {
      NobodyWoken(ts[..|ts| - 1]);
    }
  }

  /** Every run of posts, waits, spurious wake-ups and time-outs whose posts fit. The count never goes negative, and
      successful waits plus count are what was posted. Whenever a waiter sleeps, the units that lie there, with
      those a post under way has signalled already, are no more than the waiters that will still look at the
      count; with the mutex free these are the woken ones that have not run yet. */
  lemma NoLostWakeup(threads: nat, actions: seq<Action>)
    requires PostsFit(Init(threads), actions) && Run(Init(threads), actions).Some?
    ensures var s := Run(Init(threads), actions).value;
            && s.count >= 0
            && s.taken + s.count == s.posted
            && (SomeAsleep(s.threads) ==> s.count + Pending(s) <= Lookers(s.threads))
            && (s.mutex.None? && SomeAsleep(s.threads) ==> s.count <= Woken(s.threads))
            && (SomeAsleep(s.threads) && Settled(s.threads) ==> s.count == 0)
  {
    hide Run, PostsFit, Lookers, Woken;
    InitInv(threads);
    RunKeepsInv(Init(threads), actions);
    var s := Run(Init(threads), actions).value;
    if s.mutex.None? {
      LookersAreWoken(s.threads);
    }
    if Settled(s.threads) {
      LookersAreWoken(s.threads);
      NobodyWoken(s.threads);
    }
  }

  /** Every thread is outside or asleep. */
  predicate Settled(ts: seq<Thread>) {
    forall i :: 0 <= i < |ts| ==> ts[i] == Outside || ts[i].Asleep?
  }

  // ---------------------------------------------------------------- when all posts fit

  /** Units of posts called and not added yet. */
  function Outstanding(ts: seq<Thread>): nat {
    if ts == [] then 0 else Outstanding(ts[..|ts| - 1]) + Units(ts[|ts| - 1])
  }

  function Units(t: Thread): nat {
    match t
    case WantsPost(n) => n
    case Signalling(n, _) => n
    case _ => 0
  }

  lemma {:induction false} OutstandingUpdate(ts: seq<Thread>, i: nat, t: Thread)
    requires i < |ts|
    ensures Outstanding(ts[i := t]) == Outstanding(ts) - Units(ts[i]) + Units(t)
  {
    var k := |ts| - 1;
    if i == k {
      assert ts[i := t][..k] == ts[..k];
    } else {
      assert ts[i := t][..k] == ts[..k][i := t];
      OutstandingUpdate(ts[..k], i, t);
    }
  }

  /** Units of all posts called along a run. */
  function Posted(actions: seq<Action>): nat {
    if actions == [] then 0
    else (if actions[0].CallPost? then actions[0].n else 0) + Posted(actions[1..])
  }

  /** What lies there and what is on its way only grows by posts called. */
  lemma StepOutstanding(s: State, a: Action)
    requires Step(s, a).Some? && 0 <= s.count
    requires s.count + Outstanding(s.threads) + (if a.CallPost? then a.n else 0) <= I32_MAX
    ensures var t := Step(s, a).value;
            && Fits(s, a) && 0 <= t.count
            && t.count + Outstanding(t.threads)
               <= s.count + Outstanding(s.threads) + if a.CallPost? then a.n else 0
  {
    hide Outstanding;
    var t := Step(s, a).value;
    OutstandingUpdate(s.threads, a.i, t.threads[a.i]);
    UnitsBelow(s.threads, a.i);
    if a.Signal? && a.woken.Some? {
      var mid := Set(s, a.woken.value, Awake(s.threads[a.woken.value].timed, false));
      OutstandingUpdate(s.threads, a.woken.value, mid.threads[a.woken.value]);
      OutstandingUpdate(mid.threads, a.i, t.threads[a.i]);
    }
  }

  lemma {:induction false} UnitsBelow(ts: seq<Thread>, i: nat)
    requires i < |ts|
    ensures Units(ts[i]) <= Outstanding(ts)
  {
    if i < |ts| - 1 {
      UnitsBelow(ts[..|ts| - 1], i);
    }
  }

  lemma {:induction false} SmallPostsFitFrom(s: State, actions: seq<Action>)
    requires 0 <= s.count && s.count + Outstanding(s.threads) + Posted(actions) <= I32_MAX
    ensures PostsFit(s, actions)
    decreases |actions|
  {
    hide Step, Fits, Outstanding;
    if actions != [] && Step(s, actions[0]).Some? {
      StepOutstanding(s, actions[0]);
      SmallPostsFitFrom(Step(s, actions[0]).value, actions[1..]);
    }
  }

  /** Callers that together post no more than 0x7FFFFFFF units never overflow the count. */
  lemma SmallPostsFit(threads: nat, actions: seq<Action>)
    requires Posted(actions) <= I32_MAX
    ensures PostsFit(Init(threads), actions)
  {
    hide PostsFit, Posted;
    NothingOutstanding(Init(threads).threads);
    SmallPostsFitFrom(Init(threads), actions);
  }

  lemma {:induction false} NothingOutstanding(ts: seq<Thread>)
    requires forall i :: 0 <= i < |ts| ==> ts[i] == Outside
    ensures Outstanding(ts) == 0
  {
    if ts != [] {
      NothingOutstanding(ts[..|ts| - 1]);
    }
  }

  // ---------------------------------------------------------------- a post that overflows

  lemma {:induction false} RunAppend(s: State, a: seq<Action>, b: seq<Action>)
    requires Run(s, a).Some?
    ensures Run(s, a + b) == Run(Run(s, a).value, b)
    decreases |a|
  {
    hide Step;
    if a == [] {
      assert a + b == b;
    } else {
      assert (a + b)[0] == a[0] && (a + b)[1..] == a[1..] + b;
      RunAppend(Step(s, a[0]).value, a[1..], b);
    }
  }

  /** One thread, holding the mutex of its post. */
  function Sending(count: int, posted: nat, n: nat, sent: nat): State {
    State(count, Some(0), [Signalling(n, sent)], posted, 0)
  }

  function Signals(k: nat): seq<Action> {
    seq(k, _ => Signal(0, None))
  }

  lemma {:induction false} SignalsSent(count: int, posted: nat, n: nat, k: nat)
    requires k <= n
    ensures Run(Sending(count, posted, n, n - k), Signals(k)) == Some(Sending(count, posted, n, n))
  {
    if k > 0 {
      var s := Sending(count, posted, n, n - k);
      assert Step(s, Signal(0, None)) == Some(Sending(count, posted, n, n - k + 1)) by {
        assert !SomeAsleep(s.threads);
        assert s.threads[0 := Signalling(n, n - k + 1)] == [Signalling(n, n - k + 1)];
      }
      assert Signals(k)[0] == Signal(0, None) && Signals(k)[1..] == Signals(k - 1);
      SignalsSent(count, posted, n, k - 1);
    }
  }

  /** A whole post of `n` units by the only thread. */
  function PostActions(n: nat): seq<Action> {
    [CallPost(0, n), Lock(0)] + (Signals(n) + [Add(0), Unlock(0)])
  }

  lemma PostAlone(count: int, posted: nat, n: nat)
    ensures Run(State(count, None, [Outside], posted, 0), PostActions(n))
         == Some(State(ToI32(count + n), None, [Outside], posted + n, 0))
  {
    var s := State(count, None, [Outside], posted, 0);
    var rest := Signals(n) + [Add(0), Unlock(0)];
    var actions := PostActions(n);
    var called := State(count, None, [WantsPost(n)], posted, 0);
    assert s.threads[0 := WantsPost(n)] == [WantsPost(n)];
    assert Step(s, actions[0]) == Some(called);
    assert called.threads[0 := Signalling(n, 0)] == [Signalling(n, 0)];
    assert actions[1..][0] == Lock(0) && Step(called, Lock(0)) == Some(Sending(count, posted, n, 0));
    assert actions[1..][1..] == rest;
    assert Run(s, actions) == Run(Sending(count, posted, n, 0), rest);
    SignalsSent(count, posted, n, n);
    RunAppend(Sending(count, posted, n, 0), Signals(n), [Add(0), Unlock(0)]);
    EndOfPost(count, posted, n);
  }

  lemma EndOfPost(count: int, posted: nat, n: nat)
    ensures Run(Sending(count, posted, n, n), [Add(0), Unlock(0)])
         == Some(State(ToI32(count + n), None, [Outside], posted + n, 0))
  {
    hide ToI32;
    var s := Sending(count, posted, n, n);
    var t := State(ToI32(count + n), Some(0), [Leaving], posted + n, 0);
    var u := State(ToI32(count + n), None, [Outside], posted + n, 0);
    assert s.threads[0 := Leaving] == [Leaving];
    assert Step(s, Add(0)) == Some(t);
    assert t.threads[0 := Outside] == [Outside];
    assert Step(t, Unlock(0)) == Some(u);
    assert [Add(0), Unlock(0)][1..] == [Unlock(0)];
    assert Run(t, [Unlock(0)]) == Run(u, []);
  }

  /** Posting 0x7FFFFFFF units and then one more leaves a negative count, with no wait in between. */
  lemma PostOverflows() returns (actions: seq<Action>)
    ensures Run(Init(1), actions) == Some(State(-0x8000_0000, None, [Outside], 0x8000_0000, 0))
  {
    hide PostActions, Run;
    actions := PostActions(I32_MAX) + PostActions(1);
    assert Init(1) == State(0, None, [Outside], 0, 0);
    PostAlone(0, 0, I32_MAX);
    RunAppend(Init(1), PostActions(I32_MAX), PostActions(1));
    PostAlone(I32_MAX, I32_MAX, 1);
  }
}
