/** What the calls of the recursive mutex (CommonUtilitiesLib/OSMutex.cpp, OSCond.cpp) come to, however the steps of the
    threads are interleaved. */
module RecursiveMutexCalls {
  import opened Common
  import opened RecursiveMutex

  /** The thread is inside a call that it made at a depth. */
  predicate InCall(l: Local, call: Call, d: nat) {
    l.depth == d
    && match l.pc
       case Outside => false
       case LockCompare => call == Lock
       case TryCompare => call == TryLock
       case CountNested => (call == Lock || call == TryLock) && 1 <= d
       case Acquiring => call == Lock && d == 0
       case Trying => call == TryLock && d == 0
       case Acquired => (call == Lock || call == TryLock) && d == 0
       case Entered => (call == Lock || call == TryLock) && d == 0
       case UnlockCompare => call == Unlock
       case Uncounting => call == Unlock && 1 <= d
       case CheckZero => call == Unlock && 1 <= d
       case Clearing => call == Unlock && d == 1
       case Releasing => call == Unlock && d == 1
       case _ => call == Wait && d == 1
  }

  /** How many more steps of its own the call takes at the most. */
  function StepsLeft(pc: Pc): (n: nat)
    ensures n <= 6
  {
    match pc
    case Outside => 0
    case LockCompare => 4
    case TryCompare => 4
    case CountNested => 1
    case Acquiring => 3
    case Trying => 3
    case Acquired => 2
    case Entered => 1
    case UnlockCompare => 5
    case Uncounting => 4
    case CheckZero => 3
    case Clearing => 2
    case Releasing => 1
    case WaitUncount => 6
    case WaitClear => 5
    case WaitRelease => 4
    case Waiting => 3
    case WaitCount => 2
    case WaitRetake => 1
  }

  /** The thread has the mutex locked at a depth. */
  predicate Locked(s: State, t: Thread, d: nat) {
    s.At(t) == Local(Outside, d) && s.owner == Some(t) && s.holder == Some(t) && s.count == d
  }

  predicate Free(s: State) {
    s.owner == None && s.holder == None && s.count == 0
  }

  /** A call made at a depth returns in a state `u`, by a step from a state `s`: a lock is taken once more; a try also
      fails, if another thread has the plain mutex; an unlock gives one lock up, and the last one frees the mutex, while
      a thread that has none leaves everything as it is; a wait gets the mutex back. */
  predicate Returns(s: State, u: State, t: Thread, call: Call, d: nat) {
    match call
    case Lock => Locked(u, t, d + 1)
    case TryLock =>
      || Locked(u, t, d + 1)
      || (d == 0 && s.owner.Some? && s.owner != Some(t) && u.At(t) == Local(Outside, 0)
          && u.owner == s.owner && u.holder == s.holder && u.count == s.count)
    case Unlock =>
      if d == 0 then u.At(t) == Local(Outside, 0) && u.owner == s.owner && u.holder == s.holder && u.count == s.count
      else if d == 1 then u.At(t) == Local(Outside, 0) && Free(u)
      else Locked(u, t, d - 1)
    case Wait => Locked(u, t, d)
  }

  lemma LockedOutside(u: State, t: Thread)
    requires Inv(u) && u.At(t).pc == Outside && 1 <= u.At(t).depth
    ensures Locked(u, t, u.At(t).depth)
  {
    assert ThreadOk(u, t);
  }

  lemma StepGoesOn(s: State, t: Thread, call: Call, d: nat, c: Call)
    requires ThreadOk(s, t) && OwnerHolds(s) && Enabled(s, t, c) && InCall(s.At(t), call, d)
    requires var u := Step(s, t, c);
             u.At(t).pc == Outside && 1 <= u.At(t).depth ==> Locked(u, t, u.At(t).depth)
    requires FreeOk(Step(s, t, c))
    ensures var u := Step(s, t, c);
            || (InCall(u.At(t), call, d) && StepsLeft(u.At(t).pc) < StepsLeft(s.At(t).pc))
            || Returns(s, u, t, call, d)
  {
  }

  /** A step of a thread inside a call brings the call nearer to its return, or is its return. */
  lemma CallGoesOn(s: State, t: Thread, call: Call, d: nat, c: Call)
    requires Inv(s) && Enabled(s, t, c) && InCall(s.At(t), call, d)
    ensures var u := Step(s, t, c);
            || (InCall(u.At(t), call, d) && StepsLeft(u.At(t).pc) < StepsLeft(s.At(t).pc))
            || Returns(s, u, t, call, d)
  {
    var u := Step(s, t, c);
    assert Inv(u) by { StepKeepsInv(s, t, c); }
    assert ThreadOk(s, t) && OwnerHolds(s) by { InvOwnerHolds(s); }
    if u.At(t).pc == Outside && 1 <= u.At(t).depth {
      LockedOutside(u, t);
    }
    StepGoesOn(s, t, call, d, c);
  }

  /** Inside a call a thread waits only while another thread has the plain mutex, and only for that: to take it, or to
      take it again after a wait. */
  lemma WaitsOnlyForTheMutex(s: State, t: Thread, call: Call)
    requires Inv(s) && s.At(t).pc != Outside
    ensures !Enabled(s, t, call) <==>
            (s.At(t).pc == Acquiring || s.At(t).pc == Waiting) && s.owner.Some? && s.owner != Some(t)
  {
    assert ThreadOk(s, t);
  }

  /** How many of some actions a thread takes. */
  function OwnSteps(actions: seq<Action>, i: nat, j: nat, t: Thread): nat
    requires i <= j <= |actions|
    decreases j - i
  {
    if i == j then 0 else (if actions[i].thread == t then 1 else 0) + OwnSteps(actions, i + 1, j, t)
  }

  lemma {:induction false} CallEnds(states: seq<State>, actions: seq<Action>, i: nat, j: nat, t: Thread, call: Call, d: nat)
    requires IsRun(states, actions) && i <= j <= |actions| && Disciplined(states, actions, j)
    requires InCall(states[i].At(t), call, d) && StepsLeft(states[i].At(t).pc) <= OwnSteps(actions, i, j, t)
    ensures exists k :: i <= k < j && actions[k].thread == t && Returns(states[k], states[k + 1], t, call, d)
    decreases j - i
  {
    RunKeepsInv(states, actions, i);
    var o, c := actions[i].thread, actions[i].call;
    if o == t {
      CallGoesOn(states[i], t, call, d, c);
    } else {
      assert states[i + 1].At(t) == states[i].At(t);
    }
    hide Returns, InCall, Step, StepsLeft, Inv;
    if !(o == t && Returns(states[i], states[i + 1], t, call, d)) {
      CallEnds(states, actions, i + 1, j, t, call, d);
    }
  }

  /** However the threads' steps are interleaved, a call made at a depth has returned as it should by the seventh step of
      its thread. */
  lemma EveryCallIsCarriedOut(states: seq<State>, actions: seq<Action>, i: nat, j: nat, t: Thread, d: nat)
    requires IsRun(states, actions) && i < j <= |actions| && Disciplined(states, actions, j)
    requires actions[i].thread == t && states[i].At(t) == Local(Outside, d)
    requires 7 <= OwnSteps(actions, i, j, t)
    ensures exists k :: i < k < j && actions[k].thread == t && Returns(states[k], states[k + 1], t, actions[i].call, d)
  {
    var call := actions[i].call;
    assert InCall(states[i + 1].At(t), call, d);
    CallEnds(states, actions, i + 1, j, t, call, d);
  }
}
