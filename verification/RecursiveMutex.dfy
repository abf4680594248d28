/**
 The recursive mutex built from a plain one (CommonUtilitiesLib/OSMutex.cpp) and the condition wait that rewrites its
 holder fields (CommonUtilitiesLib/OSCond.cpp), as an interleaved step system over any number of threads. One step is
 one access to a field that other threads can see, or one operation of the plain mutex.
 */
module RecursiveMutex {
  import opened Common

  type Thread = nat

  datatype Call = Lock | TryLock | Unlock | Wait

  /** Where a thread stands. */
  datatype Pc =
    | Outside
    | LockCompare      // compare fHolder with the own id
    | TryCompare
    | CountNested      // fHolderCount++ of the holder
    | Acquiring        // pthread_mutex_lock
    | Trying           // pthread_mutex_trylock
    | Acquired         // assert no holder, set fHolder
    | Entered          // fHolderCount++, assert that it is one
    | UnlockCompare
    | Uncounting       // assert fHolderCount > 0, fHolderCount--
    | CheckZero
    | Clearing         // fHolder = 0
    | Releasing        // pthread_mutex_unlock
    | WaitUncount      // fHolderCount--
    | WaitClear        // fHolder = 0
    | WaitRelease      // pthread_cond_wait gives up the plain mutex
    | Waiting          // and takes it again
    | WaitCount        // fHolderCount++
    | WaitRetake       // fHolder = the own id

  /** `depth` is a history variable: the locks a thread has taken and not given up. */
  datatype Local = Local(pc: Pc, depth: nat)

  datatype State = State(owner: Option<Thread>, holder: Option<Thread>, count: int, threads: map<Thread, Local>) {

    function At(t: Thread): Local {
      if t in threads then threads[t] else Local(Outside, 0)
    }

    function To(t: Thread, pc: Pc): State {
      this.(threads := threads[t := At(t).(pc := pc)])
    }

    /** The thread returns from a call that leaves it at a depth. */
    function Return(t: Thread, depth: nat): State {
      this.(threads := threads[t := Local(Outside, depth)])
    }
  }

  const INITIAL: State := State(None, None, 0, map[])

  /** A step can be taken unless it waits for the plain mutex. Waiting on a condition takes the plain mutex. */
  predicate Enabled(s: State, t: Thread, call: Call) {
    match s.At(t).pc
    case Outside => call.Wait? ==> 1 <= s.At(t).depth
    case Acquiring => s.owner == None
    case Waiting => s.owner == None
    case _ => true
  }

  /** One step of a thread; `call` is the call it makes when it is outside. */
  function Step(s: State, t: Thread, call: Call): State {
    var l := s.At(t);
    match l.pc
    case Outside =>
      s.To(t, match call
              case Lock => LockCompare
              case TryLock => TryCompare
              case Unlock => UnlockCompare
              case Wait => WaitUncount)
    case LockCompare => s.To(t, if s.holder == Some(t) then CountNested else Acquiring)
    case TryCompare => s.To(t, if s.holder == Some(t) then CountNested else Trying)
    case CountNested => s.(count := s.count + 1).Return(t, l.depth + 1)
    case Acquiring => s.(owner := Some(t)).To(t, Acquired)
    case Trying => if s.owner == None then s.(owner := Some(t)).To(t, Acquired) else s.Return(t, l.depth)
    case Acquired => s.(holder := Some(t)).To(t, Entered)
    case Entered => s.(count := s.count + 1).Return(t, l.depth + 1)
    case UnlockCompare => if s.holder == Some(t) then s.To(t, Uncounting) else s.Return(t, l.depth)
    case Uncounting => s.(count := s.count - 1).To(t, CheckZero)
    case CheckZero => if s.count == 0 then s.To(t, Clearing) else s.Return(t, if l.depth == 0 then 0 else l.depth - 1)
    case Clearing => s.(holder := None).To(t, Releasing)
    case Releasing => s.(owner := None).Return(t, if l.depth == 0 then 0 else l.depth - 1)
    case WaitUncount => s.(count := s.count - 1).To(t, WaitClear)
    case WaitClear => s.(holder := None).To(t, WaitRelease)
    case WaitRelease => s.(owner := None).To(t, Waiting)
    case Waiting => s.(owner := Some(t)).To(t, WaitCount)
    case WaitCount => s.(count := s.count + 1).To(t, WaitRetake)
    case WaitRetake => s.(holder := Some(t)).Return(t, l.depth)
  }

  /** The assertion in the code at a thread's next step. */
  predicate AssertHolds(s: State, t: Thread) {
    match s.At(t).pc
    case Acquired => s.holder == None
    case Entered => s.count + 1 == 1
    case Uncounting => 0 < s.count
    case _ => true
  }

  /** Conditions are waited on with the mutex locked once. */
  predicate WaitsAtDepthOne(s: State, t: Thread, call: Call) {
    s.At(t).pc == Outside && call == Wait ==> s.At(t).depth == 1
  }

  // ---------- The invariant ----------

  /** The depths a thread can have where it stands. */
  predicate DepthFits(l: Local) {
    match l.pc
    case Acquiring => l.depth == 0
    case Trying => l.depth == 0
    case Acquired => l.depth == 0
    case Entered => l.depth == 0
    case CountNested => 1 <= l.depth
    case Uncounting => 1 <= l.depth
    case CheckZero => 1 <= l.depth
    case Clearing => l.depth == 1
    case Releasing => l.depth == 1
    case WaitUncount => l.depth == 1
    case WaitClear => l.depth == 1
    case WaitRelease => l.depth == 1
    case Waiting => l.depth == 1
    case WaitCount => l.depth == 1
    case WaitRetake => l.depth == 1
    case _ => true
  }

  /** The thread owns the plain mutex. */
  predicate Owns(l: Local) {
    l.pc == Acquired || l.pc == Entered || (1 <= l.depth && l.pc != Waiting)
  }

  /** The thread that owns the plain mutex is in fHolder. */
  predicate Holds(l: Local) {
    l.pc != Acquired && l.pc != Releasing && l.pc != WaitRelease && l.pc != WaitCount && l.pc != WaitRetake
  }

  /** What fHolderCount is while the thread owns the plain mutex. */
  function CountOf(l: Local): int {
    match l.pc
    case CheckZero => l.depth - 1
    case Clearing => 0
    case Releasing => 0
    case WaitClear => 0
    case WaitRelease => 0
    case WaitCount => 0
    case _ => l.depth
  }

  /** The owner of the plain mutex is in fHolder, or about to be, with its depth in fHolderCount. */
  predicate ThreadOk(s: State, t: Thread) {
    var l := s.At(t);
    && DepthFits(l)
    && (Owns(l) <==> s.owner == Some(t))
    && (Owns(l) ==> s.holder == (if Holds(l) then Some(t) else None) && s.count == CountOf(l))
  }

  predicate FreeOk(s: State) {
    s.owner == None ==> s.holder == None && s.count == 0
  }

  ghost predicate Inv(s: State) {
    FreeOk(s) && forall t: Thread :: ThreadOk(s, t)
  }

  /** A thread that does not own the plain mutex is not in fHolder. */
  predicate OwnerHolds(s: State) {
    s.holder.Some? ==> s.holder == s.owner
  }

  predicate InWait(pc: Pc) {
    pc == WaitUncount || pc == WaitClear || pc == WaitRelease || pc == WaitCount || pc == WaitRetake
  }

  lemma WaiterStep(s: State, t: Thread, call: Call)
    requires FreeOk(s) && ThreadOk(s, t) && OwnerHolds(s)
    requires Enabled(s, t, call) && WaitsAtDepthOne(s, t, call)
    requires InWait(s.At(t).pc)
    ensures ThreadOk(Step(s, t, call), t)
  {
  }

  lemma OwnerStep(s: State, t: Thread, call: Call)
    requires FreeOk(s) && ThreadOk(s, t) && OwnerHolds(s)
    requires Enabled(s, t, call) && WaitsAtDepthOne(s, t, call)
    requires Owns(s.At(t)) && !InWait(s.At(t).pc)
    ensures ThreadOk(Step(s, t, call), t)
  {
  }

  lemma NonOwnerStep(s: State, t: Thread, call: Call)
    requires FreeOk(s) && ThreadOk(s, t) && OwnerHolds(s)
    requires Enabled(s, t, call) && WaitsAtDepthOne(s, t, call)
    requires !Owns(s.At(t))
    ensures ThreadOk(Step(s, t, call), t)
  {
  }

  lemma OwnStep(s: State, t: Thread, call: Call)
    requires FreeOk(s) && ThreadOk(s, t) && OwnerHolds(s)
    requires Enabled(s, t, call) && WaitsAtDepthOne(s, t, call)
    ensures ThreadOk(Step(s, t, call), t) && FreeOk(Step(s, t, call))
    ensures AssertHolds(s, t)
  {
    assert ThreadOk(Step(s, t, call), t) by {
      if InWait(s.At(t).pc) {
        WaiterStep(s, t, call);
      } else if Owns(s.At(t)) {
        OwnerStep(s, t, call);
      } else {
        NonOwnerStep(s, t, call);
      }
    }
  }

  lemma OtherStep(s: State, t: Thread, call: Call, o: Thread)
    requires FreeOk(s) && ThreadOk(s, t) && ThreadOk(s, o) && OwnerHolds(s)
    requires Enabled(s, t, call) && WaitsAtDepthOne(s, t, call) && o != t
    ensures ThreadOk(Step(s, t, call), o)
  {
    var u := Step(s, t, call);
    assert u.At(o) == s.At(o);
    assert u.owner == s.owner || s.owner == None || s.owner == Some(t);
    assert s.owner == Some(o) ==> u.holder == s.holder && u.count == s.count;
  }

  lemma InvOwnerHolds(s: State)
    requires Inv(s)
    ensures OwnerHolds(s)
  {
    if s.owner.Some? {
      assert ThreadOk(s, s.owner.value);
    }
  }

  lemma StepKeepsInv(s: State, t: Thread, call: Call)
    requires Inv(s) && Enabled(s, t, call) && WaitsAtDepthOne(s, t, call)
    ensures Inv(Step(s, t, call)) && AssertHolds(s, t)
  {
    InvOwnerHolds(s);
    assert ThreadOk(s, t);
    OwnStep(s, t, call);
    forall o: Thread ensures ThreadOk(Step(s, t, call), o) {
      if o != t {
        assert ThreadOk(s, o);
        OtherStep(s, t, call, o);
      }
    }
  }

  // ---------- Runs ----------

  datatype Action = Action(thread: Thread, call: Call)

  /** A run: every step is one an action takes. */
  ghost predicate IsRun(states: seq<State>, actions: seq<Action>) {
    && |states| == |actions| + 1 && states[0] == INITIAL
    && forall i :: 0 <= i < |actions| ==>
                     && Enabled(states[i], actions[i].thread, actions[i].call)
                     && states[i + 1] == Step(states[i], actions[i].thread, actions[i].call)
  }

  /** In the first steps of a run, conditions are waited on only with the mutex locked once. */
  ghost predicate Disciplined(states: seq<State>, actions: seq<Action>, n: nat)
    requires n <= |actions| < |states|
  {
    forall i :: 0 <= i < n ==> WaitsAtDepthOne(states[i], actions[i].thread, actions[i].call)
  }

  lemma {:induction false} RunKeepsInv(states: seq<State>, actions: seq<Action>, n: nat)
    requires IsRun(states, actions) && n <= |actions| && Disciplined(states, actions, n)
    ensures Inv(states[n])
  {
    if n != 0 {
      RunKeepsInv(states, actions, n - 1);
      StepKeepsInv(states[n - 1], actions[n - 1].thread, actions[n - 1].call);
    }
  }

  /** The assertions in the code hold at every step, in every interleaving. */
  lemma AssertsHold(states: seq<State>, actions: seq<Action>, n: nat)
    requires IsRun(states, actions) && n < |actions| && Disciplined(states, actions, n + 1)
    ensures AssertHolds(states[n], actions[n].thread)
  {
    RunKeepsInv(states, actions, n);
    StepKeepsInv(states[n], actions[n].thread, actions[n].call);
  }

  /** fHolder owns the plain mutex; a thread that has returned from its locks is in fHolder, with fHolderCount its
      depth, and no other thread has. */
  lemma HolderOwnsAtItsDepth(states: seq<State>, actions: seq<Action>, n: nat, t: Thread, u: Thread)
    requires IsRun(states, actions) && n <= |actions| && Disciplined(states, actions, n)
    ensures states[n].holder == Some(t) ==> states[n].owner == Some(t)
    ensures states[n].At(t).pc == Outside ==>
              && (1 <= states[n].At(t).depth <==> states[n].holder == Some(t))
              && (1 <= states[n].At(t).depth ==> states[n].count == states[n].At(t).depth)
    ensures (states[n].At(t).pc == Outside && states[n].At(u).pc == Outside
             && 1 <= states[n].At(t).depth && 1 <= states[n].At(u).depth) ==> t == u
  {
    RunKeepsInv(states, actions, n);
    InvOwnerHolds(states[n]);
    assert ThreadOk(states[n], t) && ThreadOk(states[n], u);
  }

  /** An unlock by a thread that has not locked the mutex changes nothing. */
  lemma UnlockByAnotherDoesNothing(s: State, t: Thread)
    requires Inv(s) && s.At(t) == Local(Outside, 0)
    ensures var u := Step(Step(s, t, Unlock), t, Unlock);
            u.owner == s.owner && u.holder == s.holder && u.count == s.count && forall o: Thread :: u.At(o) == s.At(o)
  {
    InvOwnerHolds(s);
    assert ThreadOk(s, t);
  }

  /** A thread at a depth waits and another one locks next. */
  function WaitThenLock(s: State, t: Thread, w: Thread): State {
    var waiting := Step(Step(Step(Step(s, t, Wait), t, Wait), t, Wait), t, Wait);
    Step(Step(Step(Step(waiting, w, Lock), w, Lock), w, Lock), w, Lock)
  }

  /** The next thread to lock finds the assertion true exactly when the wait was at depth one. */
  lemma WaitIsSoundAtDepthOne(s: State, t: Thread, w: Thread)
    requires Inv(s) && s.At(t).pc == Outside && 1 <= s.At(t).depth && s.At(w) == Local(Outside, 0)
    ensures WaitThenLock(s, t, w).At(w).pc == Entered
    ensures AssertHolds(WaitThenLock(s, t, w), w) <==> s.At(t).depth == 1
  {
    InvOwnerHolds(s);
    assert ThreadOk(s, t) && ThreadOk(s, w);
    var waiting := Step(Step(Step(Step(s, t, Wait), t, Wait), t, Wait), t, Wait);
    assert waiting.owner == None && waiting.holder == None && waiting.count == s.At(t).depth - 1;
    assert waiting.At(w) == Local(Outside, 0);
  }

  /** A thread locks twice, from the beginning. */
  function LockedTwice(t: Thread): State {
    var once := Step(Step(Step(Step(Step(INITIAL, t, Lock), t, Lock), t, Lock), t, Lock), t, Lock);
    Step(Step(Step(once, t, Lock), t, Lock), t, Lock)
  }

  /** A run in which the assertion fails: a wait of a thread that has locked the mutex twice. */
  lemma WaitAtDepthTwoFails(t: Thread, w: Thread)
    requires t != w
    ensures LockedTwice(t).At(t) == Local(Outside, 2)
    ensures !AssertHolds(WaitThenLock(LockedTwice(t), t, w), w)
  {
    var once := Step(Step(Step(Step(Step(INITIAL, t, Lock), t, Lock), t, Lock), t, Lock), t, Lock);
    assert once.At(t) == Local(Outside, 1) && once.holder == Some(t) && once.owner == Some(t) && once.count == 1;
    var s := LockedTwice(t);
    assert s.At(w) == Local(Outside, 0) && s.holder == Some(t) && s.owner == Some(t) && s.count == 2;
    forall o: Thread ensures ThreadOk(s, o) {
      assert o != t ==> s.At(o) == Local(Outside, 0);
    }
    WaitIsSoundAtDepthOne(s, t, w);
  }
}
