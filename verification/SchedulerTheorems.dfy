/** What the alive-bit protocol guarantees over whole runs of the scheduler. */
module SchedulerTheorems {
  import opened Atomic
  import opened Common
  import opened TaskScheduler
  import opened SchedulerInvariant

  // ---------- Every task is in exactly one place ----------

  /** One spot in the system that refers to a task as its owner. */
  datatype Site = CallSite(c: CallId) | QueueSite(w: Thread, i: nat) | HeapSite(w: Thread, i: nat) | WorkerSite(w: Thread)

  ghost predicate Occurs(s: State, t: TaskId, site: Site) {
    match site
    case CallSite(c) => c in s.calls && s.calls[c].t == t
    case QueueSite(w, i) => w < |s.queues| && i < |s.queues[w]| && s.queues[w][i] == t
    case HeapSite(w, i) => w < |s.heaps| && i < |s.heaps[w]| && s.heaps[w][i] == t
    case WorkerSite(w) => w < |s.workers| && s.workers[w].Held() == Some(t)
  }

  lemma SiteOfPlace(s: State, t: TaskId, at: Place) returns (site: Site)
    requires s.Pool() && OnlyAt(s, t, at) && at != Nowhere
    ensures Occurs(s, t, site)
  {
    match at
    case AtCall(c) => site := CallSite(c);
    case InQueue(w) =>
      assert t in s.queues[w];
      var i :| 0 <= i < |s.queues[w]| && s.queues[w][i] == t;
      site := QueueSite(w, i);
    case InHeap(w) =>
      assert t in s.heaps[w];
      var i :| 0 <= i < |s.heaps[w]| && s.heaps[w][i] == t;
      site := HeapSite(w, i);
    case AtWorker(w) => site := WorkerSite(w);
  }

  /** The place of a site. */
  function PlaceOf(site: Site): Place {
    match site
    case CallSite(c) => AtCall(c)
    case QueueSite(w, _) => InQueue(w)
    case HeapSite(w, _) => InHeap(w)
    case WorkerSite(w) => AtWorker(w)
  }

  lemma PlaceOfSite(s: State, t: TaskId, at: Place, site: Site)
    requires s.Pool() && OnlyAt(s, t, at) && Occurs(s, t, site)
    ensures at == PlaceOf(site)
  {
    match site
    case QueueSite(w, i) => assert s.queues[w][i] in s.queues[w];
    case HeapSite(w, i) => assert s.heaps[w][i] in s.heaps[w];
    case _ =>
  }

  lemma OneSite(s: State, t: TaskId, at: Place, a: Site, b: Site)
    requires s.Pool() && NoRepeats(s) && OnlyAt(s, t, at) && Occurs(s, t, a) && Occurs(s, t, b)
    ensures a == b
  {
    assert PlaceOf(a) == PlaceOf(b) by {
      PlaceOfSite(s, t, at, a);
      PlaceOfSite(s, t, at, b);
    }
    hide OnlyAt;
    match a
    case QueueSite(w, i) => assert Distinct(s.queues[w]);
    case HeapSite(w, i) => assert Distinct(s.heaps[w]);
    case _ =>
  }

  /** In every reachable state a task is alive exactly when some call, queue slot, heap slot or worker owns it; it never
      has two owners; and a deleted task has none. */
  lemma AliveIffExactlyOneSite(states: seq<State>, steps: seq<Step>, i: nat, t: TaskId)
    requires IsRun(states, steps) && i < |states| && t in states[i].tasks
    ensures forall a, b :: Occurs(states[i], t, a) && Occurs(states[i], t, b) ==> a == b
    ensures !states[i].tasks[t].deleted ==>
              (IsAlive(states[i].tasks[t].events) <==> exists site :: Occurs(states[i], t, site))
    ensures states[i].tasks[t].deleted ==> !exists site :: Occurs(states[i], t, site)
  {
    RunKeepsInv(states, steps, i);
    var s := states[i];
    assert HasPlace(s, t);
    var at :| TaskOk(s, t, at);
    hide OnlyAt, NoRepeats, Occurs;
    forall a, b | Occurs(s, t, a) && Occurs(s, t, b) ensures a == b {
      OneSite(s, t, at, a, b);
    }
    forall site | Occurs(s, t, site) ensures at != Nowhere {
      PlaceOfSite(s, t, at, site);
    }
    if at != Nowhere {
      var site := SiteOfPlace(s, t, at);
    }
  }

  /** The asserts of the code around a step: EnQueue and Insert get an element that is in no queue and no heap; Run is
      entered for a live task that nobody else runs; and delete takes a task that nothing refers to any more, not even
      a worker that has parked it and is about to write its event word. */
  ghost predicate AssertsHold(s: State, step: Step) {
    match step
    case SignalEnqueueStep(c) => c in s.calls ==> forall w :: 0 <= w < |s.queues| ==> s.calls[c].t !in s.queues[w]
    case ParkStep(w) =>
      w < |s.workers| && s.workers[w].Returned? ==> forall v :: 0 <= v < |s.heaps| ==> s.workers[w].t !in s.heaps[v]
    case StartStep(w) =>
      w < |s.workers| && s.workers[w].Starting? ==>
        && Live(s, s.workers[w].t)
        && forall v :: 0 <= v < |s.workers| && v != w ==> s.workers[v].Held() != Some(s.workers[w].t)
    case DeleteStep(w) =>
      w < |s.workers| && s.workers[w].Returned? ==>
        && (forall site :: Occurs(s, s.workers[w].t, site) ==> site == WorkerSite(w))
        && forall v :: 0 <= v < |s.workers| ==> s.workers[v] != Parking(s.workers[w].t)
    case _ => true
  }

  lemma DeletesAlone(s: State, w: Thread)
    requires Inv(s) && w < |s.workers| && s.workers[w].Returned?
    ensures forall site :: Occurs(s, s.workers[w].t, site) ==> site == WorkerSite(w)
    ensures forall v :: 0 <= v < |s.workers| ==> s.workers[v] != Parking(s.workers[w].t)
  {
    var t := s.workers[w].t;
    assert HasPlace(s, t);
    var at :| TaskOk(s, t, at);
    assert at == AtWorker(w) && Occurs(s, t, WorkerSite(w));
    forall v | 0 <= v < |s.workers| ensures s.workers[v] != Parking(t) {
    }
    hide OnlyAt, NoRepeats, Occurs;
    forall site | Occurs(s, t, site) ensures site == WorkerSite(w) {
      OneSite(s, t, at, site, WorkerSite(w));
    }
  }

  lemma AssertsNeverFail(states: seq<State>, steps: seq<Step>, i: nat)
    requires IsRun(states, steps) && i < |steps|
    ensures AssertsHold(states[i], steps[i])
  {
    RunKeepsInv(states, steps, i);
    assert StepAt(states, steps, i);
    var s := states[i];
    match steps[i]
    case SignalEnqueueStep(c) => assert HasPlace(s, s.calls[c].t);
    case ParkStep(w) => assert HasPlace(s, s.workers[w].t);
    case StartStep(w) => assert HasPlace(s, s.workers[w].t);
    case DeleteStep(w) => DeletesAlone(s, w);
    case _ =>
  }

  /** A step of a Signal call that owns a task. */
  predicate IsOwnStep(step: Step, c: CallId) {
    IsCallStep(step) && !step.SignalOrStep? && step.c == c
  }

  /** How many own steps a call is away from having its task queued. */
  function StepsLeft(pc: SignalPc): (n: nat)
    ensures 1 <= n <= 3
  {
    match pc
    case ApplyDefault(_) => 3
    case Choose(_) => 2
    case Enqueue(_, _) => 1
  }

  /** A Signal call that owns a task can always go on: the thread it picks exists. */
  lemma CallsNeverStuck(states: seq<State>, steps: seq<Step>, i: nat, c: CallId)
    requires IsRun(states, steps) && i < |states| && c in states[i].calls
    ensures exists step, s' :: IsOwnStep(step, c) && Next(states[i], step, s')
  {
    RunKeepsInv(states, steps, i);
    var s := states[i];
    assert HasPlace(s, s.calls[c].t);
    match s.calls[c]
    case ApplyDefault(_) => assert Next(s, SignalDefaultStep(c), SignalDefault(s, c));
    case Choose(_) => assert Next(s, SignalChooseStep(c), SignalChoose(s, c));
    case Enqueue(_, _) => assert Next(s, SignalEnqueueStep(c), SignalEnqueue(s, c));
  }

  ghost predicate Queued(s: State, t: TaskId) {
    exists w :: 0 <= w < |s.queues| && t in s.queues[w]
  }

  /** Its own steps bring a call on, the last one by queueing the task; other steps leave it where it is. */
  lemma CallAdvances(s: State, step: Step, s': State, c: CallId)
    requires Next(s, step, s') && c in s.calls
    ensures !IsOwnStep(step, c) ==> c in s'.calls && s'.calls[c] == s.calls[c]
    ensures IsOwnStep(step, c) && StepsLeft(s.calls[c]) == 1 ==> Queued(s', s.calls[c].t)
    ensures IsOwnStep(step, c) && StepsLeft(s.calls[c]) != 1 ==>
              && c in s'.calls && s'.calls[c].t == s.calls[c].t && StepsLeft(s'.calls[c]) == StepsLeft(s.calls[c]) - 1
  {
    if IsOwnStep(step, c) && StepsLeft(s.calls[c]) == 1 {
      var w := s.calls[c].target;
      assert s'.queues[w][|s.queues[w]|] == s.calls[c].t;
    }
  }

  function OwnSteps(steps: seq<Step>, i: nat, j: nat, c: CallId): nat
    requires i <= j <= |steps|
    decreases j - i
  {
    if i == j then 0 else (if IsOwnStep(steps[i], c) then 1 else 0) + OwnSteps(steps, i + 1, j, c)
  }

  /** However its steps are interleaved with others, a call has its task queued by its last step, three of its own at
      the most. */
  lemma {:induction false} CallsGetQueued(states: seq<State>, steps: seq<Step>, i: nat, j: nat, c: CallId)
    requires IsRun(states, steps) && i <= j <= |steps| && c in states[i].calls
    requires StepsLeft(states[i].calls[c]) <= OwnSteps(steps, i, j, c)
    ensures exists k :: i < k <= j && Queued(states[k], states[i].calls[c].t)
    decreases j - i
  {
    assert StepAt(states, steps, i);
    CallAdvances(states[i], steps[i], states[i + 1], c);
    if IsOwnStep(steps[i], c) && StepsLeft(states[i].calls[c]) == 1 {
      assert Queued(states[i + 1], states[i].calls[c].t);
    } else {
      hide Queued, IsOwnStep, IsRun, StepAt;
      CallsGetQueued(states, steps, i + 1, j, c);
      var k :| i + 1 < k <= j && Queued(states[k], states[i + 1].calls[c].t);
    }
  }

  // ---------- No event is lost ----------

  /** This step is the GetEvents of task t that reports event b. */
  predicate Reports(s: State, step: Step, t: TaskId, b: nat) {
    && step.SubtractEventsStep? && step.w < |s.workers| && s.workers[step.w].Getting?
    && s.workers[step.w].t == t && b in s.workers[step.w].events
  }

  lemma SubtractLosesOnlyReported(s: State, w: Thread, t: TaskId, b: nat)
    requires Inv(s) && w < |s.workers| && s.workers[w].Getting? && t in s.tasks && b in Pending(s.tasks[t].events)
    requires s.workers[w].t == t && b !in s.workers[w].events && !s.tasks[t].deleted
    ensures b in Pending(SubtractEvents(s, w).tasks[t].events)
  {
    assert HasPlace(s, t);
    SubtractClearsExactly(s.tasks[t].events, s.workers[w].events);
  }

  lemma PendingUntilReported(s: State, step: Step, s': State, t: TaskId, b: nat)
    requires Inv(s) && Next(s, step, s') && Live(s, t) && b in Pending(s.tasks[t].events)
    ensures t in s'.tasks
    ensures Live(s', t) && !Reports(s, step, t, b) ==> b in Pending(s'.tasks[t].events)
  {
    if step.SubtractEventsStep? {
      if s.workers[step.w].t == t && b !in s.workers[step.w].events {
        SubtractLosesOnlyReported(s, step.w, t, b);
      }
    } else if step.CompareAndStoreStep? {
      RetirableWord(s.tasks[t].events);
    } else {
      OtherStepsKeepPending(s, step, s', t, b);
    }
  }

  lemma OtherStepsKeepPending(s: State, step: Step, s': State, t: TaskId, b: nat)
    requires Next(s, step, s') && Live(s, t) && b in Pending(s.tasks[t].events)
    requires !step.SubtractEventsStep? && !step.CompareAndStoreStep?
    ensures t in s'.tasks && b in Pending(s'.tasks[t].events)
  {
    if IsCallStep(step) {
      assert CallNext(s, step, s');
    } else if IsTakeStep(step) {
      assert TakeNext(s, step, s');
    } else {
      assert RunNext(s, step, s');
    }
  }

  lemma PendingIsAlive(s: State, t: TaskId, b: nat)
    requires Inv(s) && Live(s, t) && b in Pending(s.tasks[t].events)
    ensures IsAlive(s.tasks[t].events)
  {
    assert HasPlace(s, t);
  }

  /** Some GetEvents of the task in steps i + 1 .. j - 1 reports the event. */
  ghost predicate Reported(states: seq<State>, steps: seq<Step>, i: nat, j: nat, t: TaskId, b: nat)
    requires j < |states| == |steps| + 1
  {
    exists k :: i < k < j && Reports(states[k], steps[k], t, b)
  }

  lemma ReportedLater(states: seq<State>, steps: seq<Step>, i: nat, j: nat, t: TaskId, b: nat)
    requires i < j < |steps| && |states| == |steps| + 1
    requires Reported(states, steps, i, j, t, b) || Reports(states[j], steps[j], t, b)
    ensures Reported(states, steps, i, j + 1, t, b)
  {
  }

  /** The step signals an event to a task: a Signal call, or the idle event that a worker gives a task it has parked. */
  predicate Signals(s: State, step: Step, t: TaskId, b: nat) {
    || (step.SignalOrStep? && step.t == t && b in Pending(step.events))
    || (step.SignalIdleStep? && step.w < |s.workers| && s.workers[step.w] == Parking(t) && b == IDLE_BIT)
  }

  lemma SignalledIsPending(s: State, step: Step, s': State, t: TaskId, b: nat)
    requires Inv(s) && Next(s, step, s') && Signals(s, step, t, b)
    ensures Live(s', t) && b in Pending(s'.tasks[t].events)
  {
    assert HasPlace(s, t);
  }

  /** An event signalled in step i is pending in every later state of the live task until some GetEvents of that task
      reports it; and while it is pending the task is alive, so something is going to run it. */
  lemma {:induction false} NoEventLost(states: seq<State>, steps: seq<Step>, i: nat, j: nat, t: TaskId, b: nat)
    requires IsRun(states, steps) && i < j < |states|
    requires Signals(states[i], steps[i], t, b)
    requires Live(states[j], t)
    ensures (b in Pending(states[j].tasks[t].events) && IsAlive(states[j].tasks[t].events))
            || Reported(states, steps, i, j, t, b)
    decreases j
  {
    assert StepAt(states, steps, j - 1);
    RunKeepsInv(states, steps, i);
    RunKeepsInv(states, steps, j - 1);
    RunKeepsInv(states, steps, j);
    hide Inv, Next, Signals, Reported, Reports, Pending, IsAlive;
    if j == i + 1 {
      SignalledIsPending(states[i], steps[i], states[j], t, b);
      PendingIsAlive(states[j], t, b);
    } else {
      LiveBefore(states, steps, i, j - 1, t, b);
      NoEventLost(states, steps, i, j - 1, t, b);
      if Reported(states, steps, i, j - 1, t, b) || Reports(states[j - 1], steps[j - 1], t, b) {
        ReportedLater(states, steps, i, j - 1, t, b);
      } else {
        PendingUntilReported(states[j - 1], steps[j - 1], states[j], t, b);
        PendingIsAlive(states[j], t, b);
      }
    }
  }

  /** A deleted task stays deleted, so a live task was live at every moment since it was signalled. */
  lemma {:induction false} LiveBefore(states: seq<State>, steps: seq<Step>, i: nat, j: nat, t: TaskId, b: nat)
    requires IsRun(states, steps) && i < j && j + 1 < |states|
    requires Signals(states[i], steps[i], t, b) && Live(states[j + 1], t)
    ensures Live(states[j], t)
  {
    RunKeepsInv(states, steps, i);
    assert StepAt(states, steps, i);
    SignalledIsPending(states[i], steps[i], states[i + 1], t, b);
    TasksStay(states, steps, i + 1, j, t);
    assert StepAt(states, steps, j);
  }

  lemma {:induction false} TasksStay(states: seq<State>, steps: seq<Step>, i: nat, j: nat, t: TaskId)
    requires IsRun(states, steps) && i <= j < |states| && t in states[i].tasks
    ensures t in states[j].tasks
  {
    if i < j {
      TasksStay(states, steps, i, j - 1, t);
      assert StepAt(states, steps, j - 1);
    }
  }

  /** compare_and_store retires the task exactly when every event signalled so far has been reported; otherwise the same
      worker runs the task again. */
  lemma RetiredOnlyWhenNothingOwed(states: seq<State>, steps: seq<Step>, i: nat, w: Thread)
    requires IsRun(states, steps) && i < |steps| && steps[i] == CompareAndStoreStep(w)
    requires w < |states[i].workers| && states[i].workers[w].Returned? && states[i].workers[w].t in states[i].tasks
    ensures var t := states[i].workers[w].t;
            && t in states[i + 1].tasks && w < |states[i + 1].workers|
            && if states[i].tasks[t].owed == {}
               then !IsAlive(states[i + 1].tasks[t].events) && states[i + 1].workers[w] == Waiting
               else IsAlive(states[i + 1].tasks[t].events) && states[i + 1].workers[w] == Starting(t)
  {
    RunKeepsInv(states, steps, i);
    assert StepAt(states, steps, i);
    var t := states[i].workers[w].t;
    assert HasPlace(states[i], t);
    RetirableWord(states[i].tasks[t].events);
  }

  // ---------- ForceSameThread ----------

  lemma RequestPersists(s: State, step: Step, s': State, t: TaskId, w: Thread)
    requires Inv(s) && Next(s, step, s') && t in s.tasks && s.tasks[t].useThis == Some(w)
    ensures t in s'.tasks
    ensures step.StartStep? && s.workers[step.w].t == t ==> step.w == w
    ensures !(step.StartStep? && s.workers[step.w].t == t) ==> s'.tasks[t].useThis == Some(w)
  {
    assert HasPlace(s, t);
    if !step.StartStep? && !step.ForceSameThreadStep? {
      OtherStepsKeepRequest(s, step, s', t, w);
    }
  }

  lemma OtherStepsKeepRequest(s: State, step: Step, s': State, t: TaskId, w: Thread)
    requires Next(s, step, s') && t in s.tasks && s.tasks[t].useThis == Some(w)
    requires !step.StartStep? && !step.ForceSameThreadStep?
    ensures t in s'.tasks && s'.tasks[t].useThis == Some(w)
  {
    if IsCallStep(step) {
      assert CallNext(s, step, s');
    } else if IsTakeStep(step) {
      assert TakeNext(s, step, s');
    } else {
      assert RunNext(s, step, s');
    }
  }

  /** After ForceSameThread on thread w, the next Run of that task is on thread w, however it gets scheduled again. */
  lemma {:induction false} ForcedRunStaysOnThread(states: seq<State>, steps: seq<Step>, i: nat, j: nat)
    requires IsRun(states, steps) && i < j < |steps|
    requires steps[i].ForceSameThreadStep? && steps[i].w < |states[i].workers| && states[i].workers[steps[i].w].Running?
    requires forall k :: i < k < j && steps[k].StartStep? && steps[k].w < |states[k].workers|
                         && states[k].workers[steps[k].w].Starting? ==>
                           states[k].workers[steps[k].w].t != states[i].workers[steps[i].w].t
    requires steps[j].StartStep? && steps[j].w < |states[j].workers| && states[j].workers[steps[j].w].Starting?
    requires states[j].workers[steps[j].w].t == states[i].workers[steps[i].w].t
    ensures steps[j].w == steps[i].w
  {
    RequestHolds(states, steps, i, j);
    RunKeepsInv(states, steps, j);
    assert StepAt(states, steps, j);
    RequestPersists(states[j], steps[j], states[j + 1], states[i].workers[steps[i].w].t, steps[i].w);
  }

  lemma {:induction false} RequestHolds(states: seq<State>, steps: seq<Step>, i: nat, j: nat)
    requires IsRun(states, steps) && i < j < |steps|
    requires steps[i].ForceSameThreadStep? && steps[i].w < |states[i].workers| && states[i].workers[steps[i].w].Running?
    requires forall k :: i < k < j && steps[k].StartStep? && steps[k].w < |states[k].workers|
                         && states[k].workers[steps[k].w].Starting? ==>
                           states[k].workers[steps[k].w].t != states[i].workers[steps[i].w].t
    ensures var t := states[i].workers[steps[i].w].t;
            t in states[j].tasks && states[j].tasks[t].useThis == Some(steps[i].w)
  {
    var t := states[i].workers[steps[i].w].t;
    RunKeepsInv(states, steps, j - 1);
    assert StepAt(states, steps, j - 1);
    if i < j - 1 {
      RequestHolds(states, steps, i, j - 1);
      RequestPersists(states[j - 1], steps[j - 1], states[j], t, steps[i].w);
    }
  }
}
