/** The alive-bit protocol of CommonUtilitiesLib/Task.cpp: the invariant that every step of the scheduler keeps. */
module SchedulerInvariant {
  import opened Atomic
  import opened Common
  import opened TaskScheduler

  // ---------- The alive-bit invariant ----------

  /** The one place that owns a task. */
  datatype Place = Nowhere | AtCall(c: CallId) | InQueue(w: Thread) | InHeap(w: Thread) | AtWorker(w: Thread)

  /** Task t occurs at place `at` and at no other place. */
  ghost predicate OnlyAt(s: State, t: TaskId, at: Place) {
    && (at.AtCall? ==> at.c in s.calls)
    && (at.InQueue? || at.InHeap? || at.AtWorker? ==> at.w < |s.workers|)
    && (forall w :: 0 <= w < |s.queues| ==> (t in s.queues[w] <==> at == InQueue(w)))
    && (forall w :: 0 <= w < |s.heaps| ==> (t in s.heaps[w] <==> at == InHeap(w)))
    && (forall w :: 0 <= w < |s.workers| ==> (s.workers[w].Held() == Some(t) <==> at == AtWorker(w)))
    && (forall w :: 0 <= w < |s.workers| && s.workers[w] == Parking(t) ==> at == InHeap(w))
    && (forall c :: c in s.calls ==> (s.calls[c].t == t <==> at == AtCall(c)))
  }

  /** The event word of a task: alive exactly when some place owns it, its pending bits are exactly the owed events,
      and no event is pending on a task that nobody owns. */
  ghost predicate WordOk(task: Task, at: Place) {
    if task.deleted then at == Nowhere
    else
      && (IsAlive(task.events) <==> at != Nowhere)
      && Pending(task.events) == task.owed
      && (at == Nowhere ==> task.owed == {})
  }

  /** What a GetEvents in progress has read is still pending. */
  ghost predicate ReadOk(s: State, task: Task, at: Place) {
    at.AtWorker? && at.w < |s.workers| && s.workers[at.w].Getting? ==>
      s.workers[at.w].events <= task.owed
  }

  /** A requested thread is the thread that owns the task, or the one it will be given to. */
  ghost predicate ThreadOk(s: State, task: Task, at: Place) {
    && (task.defaultThread.Some? ==> task.defaultThread.value < |s.workers|)
    && (at.AtCall? && at.c in s.calls && s.calls[at.c].Enqueue? ==>
          && s.calls[at.c].target < |s.workers|
          && (task.useThis.Some? ==> s.calls[at.c].target == task.useThis.value))
    && (task.useThis.Some? ==>
          && task.useThis.value < |s.workers|
          && (at.InQueue? || at.InHeap? || at.AtWorker? ==> at.w == task.useThis.value))
  }

  ghost predicate TaskOk(s: State, t: TaskId, at: Place) {
    && OnlyAt(s, t, at)
    && (if t in s.tasks then WordOk(s.tasks[t], at) && ReadOk(s, s.tasks[t], at) && ThreadOk(s, s.tasks[t], at)
        else at == Nowhere)
  }

  ghost predicate HasPlace(s: State, t: TaskId) {
    exists at :: TaskOk(s, t, at)
  }

  /** No queue and no timer heap holds a task twice. */
  ghost predicate NoRepeats(s: State) {
    && (forall w :: 0 <= w < |s.queues| ==> Distinct(s.queues[w]))
    && (forall w :: 0 <= w < |s.heaps| ==> Distinct(s.heaps[w]))
  }

  ghost predicate Inv(s: State) {
    s.Pool() && NoRepeats(s) && forall t :: HasPlace(s, t)
  }

  // ---------- Every step keeps the invariant ----------

  lemma SubtractKeepsWord(task: Task, at: Place, events: Word)
    requires WordOk(task, at) && at != Nowhere && events <= task.owed
    ensures WordOk(task.(events := AtomicSub(task.events, events), owed := task.owed - events), at)
  {
    SubtractClearsExactly(task.events, events);
  }

  lemma SubtractEventsOnlyAt(s: State, w: Thread, u: TaskId, at: Place)
    requires s.Pool() && w < |s.workers| && s.workers[w].Getting? && OnlyAt(s, u, at)
    ensures OnlyAt(SubtractEvents(s, w), u, at)
  {
  }

  lemma SignalChooseOnlyAt(s: State, c: CallId, u: TaskId, at: Place)
    requires s.Pool() && c in s.calls && s.calls[c].Choose? && OnlyAt(s, u, at)
    ensures OnlyAt(SignalChoose(s, c), u, at)
  {
  }

  lemma CreateKeeps(s: State, t: TaskId, d: Option<Thread>, picker: Picker, u: TaskId, at: Place)
    requires s.Pool() && t !in s.tasks && (d.Some? ==> d.value < |s.workers|) && TaskOk(s, u, at)
    ensures TaskOk(Create(s, t, d, picker), u, at)
  {
  }

  lemma SignalOrKeeps(s: State, c: CallId, t: TaskId, events: Word, u: TaskId, at: Place)
    requires s.Pool() && c !in s.calls && Live(s, t) && TaskOk(s, u, at)
    ensures TaskOk(SignalOr(s, c, t, events), u, if u == t && !IsAlive(s.tasks[t].events) then AtCall(c) else at)
  {
  }

  lemma SignalDefaultKeeps(s: State, c: CallId, u: TaskId, at: Place)
    requires s.Pool() && c in s.calls && s.calls[c].ApplyDefault? && TaskOk(s, u, at)
    ensures TaskOk(SignalDefault(s, c), u, at)
  {
  }

  lemma SignalChooseKeeps(s: State, c: CallId, u: TaskId, at: Place)
    requires s.Pool() && c in s.calls && s.calls[c].Choose? && TaskOk(s, u, at)
    ensures TaskOk(SignalChoose(s, c), u, at)
  {
    SignalChooseOnlyAt(s, c, u, at);
  }

  lemma SignalEnqueueKeeps(s: State, c: CallId, u: TaskId, at: Place)
    requires s.Pool() && c in s.calls && s.calls[c].Enqueue? && s.calls[c].target < |s.workers| && TaskOk(s, u, at)
    ensures TaskOk(SignalEnqueue(s, c), u, if u == s.calls[c].t then InQueue(s.calls[c].target) else at)
  {
  }

  lemma StopKeeps(s: State, w: Thread, u: TaskId, at: Place)
    requires s.Pool() && w < |s.workers| && s.workers[w].Waiting? && TaskOk(s, u, at)
    ensures TaskOk(Stop(s, w), u, at)
  {
  }

  lemma TakeTimerKeeps(s: State, w: Thread, i: nat, u: TaskId, at: Place)
    requires s.Pool() && NoRepeats(s) && w < |s.workers| && s.workers[w].Waiting? && Expired(s, w, i) && TaskOk(s, u, at)
    ensures TaskOk(TakeTimer(s, w, i), u, if u == s.heaps[w][i] then AtWorker(w) else at)
  {
    WithoutDistinct(s.heaps[w], i);
  }

  lemma TakeQueueKeeps(s: State, w: Thread, u: TaskId, at: Place)
    requires s.Pool() && NoRepeats(s) && w < |s.workers| && s.workers[w].Waiting? && s.queues[w] != [] && TaskOk(s, u, at)
    ensures TaskOk(TakeQueue(s, w), u, if u == s.queues[w][0] then AtWorker(w) else at)
  {
    WithoutDistinct(s.queues[w], 0);
  }

  lemma StartKeeps(s: State, w: Thread, u: TaskId, at: Place)
    requires s.Pool() && w < |s.workers| && s.workers[w].Starting? && TaskOk(s, u, at)
    ensures TaskOk(Start(s, w), u, at)
  {
  }

  lemma ReadEventsKeeps(s: State, w: Thread, u: TaskId, at: Place)
    requires s.Pool() && w < |s.workers| && s.workers[w].Running? && TaskOk(s, u, at)
    ensures TaskOk(ReadEvents(s, w), u, at)
  {
  }

  lemma SubtractEventsKeeps(s: State, w: Thread, u: TaskId, at: Place)
    requires s.Pool() && w < |s.workers| && s.workers[w].Getting? && TaskOk(s, u, at)
    ensures TaskOk(SubtractEvents(s, w), u, at)
  {
    SubtractEventsOnlyAt(s, w, u, at);
    if u == s.workers[w].t { SubtractKeepsWord(s.tasks[u], at, s.workers[w].events); }
  }

  lemma ForceSameThreadKeeps(s: State, w: Thread, u: TaskId, at: Place)
    requires s.Pool() && w < |s.workers| && s.workers[w].Running? && TaskOk(s, u, at)
    ensures TaskOk(ForceSameThread(s, w), u, at)
  {
  }

  lemma ReturnKeeps(s: State, w: Thread, timeout: int, u: TaskId, at: Place)
    requires s.Pool() && w < |s.workers| && s.workers[w].Running? && TaskOk(s, u, at)
    ensures TaskOk(Return(s, w, timeout), u, at)
  {
  }

  lemma DeleteKeeps(s: State, w: Thread, u: TaskId, at: Place)
    requires s.Pool() && w < |s.workers| && s.workers[w].Returned? && s.workers[w].timeout < 0 && TaskOk(s, u, at)
    ensures TaskOk(Delete(s, w), u, if u == s.workers[w].t then Nowhere else at)
  {
  }

  lemma CompareAndStoreKeeps(s: State, w: Thread, u: TaskId, at: Place)
    requires s.Pool() && w < |s.workers| && s.workers[w].Returned? && s.workers[w].timeout == 0 && TaskOk(s, u, at)
    ensures TaskOk(CompareAndStore(s, w), u, if u == s.workers[w].t && s.tasks[u].events == {ALIVE_BIT} then Nowhere else at)
  {
    RetirableWord(s.tasks[s.workers[w].t].events);
  }

  lemma ParkKeeps(s: State, w: Thread, u: TaskId, at: Place)
    requires s.Pool() && w < |s.workers| && s.workers[w].Returned? && 0 < s.workers[w].timeout && TaskOk(s, u, at)
    ensures TaskOk(Park(s, w), u, if u == s.workers[w].t then InHeap(w) else at)
  {
  }

  lemma SignalIdleKeeps(s: State, w: Thread, u: TaskId, at: Place)
    requires s.Pool() && w < |s.workers| && s.workers[w].Parking? && TaskOk(s, u, at)
    ensures TaskOk(SignalIdle(s, w), u, at)
  {
  }

  lemma CallKeepsPool(s: State, step: Step, s': State)
    requires s.Pool() && IsCallStep(step) && CallNext(s, step, s')
    ensures s'.Pool()
  {
  }

  lemma CallKeepsPlace(s: State, step: Step, s': State, u: TaskId)
    requires Inv(s) && IsCallStep(step) && CallNext(s, step, s')
    ensures HasPlace(s', u)
  {
    assert HasPlace(s, u);
    var at :| TaskOk(s, u, at);
    match step
    case SignalOrStep(c, t, events) => SignalOrKeeps(s, c, t, events, u, at);
    case SignalDefaultStep(c) => SignalDefaultKeeps(s, c, u, at);
    case SignalChooseStep(c) => SignalChooseKeeps(s, c, u, at);
    case SignalEnqueueStep(c) => SignalEnqueueKeeps(s, c, u, at);
  }

  lemma TakeKeepsPool(s: State, step: Step, s': State)
    requires s.Pool() && IsTakeStep(step) && TakeNext(s, step, s')
    ensures s'.Pool()
  {
  }

  lemma TakeKeepsPlace(s: State, step: Step, s': State, u: TaskId)
    requires Inv(s) && IsTakeStep(step) && TakeNext(s, step, s')
    ensures HasPlace(s', u)
  {
    assert HasPlace(s, u);
    var at :| TaskOk(s, u, at);
    match step
    case CreateStep(t, d, picker) => CreateKeeps(s, t, d, picker, u, at);
    case StopStep(w) => StopKeeps(s, w, u, at);
    case TakeTimerStep(w, i) => TakeTimerKeeps(s, w, i, u, at);
    case TakeQueueStep(w) => TakeQueueKeeps(s, w, u, at);
    case TickStep(now) => assert TaskOk(s', u, at);
  }

  lemma RunKeepsPool(s: State, step: Step, s': State)
    requires s.Pool() && !IsCallStep(step) && !IsTakeStep(step) && RunNext(s, step, s')
    ensures s'.Pool()
  {
  }

  lemma RunKeepsPlace(s: State, step: Step, s': State, u: TaskId)
    requires Inv(s) && !IsCallStep(step) && !IsTakeStep(step) && RunNext(s, step, s')
    ensures HasPlace(s', u)
  {
    assert HasPlace(s, u);
    var at :| TaskOk(s, u, at);
    match step
    case StartStep(w) => StartKeeps(s, w, u, at);
    case ReadEventsStep(w) => ReadEventsKeeps(s, w, u, at);
    case SubtractEventsStep(w) => SubtractEventsKeeps(s, w, u, at);
    case ForceSameThreadStep(w) => ForceSameThreadKeeps(s, w, u, at);
    case ReturnStep(w, timeout) => ReturnKeeps(s, w, timeout, u, at);
    case DeleteStep(w) => DeleteKeeps(s, w, u, at);
    case CompareAndStoreStep(w) => CompareAndStoreKeeps(s, w, u, at);
    case ParkStep(w) => ParkKeeps(s, w, u, at);
    case SignalIdleStep(w) => SignalIdleKeeps(s, w, u, at);
  }

  lemma AddKeepsNoRepeats(s: State, step: Step, s': State)
    requires Inv(s) && Next(s, step, s') && (step.SignalEnqueueStep? || step.ParkStep?)
    ensures NoRepeats(s')
  {
    match step
    case SignalEnqueueStep(c) => assert HasPlace(s, s.calls[c].t);
    case ParkStep(w) => assert HasPlace(s, s.workers[w].t);
  }

  lemma TakeKeepsNoRepeats(s: State, step: Step, s': State)
    requires Inv(s) && IsTakeStep(step) && TakeNext(s, step, s')
    ensures NoRepeats(s')
  {
    match step
    case TakeTimerStep(w, i) => WithoutDistinct(s.heaps[w], i);
    case TakeQueueStep(w) => WithoutDistinct(s.queues[w], 0);
    case _ =>
  }

  lemma StepKeepsInv(s: State, step: Step, s': State)
    requires Inv(s) && Next(s, step, s')
    ensures Inv(s')
  {
    if step.SignalEnqueueStep? || step.ParkStep? {
      AddKeepsNoRepeats(s, step, s');
    }
    if IsCallStep(step) {
      CallKeepsPool(s, step, s');
      forall t ensures HasPlace(s', t) { CallKeepsPlace(s, step, s', t); }
    } else if IsTakeStep(step) {
      TakeKeepsPool(s, step, s');
      TakeKeepsNoRepeats(s, step, s');
      forall t ensures HasPlace(s', t) { TakeKeepsPlace(s, step, s', t); }
    } else {
      RunKeepsPool(s, step, s');
      forall t ensures HasPlace(s', t) { RunKeepsPlace(s, step, s', t); }
    }
  }

  lemma {:induction false} RunKeepsInv(states: seq<State>, steps: seq<Step>, i: nat)
    requires IsRun(states, steps) && i < |states|
    ensures Inv(states[i])
  {
    if i == 0 {
      forall t ensures HasPlace(states[0], t) { assert TaskOk(states[0], t, Nowhere); }
    } else {
      RunKeepsInv(states, steps, i - 1);
      assert StepAt(states, steps, i - 1);
      StepKeepsInv(states[i - 1], steps[i - 1], states[i]);
    }
  }
}
