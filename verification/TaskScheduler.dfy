/**
 The task scheduler (CommonUtilitiesLib/Task.cpp, Task.h, atomic.cpp) as an interleaved step system.

 Any number of threads may be inside Task::Signal at the same time; each such call is a "signal call" with its
 own program counter. Every worker thread has a queue, a timer heap and a program counter. One step is one
 atomic action of the code: one operation of atomic.cpp, one queue operation under the queue's mutex, or one
 access to memory that only the acting thread may touch.
 */
module TaskScheduler {
  import opened Atomic
  import opened Common

  type TaskId = nat
  type CallId = nat
  type Thread = nat

  datatype Picker = ShortPicker | BlockingPicker

  /** `owed` is a history variable: the events signalled so far that no GetEvents has reported yet. */
  datatype Task = Task(
    events: Word, useThis: Option<Thread>, defaultThread: Option<Thread>, picker: Picker,
    timer: int, deleted: bool, owed: Word)

  /** Where a Signal call stands once its atomic_or has found the alive bit off. */
  datatype SignalPc =
    | ApplyDefault(t: TaskId)
    | Choose(t: TaskId)
    | Enqueue(t: TaskId, target: Thread)

  /** Where TaskThread::Entry stands. */
  datatype WorkerPc =
    | Waiting
    | Stopped
    | Starting(t: TaskId)
    | Running(t: TaskId)
    | Getting(t: TaskId, events: Word)
    | Returned(t: TaskId, timeout: int)
    | Parking(t: TaskId)
  {
    /** The task this worker may run, retire, park or delete. */
    function Held(): Option<TaskId> {
      if Waiting? || Stopped? || Parking? then None else Some(t)
    }
  }

  datatype State = State(
    tasks: map<TaskId, Task>,
    workers: seq<WorkerPc>,
    queues: seq<seq<TaskId>>,
    heaps: seq<seq<TaskId>>,
    calls: map<CallId, SignalPc>,
    shortPicker: nat, blockingPicker: nat,
    numShort: nat, numBlocking: nat,
    now: int)
  {
    /** The pool: at least one short-task thread, and the blocking threads come after the short-task threads. */
    predicate Pool() {
      && |queues| == |workers| && |heaps| == |workers|
      && 0 < numShort && numShort + numBlocking <= |workers|
      && (forall c :: c in calls ==> calls[c].t in tasks)
      && (forall w :: 0 <= w < |workers| && !workers[w].Waiting? && !workers[w].Stopped? ==> workers[w].t in tasks)
      && (forall w, i :: 0 <= w < |queues| && 0 <= i < |queues[w]| ==> queues[w][i] in tasks)
      && (forall w, i :: 0 <= w < |heaps| && 0 <= i < |heaps[w]| ==> heaps[w][i] in tasks)
      && (forall t :: t in tasks && tasks[t].picker.BlockingPicker? ==> 0 < numBlocking)
    }
  }

  /** The state of a pool after AddThreads, before any task exists. */
  ghost predicate Init(s: State) {
    && s.Pool() && s.tasks == map[] && s.calls == map[]
    && forall w :: 0 <= w < |s.workers| ==> s.workers[w] == Waiting && s.queues[w] == [] && s.heaps[w] == []
  }

  predicate Live(s: State, t: TaskId) {
    t in s.tasks && !s.tasks[t].deleted
  }

  /** A new task: no events, no requested thread. */
  function Create(s: State, t: TaskId, defaultThread: Option<Thread>, picker: Picker): State {
    s.(tasks := s.tasks[t := Task({}, None, defaultThread, picker, 0, false, {})])
  }

  // ---------- Actions of Task::Signal ----------

  /** The atomic_or. Only the call that finds the alive bit off goes on to enqueue the task. */
  function SignalOr(s: State, c: CallId, t: TaskId, events: Word): State
    requires s.Pool() && c !in s.calls && Live(s, t)
  {
    var task := s.tasks[t];
    var marked := task.(events := AtomicOr(task.events, events + {ALIVE_BIT}), owed := task.owed + Pending(events));
    s.(tasks := s.tasks[t := marked],
       calls := if IsAlive(task.events) then s.calls else s.calls[c := ApplyDefault(t)])
  }

  predicate CallAt(s: State, c: CallId) {
    s.Pool() && c in s.calls
  }

  /** A task with a default thread and no request of its own gets the default. */
  function SignalDefault(s: State, c: CallId): State
    requires CallAt(s, c) && s.calls[c].ApplyDefault?
  {
    var t := s.calls[c].t;
    var task := s.tasks[t];
    var useThis := if task.defaultThread.Some? && task.useThis.None? then task.defaultThread else task.useThis;
    s.(tasks := s.tasks[t := task.(useThis := useThis)], calls := s.calls[c := Choose(t)])
  }

  /** The requested thread, or else round robin through an atomic_add on its picker. */
  function SignalChoose(s: State, c: CallId): State
    requires CallAt(s, c) && s.calls[c].Choose?
  {
    var t := s.calls[c].t;
    var task := s.tasks[t];
    if task.useThis.Some? then s.(calls := s.calls[c := Enqueue(t, task.useThis.value)])
    else if task.picker.ShortPicker? then
      var picked := (s.shortPicker + 1) % TWO_TO_THE_32;
      s.(calls := s.calls[c := Enqueue(t, picked % s.numShort)], shortPicker := picked)
    else
      var picked := (s.blockingPicker + 1) % TWO_TO_THE_32;
      s.(calls := s.calls[c := Enqueue(t, picked % s.numBlocking + s.numShort)], blockingPicker := picked)
  }

  /** The task joins the tail of the target's queue and the Signal call is over. */
  function SignalEnqueue(s: State, c: CallId): State
    requires CallAt(s, c) && s.calls[c].Enqueue? && s.calls[c].target < |s.workers|
  {
    var w := s.calls[c].target;
    s.(queues := s.queues[w := s.queues[w] + [s.calls[c].t]], calls := s.calls - {c})
  }

  // ---------- Actions of TaskThread ----------

  predicate WorkerAt(s: State, w: Thread) {
    s.Pool() && w < |s.workers|
  }

  /** The least timer of a worker's heap is at slot `i` and has expired. */
  predicate Expired(s: State, w: Thread, i: nat)
    requires s.Pool() && w < |s.workers|
  {
    && i < |s.heaps[w]|
    && s.tasks[s.heaps[w][i]].timer <= s.now
    && forall j :: 0 <= j < |s.heaps[w]| ==> s.tasks[s.heaps[w][i]].timer <= s.tasks[s.heaps[w][j]].timer
  }

  /** WaitForTask returns NULL when the pool is told to stop. */
  function Stop(s: State, w: Thread): State
    requires WorkerAt(s, w) && s.workers[w].Waiting?
  {
    s.(workers := s.workers[w := Stopped])
  }

  /** WaitForTask finds an expired timer: ExtractMin. */
  function TakeTimer(s: State, w: Thread, i: nat): State
    requires WorkerAt(s, w) && s.workers[w].Waiting? && Expired(s, w, i)
  {
    s.(workers := s.workers[w := Starting(s.heaps[w][i])], heaps := s.heaps[w := Without(s.heaps[w], i)])
  }

  /** WaitForTask takes the head of its own queue. */
  function TakeQueue(s: State, w: Thread): State
    requires WorkerAt(s, w) && s.workers[w].Waiting? && s.queues[w] != []
  {
    s.(workers := s.workers[w := Starting(s.queues[w][0])], queues := s.queues[w := Without(s.queues[w], 0)])
  }

  /** Entry forgets the requested thread and enters Run. */
  function Start(s: State, w: Thread): State
    requires WorkerAt(s, w) && s.workers[w].Starting?
  {
    var t := s.workers[w].t;
    s.(tasks := s.tasks[t := s.tasks[t].(useThis := None)], workers := s.workers[w := Running(t)])
  }

  /** GetEvents, first half: read the word without the alive bit. */
  function ReadEvents(s: State, w: Thread): State
    requires WorkerAt(s, w) && s.workers[w].Running?
  {
    var t := s.workers[w].t;
    s.(workers := s.workers[w := Getting(t, Pending(s.tasks[t].events))])
  }

  /** GetEvents, second half: atomic_sub of what was read, which is then reported. */
  function SubtractEvents(s: State, w: Thread): State
    requires WorkerAt(s, w) && s.workers[w].Getting?
  {
    var Getting(t, events) := s.workers[w];
    var task := s.tasks[t];
    s.(tasks := s.tasks[t := task.(events := AtomicSub(task.events, events), owed := task.owed - events)],
       workers := s.workers[w := Running(t)])
  }

  function ForceSameThread(s: State, w: Thread): State
    requires WorkerAt(s, w) && s.workers[w].Running?
  {
    var t := s.workers[w].t;
    s.(tasks := s.tasks[t := s.tasks[t].(useThis := Some(w))])
  }

  function Return(s: State, w: Thread, timeout: int): State
    requires WorkerAt(s, w) && s.workers[w].Running?
  {
    s.(workers := s.workers[w := Returned(s.workers[w].t, timeout)])
  }

  /** A negative result of Run deletes the task. */
  function Delete(s: State, w: Thread): State
    requires WorkerAt(s, w) && s.workers[w].Returned? && s.workers[w].timeout < 0
  {
    var t := s.workers[w].t;
    s.(tasks := s.tasks[t := s.tasks[t].(deleted := true)], workers := s.workers[w := Waiting])
  }

  /** Result 0: compare_and_store retires the task, or the worker runs it again. */
  function CompareAndStore(s: State, w: Thread): State
    requires WorkerAt(s, w) && s.workers[w].Returned? && s.workers[w].timeout == 0
  {
    var t := s.workers[w].t;
    if s.tasks[t].events == {ALIVE_BIT} then
      s.(tasks := s.tasks[t := s.tasks[t].(events := {})], workers := s.workers[w := Waiting])
    else
      s.(workers := s.workers[w := Starting(t)])
  }

  /** A positive result parks the task in this worker's own timer heap. */
  function Park(s: State, w: Thread): State
    requires WorkerAt(s, w) && s.workers[w].Returned? && 0 < s.workers[w].timeout
  {
    var Returned(t, timeout) := s.workers[w];
    s.(tasks := s.tasks[t := s.tasks[t].(timer := s.now + timeout)],
       workers := s.workers[w := Parking(t)], heaps := s.heaps[w := s.heaps[w] + [t]])
  }

  /** The atomic_or of the idle event after parking. */
  function SignalIdle(s: State, w: Thread): State
    requires WorkerAt(s, w) && s.workers[w].Parking?
  {
    var t := s.workers[w].t;
    var task := s.tasks[t];
    s.(tasks := s.tasks[t := task.(events := AtomicOr(task.events, {IDLE_BIT}), owed := task.owed + {IDLE_BIT})],
       workers := s.workers[w := Waiting])
  }

  // ---------- Steps and runs ----------

  datatype Step =
    | CreateStep(t: TaskId, defaultThread: Option<Thread>, picker: Picker)
    | SignalOrStep(c: CallId, t: TaskId, events: Word)
    | SignalDefaultStep(c: CallId)
    | SignalChooseStep(c: CallId)
    | SignalEnqueueStep(c: CallId)
    | TakeTimerStep(w: Thread, i: nat)
    | TakeQueueStep(w: Thread)
    | StopStep(w: Thread)
    | StartStep(w: Thread)
    | ReadEventsStep(w: Thread)
    | SubtractEventsStep(w: Thread)
    | ForceSameThreadStep(w: Thread)
    | ReturnStep(w: Thread, timeout: int)
    | DeleteStep(w: Thread)
    | CompareAndStoreStep(w: Thread)
    | ParkStep(w: Thread)
    | SignalIdleStep(w: Thread)
    | TickStep(now: int)

  predicate IsCallStep(step: Step) {
    step.SignalOrStep? || step.SignalDefaultStep? || step.SignalChooseStep? || step.SignalEnqueueStep?
  }

  predicate IsTakeStep(step: Step) {
    step.TakeTimerStep? || step.TakeQueueStep? || step.CreateStep? || step.StopStep? || step.TickStep?
  }

  /** A step inside Signal. Nobody signals a deleted task. */
  ghost predicate CallNext(s: State, step: Step, s': State)
    requires s.Pool() && IsCallStep(step)
  {
    match step
    case SignalOrStep(c, t, events) => c !in s.calls && Live(s, t) && s' == SignalOr(s, c, t, events)
    case SignalDefaultStep(c) => c in s.calls && s.calls[c].ApplyDefault? && s' == SignalDefault(s, c)
    case SignalChooseStep(c) => c in s.calls && s.calls[c].Choose? && s' == SignalChoose(s, c)
    case SignalEnqueueStep(c) =>
      c in s.calls && s.calls[c].Enqueue? && s.calls[c].target < |s.workers| && s' == SignalEnqueue(s, c)
  }

  /** A step of an idle worker, a new task (whose default thread and picker group exist), or the clock. */
  ghost predicate TakeNext(s: State, step: Step, s': State)
    requires s.Pool() && IsTakeStep(step)
  {
    match step
    case CreateStep(t, d, picker) =>
      && t !in s.tasks && (d.Some? ==> d.value < |s.workers|) && (picker.BlockingPicker? ==> 0 < s.numBlocking)
      && s' == Create(s, t, d, picker)
    case TakeTimerStep(w, i) => w < |s.workers| && s.workers[w].Waiting? && Expired(s, w, i) && s' == TakeTimer(s, w, i)
    case TakeQueueStep(w) => w < |s.workers| && s.workers[w].Waiting? && s.queues[w] != [] && s' == TakeQueue(s, w)
    case StopStep(w) => w < |s.workers| && s.workers[w].Waiting? && s' == Stop(s, w)
    case TickStep(now) => s.now <= now && s' == s.(now := now)
  }

  /** A step of a worker that has a task. Only the running task asks for its events. */
  ghost predicate RunNext(s: State, step: Step, s': State)
    requires s.Pool() && !IsCallStep(step) && !IsTakeStep(step)
  {
    match step
    case StartStep(w) => w < |s.workers| && s.workers[w].Starting? && s' == Start(s, w)
    case ReadEventsStep(w) => w < |s.workers| && s.workers[w].Running? && s' == ReadEvents(s, w)
    case SubtractEventsStep(w) => w < |s.workers| && s.workers[w].Getting? && s' == SubtractEvents(s, w)
    case ForceSameThreadStep(w) => w < |s.workers| && s.workers[w].Running? && s' == ForceSameThread(s, w)
    case ReturnStep(w, timeout) => w < |s.workers| && s.workers[w].Running? && s' == Return(s, w, timeout)
    case DeleteStep(w) => w < |s.workers| && s.workers[w].Returned? && s.workers[w].timeout < 0 && s' == Delete(s, w)
    case CompareAndStoreStep(w) =>
      w < |s.workers| && s.workers[w].Returned? && s.workers[w].timeout == 0 && s' == CompareAndStore(s, w)
    case ParkStep(w) => w < |s.workers| && s.workers[w].Returned? && 0 < s.workers[w].timeout && s' == Park(s, w)
    case SignalIdleStep(w) => w < |s.workers| && s.workers[w].Parking? && s' == SignalIdle(s, w)
  }

  ghost predicate Next(s: State, step: Step, s': State) {
    s.Pool() &&
    if IsCallStep(step) then CallNext(s, step, s')
    else if IsTakeStep(step) then TakeNext(s, step, s')
    else RunNext(s, step, s')
  }

  ghost predicate StepAt(states: seq<State>, steps: seq<Step>, i: nat) {
    |states| == |steps| + 1 && i < |steps| && Next(states[i], steps[i], states[i + 1])
  }

  /** A run: a start state, and one state per step after it. */
  ghost predicate IsRun(states: seq<State>, steps: seq<Step>) {
    && |states| == |steps| + 1
    && Init(states[0])
    && forall i :: 0 <= i < |steps| ==> StepAt(states, steps, i)
  }
}
