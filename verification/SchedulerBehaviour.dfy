/** What the scheduler does for a task over whole runs: which events it reports, where it queues the task, in which order
    tasks run, and when a parked one does. */
module SchedulerBehaviour {
  import opened Atomic
  import opened Common
  import opened TaskScheduler
  import opened SchedulerInvariant
  import opened SchedulerTheorems

  /** A step of a worker thread. */
  predicate IsWorkerStep(step: Step, w: Thread) {
    !IsCallStep(step) && !step.CreateStep? && !step.TickStep? && step.w == w
  }

  /** Step j is the next step of the worker after step i. */
  ghost predicate NextOwnStep(steps: seq<Step>, i: nat, j: nat, w: Thread) {
    i < j < |steps| && IsWorkerStep(steps[j], w) && forall k :: i < k < j ==> !IsWorkerStep(steps[k], w)
  }

  lemma StepOfRun(states: seq<State>, steps: seq<Step>, i: nat)
    requires IsRun(states, steps) && i < |steps|
    ensures Next(states[i], steps[i], states[i + 1])
  {
    hide Next, Init;
    assert StepAt(states, steps, i);
  }

  // ---------- GetEvents ----------

  lemma WorkerWaits(s: State, step: Step, s': State, w: Thread)
    requires Next(s, step, s') && w < |s.workers| && !IsWorkerStep(step, w)
    ensures w < |s'.workers| && s'.workers[w] == s.workers[w]
  {
  }

  lemma {:induction false} WorkerStays(states: seq<State>, steps: seq<Step>, i: nat, j: nat, w: Thread)
    requires IsRun(states, steps) && i <= j < |states| && w < |states[i].workers|
    requires forall k :: i <= k < j ==> !IsWorkerStep(steps[k], w)
    ensures w < |states[j].workers| && states[j].workers[w] == states[i].workers[w]
  {
    if i < j {
      WorkerStays(states, steps, i, j - 1, w);
      assert StepAt(states, steps, j - 1);
      WorkerWaits(states[j - 1], steps[j - 1], states[j], w);
    }
  }

  lemma GettingSubtracts(s: State, step: Step, s': State, w: Thread)
    requires Next(s, step, s') && w < |s.workers| && s.workers[w].Getting? && IsWorkerStep(step, w)
    ensures step == SubtractEventsStep(w) && s' == SubtractEvents(s, w)
  {
  }

  /** A GetEvents that reads the word in step i and takes its next step in step j reports exactly the events that were
      pending at i, and takes exactly these out of the word, whatever other threads signal in between. */
  lemma GetEventsReportsPending(states: seq<State>, steps: seq<Step>, i: nat, j: nat, w: Thread)
    requires IsRun(states, steps) && NextOwnStep(steps, i, j, w) && w < |states[i].workers|
    requires steps[i] == ReadEventsStep(w)
    ensures states[i].workers[w].Running? && states[i].workers[w].t in states[i].tasks
    ensures var t := states[i].workers[w].t;
            var events := Pending(states[i].tasks[t].events);
            && (forall b :: b in events <==> Reports(states[j], steps[j], t, b))
            && t in states[j].tasks && t in states[j + 1].tasks
            && states[j + 1].tasks[t].events == states[j].tasks[t].events - events
            && w < |states[j + 1].workers| && states[j + 1].workers[w] == Running(t)
  {
    assert StepAt(states, steps, i) && StepAt(states, steps, j);
    RunKeepsInv(states, steps, j);
    var t := states[i].workers[w].t;
    var events := Pending(states[i].tasks[t].events);
    assert states[i + 1].workers[w] == Getting(t, events);
    WorkerStays(states, steps, i + 1, j, w);
    GettingSubtracts(states[j], steps[j], states[j + 1], w);
    assert HasPlace(states[j], t);
    SubtractClearsExactly(states[j].tasks[t].events, events);
  }

  // ---------- What a worker does with a task ----------

  lemma TakenNextStep(s: State, step: Step, s': State, w: Thread)
    requires Next(s, step, s') && w < |s.workers| && s.workers[w].Starting? && IsWorkerStep(step, w)
    ensures step == StartStep(w) && w < |s'.workers| && s'.workers[w] == Running(s.workers[w].t)
  {
  }

  /** What a worker takes from its queue or its timer heap it runs next. */
  lemma TakenIsRun(states: seq<State>, steps: seq<Step>, i: nat, j: nat, w: Thread, t: TaskId)
    requires IsRun(states, steps) && NextOwnStep(steps, i, j, w)
    requires TakesFrom(states[i], steps[i], w, t)
             || (steps[i].TakeTimerStep? && steps[i].w == w && w < |states[i].heaps| && steps[i].i < |states[i].heaps[w]|
                 && states[i].heaps[w][steps[i].i] == t)
    ensures steps[j] == StartStep(w) && w < |states[j + 1].workers| && states[j + 1].workers[w] == Running(t)
  {
    StepOfRun(states, steps, i);
    assert w < |states[i + 1].workers| && states[i + 1].workers[w] == Starting(t);
    hide Next, Init;
    WorkerStays(states, steps, i + 1, j, w);
    StepOfRun(states, steps, j);
    TakenNextStep(states[j], steps[j], states[j + 1], w);
  }

  /** What becomes of a task whose Run has returned a result. */
  ghost predicate Obeyed(s: State, step: Step, s': State, w: Thread, t: TaskId, result: int) {
    && t in s.tasks && t in s'.tasks && w < |s'.workers| && |s.heaps| == |s'.heaps| && w < |s.heaps|
    && if result < 0 then step == DeleteStep(w) && s'.tasks[t].deleted && s'.workers[w] == Waiting
       else if result == 0 then
         step == CompareAndStoreStep(w) && !s'.tasks[t].deleted
         && s'.workers[w] == if Pending(s.tasks[t].events) == {} then Waiting else Starting(t)
       else
         && step == ParkStep(w) && !s'.tasks[t].deleted && s'.tasks[t].timer == s.now + result
         && s'.heaps == s.heaps[w := s.heaps[w] + [t]] && s'.workers[w] == Parking(t)
  }

  lemma ReturnedNextStep(s: State, step: Step, s': State, w: Thread, t: TaskId, result: int)
    requires Inv(s) && Next(s, step, s') && w < |s.workers| && s.workers[w] == Returned(t, result) && IsWorkerStep(step, w)
    ensures Obeyed(s, step, s', w, t, result)
  {
    assert HasPlace(s, t);
    RetirableWord(s.tasks[t].events);
  }

  /** A negative result of Run deletes the task; zero retires it if nothing is pending, else runs it again; a positive
      one parks it in the worker's own timer heap until that time is over. */
  lemma ResultIsObeyed(states: seq<State>, steps: seq<Step>, i: nat, j: nat, w: Thread, result: int)
    requires IsRun(states, steps) && NextOwnStep(steps, i, j, w) && w < |states[i].workers|
    requires steps[i] == ReturnStep(w, result)
    ensures states[i].workers[w].Running?
    ensures Obeyed(states[j], steps[j], states[j + 1], w, states[i].workers[w].t, result)
  {
    StepOfRun(states, steps, i);
    var t := states[i].workers[w].t;
    assert w < |states[i + 1].workers| && states[i + 1].workers[w] == Returned(t, result);
    hide Next, Init, Inv, Obeyed;
    WorkerStays(states, steps, i + 1, j, w);
    StepOfRun(states, steps, j);
    RunKeepsInv(states, steps, j);
    ReturnedNextStep(states[j], steps[j], states[j + 1], w, t, result);
  }

  // ---------- Queues are first in, first out ----------

  ghost predicate Before(q: seq<TaskId>, t: TaskId, u: TaskId) {
    exists a, b :: 0 <= a < b < |q| && q[a] == t && q[b] == u
  }

  predicate TakesFrom(s: State, step: Step, w: Thread, t: TaskId) {
    step == TakeQueueStep(w) && w < |s.queues| && s.queues[w] != [] && s.queues[w][0] == t
  }

  lemma OrderStays(s: State, step: Step, s': State, w: Thread, t: TaskId, u: TaskId)
    requires Next(s, step, s') && w < |s.queues| && Before(s.queues[w], t, u) && !TakesFrom(s, step, w, t)
    ensures w < |s'.queues| && Before(s'.queues[w], t, u)
  {
    var q, q' := s.queues[w], s'.queues[w];
    var a, b :| 0 <= a < b < |q| && q[a] == t && q[b] == u;
    if step == TakeQueueStep(w) {
      assert q'[a - 1] == t && q'[b - 1] == u;
    } else {
      assert q'[a] == t && q'[b] == u;
    }
  }

  ghost predicate TakenBetween(states: seq<State>, steps: seq<Step>, i: nat, j: nat, w: Thread, t: TaskId)
    requires j <= |steps| < |states|
  {
    exists k :: i <= k < j && TakesFrom(states[k], steps[k], w, t)
  }

  lemma {:induction false} OrderHolds(states: seq<State>, steps: seq<Step>, i: nat, j: nat, w: Thread, t: TaskId, u: TaskId)
    requires IsRun(states, steps) && i <= j <= |steps| && w < |states[i].queues| && Before(states[i].queues[w], t, u)
    ensures TakenBetween(states, steps, i, j, w, t) || (w < |states[j].queues| && Before(states[j].queues[w], t, u))
  {
    if i < j {
      hide Before, Next, TakesFrom, Init;
      StepOfRun(states, steps, j - 1);
      OrderHolds(states, steps, i, j - 1, w, t, u);
      if !TakenBetween(states, steps, i, j, w, t) {
        OrderStays(states[j - 1], steps[j - 1], states[j], w, t, u);
      }
    }
  }

  /** A task that is queued on a thread behind another one is taken after it. */
  lemma FirstQueuedIsFirstTaken(states: seq<State>, steps: seq<Step>, i: nat, j: nat, c: CallId, w: Thread, t: TaskId, u: TaskId)
    requires IsRun(states, steps) && i < j < |steps| && w < |states[i].queues| && t in states[i].queues[w]
    requires steps[i] == SignalEnqueueStep(c) && c in states[i].calls && states[i].calls[c] == Enqueue(u, w)
    requires TakesFrom(states[j], steps[j], w, u)
    ensures TakenBetween(states, steps, i + 1, j, w, t)
  {
    assert StepAt(states, steps, i);
    var q, q' := states[i].queues[w], states[i + 1].queues[w];
    var a :| 0 <= a < |q| && q[a] == t;
    assert q'[a] == t && q'[|q|] == u;
    RunKeepsInv(states, steps, j);
    OrderHolds(states, steps, i + 1, j, w, t, u);
    if !TakenBetween(states, steps, i + 1, j, w, t) {
      HeadIsNotBehind(states[j].queues[w], t, u);
    }
  }

  lemma HeadIsNotBehind(q: seq<TaskId>, t: TaskId, u: TaskId)
    requires Distinct(q) && q != [] && q[0] == u
    ensures !Before(q, t, u)
  {
  }

  // ---------- Timers ----------

  predicate ParksTask(s: State, step: Step, t: TaskId) {
    step.ParkStep? && step.w < |s.workers| && s.workers[step.w].Returned? && s.workers[step.w].t == t
  }

  lemma TimerStays(s: State, step: Step, s': State, t: TaskId)
    requires Next(s, step, s') && t in s.tasks && !ParksTask(s, step, t)
    ensures t in s'.tasks && s'.tasks[t].timer == s.tasks[t].timer && s.now <= s'.now
  {
    if IsCallStep(step) {
    } else if IsTakeStep(step) {
    } else {
    }
  }

  lemma {:induction false} TimerHolds(states: seq<State>, steps: seq<Step>, i: nat, j: nat, t: TaskId)
    requires IsRun(states, steps) && i <= j < |states| && t in states[i].tasks
    requires forall k :: i <= k < j ==> !ParksTask(states[k], steps[k], t)
    ensures t in states[j].tasks && states[j].tasks[t].timer == states[i].tasks[t].timer && states[i].now <= states[j].now
  {
    if i < j {
      hide Next, Init;
      StepOfRun(states, steps, j - 1);
      TimerHolds(states, steps, i, j - 1, t);
      TimerStays(states[j - 1], steps[j - 1], states[j], t);
    }
  }

  /** Step i parks the task, and no step before j parks it again. */
  ghost predicate LastParked(states: seq<State>, steps: seq<Step>, i: nat, j: nat, t: TaskId)
    requires |states| == |steps| + 1 && i < j < |states|
  {
    ParksTask(states[i], steps[i], t) && forall k :: i < k < j ==> !ParksTask(states[k], steps[k], t)
  }

  /** When the task that step i parks is due. */
  function Due(s: State, step: Step): int
    requires step.ParkStep? && step.w < |s.workers| && s.workers[step.w].Returned?
  {
    s.now + s.workers[step.w].timeout
  }

  lemma TimerIsDue(states: seq<State>, steps: seq<Step>, i: nat, j: nat, t: TaskId)
    requires IsRun(states, steps) && i < j < |states| && LastParked(states, steps, i, j, t)
    ensures t in states[j].tasks && states[j].tasks[t].timer == Due(states[i], steps[i])
  {
    assert StepAt(states, steps, i);
    TimerHolds(states, steps, i + 1, j, t);
  }

  /** A parked task is not taken from the timer heap before the time its last Run asked for is over, nor before another
      one in the heap that is due earlier. */
  lemma ParkedUntilDue(states: seq<State>, steps: seq<Step>, i: nat, m: nat, j: nat, w: Thread, x: nat, y: nat)
    requires IsRun(states, steps) && i < j < |steps| && m < j
    requires steps[j] == TakeTimerStep(w, x) && w < |states[j].heaps| && x < |states[j].heaps[w]| && y < |states[j].heaps[w]|
    requires LastParked(states, steps, i, j, states[j].heaps[w][x]) && LastParked(states, steps, m, j, states[j].heaps[w][y])
    ensures Due(states[i], steps[i]) <= states[j].now
    ensures Due(states[i], steps[i]) <= Due(states[m], steps[m])
    ensures w < |states[j + 1].workers| && states[j + 1].workers[w] == Starting(states[j].heaps[w][x])
  {
    TimerIsDue(states, steps, i, j, states[j].heaps[w][x]);
    TimerIsDue(states, steps, m, j, states[j].heaps[w][y]);
    assert StepAt(states, steps, j);
  }

  // ---------- Where a task is queued ----------

  /** The thread is one of those a task's picker picks from. */
  predicate InGroup(s: State, picker: Picker, w: Thread) {
    match picker
    case ShortPicker => w < s.numShort
    case BlockingPicker => s.numShort <= w < s.numShort + s.numBlocking
  }

  /** A call is on its way to queue a task on a thread, or on one of the task's group. */
  ghost predicate Heading(s: State, c: CallId, t: TaskId, goal: Option<Thread>, picker: Picker) {
    && c in s.calls && s.calls[c].t == t && t in s.tasks && s.tasks[t].picker == picker
    && match s.calls[c]
       case ApplyDefault(_) =>
         goal == (if s.tasks[t].useThis.Some? then s.tasks[t].useThis else s.tasks[t].defaultThread)
       case Choose(_) => s.tasks[t].useThis == goal
       case Enqueue(_, w) => if goal.Some? then w == goal.value else InGroup(s, picker, w)
  }

  lemma OwnStepHeads(s: State, step: Step, s': State, c: CallId, t: TaskId, goal: Option<Thread>, picker: Picker)
    requires Inv(s) && Next(s, step, s') && Heading(s, c, t, goal, picker) && IsOwnStep(step, c) && c in s'.calls
    ensures Heading(s', c, t, goal, picker)
  {
  }

  /** The task keeps what it asks for, and the groups of threads stay. */
  predicate SameWishes(s: State, s': State, t: TaskId) {
    && t in s.tasks && t in s'.tasks && s'.tasks[t].useThis == s.tasks[t].useThis
    && s'.tasks[t].defaultThread == s.tasks[t].defaultThread && s'.tasks[t].picker == s.tasks[t].picker
    && s'.numShort == s.numShort && s'.numBlocking == s.numBlocking
  }

  lemma CallKeepsWishes(s: State, step: Step, s': State, c: CallId, t: TaskId)
    requires s.Pool() && IsCallStep(step) && CallNext(s, step, s') && OnlyAt(s, t, AtCall(c)) && t in s.tasks
    requires !IsOwnStep(step, c)
    ensures SameWishes(s, s', t)
  {
  }

  lemma RunKeepsWishes(s: State, step: Step, s': State, c: CallId, t: TaskId)
    requires s.Pool() && !IsCallStep(step) && !IsTakeStep(step) && RunNext(s, step, s')
    requires OnlyAt(s, t, AtCall(c)) && t in s.tasks
    ensures SameWishes(s, s', t)
  {
  }

  lemma OthersKeepWishes(s: State, step: Step, s': State, c: CallId, t: TaskId)
    requires Inv(s) && Next(s, step, s') && c in s.calls && s.calls[c].t == t && t in s.tasks && !IsOwnStep(step, c)
    ensures SameWishes(s, s', t)
  {
    assert HasPlace(s, t);
    var at :| TaskOk(s, t, at);
    assert at == AtCall(c);
    hide OnlyAt;
    if IsCallStep(step) {
      CallKeepsWishes(s, step, s', c, t);
    } else if IsTakeStep(step) {
      assert TakeNext(s, step, s');
    } else {
      RunKeepsWishes(s, step, s', c, t);
    }
  }

  lemma OtherStepHeads(s: State, step: Step, s': State, c: CallId, t: TaskId, goal: Option<Thread>, picker: Picker)
    requires Inv(s) && Next(s, step, s') && Heading(s, c, t, goal, picker) && !IsOwnStep(step, c)
    ensures Heading(s', c, t, goal, picker)
  {
    hide Inv, Next;
    OthersKeepWishes(s, step, s', c, t);
    CallAdvances(s, step, s', c);
  }

  lemma {:induction false} KeepsHeading(states: seq<State>, steps: seq<Step>, i: nat, j: nat, c: CallId, t: TaskId,
                                        goal: Option<Thread>, picker: Picker)
    requires IsRun(states, steps) && i <= j < |states| && Heading(states[i], c, t, goal, picker)
    requires forall k :: i <= k <= j ==> c in states[k].calls
    ensures Heading(states[j], c, t, goal, picker)
  {
    if i < j {
      hide *;
      StepOfRun(states, steps, j - 1);
      KeepsHeading(states, steps, i, j - 1, c, t, goal, picker);
      RunKeepsInv(states, steps, j - 1);
      if IsOwnStep(steps[j - 1], c) {
        OwnStepHeads(states[j - 1], steps[j - 1], states[j], c, t, goal, picker);
      } else {
        OtherStepHeads(states[j - 1], steps[j - 1], states[j], c, t, goal, picker);
      }
    }
  }

  /** A signalling call queues its task, behind the others, on the thread the task asked for, else on its default
      thread, else on a thread of its picker's group. */
  lemma QueuedWhereAsked(states: seq<State>, steps: seq<Step>, i: nat, j: nat, c: CallId)
    requires IsRun(states, steps) && i <= j < |steps| && steps[j] == SignalEnqueueStep(c)
    requires forall k :: i <= k <= j ==> c in states[k].calls
    requires states[i].calls[c].ApplyDefault? && states[i].calls[c].t in states[i].tasks
    ensures var t := states[i].calls[c].t;
            var task := states[i].tasks[t];
            && states[j].calls[c].Enqueue? && states[j].calls[c].target < |states[j].queues| == |states[j + 1].queues|
            && var w := states[j].calls[c].target;
               && states[j + 1].queues == states[j].queues[w := states[j].queues[w] + [t]]
               && (task.useThis.Some? ==> w == task.useThis.value)
               && (task.useThis == None && task.defaultThread.Some? ==> w == task.defaultThread.value)
               && (task.useThis == None && task.defaultThread == None ==> InGroup(states[j], task.picker, w))
  {
    var t := states[i].calls[c].t;
    var task := states[i].tasks[t];
    var goal := if task.useThis.Some? then task.useThis else task.defaultThread;
    KeepsHeading(states, steps, i, j, c, t, goal, task.picker);
    assert StepAt(states, steps, j);
  }

  // ---------- Picking in turn ----------

  /** The step picks a thread for a task that asks for none. */
  predicate Picks(s: State, step: Step, picker: Picker) {
    && step.SignalChooseStep? && step.c in s.calls && s.calls[step.c].t in s.tasks
    && s.tasks[s.calls[step.c].t].useThis == None && s.tasks[s.calls[step.c].t].picker == picker
  }

  function Counter(s: State, picker: Picker): nat {
    match picker
    case ShortPicker => s.shortPicker
    case BlockingPicker => s.blockingPicker
  }

  function GroupSize(s: State, picker: Picker): nat {
    match picker
    case ShortPicker => s.numShort
    case BlockingPicker => s.numBlocking
  }

  /** The position of a thread in its group. */
  function InTurn(s: State, picker: Picker, w: Thread): int {
    match picker
    case ShortPicker => w
    case BlockingPicker => w - s.numShort
  }

  lemma PickerStays(s: State, step: Step, s': State, picker: Picker)
    requires Next(s, step, s') && !Picks(s, step, picker)
    ensures Counter(s', picker) == Counter(s, picker) && s'.numShort == s.numShort && s'.numBlocking == s.numBlocking
  {
    if IsCallStep(step) {
    } else if IsTakeStep(step) {
    } else {
    }
  }

  lemma PickCounts(s: State, step: Step, s': State, picker: Picker)
    requires Next(s, step, s') && Picks(s, step, picker)
    ensures Counter(s', picker) == (Counter(s, picker) + 1) % TWO_TO_THE_32 && 0 < GroupSize(s, picker)
    ensures s'.numShort == s.numShort && s'.numBlocking == s.numBlocking
    ensures step.c in s'.calls && s'.calls[step.c].Enqueue?
    ensures InTurn(s', picker, s'.calls[step.c].target) == Counter(s', picker) % GroupSize(s, picker)
  {
  }

  lemma {:induction false} PickerHolds(states: seq<State>, steps: seq<Step>, i: nat, j: nat, picker: Picker)
    requires IsRun(states, steps) && i <= j < |states|
    requires forall k :: i <= k < j ==> !Picks(states[k], steps[k], picker)
    ensures Counter(states[j], picker) == Counter(states[i], picker)
    ensures states[j].numShort == states[i].numShort && states[j].numBlocking == states[i].numBlocking
  {
    if i < j {
      hide Next, Init, Picks;
      StepOfRun(states, steps, j - 1);
      PickerHolds(states, steps, i, j - 1, picker);
      PickerStays(states[j - 1], steps[j - 1], states[j], picker);
    }
  }

  lemma NextInTurn(p: nat, n: nat)
    requires 0 < n
    ensures (p + 1) % n == (p % n + 1) % n
  {
    var q, r := p / n, p % n;
    assert p == q * n + r;
    if r + 1 == n {
      assert p + 1 == (q + 1) * n;
      UniqueRemainder(p + 1, q + 1, 0, n);
      UniqueRemainder(n, 1, 0, n);
    } else {
      UniqueRemainder(p + 1, q, r + 1, n);
      UniqueRemainder(r + 1, 0, r + 1, n);
    }
  }

  lemma CounterInTurn(p: nat, n: nat)
    requires p < TWO_TO_THE_32 && 0 < n
    ensures (p + 1) % TWO_TO_THE_32 % n == if p + 1 == TWO_TO_THE_32 then 0 else (p % n + 1) % n
  {
    if p + 1 < TWO_TO_THE_32 {
      UniqueRemainder(p + 1, 0, p + 1, TWO_TO_THE_32);
      NextInTurn(p, n);
    } else {
      UniqueRemainder(p + 1, 1, 0, TWO_TO_THE_32);
      UniqueRemainder(0, 0, 0, n);
    }
  }

  lemma SameGroup(s: State, u: State, picker: Picker)
    requires u.numShort == s.numShort && u.numBlocking == s.numBlocking
    ensures GroupSize(u, picker) == GroupSize(s, picker)
  {
  }

  /** Two picks of a group, with none in between, pick a thread and the next one of the group, in a circle that starts
      over at the first one when the 32-bit counter does. */
  lemma PicksInTurn(states: seq<State>, steps: seq<Step>, i: nat, j: nat, picker: Picker)
    requires IsRun(states, steps) && i < j < |steps|
    requires Picks(states[i], steps[i], picker) && Picks(states[j], steps[j], picker)
    requires forall k :: i < k < j ==> !Picks(states[k], steps[k], picker)
    ensures steps[i].c in states[i + 1].calls && states[i + 1].calls[steps[i].c].Enqueue?
    ensures steps[j].c in states[j + 1].calls && states[j + 1].calls[steps[j].c].Enqueue?
    ensures 0 < GroupSize(states[i], picker)
    ensures var first := InTurn(states[i + 1], picker, states[i + 1].calls[steps[i].c].target);
            InTurn(states[j + 1], picker, states[j + 1].calls[steps[j].c].target)
            == if Counter(states[i + 1], picker) + 1 == TWO_TO_THE_32 then 0 else (first + 1) % GroupSize(states[i], picker)
  {
    hide Next, Init, InTurn, Counter, GroupSize;
    StepOfRun(states, steps, i);
    StepOfRun(states, steps, j);
    PickCounts(states[i], steps[i], states[i + 1], picker);
    PickerHolds(states, steps, i + 1, j, picker);
    PickCounts(states[j], steps[j], states[j + 1], picker);
    SameGroup(states[i], states[j], picker);
    CounterInTurn(Counter(states[i + 1], picker), GroupSize(states[i], picker));
  }

  // ---------- How long a request lasts ----------

  /** The step makes the task ask for a thread: ForceSameThread, or its default thread. */
  predicate Requests(s: State, step: Step, t: TaskId) {
    || (step.ForceSameThreadStep? && step.w < |s.workers| && s.workers[step.w].Running? && s.workers[step.w].t == t)
    || (step.SignalDefaultStep? && step.c in s.calls && s.calls[step.c].t == t)
  }

  lemma NoRequestStays(s: State, step: Step, s': State, t: TaskId)
    requires Next(s, step, s') && t in s.tasks && s.tasks[t].useThis == None && !Requests(s, step, t)
    ensures t in s'.tasks && s'.tasks[t].useThis == None
  {
    if IsCallStep(step) {
    } else if IsTakeStep(step) {
    } else {
    }
  }

  lemma {:induction false} NoRequestHolds(states: seq<State>, steps: seq<Step>, i: nat, j: nat, t: TaskId)
    requires IsRun(states, steps) && i <= j < |states| && t in states[i].tasks && states[i].tasks[t].useThis == None
    requires forall k :: i <= k < j ==> !Requests(states[k], steps[k], t)
    ensures t in states[j].tasks && states[j].tasks[t].useThis == None
  {
    if i < j {
      hide Next, Init, Requests;
      StepOfRun(states, steps, j - 1);
      NoRequestHolds(states, steps, i, j - 1, t);
      NoRequestStays(states[j - 1], steps[j - 1], states[j], t);
    }
  }

  /** A request lasts for one run: from the start of a run on the task asks for no thread until it does so anew. */
  lemma RequestLastsOneRun(states: seq<State>, steps: seq<Step>, i: nat, j: nat, w: Thread)
    requires IsRun(states, steps) && i < j < |states| && steps[i] == StartStep(w) && w < |states[i].workers|
    requires states[i].workers[w].Starting?
    requires forall k :: i < k < j ==> !Requests(states[k], steps[k], states[i].workers[w].t)
    ensures var t := states[i].workers[w].t;
            t in states[j].tasks && states[j].tasks[t].useThis == None
  {
    assert StepAt(states, steps, i);
    NoRequestHolds(states, steps, i + 1, j, states[i].workers[w].t);
  }
}
