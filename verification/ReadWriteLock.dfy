/**
 The reader/writer lock (CommonUtilitiesLib/OSMutexRW.cpp and .h) as an interleaved step system. Every step runs under
 the internal lock: a call up to its first wait, one check of a waiting call after a wake-up or timeout, or an unlock.
 A client is one use of the lock, from its call to its unlock.
 */
module ReadWriteLock {

  type Client = nat

  const ACTIVE_WRITER: int := -1
  const NO_WRITER: int := 0

  /** The lock's counters, and the history of who is where. */
  datatype State = State(
    fState: int, fWriteWaiters: int, fReadWaiters: int, fActiveReaders: int,
    readers: set<Client>, writers: set<Client>, readWaiting: set<Client>, writeWaiting: set<Client>)
  {
    predicate WaitingWriters() { fWriteWaiters > 0 }
    predicate Active() { fState != 0 }
    predicate ActiveReaders() { fState > 0 }
    predicate ActiveWriter() { fState < 0 }

    predicate Outside(c: Client) {
      c !in readers && c !in writers && c !in readWaiting && c !in writeWaiting
    }
  }

  const INITIAL: State := State(0, 0, 0, 0, {}, {}, {}, {})

  /** The loop of LockRead: waits on, or takes the lock. */
  function TryRead(s: State, c: Client): State {
    if s.ActiveWriter() || s.WaitingWriters() then s
    else s.(fReadWaiters := s.fReadWaiters - 1, fState := s.fState + 1, fActiveReaders := s.fState + 1,
            readers := s.readers + {c}, readWaiting := s.readWaiting - {c})
  }

  function LockRead(s: State, c: Client): State {
    TryRead(s.(fReadWaiters := s.fReadWaiters + 1, readWaiting := s.readWaiting + {c}), c)
  }

  /** The loop of LockWrite: waits on while there are active readers. */
  function TryWrite(s: State, c: Client): State {
    if s.ActiveReaders() then s
    else s.(fWriteWaiters := s.fWriteWaiters - 1, fState := ACTIVE_WRITER, fActiveReaders := ACTIVE_WRITER,
            writers := s.writers + {c}, writeWaiting := s.writeWaiting - {c})
  }

  function LockWrite(s: State, c: Client): State {
    TryWrite(s.(fWriteWaiters := s.fWriteWaiters + 1, writeWaiting := s.writeWaiting + {c}), c)
  }

  function Unlock(s: State, c: Client): State {
    var state :=
      if s.ActiveWriter() then NO_WRITER
      else if s.fState - 1 > 0 then s.fState - 1 else NO_WRITER;
    s.(fState := state, fActiveReaders := state, readers := s.readers - {c}, writers := s.writers - {c})
  }

  function TryLockWrite(s: State, c: Client): State {
    if !s.Active() && !s.WaitingWriters() then LockWrite(s, c) else s
  }

  function TryLockRead(s: State, c: Client): State {
    if !s.ActiveWriter() && !s.WaitingWriters() then LockRead(s, c) else s
  }

  datatype Action =
    | CallLockRead(c: Client)
    | WakeRead(c: Client)
    | CallLockWrite(c: Client)
    | WakeWrite(c: Client)
    | CallTryLockRead(c: Client)
    | CallTryLockWrite(c: Client)
    | CallUnlock(c: Client)

  predicate Enabled(s: State, a: Action) {
    match a
    case WakeRead(c) => c in s.readWaiting
    case WakeWrite(c) => c in s.writeWaiting
    case CallUnlock(c) => c in s.readers || c in s.writers
    case _ => s.Outside(a.c)
  }

  function Step(s: State, a: Action): State {
    match a
    case CallLockRead(c) => LockRead(s, c)
    case WakeRead(c) => TryRead(s, c)
    case CallLockWrite(c) => LockWrite(s, c)
    case WakeWrite(c) => TryWrite(s, c)
    case CallTryLockRead(c) => TryLockRead(s, c)
    case CallTryLockWrite(c) => TryLockWrite(s, c)
    case CallUnlock(c) => Unlock(s, c)
  }

  /** One writer at a time between the entry of LockWrite and its unlock. */
  predicate OneWriter(s: State, a: Action) {
    a.CallLockWrite? ==> s.writers == {} && s.writeWaiting == {}
  }

  /** The counters are the numbers of clients, and a writer and readers are never active together. */
  predicate Counted(s: State) {
    && s.fState == (if s.writers == {} then |s.readers| else ACTIVE_WRITER)
    && s.fActiveReaders == s.fState
    && s.fWriteWaiters == |s.writeWaiting| && s.fReadWaiters == |s.readWaiting|
    && (s.writers != {} ==> s.readers == {})
  }

  /** No client is in two places. */
  predicate Apart(s: State) {
    && s.readers !! s.readWaiting && s.readers !! s.writers && s.readers !! s.writeWaiting
    && s.readWaiting !! s.writers && s.readWaiting !! s.writeWaiting && s.writers !! s.writeWaiting
  }

  predicate Inv(s: State) {
    && Counted(s) && |s.writers| + |s.writeWaiting| <= 1
    && Apart(s)
  }

  lemma NoneOf(s: set<Client>)
    ensures |s| == 0 <==> s == {}
  {
  }

  lemma TryReadKeepsInv(s: State, c: Client)
    requires Inv(s) && c in s.readWaiting
    ensures Inv(TryRead(s, c))
    ensures c in TryRead(s, c).readers <==> s.writers == {} && s.writeWaiting == {}
  {
    NoneOf(s.writeWaiting);
    assert |s.readWaiting - {c}| == |s.readWaiting| - 1 && |s.readers + {c}| == |s.readers| + 1;
  }

  lemma TryWriteKeepsInv(s: State, c: Client)
    requires Inv(s) && c in s.writeWaiting
    ensures Inv(TryWrite(s, c))
    ensures c in TryWrite(s, c).writers <==> s.readers == {}
  {
    NoneOf(s.readers);
    NoneOf(s.writers);
    assert |s.writeWaiting - {c}| == |s.writeWaiting| - 1 && |s.writers + {c}| == |s.writers| + 1;
  }

  lemma LockReadKeepsInv(s: State, c: Client)
    requires Inv(s) && s.Outside(c)
    ensures Inv(LockRead(s, c))
    ensures c in LockRead(s, c).readers <==> s.writers == {} && s.writeWaiting == {}
  {
    TryReadKeepsInv(s.(fReadWaiters := s.fReadWaiters + 1, readWaiting := s.readWaiting + {c}), c);
  }

  lemma LockWriteKeepsInv(s: State, c: Client)
    requires Inv(s) && s.Outside(c) && s.writers == {} && s.writeWaiting == {}
    ensures Inv(LockWrite(s, c))
    ensures c in LockWrite(s, c).writers <==> s.readers == {}
  {
    TryWriteKeepsInv(s.(fWriteWaiters := s.fWriteWaiters + 1, writeWaiting := s.writeWaiting + {c}), c);
  }

  lemma UnlockKeepsInv(s: State, c: Client)
    requires Inv(s) && (c in s.readers || c in s.writers)
    ensures Inv(Unlock(s, c))
  {
    NoneOf(s.readers - {c});
    NoneOf(s.writers - {c});
    NoneOf(s.readers);
    if c in s.readers {
      assert |s.readers - {c}| == |s.readers| - 1;
    }
    if c in s.writers {
      assert |s.writers - {c}| == |s.writers| - 1;
    }
  }

  lemma StepKeepsInv(s: State, a: Action)
    requires Inv(s) && Enabled(s, a) && OneWriter(s, a)
    ensures Inv(Step(s, a))
  {
    NoneOf(s.writeWaiting);
    NoneOf(s.readers);
    match a
    case CallLockRead(c) => LockReadKeepsInv(s, c);
    case WakeRead(c) => TryReadKeepsInv(s, c);
    case CallLockWrite(c) => LockWriteKeepsInv(s, c);
    case WakeWrite(c) => TryWriteKeepsInv(s, c);
    case CallTryLockRead(c) => LockReadKeepsInv(s, c);
    case CallTryLockWrite(c) => if !s.Active() && !s.WaitingWriters() { LockWriteKeepsInv(s, c); }
    case CallUnlock(c) => UnlockKeepsInv(s, c);
  }

  // ---------- Runs ----------

  ghost predicate IsRun(states: seq<State>, actions: seq<Action>) {
    && |states| == |actions| + 1 && states[0] == INITIAL
    && forall i :: 0 <= i < |actions| ==> Enabled(states[i], actions[i]) && states[i + 1] == Step(states[i], actions[i])
  }

  ghost predicate Disciplined(states: seq<State>, actions: seq<Action>, n: nat)
    requires n <= |actions| < |states|
  {
    forall i :: 0 <= i < n ==> OneWriter(states[i], actions[i])
  }

  lemma {:induction false} RunKeepsInv(states: seq<State>, actions: seq<Action>, n: nat)
    requires IsRun(states, actions) && n <= |actions| && Disciplined(states, actions, n)
    ensures Inv(states[n])
  {
    if n != 0 {
      RunKeepsInv(states, actions, n - 1);
      StepKeepsInv(states[n - 1], actions[n - 1]);
    }
  }

  /** fState counts the active readers, or is -1 exactly while the writer is active, without readers. */
  lemma StateIsReadersOrWriter(states: seq<State>, actions: seq<Action>, n: nat)
    requires IsRun(states, actions) && n <= |actions| && Disciplined(states, actions, n)
    ensures states[n].fState == ACTIVE_WRITER <==> states[n].writers != {}
    ensures states[n].writers == {} ==> states[n].fState == |states[n].readers|
    ensures states[n].writers != {} ==> states[n].readers == {} && |states[n].writers| == 1
  {
    RunKeepsInv(states, actions, n);
    NoneOf(states[n].writers);
  }

  /** A step lets a reader in only while no writer is queued or active, and a writer only while nobody is active. */
  lemma AdmissionIsSafe(states: seq<State>, actions: seq<Action>, n: nat, c: Client)
    requires IsRun(states, actions) && n < |actions| && Disciplined(states, actions, n + 1)
    ensures c in states[n + 1].readers - states[n].readers ==> states[n].writers == {} && states[n].writeWaiting == {}
    ensures c in states[n + 1].writers - states[n].writers ==> states[n].writers == {} && states[n].readers == {}
  {
    RunKeepsInv(states, actions, n);
    StepAdmits(states[n], actions[n], c);
  }

  lemma StepAdmits(s: State, a: Action, c: Client)
    requires Inv(s) && Enabled(s, a) && OneWriter(s, a)
    ensures c in Step(s, a).readers - s.readers ==> s.writers == {} && s.writeWaiting == {}
    ensures c in Step(s, a).writers - s.writers ==> s.writers == {} && s.readers == {}
  {
    hide Apart;
    NoneOf(s.writeWaiting);
    NoneOf(s.writers);
    NoneOf(s.readers);
  }

  /** A reader that enters, wakes up or tries is let in exactly when no writer is queued or active. */
  lemma ReaderIsAdmittedIff(s: State, a: Action)
    requires Inv(s) && Enabled(s, a) && (a.CallLockRead? || a.WakeRead? || a.CallTryLockRead?)
    ensures a.c in Step(s, a).readers <==> s.writers == {} && s.writeWaiting == {}
    ensures a.c !in Step(s, a).readers && !a.CallTryLockRead? ==> a.c in Step(s, a).readWaiting
  {
    NoneOf(s.writeWaiting);
    if a.WakeRead? { TryReadKeepsInv(s, a.c); } else { LockReadKeepsInv(s, a.c); }
  }

  /** A writer that enters or wakes up is let in exactly when no reader is active, else it waits on. */
  lemma WriterIsAdmittedIff(s: State, a: Action)
    requires Inv(s) && Enabled(s, a) && OneWriter(s, a) && (a.CallLockWrite? || a.WakeWrite?)
    ensures a.c in Step(s, a).writers <==> s.readers == {}
    ensures a.c !in Step(s, a).writers ==> a.c in Step(s, a).writeWaiting
  {
    NoneOf(s.readers);
    if a.WakeWrite? { TryWriteKeepsInv(s, a.c); } else { LockWriteKeepsInv(s, a.c); }
  }

  /** An unlock takes its client out of the lock and nobody else. */
  lemma UnlockLeaves(s: State, c: Client)
    requires Inv(s) && Enabled(s, CallUnlock(c))
    ensures var u := Step(s, CallUnlock(c));
            && u.Outside(c) && u.readers == s.readers - {c} && u.writers == s.writers - {c}
            && u.readWaiting == s.readWaiting && u.writeWaiting == s.writeWaiting
            && u.fState == |u.readers| && u.fReadWaiters == s.fReadWaiters && u.fWriteWaiters == s.fWriteWaiters
  {
    UnlockKeepsInv(s, c);
    if c in s.writers {
      assert s.writers - {c} == {} by { assert |s.writers - {c}| == |s.writers| - 1; NoneOf(s.writers - {c}); }
    } else {
      NoneOf(s.writers);
      NoneOf(s.readers);
    }
  }

  /** Once the last client has unlocked, a waiting writer that wakes up is let in, or, when none waits, a reader. */
  lemma LastUnlockAdmits(s: State, c: Client, o: Client)
    requires Inv(s) && s.readers + s.writers == {c}
    ensures o in s.writeWaiting ==> o in Step(Step(s, CallUnlock(c)), WakeWrite(o)).writers
    ensures o in s.readWaiting && s.writeWaiting == {} ==> o in Step(Step(s, CallUnlock(c)), WakeRead(o)).readers
  {
    var u := Step(s, CallUnlock(c));
    assert c in s.readers + s.writers;
    UnlockLeaves(s, c);
    UnlockKeepsInv(s, c);
    assert u.readers == {} && u.writers == {} by {
      assert u.readers + u.writers == s.readers + s.writers - {c};
    }
    if o in s.writeWaiting {
      WriterIsAdmittedIff(u, WakeWrite(o));
    }
    if o in s.readWaiting && s.writeWaiting == {} {
      ReaderIsAdmittedIff(u, WakeRead(o));
    }
  }

  /** A step changes where its own client is and where nobody else is. */
  lemma OthersStay(s: State, a: Action, o: Client)
    requires Enabled(s, a) && o != a.c
    ensures var u := Step(s, a);
            && (o in u.readers <==> o in s.readers) && (o in u.writers <==> o in s.writers)
            && (o in u.readWaiting <==> o in s.readWaiting) && (o in u.writeWaiting <==> o in s.writeWaiting)
  {
  }

  /** The calls of LockRead and LockWrite that TryLockRead and TryLockWrite make do not wait: the lock is taken, or the
      state is left as it is. */
  lemma TriesDoNotWait(s: State, c: Client)
    requires Inv(s) && s.Outside(c)
    ensures TryLockRead(s, c) == s || c in TryLockRead(s, c).readers
    ensures TryLockWrite(s, c) == s || c in TryLockWrite(s, c).writers
    ensures c in TryLockRead(s, c).readers <==> s.writers == {} && s.writeWaiting == {}
    ensures c in TryLockWrite(s, c).writers <==> s.writers == {} && s.writeWaiting == {} && s.readers == {}
    ensures c !in TryLockRead(s, c).readWaiting && c !in TryLockWrite(s, c).writeWaiting
  {
    NoneOf(s.writeWaiting);
    NoneOf(s.readers);
  }

  // ---------- Without the discipline ----------

  /** LockWrite makes a second active writer exactly when one is active already: it waits for readers only. */
  lemma SecondWriterIsAdmitted(s: State, c: Client)
    requires Counted(s) && s.Outside(c)
    ensures 2 <= |LockWrite(s, c).writers| <==> s.writers != {}
  {
    NoneOf(s.writers);
    assert |s.writers + {c}| == |s.writers| + 1;
  }

  /** The unlock of one of two writers leaves the lock open to a reader while the other one writes. */
  lemma ReaderBesideSecondWriter(w: Client, v: Client, r: Client)
    requires w != v && w != r && v != r
    ensures var s := LockRead(Unlock(LockWrite(LockWrite(INITIAL, w), v), w), r);
            s.writers == {v} && s.readers == {r}
  {
    var one := LockWrite(INITIAL, w);
    assert one == State(-1, 0, 0, -1, {}, {w}, {}, {});
    var two := LockWrite(one, v);
    assert two == State(-1, 0, 0, -1, {}, {w, v}, {}, {});
    assert Unlock(two, w) == State(0, 0, 0, 0, {}, {v}, {}, {});
  }
}
