/** The table of references by string id: CommonUtilitiesLib/OSRef.cpp. Its operations run under the table's mutex, so
    that a run of the table is a sequence of them. */
module RefTable {
  import opened Common
  import opened HashTable

  /** The references by their ids, and the resolves that have not been released yet. */
  datatype RefState = RefState(table: map<Text, OSRef>, pins: multiset<OSRef>) {

    ghost predicate Has(r: OSRef) {
      r.fString in table && table[r.fString] == r
    }

    /** Every reference is in the table under its own id. */
    ghost predicate ById() {
      forall id :: id in table ==> table[id].fString == id
    }
  }

  datatype Operation =
    | Register(r: OSRef)
    | RegisterOrResolve(r: OSRef)
    | Resolve(id: Text)
    | Release(r: OSRef)
    | UnRegister(r: OSRef, level: nat)
    | TryUnRegister(r: OSRef, level: nat)
    | Swap(r: OSRef)

  function WithoutRef(s: RefState, r: OSRef): RefState {
    if r.fString in s.table && s.table[r.fString] == r then s.(table := s.table - {r.fString}) else s
  }

  /** What an operation makes of the table. A release has to match a resolve, and UnRegister waits for the number of
      resolves to come down to its level. */
  ghost predicate Next(s: RefState, op: Operation, t: RefState) {
    match op
    case Register(r) =>
      t == if r.fString == "" || r.fString in s.table then s else s.(table := s.table[r.fString := r])
    case RegisterOrResolve(r) =>
      t == if r.fString in s.table then s.(pins := s.pins + multiset{s.table[r.fString]})
           else s.(table := s.table[r.fString := r])
    case Resolve(id) => t == if id in s.table then s.(pins := s.pins + multiset{s.table[id]}) else s
    case Release(r) => r in s.pins && t == s.(pins := s.pins - multiset{r})
    case UnRegister(r, level) => s.pins[r] <= level && t == WithoutRef(s, r)
    case TryUnRegister(r, level) => t == if s.pins[r] <= level then WithoutRef(s, r) else s
    case Swap(r) => t == if r.fString in s.table then s.(table := s.table[r.fString := r]) else s
  }

  /** A run: every operation takes one state to the next. */
  ghost predicate IsRun(states: seq<RefState>, ops: seq<Operation>) {
    && |states| == |ops| + 1 && states[0] == RefState(map[], multiset{})
    && forall i :: 0 <= i < |ops| ==> Next(states[i], ops[i], states[i + 1])
  }

  /** The operation hands out the reference as resolved. */
  ghost predicate Resolves(s: RefState, op: Operation, r: OSRef) {
    match op
    case Resolve(id) => id in s.table && s.table[id] == r
    case RegisterOrResolve(q) => q.fString in s.table && s.table[q.fString] == r
    case _ => false
  }

  /** How often a reference was resolved in the first operations of a run, less how often it was released. */
  ghost function Outstanding(states: seq<RefState>, ops: seq<Operation>, n: nat, r: OSRef): int
    requires n <= |ops| < |states|
  {
    if n == 0 then 0
    else
      Outstanding(states, ops, n - 1, r)
      + (if Resolves(states[n - 1], ops[n - 1], r) then 1 else 0)
      - (if ops[n - 1] == Operation.Release(r) then 1 else 0)
  }

  lemma StepCounts(s: RefState, op: Operation, t: RefState, r: OSRef)
    requires Next(s, op, t) && s.ById()
    ensures t.ById()
    ensures t.pins[r] == s.pins[r] + (if Resolves(s, op, r) then 1 else 0) - (if op == Operation.Release(r) then 1 else 0)
  {
  }

  /** At any point of a run every reference is in the table under its own id, so that ids are unique, and its count is
      the number of its resolves less the number of its releases. */
  lemma {:induction false} RunKeepsCounts(states: seq<RefState>, ops: seq<Operation>, n: nat, r: OSRef)
    requires IsRun(states, ops) && n <= |ops|
    ensures states[n].ById()
    ensures states[n].pins[r] == Outstanding(states, ops, n, r)
  {
    if n != 0 {
      RunKeepsCounts(states, ops, n - 1, r);
      StepCounts(states[n - 1], ops[n - 1], states[n], r);
    }
  }

  /** The operations that can take a resolved reference out of the table: a swap for another one, or an unregistration
      at a level that allows for its resolves. */
  ghost predicate Evicts(op: Operation, s: RefState, r: OSRef) {
    match op
    case Swap(q) => q.fString == r.fString && q != r
    case UnRegister(q, level) => q == r && s.pins[r] <= level
    case TryUnRegister(q, level) => q == r && s.pins[r] <= level
    case _ => false
  }

  /** A step takes a reference out of the table exactly when its operation evicts it. */
  lemma LeavesOnlyEvicted(s: RefState, op: Operation, t: RefState, r: OSRef)
    requires s.ById() && Next(s, op, t) && s.Has(r)
    ensures !t.Has(r) <==> Evicts(op, s, r)
  {
  }

  /** Over any stretch of a run in which a reference stays resolved, without swaps of its id and without
      unregistrations of it at a level above zero, it stays in the table. */
  lemma {:induction false} PinnedStays(states: seq<RefState>, ops: seq<Operation>, i: nat, j: nat, r: OSRef)
    requires IsRun(states, ops) && i <= j <= |ops| && states[i].Has(r)
    requires forall k :: i <= k < j ==> 0 < Outstanding(states, ops, k, r)
    requires forall k :: i <= k < j ==> ops[k].Swap? ==> ops[k].r.fString != r.fString
    requires forall k :: i <= k < j ==> (ops[k].UnRegister? || ops[k].TryUnRegister?) && ops[k].r == r ==> ops[k].level == 0
    ensures states[j].Has(r)
  {
    if i < j {
      PinnedStays(states, ops, i, j - 1, r);
      RunKeepsCounts(states, ops, j - 1, r);
      LeavesOnlyEvicted(states[j - 1], ops[j - 1], states[j], r);
    }
  }

  /** The operations that can bring a reference into the table. */
  ghost predicate Brings(op: Operation, s: RefState, r: OSRef) {
    match op
    case Register(q) => q == r && r.fString != "" && r.fString !in s.table
    case RegisterOrResolve(q) => q == r && r.fString !in s.table
    case Swap(q) => q == r && r.fString in s.table
    case _ => false
  }

  /** A step brings a reference into the table exactly when its operation does so. */
  lemma ComesOnlyBrought(s: RefState, op: Operation, t: RefState, r: OSRef)
    requires s.ById() && Next(s, op, t) && !s.Has(r)
    ensures t.Has(r) <==> Brings(op, s, r)
  {
  }

  /** A reference stays out of the table until it is registered or swapped in. */
  lemma {:induction false} StaysOut(states: seq<RefState>, ops: seq<Operation>, i: nat, j: nat, r: OSRef)
    requires IsRun(states, ops) && i <= j <= |ops| && !states[i].Has(r)
    requires forall k :: i <= k < j ==> !Brings(ops[k], states[k], r)
    ensures !states[j].Has(r)
  {
    if i < j {
      StaysOut(states, ops, i, j - 1, r);
      RunKeepsCounts(states, ops, j - 1, r);
      ComesOnlyBrought(states[j - 1], ops[j - 1], states[j], r);
    }
  }

  /** Unregistering a reference that was swapped out at any time before, and has not been brought in again, leaves the
      table and the counts as they are. */
  lemma UnRegisterOfSwapped(states: seq<RefState>, ops: seq<Operation>, i: nat, j: nat, q: OSRef, r: OSRef)
    requires IsRun(states, ops) && i < j < |ops|
    requires states[i].Has(r) && ops[i] == Operation.Swap(q) && q.fString == r.fString && q != r
    requires forall k :: i < k < j ==> !Brings(ops[k], states[k], r)
    requires (ops[j].UnRegister? || ops[j].TryUnRegister?) && ops[j].r == r
    ensures states[j + 1] == states[j]
  {
    RunKeepsCounts(states, ops, i, r);
    LeavesOnlyEvicted(states[i], ops[i], states[i + 1], r);
    StaysOut(states, ops, i + 1, j, r);
    assert Next(states[j], ops[j], states[j + 1]);
  }

  lemma RunContinues(states: seq<RefState>, ops: seq<Operation>, op: Operation, t: RefState)
    requires IsRun(states, ops) && Next(states[|ops|], op, t)
    ensures IsRun(states + [t], ops + [op])
  {
    var more, longer := states + [t], ops + [op];
    forall i | 0 <= i < |longer| ensures Next(more[i], longer[i], more[i + 1]) {
      if i < |ops| {
        assert Next(states[i], ops[i], states[i + 1]);
      }
    }
  }

  /** The entries of the hash table are the references of the map. */
  ghost predicate Matches(s: RefState, entries: set<OSRef>) {
    && s.ById()
    && (forall r :: r in entries ==> s.Has(r))
    && (forall id :: id in s.table ==> s.table[id] in entries)
  }

  lemma AbsentId(s: RefState, entries: set<OSRef>, r: OSRef)
    requires Matches(s, entries) && r.fString !in s.table
    ensures r !in entries
  {
  }

  lemma MatchesAdded(s: RefState, entries: set<OSRef>, r: OSRef)
    requires Matches(s, entries) && r.fString !in s.table
    ensures Matches(s.(table := s.table[r.fString := r]), entries + {r})
  {
  }

  lemma MatchesRemoved(s: RefState, entries: set<OSRef>, r: OSRef)
    requires Matches(s, entries)
    ensures Matches(WithoutRef(s, r), entries - {r})
  {
    if s.Has(r) {
      forall e | e in entries - {r} ensures WithoutRef(s, r).Has(e) {
        assert s.Has(e);
      }
    }
  }

  lemma ReplacedInMap(table: map<Text, OSRef>, id: Text, r: OSRef)
    ensures (table - {id})[id := r] == table[id := r]
  {
  }

  class OSRefTable {
    const fTable: OSRefHashTable
    ghost var fState: RefState
    /** The references that have been in the table. */
    ghost var fKnown: set<OSRef>
    /** The operations so far, and the state before each of them and now. */
    ghost var fOps: seq<Operation>
    ghost var fStates: seq<RefState>

    /** The reference counts are the numbers of resolves not released yet. */
    ghost predicate Counted()
      reads this`fState, this`fKnown, fKnown`fRefCount
    {
      && (forall r :: r in fState.pins ==> r in fKnown)
      && (forall r :: r in fKnown ==> r.fRefCount == fState.pins[r])
    }

    /** The table's own fields. */
    ghost predicate Stored()
      reads this`fState, this`fKnown, fTable, fTable.fHashTable, fKnown`fNextHashEntry
    {
      match fState
      case RefState(_, _) =>
        && fTable.fEntries <= fKnown && fTable.Valid() && Matches(fState, fTable.fEntries)
        && forall r :: r in fKnown && r !in fTable.fEntries ==> r.fNextHashEntry == null
    }

    /** The operations so far are a run that has come to a state. */
    ghost predicate Logged(s: RefState)
      reads this`fOps, this`fStates
    {
      IsRun(fStates, fOps) && fStates[|fOps|] == s
    }

    ghost predicate Valid()
      reads this`fState, this`fKnown, fTable, fTable.fHashTable, fKnown`fNextHashEntry, fKnown`fRefCount
      reads this`fOps, this`fStates
    {
      Stored() && Counted() && Logged(fState)
    }

    constructor (tableSize: nat)
      requires 1 <= tableSize
      ensures Valid() && fState == RefState(map[], multiset{}) && fOps == [] && fresh(fTable) && fresh(fTable.fHashTable)
    {
      fTable := new OSRefHashTable(tableSize);
      fState, fKnown := RefState(map[], multiset{}), {};
      fOps, fStates := [], [RefState(map[], multiset{})];
    }

    ghost method Log(was: RefState, op: Operation)
      requires Logged(was) && Next(was, op, fState)
      modifies this`fOps, this`fStates
      ensures Logged(fState) && fOps == old(fOps) + [op] && fStates == old(fStates) + [fState]
    {
      RunContinues(fStates, fOps, op, fState);
      fOps, fStates := fOps + [op], fStates + [fState];
    }

    /** The reference count of an object is the number of its resolves less the number of its releases. */
    lemma CountIsOutstanding(r: OSRef)
      requires Valid() && r in fKnown
      ensures r.fRefCount == Outstanding(fStates, fOps, |fOps|, r)
    {
      RunKeepsCounts(fStates, fOps, |fOps|, r);
    }

    /** A reference that was in the table once and has stayed resolved since, without swaps of its id and without
        unregistrations of it at a level above zero, is an entry of the hash table. */
    lemma PinnedIsEntry(i: nat, r: OSRef)
      requires Valid() && i <= |fOps| && fStates[i].Has(r)
      requires forall k :: i <= k < |fOps| ==> 0 < Outstanding(fStates, fOps, k, r)
      requires forall k :: i <= k < |fOps| ==> fOps[k].Swap? ==> fOps[k].r.fString != r.fString
      requires forall k :: i <= k < |fOps| ==>
                 (fOps[k].UnRegister? || fOps[k].TryUnRegister?) && fOps[k].r == r ==> fOps[k].level == 0
      ensures r in fTable.fEntries
    {
      PinnedStays(fStates, fOps, i, |fOps|, r);
    }

    /** A reference that was swapped out, and has not been brought in again since, is no entry of the hash table. */
    lemma SwappedIsNoEntry(i: nat, q: OSRef, r: OSRef)
      requires Valid() && i < |fOps| && fStates[i].Has(r)
      requires fOps[i] == Operation.Swap(q) && q.fString == r.fString && q != r
      requires forall k :: i < k < |fOps| ==> !Brings(fOps[k], fStates[k], r)
      ensures r !in fTable.fEntries
    {
      RunKeepsCounts(fStates, fOps, i, r);
      LeavesOnlyEvicted(fStates[i], fOps[i], fStates[i + 1], r);
      StaysOut(fStates, fOps, i + 1, |fOps|, r);
    }

    method AddRef(inRef: OSRef)
      requires Stored() && inRef.fString !in fState.table && inRef.fNextHashEntry == null
      modifies this`fState, this`fKnown, fTable, fTable.fHashTable, inRef`fNextHashEntry
      ensures Stored() && fState == old(fState).(table := old(fState).table[inRef.fString := inRef])
      ensures fKnown == old(fKnown) + {inRef}
    {
      hide OSRefHashTable.Valid, Matches;
      ghost var s := fState.(table := fState.table[inRef.fString := inRef]);
      assert inRef !in fTable.fEntries by { AbsentId(fState, fTable.fEntries, inRef); }
      assert Matches(s, fTable.fEntries + {inRef}) by { MatchesAdded(fState, fTable.fEntries, inRef); }
      fTable.Add(inRef);
      fState := s;
      fKnown := fKnown + {inRef};
    }

    method RemoveRef(ref: OSRef)
      requires Stored()
      modifies this`fState, fTable, fTable.fHashTable, fKnown`fNextHashEntry
      ensures Stored() && fState == WithoutRef(old(fState), ref)
      ensures old(fState).Has(ref) ==> ref.fNextHashEntry == null
    {
      hide OSRefHashTable.Valid;
      ghost var s := WithoutRef(fState, ref);
      assert Matches(s, fTable.fEntries - {ref}) by { MatchesRemoved(fState, fTable.fEntries, ref); }
      fTable.Remove(ref);
      fState := s;
    }

    /** The reference with an id. */
    method Find(id: Text) returns (ref: OSRef?)
      requires Stored()
      ensures ref == if id in fState.table then fState.table[id] else null
      ensures ref != null ==> ref.fString == id
    {
      ref := fTable.Map(id);
    }

    /** Fails for an empty or a registered id. */
    method Register(inRef: OSRef) returns (ok: bool)
      requires Valid() && !fState.Has(inRef) && inRef.fRefCount == 0 && inRef.fNextHashEntry == null
      modifies this`fState, this`fKnown, this`fOps, this`fStates, fTable, fTable.fHashTable, inRef`fNextHashEntry
      ensures Valid() && Next(old(fState), Operation.Register(inRef), fState)
      ensures fOps == old(fOps) + [Operation.Register(inRef)]
      ensures ok <==> inRef.fString != "" && inRef.fString !in old(fState).table
    {
      hide Stored, Logged, IsRun;
      ghost var was := fState;
      ok := false;
      if inRef.fString != "" {
        var duplicateRef := Find(inRef.fString);
        if duplicateRef == null {
          AddRef(inRef);
          ok := true;
        }
      }
      Log(was, Operation.Register(inRef));
    }

    /** Looks an id up and counts the reference that has it. */
    method ResolveKey(inUniqueID: Text) returns (ref: OSRef?)
      requires Stored() && Counted()
      modifies this`fState, fKnown`fRefCount
      ensures Stored() && Counted() && Next(old(fState), Operation.Resolve(inUniqueID), fState)
      ensures fState.table == old(fState).table
      ensures ref == if inUniqueID in fState.table then fState.table[inUniqueID] else null
    {
      hide OSRefHashTable.Valid;
      ref := Find(inUniqueID);
      if ref != null {
        ref.fRefCount := ref.fRefCount + 1;
        fState := fState.(pins := fState.pins + multiset{ref});
      }
    }

    method Resolve(inUniqueID: Text) returns (ref: OSRef?)
      requires Valid()
      modifies this`fState, this`fOps, this`fStates, fKnown`fRefCount
      ensures Valid() && Next(old(fState), Operation.Resolve(inUniqueID), fState)
      ensures fOps == old(fOps) + [Operation.Resolve(inUniqueID)]
      ensures ref == if inUniqueID in fState.table then fState.table[inUniqueID] else null
    {
      hide Stored, Counted, Logged, IsRun;
      ghost var was := fState;
      ref := ResolveKey(inUniqueID);
      Log(was, Operation.Resolve(inUniqueID));
    }

    /** Registers a reference with a new id and returns null, or resolves and returns the one that has the id. */
    method RegisterOrResolve(inRef: OSRef) returns (duplicateRef: OSRef?)
      requires Valid() && !fState.Has(inRef) && inRef.fRefCount == 0 && inRef.fNextHashEntry == null
      modifies this`fState, this`fKnown, this`fOps, this`fStates, fTable, fTable.fHashTable, inRef`fNextHashEntry
      modifies fKnown`fRefCount
      ensures Valid() && Next(old(fState), Operation.RegisterOrResolve(inRef), fState)
      ensures fOps == old(fOps) + [Operation.RegisterOrResolve(inRef)]
      ensures duplicateRef == if inRef.fString in old(fState).table then old(fState).table[inRef.fString] else null
    {
      hide Stored, Logged, IsRun;
      ghost var was := fState;
      duplicateRef := ResolveKey(inRef.fString);
      if duplicateRef == null {
        AddRef(inRef);
      }
      Log(was, Operation.RegisterOrResolve(inRef));
    }

    /** Every release matches a resolve. */
    method Release(ref: OSRef)
      requires Valid() && ref in fState.pins
      modifies this`fState, this`fOps, this`fStates, ref`fRefCount
      ensures Valid() && Next(old(fState), Operation.Release(ref), fState)
      ensures fOps == old(fOps) + [Operation.Release(ref)]
    {
      hide OSRefHashTable.Valid, Logged, IsRun;
      ghost var was := fState;
      ref.fRefCount := ref.fRefCount - 1;
      fState := fState.(pins := fState.pins - multiset{ref});
      Log(was, Operation.Release(ref));
    }

    /** The step UnRegister takes once its wait for the reference count is over. A reference that this table has never
        had has not been resolved. */
    method UnRegister(ref: OSRef, refCount: nat)
      requires Valid() && (ref in fKnown || ref.fRefCount == 0) && ref.fRefCount <= refCount
      modifies this`fState, this`fOps, this`fStates, fTable, fTable.fHashTable, fKnown`fNextHashEntry
      ensures Valid() && Next(old(fState), Operation.UnRegister(ref, refCount), fState)
      ensures fOps == old(fOps) + [Operation.UnRegister(ref, refCount)]
    {
      hide Stored, Logged, IsRun;
      ghost var was := fState;
      assert ref !in fKnown ==> fState.pins[ref] == 0;
      RemoveRef(ref);
      Log(was, Operation.UnRegister(ref, refCount));
    }

    /** An UnRegister when that need not wait. */
    method TryUnRegister(ref: OSRef, refCount: nat) returns (done: bool)
      requires Valid() && (ref in fKnown || ref.fRefCount == 0)
      modifies this`fState, this`fOps, this`fStates, fTable, fTable.fHashTable, fKnown`fNextHashEntry
      ensures Valid() && Next(old(fState), Operation.TryUnRegister(ref, refCount), fState)
      ensures fOps == old(fOps) + [if done then Operation.UnRegister(ref, refCount)
                                   else Operation.TryUnRegister(ref, refCount)]
      ensures done <==> old(fState).pins[ref] <= refCount
    {
      hide Stored, IsRun;
      assert ref !in fKnown ==> fState.pins[ref] == 0;
      if ref.fRefCount > refCount {
        Log(fState, Operation.TryUnRegister(ref, refCount));
        return false;
      }
      UnRegister(ref, refCount);
      return true;
    }

    /** Exchanges the reference that has an id. */
    method Replace(oldRef: OSRef, newRef: OSRef)
      requires Stored() && fState.Has(oldRef) && oldRef.fString == newRef.fString
      requires newRef == oldRef || newRef.fNextHashEntry == null
      modifies this`fState, this`fKnown, fTable, fTable.fHashTable, fKnown`fNextHashEntry, newRef`fNextHashEntry
      ensures Stored() && fState == old(fState).(table := old(fState).table[newRef.fString := newRef])
      ensures fKnown == old(fKnown) + {newRef}
    {
      hide OSRefHashTable.Valid;
      ghost var s := fState;
      RemoveRef(oldRef);
      assert fState.(table := fState.table[newRef.fString := newRef]) == s.(table := s.table[newRef.fString := newRef]) by {
        ReplacedInMap(s.table, newRef.fString, newRef);
      }
      AddRef(newRef);
    }

    lemma CountedInTable(r: OSRef)
      requires Stored() && Counted() && fState.Has(r)
      ensures r.fRefCount == fState.pins[r]
    {
    }

    /** Puts a reference in the place of the one that has its id. */
    method SwapKey(newRef: OSRef)
      requires Stored() && Counted()
      requires fState.Has(newRef) || (newRef.fNextHashEntry == null && newRef.fRefCount == fState.pins[newRef])
      modifies this`fState, this`fKnown, fTable, fTable.fHashTable, fKnown`fNextHashEntry, newRef`fNextHashEntry
      ensures Stored() && Counted() && Next(old(fState), Operation.Swap(newRef), fState)
    {
      hide Stored;
      if fState.Has(newRef) {
        CountedInTable(newRef);
      }
      var oldRef := Find(newRef.fString);
      if oldRef != null {
        Replace(oldRef, newRef);
      }
    }

    /** Puts a reference in the place of the one that has its id, whose resolves stay as they are. */
    method Swap(newRef: OSRef)
      requires Valid()
      requires fState.Has(newRef) || (newRef.fNextHashEntry == null && newRef.fRefCount == fState.pins[newRef])
      modifies this`fState, this`fKnown, this`fOps, this`fStates
      modifies fTable, fTable.fHashTable, fKnown`fNextHashEntry, newRef`fNextHashEntry
      ensures Valid() && Next(old(fState), Operation.Swap(newRef), fState)
      ensures fOps == old(fOps) + [Operation.Swap(newRef)]
    {
      hide Stored, Counted, Logged, IsRun;
      ghost var was := fState;
      SwapKey(newRef);
      Log(was, Operation.Swap(newRef));
    }
  }
}
