/** The binary min-heap of CommonUtilitiesLib/OSHeap.cpp and OSHeap.h: slots 1 .. fFreeIndex - 1 of an array. */
module MinHeap {
  import opened Common

  // ---------- Heap order, on the values of the used slots (slot i is element i - 1) ----------

  function At(v: seq<int>, slot: int): int
    requires 1 <= slot <= |v|
  {
    v[slot - 1]
  }

  /** Slot c is a child of slot p. */
  predicate Child(p: int, c: int) {
    c == 2 * p || c == 2 * p + 1
  }

  /** No value is smaller than its parent's. */
  ghost predicate Ordered(v: seq<int>) {
    forall p, c :: 1 <= p < c <= |v| && Child(p, c) ==> At(v, p) <= At(v, c)
  }

  /** Ordered, except that slot k may be smaller than its parent. */
  ghost predicate OrderedAbove(v: seq<int>, k: nat) {
    && (forall p, c :: 1 <= p < c <= |v| && Child(p, c) && c != k ==> At(v, p) <= At(v, c))
    && (forall p, c :: 1 <= p < k < c <= |v| && Child(p, k) && Child(k, c) ==> At(v, p) <= At(v, c))
  }

  /** Ordered, except that slot k may be larger than its children. */
  ghost predicate OrderedBelow(v: seq<int>, k: nat) {
    && (forall p, c :: 1 <= p < c <= |v| && Child(p, c) && p != k ==> At(v, p) <= At(v, c))
    && (forall p, c :: 1 <= p < k < c <= |v| && Child(p, k) && Child(k, c) ==> At(v, p) <= At(v, c))
  }

  /** Exchanging two elements of a sequence. */
  function Swapped<T>(s: seq<T>, i: nat, j: nat): (r: seq<T>)
    requires i < |s| && j < |s|
    ensures |r| == |s| && multiset(r) == multiset(s)
  {
    s[i := s[j]][j := s[i]]
  }

  lemma UpStep(v: seq<int>, k: nat, parent: nat)
    requires 1 <= parent < k <= |v| && Child(parent, k) && OrderedAbove(v, k) && At(v, k) < At(v, parent)
    ensures OrderedAbove(Swapped(v, k - 1, parent - 1), parent)
  {
  }

  lemma UpStop(v: seq<int>, k: nat, parent: nat)
    requires 1 <= parent < k <= |v| && Child(parent, k) && OrderedAbove(v, k) && At(v, parent) <= At(v, k)
    ensures Ordered(v)
  {
  }

  lemma UpStopAtRoot(v: seq<int>)
    requires OrderedAbove(v, 1)
    ensures Ordered(v)
  {
  }

  lemma AppendedLeaf(v: seq<int>, x: int)
    requires Ordered(v)
    ensures OrderedAbove(v + [x], |v| + 1)
  {
    var u := v + [x];
    forall p, c | 1 <= p < c <= |u| && Child(p, c) && c != |u| ensures At(u, p) <= At(u, c) {
      assert At(v, p) <= At(v, c);
    }
  }

  /** The root of an ordered heap is a least element. */
  lemma {:induction false} RootIsLeast(v: seq<int>, i: nat)
    requires Ordered(v) && 1 <= i <= |v|
    ensures At(v, 1) <= At(v, i)
  {
    if i != 1 {
      RootIsLeast(v, i / 2);
      assert Child(i / 2, i);
    }
  }

  lemma DownStep(v: seq<int>, k: nat, child: nat)
    requires 1 <= k < child <= |v| && Child(k, child) && OrderedBelow(v, k) && At(v, child) < At(v, k)
    requires forall c :: k < c <= |v| && Child(k, c) ==> At(v, child) <= At(v, c)
    ensures OrderedBelow(Swapped(v, k - 1, child - 1), child)
  {
  }

  lemma DownStop(v: seq<int>, k: nat)
    requires OrderedBelow(v, k) && Stuck(v, k)
    ensures Ordered(v)
  {
  }

  /** The values after slot k has been filled with the last leaf and the last slot has been given up. */
  function LeafMoved<T>(v: seq<T>, k: nat): (u: seq<T>)
    requires 1 <= k <= |v|
    ensures |u| == |v| - 1 && multiset(u) + multiset{v[k - 1]} == multiset(v)
  {
    var last := v[|v| - 1];
    var u := v[k - 1 := last];
    assert multiset(u) == multiset(v) - multiset{v[k - 1]} + multiset{last};
    assert u == u[..|v| - 1] + [last];
    u[..|v| - 1]
  }

  /** The moved leaf is not smaller than the parent of the slot it moves to, or there is no such parent, or nothing
      moves. */
  predicate LeafFits(v: seq<int>, k: nat)
    requires 1 <= k <= |v|
  {
    k == 1 || k == |v| || At(v, k / 2) <= At(v, |v|)
  }

  lemma FittingLeaf(v: seq<int>, k: nat)
    requires 1 <= k <= |v| && Ordered(v) && LeafFits(v, k)
    ensures OrderedBelow(LeafMoved(v, k), k)
  {
    var u := LeafMoved(v, k);
    assert forall i :: 1 <= i <= |u| && i != k ==> At(u, i) == At(v, i);
    if 1 < k <= |u| {
      assert Child(k / 2, k);
    }
    forall p, c | 1 <= p < k < c <= |u| && Child(p, k) && Child(k, c) ensures At(u, p) <= At(u, c) {
      assert At(v, p) <= At(v, k) <= At(v, c);
    }
  }

  /** A leaf that does not fit stays where it is put, below a larger parent. */
  lemma MisplacedLeaf(v: seq<int>, k: nat)
    requires 1 <= k <= |v| && Ordered(v) && !LeafFits(v, k)
    ensures !Ordered(LeafMoved(v, k))
    ensures Stuck(LeafMoved(v, k), k)
  {
    var u := LeafMoved(v, k);
    assert Child(k / 2, k) && At(u, k / 2) == At(v, k / 2);
    forall c | k < c < |v| && Child(k, c) ensures At(u, k) <= At(u, c) {
      assert At(v, k / 2) <= At(v, k) <= At(v, c);
    }
  }

  /** No child of slot k is smaller, so nothing sinks below it. */
  ghost predicate Stuck(v: seq<int>, k: nat) {
    forall c :: 1 <= k < c <= |v| && Child(k, c) ==> At(v, k) <= At(v, c)
  }

  /** A heap in which taking out the element of slot 4 leaves a 4 below a 10. */
  lemma OrderLostExample()
    ensures var v := [1, 10, 2, 11, 12, 3, 4];
            Ordered(v) && !LeafFits(v, 4) && !Ordered(LeafMoved(v, 4))
  {
    var v := [1, 10, 2, 11, 12, 3, 4];
    assert !LeafFits(v, 4);
    MisplacedLeaf(v, 4);
  }

  /** Whatever sifting down makes of the values after the leaf has moved, they are ordered exactly if the leaf fits. */
  lemma OrderAfterExtract(v: seq<int>, k: nat, u: seq<int>)
    requires 1 <= k <= |v| && Ordered(v)
    requires OrderedBelow(LeafMoved(v, k), k) ==> Ordered(u)
    requires Stuck(LeafMoved(v, k), k) ==> u == LeafMoved(v, k)
    ensures Ordered(u) <==> LeafFits(v, k)
  {
    if LeafFits(v, k) {
      FittingLeaf(v, k);
    } else {
      MisplacedLeaf(v, k);
    }
  }

  // ---------- The heap object ----------

  class OSHeapElem {
    var fValue: int
    var fCurrentHeap: OSHeap?

    constructor (value: int)
      ensures fValue == value && fCurrentHeap == null
    {
      fValue := value;
      fCurrentHeap := null;
    }
  }

  ghost function Values(s: seq<OSHeapElem>): (v: seq<int>)
    reads s
    ensures |v| == |s| && forall i :: 0 <= i < |s| ==> v[i] == s[i].fValue
  {
    seq(|s|, i requires 0 <= i < |s| reads s => s[i].fValue)
  }

  /** Adding one new element and permuting keeps a sequence duplicate-free. */
  lemma AddedMembers(s: seq<OSHeapElem>, before: seq<OSHeapElem>, x: OSHeapElem)
    requires multiset(s) == multiset(before) + multiset{x} && x !in before && NoRepeats(before)
    ensures NoRepeats(s) && forall e :: e in s ==> e == x || e in before
  {
    forall e | e in s ensures e == x || e in before {
      assert e in multiset(s);
    }
  }

  ghost predicate NoRepeats(s: seq<OSHeapElem>) {
    forall e :: e in s ==> multiset(s)[e] == 1
  }

  lemma RemovedMembers(s: seq<OSHeapElem>, before: seq<OSHeapElem>, x: OSHeapElem)
    requires multiset(s) + multiset{x} == multiset(before) && x in before && NoRepeats(before)
    ensures x !in s && NoRepeats(s) && forall e :: e in s ==> e in before
  {
    forall e | e in s ensures e in before && multiset(s)[e] == 1 && e != x {
      assert e in multiset(s) && e in multiset(before);
    }
  }

  class OSHeap {
    var fHeap: array<OSHeapElem?>
    var fFreeIndex: nat
    /** The elements, slot by slot: slot i holds elems[i - 1]. */
    ghost var elems: seq<OSHeapElem>

    ghost predicate InBounds()
      reads this, fHeap
    {
      && fFreeIndex == |elems| + 1 <= fHeap.Length && 2 <= fHeap.Length
      && forall i :: 1 <= i < fFreeIndex ==> fHeap[i] == elems[i - 1]
    }

    /** The elements are distinct and each of them knows this heap. */
    ghost predicate Valid()
      reads this, fHeap, elems
    {
      && InBounds()
      && NoRepeats(elems)
      && forall e :: e in elems ==> e.fCurrentHeap == this
    }

    constructor (inStartSize: nat)
      ensures Valid() && elems == [] && fresh(fHeap)
    {
      var size := if inStartSize < 2 then 2 else inStartSize;
      fHeap := new OSHeapElem?[size](_ => null);
      fFreeIndex := 1;
      elems := [];
    }

    method PeekMin() returns (min: OSHeapElem?)
      requires Valid()
      ensures min == null <==> elems == []
      ensures min != null ==> min == elems[0]
      ensures min != null && Ordered(Values(elems)) ==> forall e :: e in elems ==> min.fValue <= e.fValue
    {
      if fFreeIndex <= 1 {
        return null;
      }
      min := fHeap[1];
      if Ordered(Values(elems)) {
        forall e | e in elems ensures min.fValue <= e.fValue {
          var i :| 0 <= i < |elems| && elems[i] == e;
          RootIsLeast(Values(elems), i + 1);
        }
      }
    }

    /** A full array is replaced by one of twice its size. */
    method Grow()
      requires InBounds()
      modifies this`fHeap
      ensures fresh(fHeap) && fHeap.Length == 2 * old(fHeap.Length)
      ensures InBounds()
    {
      var tempArray := new OSHeapElem?[2 * fHeap.Length](_ => null);
      forall i | 0 <= i < fFreeIndex {
        tempArray[i] := fHeap[i];
      }
      fHeap := tempArray;
    }

    method Swap(i: nat, j: nat)
      requires InBounds() && 1 <= i < fFreeIndex && 1 <= j < fFreeIndex
      modifies fHeap, this`elems
      ensures InBounds() && elems == Swapped(old(elems), i - 1, j - 1)
      ensures Values(elems) == Swapped(old(Values(elems)), i - 1, j - 1)
    {
      fHeap[i], fHeap[j] := fHeap[j], fHeap[i];
      elems := Swapped(elems, i - 1, j - 1);
    }

    /** Moves the element of slot k up until its parent is not larger. */
    method BubbleUp(k: nat)
      requires InBounds() && 1 <= k < fFreeIndex
      modifies fHeap, this`elems
      ensures InBounds() && multiset(elems) == multiset(old(elems))
      ensures old(OrderedAbove(Values(elems), k)) ==> Ordered(Values(elems))
    {
      ghost var ordered := OrderedAbove(Values(elems), k);
      var swapPos := k;
      while swapPos > 1
        invariant InBounds() && 1 <= swapPos < fFreeIndex
        invariant multiset(elems) == multiset(old(elems))
        invariant ordered ==> OrderedAbove(Values(elems), swapPos)
      {
        var nextSwapPos := swapPos / 2;
        ghost var v := Values(elems);
        assert Child(nextSwapPos, swapPos);
        if fHeap[swapPos].fValue < fHeap[nextSwapPos].fValue {
          Swap(swapPos, nextSwapPos);
          if ordered {
            UpStep(v, swapPos, nextSwapPos);
          }
          swapPos := nextSwapPos;
        } else {
          if ordered {
            UpStop(v, swapPos, nextSwapPos);
          }
          return;
        }
      }
      if ordered {
        UpStopAtRoot(Values(elems));
      }
    }

    /** Puts an element into the first free slot, growing the array if there is none. */
    method AppendLeaf(inElem: OSHeapElem)
      requires InBounds()
      modifies this, fHeap
      ensures InBounds() && (fHeap == old(fHeap) || fresh(fHeap))
      ensures elems == old(elems) + [inElem] && Values(elems) == old(Values(elems)) + [inElem.fValue]
    {
      if fFreeIndex == fHeap.Length {
        Grow();
      }
      fHeap[fFreeIndex] := inElem;
      fFreeIndex := fFreeIndex + 1;
      elems := elems + [inElem];
    }

    method Insert(inElem: OSHeapElem)
      requires Valid() && inElem.fCurrentHeap == null
      modifies this, fHeap, inElem`fCurrentHeap
      ensures Valid() && (fHeap == old(fHeap) || fresh(fHeap))
      ensures inElem.fCurrentHeap == this
      ensures multiset(elems) == multiset(old(elems)) + multiset{inElem}
      ensures old(Ordered(Values(elems))) ==> Ordered(Values(elems))
    {
      hide Ordered, OrderedAbove;
      ghost var v := Values(elems);
      AppendLeaf(inElem);
      if Ordered(v) {
        AppendedLeaf(v, inElem.fValue);
      }
      BubbleUp(fFreeIndex - 1);
      AddedMembers(elems, old(elems), inElem);
      SetCurrentHeap(inElem, this);
    }

    /** Changes which heap an element says it is in, and no value. */
    method SetCurrentHeap(e: OSHeapElem, heap: OSHeap?)
      requires InBounds()
      modifies e`fCurrentHeap
      ensures e.fCurrentHeap == heap
      ensures Values(elems) == old(Values(elems))
    {
      e.fCurrentHeap := heap;
    }

    /** Moves the last leaf into a slot; the element that was there is no longer in the heap. */
    method MoveLeaf(inIndex: nat) returns (victim: OSHeapElem)
      requires InBounds() && 1 <= inIndex < fFreeIndex
      modifies this`fFreeIndex, this`elems, fHeap
      ensures InBounds() && victim == old(elems)[inIndex - 1]
      ensures elems == LeafMoved(old(elems), inIndex)
      ensures Values(elems) == LeafMoved(old(Values(elems)), inIndex)
    {
      victim := fHeap[inIndex];
      fHeap[inIndex] := fHeap[fFreeIndex - 1];
      fFreeIndex := fFreeIndex - 1;
      elems := LeafMoved(elems, inIndex);
    }

    /** The smallest of a slot and its children, as the loop of Extract picks it. */
    method Smallest(parent: nat) returns (greatest: nat)
      requires InBounds() && 1 <= parent < fFreeIndex
      ensures greatest == parent || (parent < greatest < fFreeIndex && Child(parent, greatest))
      ensures greatest != parent ==> At(Values(elems), greatest) < At(Values(elems), parent)
      ensures greatest == parent ==> Stuck(Values(elems), parent)
      ensures forall c :: parent < c < fFreeIndex && Child(parent, c) ==> At(Values(elems), greatest) <= At(Values(elems), c)
    {
      greatest := parent;
      var leftChild := parent * 2;
      if leftChild < fFreeIndex && fHeap[leftChild].fValue < fHeap[parent].fValue {
        greatest := leftChild;
      }
      var rightChild := parent * 2 + 1;
      if rightChild < fFreeIndex && fHeap[rightChild].fValue < fHeap[greatest].fValue {
        greatest := rightChild;
      }
    }

    /** Exchanges an element with the smaller of its children, if one is smaller. */
    method SinkOne(parent: nat) returns (greatest: nat)
      requires InBounds() && 1 <= parent < fFreeIndex
      modifies fHeap, this`elems
      ensures InBounds() && multiset(elems) == multiset(old(elems))
      ensures greatest == parent ==>
                elems == old(elems) && (old(OrderedBelow(Values(elems), parent)) ==> Ordered(Values(elems)))
      ensures greatest != parent ==>
                && parent < greatest < fFreeIndex && !old(Stuck(Values(elems), parent))
                && (old(OrderedBelow(Values(elems), parent)) ==> OrderedBelow(Values(elems), greatest))
    {
      ghost var v := Values(elems);
      greatest := Smallest(parent);
      if greatest == parent {
        assert OrderedBelow(v, parent) ==> Ordered(v) by { if OrderedBelow(v, parent) { DownStop(v, parent); } }
      } else {
        Swap(parent, greatest);
        assert OrderedBelow(v, parent) ==> OrderedBelow(Values(elems), greatest) by {
          if OrderedBelow(v, parent) { DownStep(v, parent, greatest); }
        }
      }
    }

    /** Moves the element of slot k down until no child is smaller. */
    method BubbleDown(k: nat)
      requires InBounds() && 1 <= k <= fFreeIndex
      modifies fHeap, this`elems
      ensures InBounds() && multiset(elems) == multiset(old(elems))
      ensures old(OrderedBelow(Values(elems), k)) ==> Ordered(Values(elems))
      ensures old(Stuck(Values(elems), k)) ==> elems == old(elems)
    {
      hide *;
      ghost var ordered := OrderedBelow(Values(elems), k);
      ghost var stuck := Stuck(Values(elems), k);
      ghost var before := elems;
      var parent := k;
      while parent < fFreeIndex
        invariant InBounds() && 1 <= parent <= fFreeIndex
        invariant multiset(elems) == multiset(before)
        invariant ordered ==> OrderedBelow(Values(elems), parent)
        invariant stuck ==> elems == before && parent == k && Stuck(Values(elems), k)
        decreases fFreeIndex - parent
      {
        var greatest := SinkOne(parent);
        if greatest == parent {
          return;
        }
        parent := greatest;
      }
      if ordered {
        FreeSlotIsStuck(parent);
        DownStop(Values(elems), parent);
      }
    }

    lemma FreeSlotIsStuck(k: nat)
      requires InBounds() && fFreeIndex <= k
      ensures Stuck(Values(elems), k)
    {
    }

    /** Takes the element of one slot out. In an ordered heap, order survives exactly when the moved leaf fits. */
    method Extract(inIndex: nat) returns (victim: OSHeapElem?)
      requires Valid() && 1 <= inIndex
      modifies this`fFreeIndex, this`elems, fHeap, elems`fCurrentHeap
      ensures Valid()
      ensures old(fFreeIndex) <= inIndex ==> victim == null && elems == old(elems)
      ensures inIndex < old(fFreeIndex) ==>
                && victim == old(elems)[inIndex - 1] && victim.fCurrentHeap == null
                && multiset(elems) + multiset{victim} == multiset(old(elems))
                && (old(Ordered(Values(elems))) ==>
                      (Ordered(Values(elems)) <==> old(LeafFits(Values(elems), inIndex))))
    {
      if fFreeIndex <= inIndex {
        return null;
      }
      ghost var before := elems;
      victim := TakeOut(inIndex);
      RemovedMembers(elems, before, victim);
      SetCurrentHeap(victim, null);
    }

    /** The slot's element is replaced by the last leaf, which moves down to its place. */
    method TakeOut(inIndex: nat) returns (victim: OSHeapElem)
      requires InBounds() && 1 <= inIndex < fFreeIndex
      modifies this`fFreeIndex, this`elems, fHeap
      ensures InBounds() && victim == old(elems)[inIndex - 1]
      ensures multiset(elems) + multiset{victim} == multiset(old(elems))
      ensures old(Ordered(Values(elems))) ==>
                (Ordered(Values(elems)) <==> old(LeafFits(Values(elems), inIndex)))
    {
      ghost var v, before := Values(elems), elems;
      victim := MoveLeaf(inIndex);
      assert multiset(elems) + multiset{victim} == multiset(before);
      BubbleDown(inIndex);
      if Ordered(v) {
        OrderAfterExtract(v, inIndex, Values(elems));
      }
    }

    /** The least element of an ordered heap comes out, and the rest stays ordered. */
    method ExtractMin() returns (min: OSHeapElem?)
      requires Valid()
      modifies this`fFreeIndex, this`elems, fHeap, elems`fCurrentHeap
      ensures Valid()
      ensures old(elems) == [] ==> min == null && elems == []
      ensures old(elems) != [] ==>
                && min != null && min in old(elems) && min.fCurrentHeap == null
                && multiset(elems) + multiset{min} == multiset(old(elems))
      ensures old(elems) != [] && old(Ordered(Values(elems))) ==>
                && Ordered(Values(elems))
                && forall e :: e in old(elems) ==> min.fValue <= e.fValue
    {
      ghost var least := PeekMin();
      min := Extract(1);
    }

    /** Takes one given element out, wherever it is; an element that is not in this heap is left alone. */
    method Remove(elem: OSHeapElem) returns (found: OSHeapElem?)
      requires Valid()
      modifies this`fFreeIndex, this`elems, fHeap, elems`fCurrentHeap
      ensures Valid()
      ensures elem !in old(elems) ==> found == null && elems == old(elems)
      ensures elem in old(elems) ==>
                && found == elem && elem.fCurrentHeap == null
                && multiset(elems) + multiset{elem} == multiset(old(elems))
                && (old(Ordered(Values(elems))) ==>
                      exists i :: 0 <= i < |old(elems)| && old(elems)[i] == elem
                                  && (Ordered(Values(elems)) <==> old(LeafFits(Values(elems), i + 1))))
    {
      if fFreeIndex == 1 {
        return null;
      }
      var theIndex := 1;
      while theIndex < fFreeIndex && fHeap[theIndex] != elem
        invariant 1 <= theIndex <= fFreeIndex
        invariant elem !in elems[..theIndex - 1]
      {
        theIndex := theIndex + 1;
      }
      if theIndex == fFreeIndex {
        return null;
      }
      found := Extract(theIndex);
    }
  }

  // ---------- Filling and draining a heap ----------

  /** The elements come in the order of their values. */
  ghost predicate Sorted(s: seq<OSHeapElem>)
    reads s
  {
    forall i, j :: 0 <= i < j < |s| ==> s[i].fValue <= s[j].fValue
  }

  ghost predicate NoneLarger(s: seq<OSHeapElem>, rest: seq<OSHeapElem>)
    reads s, rest
  {
    forall x, e :: x in s && e in rest ==> x.fValue <= e.fValue
  }

  lemma SameMembers(a: seq<OSHeapElem>, b: seq<OSHeapElem>, x: OSHeapElem)
    requires multiset(a) + multiset{x} == multiset(b)
    ensures forall e :: e in a ==> e in b
    ensures x in b
  {
    forall e | e in a ensures e in b {
      assert e in multiset(a) && e in multiset(b);
    }
    assert x in multiset(b);
  }

  /** The next least element goes behind the ones taken out before. */
  lemma SortedOnward(outs: seq<OSHeapElem>, min: OSHeapElem, before: seq<OSHeapElem>, rest: seq<OSHeapElem>)
    requires Sorted(outs) && NoneLarger(outs, before)
    requires multiset(rest) + multiset{min} == multiset(before) && forall e :: e in before ==> min.fValue <= e.fValue
    ensures Sorted(outs + [min]) && NoneLarger(outs + [min], rest)
  {
    SameMembers(rest, before, min);
  }

  /** A heap of given elements has been drained of some of them. */
  ghost predicate Drained(h: OSHeap, outs: seq<OSHeapElem>, all: seq<OSHeapElem>)
    reads h, h.fHeap, h.elems, outs
  {
    && h.Valid() && Ordered(Values(h.elems))
    && multiset(outs) + multiset(h.elems) == multiset(all)
    && Sorted(outs) && NoneLarger(outs, h.elems)
    && forall e :: e in outs ==> e.fCurrentHeap == null
  }

  lemma StillToDrain(rest: seq<OSHeapElem>, outs: seq<OSHeapElem>, all: seq<OSHeapElem>)
    requires multiset(outs) + multiset(rest) == multiset(all)
    ensures forall i :: 0 <= i < |rest| ==> rest[i] in all
  {
    forall i | 0 <= i < |rest| ensures rest[i] in all {
      assert rest[i] in multiset(rest) && rest[i] in multiset(all);
    }
  }

  lemma MovedOver(outs: seq<OSHeapElem>, min: OSHeapElem, before: seq<OSHeapElem>, rest: seq<OSHeapElem>,
                  all: seq<OSHeapElem>)
    requires multiset(outs) + multiset(before) == multiset(all) && multiset(rest) + multiset{min} == multiset(before)
    ensures multiset(outs + [min]) + multiset(rest) == multiset(all)
  {
  }

  /** One more element comes out. */
  method DrainOne(h: OSHeap, outs: seq<OSHeapElem>, ghost all: seq<OSHeapElem>) returns (more: seq<OSHeapElem>)
    requires Drained(h, outs, all) && h.elems != []
    modifies h`fFreeIndex, h`elems, h.fHeap, h.elems`fCurrentHeap
    ensures Drained(h, more, all) && |h.elems| < |old(h.elems)|
  {
    ghost var before := h.elems;
    var min := h.ExtractMin();
    more := outs + [min];
    assert Sorted(more) && NoneLarger(more, h.elems) by { SortedOnward(outs, min, before, h.elems); }
    MovedOver(outs, min, before, h.elems, all);
    assert |multiset(h.elems) + multiset{min}| == |multiset(before)|;
  }

  /** Extracts the least elements of an ordered heap until it is empty: all its elements, in nondecreasing order. */
  method Drain(h: OSHeap) returns (outs: seq<OSHeapElem>)
    requires h.Valid() && Ordered(Values(h.elems))
    modifies h`fFreeIndex, h`elems, h.fHeap, h.elems`fCurrentHeap
    ensures h.Valid() && h.elems == []
    ensures multiset(outs) == multiset(old(h.elems)) && Sorted(outs)
    ensures forall e :: e in outs ==> e.fCurrentHeap == null
  {
    outs := [];
    ghost var all := h.elems;
    while h.fFreeIndex > 1
      invariant Drained(h, outs, all)
      decreases |h.elems|
    {
      StillToDrain(h.elems, outs, all);
      outs := DrainOne(h, outs, all);
    }
  }

  lemma EmptyIsOrdered(v: seq<int>)
    requires v == []
    ensures Ordered(v)
  {
  }

  lemma LaterDiffer(elems: seq<OSHeapElem>, i: nat)
    requires Distinct(elems) && i < |elems|
    ensures forall j :: i < j < |elems| ==> elems[j] != elems[i]
  {
  }

  /** A new heap with given elements in it. */
  method Filled(elems: seq<OSHeapElem>) returns (h: OSHeap)
    requires Distinct(elems) && forall e :: e in elems ==> e.fCurrentHeap == null
    modifies elems`fCurrentHeap
    ensures fresh(h) && fresh(h.fHeap) && h.Valid() && Ordered(Values(h.elems))
    ensures multiset(h.elems) == multiset(elems)
  {
    hide *;
    h := new OSHeap(|elems|);
    EmptyIsOrdered(Values(h.elems));
    var i := 0;
    while i < |elems|
      invariant i <= |elems| && fresh(h) && fresh(h.fHeap) && h.Valid() && Ordered(Values(h.elems))
      invariant multiset(h.elems) == multiset(elems[..i])
      invariant forall j :: i <= j < |elems| ==> elems[j].fCurrentHeap == null
    {
      LaterDiffer(elems, i);
      h.Insert(elems[i]);
      assert elems[..i + 1] == elems[..i] + [elems[i]];
      i := i + 1;
    }
    assert elems[..i] == elems;
  }

  /** Inserting elements and extracting the least ones gives the same elements, in nondecreasing order. */
  method InsertAndDrain(elems: seq<OSHeapElem>) returns (outs: seq<OSHeapElem>)
    requires Distinct(elems) && forall e :: e in elems ==> e.fCurrentHeap == null
    modifies elems`fCurrentHeap
    ensures multiset(outs) == multiset(elems) && Sorted(outs)
  {
    var h := Filled(elems);
    StillToDrain(h.elems, [], elems);
    outs := Drain(h);
  }
}
