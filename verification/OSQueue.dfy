/** The intrusive circular list of CommonUtilitiesLib/OSQueue.cpp and OSQueue.h, as a first-in first-out sequence. */
module LinkedQueue {
  import opened Common

  class OSQueueElem {
    var fNext: OSQueueElem?
    var fPrev: OSQueueElem?
    var fQueue: OSQueue?

    constructor ()
      ensures fNext == null && fPrev == null && fQueue == null
    {
      fNext, fPrev, fQueue := null, null, null;
    }
  }

  class OSQueue {
    const fSentinel: OSQueueElem
    var fLength: nat
    /** The queued elements, the next one to leave first. */
    ghost var elems: seq<OSQueueElem>

    /** The ring: positions -1 and |elems| are both the sentinel. */
    ghost function Node(i: int): OSQueueElem
      reads this
    {
      if 0 <= i < |elems| then elems[i] else fSentinel
    }

    ghost predicate Linked(i: int)
      reads this, elems, fSentinel
    {
      Node(i - 1).fPrev == Node(i) && Node(i).fNext == Node(i - 1)
    }

    ghost predicate Valid()
      reads this, elems, fSentinel
    {
      && fLength == |elems|
      && fSentinel !in elems && fSentinel.fQueue == null
      && Distinct(elems)
      && (forall i :: 0 <= i < |elems| ==> elems[i].fQueue == this)
      && (forall i :: 0 <= i <= |elems| ==> Linked(i))
    }

    constructor ()
      ensures Valid() && elems == [] && fresh(fSentinel)
    {
      var sentinel := new OSQueueElem();
      sentinel.fNext := sentinel;
      sentinel.fPrev := sentinel;
      fSentinel := sentinel;
      fLength := 0;
      elems := [];
    }

    method GetHead() returns (head: OSQueueElem?)
      requires Valid()
      ensures head == if elems == [] then null else elems[0]
    {
      assert Linked(0);
      head := if fLength > 0 then fSentinel.fPrev else null;
    }

    method GetTail() returns (tail: OSQueueElem?)
      requires Valid()
      ensures tail == if elems == [] then null else elems[|elems| - 1]
    {
      assert Linked(|elems|);
      tail := if fLength > 0 then fSentinel.fNext else null;
    }

    /** OSQueueIter::Next: from one element to the one queued after it. */
    method Next(current: OSQueueElem, ghost i: nat) returns (next: OSQueueElem?)
      requires Valid() && i < |elems| && current == elems[i]
      ensures next == if i + 1 < |elems| then elems[i + 1] else null
    {
      var tail := GetTail();
      assert Linked(i + 1);
      next := if current == tail then null else current.fPrev;
    }

    /** Adds at the tail. An element that is already queued here stays where it is. */
    method EnQueue(elem: OSQueueElem)
      requires Valid() && elem != fSentinel
      requires elem.fQueue == null || (elem.fQueue == this && elem in elems)
      modifies this, elem, fSentinel, elems
      ensures Valid() && elem.fQueue == this
      ensures elems == if elem in old(elems) then old(elems) else old(elems) + [elem]
    {
      if elem.fQueue == this {
        return;
      }
      assert Linked(|elems|);
      elem.fNext := fSentinel.fNext;
      elem.fPrev := fSentinel;
      elem.fQueue := this;
      fSentinel.fNext.fPrev := elem;
      fSentinel.fNext := elem;
      fLength := fLength + 1;
      elems := elems + [elem];
      forall i | 0 <= i <= |elems| ensures Linked(i) {
        assert i < |elems| - 1 ==> old(Linked(i));
      }
    }

    /** Unlinks the element at one position of the ring. */
    method Unlink(elem: OSQueueElem, ghost k: nat)
      requires Valid() && k < |elems| && elem == elems[k]
      modifies this, fSentinel, elems
      ensures Valid() && elem.fQueue == null
      ensures elems == Without(old(elems), k)
    {
      assert Linked(k) && Linked(k + 1);
      elem.fNext.fPrev := elem.fPrev;
      elem.fPrev.fNext := elem.fNext;
      elem.fQueue := null;
      fLength := fLength - 1;
      ghost var was := elems;
      elems := Without(elems, k);
      WithoutDistinct(was, k);
      forall i | 0 <= i <= |elems| ensures Linked(i) {
        assert i < k ==> old(Linked(i));
        assert k < i ==> old(Linked(i + 1));
      }
    }

    /** Takes the element that was queued first. */
    method DeQueue() returns (elem: OSQueueElem?)
      requires Valid()
      modifies this, fSentinel, elems
      ensures Valid()
      ensures old(elems) == [] ==> elem == null && elems == []
      ensures old(elems) != [] ==> elem == old(elems)[0] && elem.fQueue == null && elems == old(elems)[1..]
    {
      if fLength > 0 {
        assert Linked(0) && Linked(1);
        elem := fSentinel.fPrev;
        Unlink(elem, 0);
        assert elems == old(elems)[1..];
      } else {
        elem := null;
      }
    }

    /** Takes one given element out, wherever it is; an element that is not queued here is left alone. */
    method Remove(elem: OSQueueElem)
      requires Valid() && elem != fSentinel
      requires elem.fQueue == this ==> elem in elems
      modifies this, fSentinel, elems
      ensures Valid()
      ensures elem !in old(elems) ==> elems == old(elems)
      ensures forall k :: 0 <= k < |old(elems)| && old(elems)[k] == elem ==>
                            elems == Without(old(elems), k) && elem.fQueue == null
    {
      if elem.fQueue == this {
        ghost var k :| 0 <= k < |elems| && elems[k] == elem;
        Unlink(elem, k);
      }
    }
  }
}
