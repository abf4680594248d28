/** The chained hash table of references: CommonUtilitiesLib/OSHashTable.h, for the references of OSRef.h. */
module HashTable {
  import opened Common
  import opened BitMask

  /** The hash of a string, from its length and its characters at the quarter points (OSRefTableUtils::HashString). */
  function HashString(s: Text): nat {
    if s == [] then 0
    else
      var q := |s| / 4;
      |s| * (s[0] as int + s[q] as int + s[q * 2] as int + s[q * 3] as int + s[|s| - 1] as int) % TWO_TO_THE_32
  }

  class OSRef {
    const fString: Text
    const fHashValue: nat := HashString(fString)
    var fRefCount: nat
    var fNextHashEntry: OSRef?

    constructor (inString: Text)
      ensures fString == inString && fRefCount == 0 && fNextHashEntry == null
    {
      fString, fRefCount, fNextHashEntry := inString, 0, null;
    }
  }

  /** The element at a position of a chain, null behind its end. */
  function At(chain: seq<OSRef>, j: nat): OSRef? {
    if j < |chain| then chain[j] else null
  }

  /** The bucket of a hash in a table of some size. */
  function Bucket(hash: nat, size: nat): (i: nat)
    requires 1 <= size
    ensures i < size
  {
    hash % size
  }

  /** Every entry is once in the chain of its bucket, and nothing else is in a chain. */
  ghost predicate Placed(chains: seq<seq<OSRef>>, entries: set<OSRef>) {
    && 1 <= |chains|
    && (forall i :: 0 <= i < |chains| ==> Distinct(chains[i]))
    && (forall i, e :: 0 <= i < |chains| && e in chains[i] ==> e in entries && Bucket(e.fHashValue, |chains|) == i)
    && (forall e :: e in entries ==> e in chains[Bucket(e.fHashValue, |chains|)])
  }

  lemma PlacedIn(chains: seq<seq<OSRef>>, entries: set<OSRef>)
    requires Placed(chains, entries)
    ensures forall i :: 0 <= i < |chains| ==> Distinct(chains[i]) && forall e :: e in chains[i] ==> e in entries
  {
  }

  lemma Apart(chains: seq<seq<OSRef>>, entries: set<OSRef>, i: nat, k: nat)
    requires Placed(chains, entries) && i < |chains| && k < |chains| && i != k
    ensures forall e :: e in chains[i] ==> e !in chains[k]
  {
    forall e | e in chains[i] ensures e !in chains[k] {
      assert Bucket(e.fHashValue, |chains|) == i;
    }
  }

  lemma PlacedWithAdded(chains: seq<seq<OSRef>>, entries: set<OSRef>, e: OSRef)
    requires Placed(chains, entries) && e !in entries
    ensures var i := Bucket(e.fHashValue, |chains|); Placed(chains[i := [e] + chains[i]], entries + {e})
  {
    var i := Bucket(e.fHashValue, |chains|);
    assert e !in chains[i];
    assert forall f :: f in [e] + chains[i] <==> f == e || f in chains[i];
  }

  lemma PlacedWithRemoved(chains: seq<seq<OSRef>>, entries: set<OSRef>, i: nat, j: nat)
    requires Placed(chains, entries) && i < |chains| && j < |chains[i]|
    ensures Placed(chains[i := Without(chains[i], j)], entries - {chains[i][j]})
  {
    WithoutDistinct(chains[i], j);
    var x, rest := chains[i][j], chains[i := Without(chains[i], j)];
    forall e | e in entries - {x} ensures e in rest[Bucket(e.fHashValue, |rest|)] {
      assert e in chains[Bucket(e.fHashValue, |chains|)];
    }
    forall k, e | 0 <= k < |rest| && e in rest[k]
      ensures e in entries - {x} && Bucket(e.fHashValue, |rest|) == k {
      assert e in chains[k];
      assert x in chains[i];
    }
  }

  /** The list in memory from a head is the chain. */
  ghost predicate Links(head: OSRef?, chain: seq<OSRef>)
    reads chain`fNextHashEntry
  {
    && head == At(chain, 0)
    && forall j {:trigger chain[j].fNextHashEntry} :: 0 <= j < |chain| ==> chain[j].fNextHashEntry == At(chain, j + 1)
  }

  class OSRefHashTable {
    const fHashTable: array<OSRef?>
    const fSize: nat
    const fMask: nat
    var fNumEntries: nat
    /** Each bucket's chain of entries, from its head. */
    ghost var fChains: seq<seq<OSRef>>
    /** All entries. */
    ghost var fEntries: set<OSRef>

    ghost predicate Sized()
      reads this`fChains
    {
      && 1 <= fSize == fHashTable.Length == |fChains|
      && fMask == if IsPowerOfTwo(fSize) then fSize - 1 else 0
    }

    ghost predicate Valid()
      reads this`fChains, this`fEntries, this`fNumEntries, fHashTable, fEntries`fNextHashEntry
    {
      Sized() && Placed(fChains, fEntries) && fNumEntries == |fEntries| && Linked(fChains, fEntries)
    }

    /** The lists in memory from the table's heads are the chains, of given entries. */
    ghost predicate Linked(chains: seq<seq<OSRef>>, entries: set<OSRef>)
      reads fHashTable, entries`fNextHashEntry
    {
      && |chains| == fHashTable.Length
      && forall i :: 0 <= i < |chains| ==> (forall e :: e in chains[i] ==> e in entries) && Links(fHashTable[i], chains[i])
    }

    constructor (size: nat)
      requires 1 <= size
      ensures Valid() && fEntries == {} && fSize == size && fresh(fHashTable)
    {
      fHashTable := new OSRef?[size](_ => null);
      fSize := size;
      fMask := if BitAnd(size - 1, size) != 0 then 0 else size - 1;
      fNumEntries := 0;
      fChains, fEntries := seq(size, _ => []), {};
      MaskTest(size);
    }

    lemma Heads()
      requires Valid()
      ensures |fChains| == fSize == fHashTable.Length
      ensures forall i :: 0 <= i < fSize ==> fHashTable[i] == At(fChains[i], 0)
    {
      forall i | 0 <= i < fSize ensures fHashTable[i] == At(fChains[i], 0) {
        assert Links(fHashTable[i], fChains[i]);
      }
    }

    lemma NextInChain(i: nat, pos: nat)
      requires Valid() && i < |fChains| && pos < |fChains[i]|
      ensures fChains[i][pos].fNextHashEntry == At(fChains[i], pos + 1)
    {
      assert Links(fHashTable[i], fChains[i]);
    }

    /** Masking and remainder agree, whichever the table's size makes it use. */
    method ComputeIndex(hashKey: nat) returns (i: nat)
      requires Sized()
      ensures i == Bucket(hashKey, fSize)
    {
      if fMask != 0 {
        ghost var k: nat :| fSize == PowerOfTwo(k);
        MaskIsRemainder(hashKey, k);
        return BitAnd(hashKey, fMask);
      } else {
        return hashKey % fSize;
      }
    }

    /** Puts an entry in front of a list. */
    method Link(theIndex: nat, entry: OSRef, ghost entries: set<OSRef>)
      requires Linked(fChains, entries) && theIndex < |fChains| && entry !in entries
      modifies fHashTable, entry`fNextHashEntry
      ensures Linked(fChains[theIndex := [entry] + fChains[theIndex]], entries + {entry})
    {
      ghost var chains := fChains[theIndex := [entry] + fChains[theIndex]];
      assert Links(fHashTable[theIndex], fChains[theIndex]);
      entry.fNextHashEntry := fHashTable[theIndex];
      fHashTable[theIndex] := entry;
      assert Links(fHashTable[theIndex], chains[theIndex]);
      forall i | 0 <= i < |chains| && i != theIndex ensures Links(fHashTable[i], chains[i]) {
        assert old(Links(fHashTable[i], fChains[i]));
      }
    }

    /** Puts an entry at the head of its bucket's chain. */
    method Push(theIndex: nat, entry: OSRef)
      requires Valid() && entry !in fEntries && entry.fNextHashEntry == null
      requires theIndex == Bucket(entry.fHashValue, fSize)
      modifies this`fChains, this`fEntries, this`fNumEntries, fHashTable, entry`fNextHashEntry
      ensures Valid() && fEntries == old(fEntries) + {entry}
      ensures fChains == old(fChains)[theIndex := [entry] + old(fChains)[theIndex]]
    {
      hide Placed, Linked;
      ghost var chains, entries := fChains, fEntries;
      PlacedWithAdded(chains, entries, entry);
      Link(theIndex, entry, entries);
      fNumEntries := fNumEntries + 1;
      fChains := chains[theIndex := [entry] + chains[theIndex]];
      fEntries := entries + {entry};
    }

    method Add(entry: OSRef)
      requires Valid() && entry !in fEntries && entry.fNextHashEntry == null
      modifies this`fChains, this`fEntries, this`fNumEntries, fHashTable, entry`fNextHashEntry
      ensures Valid() && fEntries == old(fEntries) + {entry}
    {
      var theIndex := ComputeIndex(entry.fHashValue);
      Push(theIndex, entry);
    }

    /** The first entry of the key's chain that has the key. */
    method Map(key: Text) returns (elem: OSRef?)
      requires Valid()
      ensures elem == null ==> forall e :: e in fEntries ==> e.fString != key
      ensures elem != null ==>
                && elem in fEntries && elem.fString == key
                && exists j :: 0 <= j < |fChains[Bucket(elem.fHashValue, fSize)]|
                               && fChains[Bucket(elem.fHashValue, fSize)][j] == elem
                               && forall k :: 0 <= k < j ==> fChains[Bucket(elem.fHashValue, fSize)][k].fString != key
    {
      var theIndex := ComputeIndex(HashString(key));
      elem := fHashTable[theIndex];
      ghost var chain, j := fChains[theIndex], 0;
      assert Links(fHashTable[theIndex], chain);
      while elem != null
        invariant 0 <= j <= |chain| && elem == At(chain, j)
        invariant forall k :: 0 <= k < j ==> chain[k].fString != key
        decreases |chain| - j
      {
        if elem.fString == key {
          break;
        }
        elem := elem.fNextHashEntry;
        j := j + 1;
      }
    }

    /** Looks for an entry in a bucket's list, and for the one before it. */
    method Search(theIndex: nat, entry: OSRef) returns (last: OSRef?, elem: OSRef?, ghost j: nat)
      requires theIndex < |fChains| == fHashTable.Length && Links(fHashTable[theIndex], fChains[theIndex])
      ensures elem == null ==> entry !in fChains[theIndex]
      ensures elem != null ==>
                && elem == entry && j < |fChains[theIndex]| && fChains[theIndex][j] == entry
                && last == if j == 0 then null else fChains[theIndex][j - 1]
    {
      elem, last, j := fHashTable[theIndex], null, 0;
      ghost var chain := fChains[theIndex];
      while elem != null && elem != entry
        invariant 0 <= j <= |chain| && elem == At(chain, j)
        invariant last == if j == 0 then null else chain[j - 1]
        invariant forall k :: 0 <= k < j ==> chain[k] != entry
        decreases |chain| - j
      {
        last := elem;
        elem := elem.fNextHashEntry;
        j := j + 1;
      }
    }

    /** Takes an entry out; one that is not in the table changes nothing. */
    method Remove(entry: OSRef)
      requires Valid()
      modifies this`fChains, this`fEntries, this`fNumEntries, fHashTable, fEntries`fNextHashEntry
      ensures Valid() && fEntries == old(fEntries) - {entry}
      ensures entry in old(fEntries) ==> entry.fNextHashEntry == null
    {
      var theIndex := ComputeIndex(entry.fHashValue);
      assert Links(fHashTable[theIndex], fChains[theIndex]);
      var last, elem;
      ghost var j;
      last, elem, j := Search(theIndex, entry);
      assert elem == null ==> entry !in fEntries;
      hide Valid;
      if elem != null {
        Unlink(theIndex, last, elem, j);
      }
    }

    /** Takes an element out of its bucket's list. */
    method Cut(theIndex: nat, last: OSRef?, elem: OSRef, ghost j: nat)
      requires theIndex < |fChains| == fHashTable.Length && Distinct(fChains[theIndex])
      requires Links(fHashTable[theIndex], fChains[theIndex])
      requires j < |fChains[theIndex]| && fChains[theIndex][j] == elem
      requires last == if j == 0 then null else fChains[theIndex][j - 1]
      modifies fHashTable, fChains[theIndex]`fNextHashEntry
      ensures Links(fHashTable[theIndex], Without(fChains[theIndex], j))
      ensures elem.fNextHashEntry == null
      ensures forall i :: 0 <= i < fHashTable.Length && i != theIndex ==> fHashTable[i] == old(fHashTable[i])
    {
      if last != null {
        last.fNextHashEntry := elem.fNextHashEntry;
      } else {
        fHashTable[theIndex] := elem.fNextHashEntry;
      }
      elem.fNextHashEntry := null;
    }

    /** Takes an element out of its bucket's list, leaving the other lists alone. */
    method CutApart(theIndex: nat, last: OSRef?, elem: OSRef, ghost j: nat, ghost entries: set<OSRef>)
      requires Linked(fChains, entries) && theIndex < |fChains| && Distinct(fChains[theIndex])
      requires forall i :: 0 <= i < |fChains| && i != theIndex ==> forall e :: e in fChains[i] ==> e !in fChains[theIndex]
      requires j < |fChains[theIndex]| && fChains[theIndex][j] == elem
      requires last == if j == 0 then null else fChains[theIndex][j - 1]
      modifies fHashTable, fChains[theIndex]`fNextHashEntry
      ensures forall i :: 0 <= i < |fChains| ==>
                            Links(fHashTable[i], if i == theIndex then Without(fChains[i], j) else fChains[i])
      ensures elem.fNextHashEntry == null
    {
      assert Links(fHashTable[theIndex], fChains[theIndex]);
      Cut(theIndex, last, elem, j);
      forall i | 0 <= i < |fChains| && i != theIndex ensures Links(fHashTable[i], fChains[i]) {
        assert old(Links(fHashTable[i], fChains[i]));
        assert forall e: OSRef :: e in fChains[i] ==> e.fNextHashEntry == old(e.fNextHashEntry);
      }
    }

    method Unlink(theIndex: nat, last: OSRef?, elem: OSRef, ghost j: nat)
      requires Valid() && theIndex < fSize && j < |fChains[theIndex]| && fChains[theIndex][j] == elem
      requires last == if j == 0 then null else fChains[theIndex][j - 1]
      modifies this`fChains, this`fEntries, this`fNumEntries, fHashTable, fEntries`fNextHashEntry
      ensures Valid() && fEntries == old(fEntries) - {elem} && elem.fNextHashEntry == null
      ensures fChains == old(fChains)[theIndex := Without(old(fChains)[theIndex], j)]
    {
      hide Placed;
      ghost var chains, entries := fChains, fEntries;
      PlacedIn(chains, entries);
      assert chains[theIndex][j] in chains[theIndex];
      forall i | 0 <= i < fSize && i != theIndex ensures forall e :: e in chains[i] ==> e !in chains[theIndex] {
        Apart(chains, entries, i, theIndex);
      }
      CutApart(theIndex, last, elem, j, entries);
      hide Links;
      fNumEntries := fNumEntries - 1;
      fChains := chains[theIndex := Without(chains[theIndex], j)];
      fEntries := entries - {elem};
      assert Placed(fChains, fEntries) by { PlacedWithRemoved(chains, entries, theIndex, j); }
      assert Linked(fChains, fEntries) by { PlacedIn(fChains, fEntries); }
    }
  }

  /** All chains' entries, bucket by bucket. */
  ghost function AllOf(chains: seq<seq<OSRef>>): seq<OSRef> {
    if chains == [] then [] else AllOf(chains[..|chains| - 1]) + chains[|chains| - 1]
  }

  lemma AllOfNext(chains: seq<seq<OSRef>>, n: nat)
    requires n < |chains|
    ensures AllOf(chains[..n + 1]) == AllOf(chains[..n]) + chains[n]
  {
    assert chains[..n + 1][..n] == chains[..n];
  }

  lemma Passed(a: seq<OSRef>, chain: seq<OSRef>, pos: nat)
    requires pos < |chain|
    ensures a + chain[..pos] + [chain[pos]] == a + chain[..pos + 1]
  {
  }

  lemma {:induction false} AllOfPrefix(chains: seq<seq<OSRef>>, n: nat, size: nat)
    requires n <= |chains| && 1 <= size
    requires forall i :: 0 <= i < |chains| ==> Distinct(chains[i])
    requires forall i, e :: 0 <= i < |chains| && e in chains[i] ==> Bucket(e.fHashValue, size) == i
    ensures Distinct(AllOf(chains[..n]))
    ensures forall e :: e in AllOf(chains[..n]) ==> Bucket(e.fHashValue, size) < n && e in chains[Bucket(e.fHashValue, size)]
    ensures forall i, e :: 0 <= i < n && e in chains[i] ==> e in AllOf(chains[..n])
  {
    if n != 0 {
      AllOfPrefix(chains, n - 1, size);
      assert chains[..n][..n - 1] == chains[..n - 1];
      var a, b := AllOf(chains[..n - 1]), chains[n - 1];
      assert AllOf(chains[..n]) == a + b;
      forall i, j | 0 <= i < j < |a + b| ensures (a + b)[i] != (a + b)[j] {
        if i < |a| <= j {
          assert a[i] in a && b[j - |a|] in b;
        }
      }
    }
  }

  /** Bucket by bucket, every entry of a table comes exactly once. */
  lemma AllOfTable(chains: seq<seq<OSRef>>, entries: set<OSRef>)
    requires Placed(chains, entries)
    ensures Distinct(AllOf(chains)) && |AllOf(chains)| == |entries|
    ensures forall e :: e in AllOf(chains) <==> e in entries
  {
    assert chains[..|chains|] == chains;
    AllOfPrefix(chains, |chains|, |chains|);
    forall e | e in entries ensures e in AllOf(chains) {
      assert e in chains[Bucket(e.fHashValue, |chains|)];
    }
    CountDistinct(AllOf(chains), entries);
  }

  lemma {:induction false} CountDistinct(s: seq<OSRef>, entries: set<OSRef>)
    requires Distinct(s) && forall e :: e in s <==> e in entries
    ensures |s| == |entries|
  {
    if s != [] {
      var n := |s| - 1;
      assert s == s[..n] + [s[n]];
      CountDistinct(s[..n], entries - {s[n]});
    }
  }

  class OSHashTableIter {
    const fHashTable: OSRefHashTable
    var fCurrent: OSRef?
    var fIndex: nat
    /** The entries passed since First. */
    ghost var fVisited: seq<OSRef>

    /** The iterator stands at an entry behind those it has visited, or has visited all. */
    ghost predicate Valid()
      reads this, fHashTable`fChains
    {
      var chains := fHashTable.fChains;
      if fCurrent == null then fVisited == AllOf(chains)
      else
        && fIndex < |chains| && exists pos :: 0 <= pos < |chains[fIndex]| && fCurrent == chains[fIndex][pos]
                                              && fVisited == AllOf(chains[..fIndex]) + chains[fIndex][..pos]
    }

    /** Finds the head of the next bucket that has one. */
    method Skip()
      requires |fHashTable.fChains| == fHashTable.fSize == fHashTable.fHashTable.Length
      requires forall i :: 0 <= i < fHashTable.fSize ==> fHashTable.fHashTable[i] == At(fHashTable.fChains[i], 0)
      requires fCurrent == null && fIndex <= fHashTable.fSize
      requires fVisited == AllOf(fHashTable.fChains[..fIndex])
      modifies this`fCurrent, this`fIndex
      ensures Valid()
    {
      ghost var chains := fHashTable.fChains;
      while fIndex < fHashTable.fSize
        invariant fIndex <= fHashTable.fSize && fCurrent == null
        invariant fVisited == AllOf(chains[..fIndex])
      {
        fCurrent := fHashTable.fHashTable[fIndex];
        if fCurrent != null {
          assert fVisited == AllOf(chains[..fIndex]) + chains[fIndex][..0];
          break;
        }
        assert fVisited == AllOf(chains[..fIndex + 1]) by { AllOfNext(chains, fIndex); }
        fIndex := fIndex + 1;
      }
      assert chains[..|chains|] == chains;
    }

    method First()
      requires fHashTable.Valid()
      modifies this
      ensures Valid() && fHashTable.Valid()
    {
      fIndex, fCurrent, fVisited := 0, null, [];
      fHashTable.Heads();
      Skip();
    }

    constructor (table: OSRefHashTable)
      requires table.Valid()
      ensures fHashTable == table && Valid()
    {
      fHashTable := table;
      new;
      First();
    }

    /** Passes the current entry. */
    method Next()
      requires fHashTable.Valid() && Valid() && fCurrent != null
      modifies this
      ensures Valid() && fVisited == old(fVisited) + [old(fCurrent)]
    {
      hide OSRefHashTable.Valid, AllOf;
      ghost var chains := fHashTable.fChains;
      ghost var chain, before := chains[fIndex], AllOf(chains[..fIndex]);
      ghost var pos :| 0 <= pos < |chain| && fCurrent == chain[pos] && fVisited == before + chain[..pos];
      fHashTable.NextInChain(fIndex, pos);
      assert fVisited + [fCurrent] == before + chain[..pos + 1] by { Passed(before, chain, pos); }
      fVisited := fVisited + [fCurrent];
      fCurrent := fCurrent.fNextHashEntry;
      if fCurrent == null {
        assert fVisited == AllOf(chains[..fIndex + 1]) by {
          AllOfNext(chains, fIndex);
          assert chain[..pos + 1] == chain;
        }
        fIndex := fIndex + 1;
        fHashTable.Heads();
        Skip();
      }
    }

    function IsDone(): bool
      reads this
    {
      fCurrent == null
    }
  }
}
