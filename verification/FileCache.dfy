/** The pool of block buffers and the map from blocks to them: CommonUtilitiesLib/OSFileSource.cpp and .h. */
module FileCache {
  import opened Common
  import opened LeastRecentlyUsed

  /** The number of blocks whose map, at eight bytes a pointer, has a size in bytes beyond a signed 32-bit number. */
  const TOO_MANY_BLOCKS: int := 0x1000_0000

  /** 32 Kbytes (kBufferUnitSize). */
  const BUFFER_UNIT_SIZE: nat := 32768

  lemma PartOf<T>(s: seq<T>, cut: nat)
    requires cut <= |s|
    ensures forall x :: x in s[cut..] ==> x in s
  {
  }

  class FileBlockBuffer {
    var fArrayIndex: int
    var fBufferFillSize: nat
    const fDataBuffer: array<Byte>

    constructor (buffSize: nat)
      ensures fArrayIndex == -1 && fBufferFillSize == 0
      ensures fresh(fDataBuffer) && fDataBuffer.Length == buffSize + 1
    {
      fArrayIndex, fBufferFillSize := -1, 0;
      fDataBuffer := new Byte[buffSize + 1];
    }
  }

  class FileBlockPool {
    var fQueue: seq<FileBlockBuffer>
    /** All buffers the pool has made. */
    ghost var fBuffers: set<FileBlockBuffer>
    var fMaxBuffers: nat
    var fNumCurrentBuffers: nat
    var fBufferInc: nat
    var fBufferUnitSizeBytes: nat

    ghost predicate Holds(q: seq<FileBlockBuffer>)
      reads this
    {
      forall b :: b in q ==> b in fBuffers
    }

    ghost predicate Valid()
      reads this
    {
      Distinct(fQueue) && fNumCurrentBuffers == |fQueue| && Holds(fQueue)
    }

    constructor ()
      ensures Valid() && fQueue == [] && fMaxBuffers == 1
    {
      fQueue, fMaxBuffers, fNumCurrentBuffers := [], 1, 0;
      fBufferUnitSizeBytes := BUFFER_UNIT_SIZE;
      fBuffers := {};
    }

    /** The unsigned sum may come out as zero: such a pool has no buffer to give. */
    method IncMaxBuffers()
      requires Valid()
      modifies this`fMaxBuffers
      ensures Valid() && fMaxBuffers == (old(fMaxBuffers) + fBufferInc) % TWO_TO_THE_32
    {
      fMaxBuffers := (fMaxBuffers + fBufferInc) % TWO_TO_THE_32;
    }

    method DecMaxBuffers()
      requires Valid()
      modifies this`fMaxBuffers
      ensures Valid()
      ensures fMaxBuffers == if fBufferInc < old(fMaxBuffers) then old(fMaxBuffers) - fBufferInc else old(fMaxBuffers)
    {
      if fMaxBuffers > fBufferInc {
        fMaxBuffers := fMaxBuffers - fBufferInc;
      }
    }

    /** A new buffer while there are fewer than the maximum, else the least recently used one, off the queue. There has
        to be one. */
    method GetBufferElement(bufferSizeBytes: nat) returns (theNewBuf: FileBlockBuffer)
      requires Valid() && (0 < fMaxBuffers || fQueue != [])
      modifies this`fQueue, this`fBuffers, this`fNumCurrentBuffers
      ensures fNumCurrentBuffers == if old(|fQueue|) < fMaxBuffers then old(|fQueue|) + 1 else old(|fQueue|)
      ensures old(|fQueue|) < fMaxBuffers ==>
                && fresh(theNewBuf) && fresh(theNewBuf.fDataBuffer) && theNewBuf.fArrayIndex == -1
                && theNewBuf.fDataBuffer.Length == bufferSizeBytes + 1
                && fQueue == old(fQueue) + [theNewBuf]
      ensures fMaxBuffers <= old(|fQueue|) ==> old(fQueue) == [theNewBuf] + fQueue && theNewBuf !in fQueue
      ensures Distinct(fQueue) && Holds(fQueue + [theNewBuf])
      ensures fresh(fBuffers - old(fBuffers)) && old(fBuffers) <= fBuffers
      ensures fMaxBuffers <= old(|fQueue|) ==> fBuffers == old(fBuffers)
    {
      if fNumCurrentBuffers < fMaxBuffers {
        theNewBuf := new FileBlockBuffer(bufferSizeBytes);
        fNumCurrentBuffers := fNumCurrentBuffers + 1;
        fQueue := fQueue + [theNewBuf];
        fBuffers := fBuffers + {theNewBuf};
      } else {
        theNewBuf := fQueue[0];
        fQueue := fQueue[1..];
      }
    }

    /** Puts a buffer at the tail of the queue, wherever it was. */
    method MarkUsed(inBuffPtr: FileBlockBuffer)
      requires Distinct(fQueue)
      modifies this`fQueue
      ensures inBuffPtr !in old(fQueue) ==> fQueue == old(fQueue) + [inBuffPtr]
      ensures forall i :: 0 <= i < |old(fQueue)| && old(fQueue)[i] == inBuffPtr ==>
                            fQueue == Without(old(fQueue), i) + [inBuffPtr]
      ensures Distinct(fQueue)
    {
      if |fQueue| == 0 || fQueue[|fQueue| - 1] != inBuffPtr {
        var i := 0;
        while i < |fQueue| && fQueue[i] != inBuffPtr
          invariant i <= |fQueue| && inBuffPtr !in fQueue[..i]
        {
          i := i + 1;
        }
        if i < |fQueue| {
          WithoutDistinct(fQueue, i);
          fQueue := Without(fQueue, i);
        }
        fQueue := fQueue + [inBuffPtr];
      }
    }

    method DeleteBlockPool()
      modifies this
      ensures Valid() && fQueue == [] && fMaxBuffers == 1 && fBufferInc == old(fBufferInc)
      ensures fBufferUnitSizeBytes == BUFFER_UNIT_SIZE && fBuffers == {}
    {
      fQueue, fMaxBuffers, fNumCurrentBuffers := [], 1, 0;
      fBufferUnitSizeBytes := BUFFER_UNIT_SIZE;
      fBuffers := {};
    }
  }

  class FileMap {
    const fBlockPool: FileBlockPool
    var fFileMapArray: array?<FileBlockBuffer?>
    var fDataBufferSize: nat
    var fMapArraySize: nat
    var fNumBuffSizeUnits: nat
    /** The queued buffers' blocks, oldest access first. */
    ghost var fBlocks: seq<int>
    /** The blocks asked for since the map was made. */
    ghost var fHistory: seq<int>

    /** The buffer serves a block: the map has it there. */
    ghost predicate Serves(b: FileBlockBuffer, block: int)
      requires fFileMapArray != null
      reads this`fFileMapArray, this`fDataBufferSize, this`fMapArraySize, fFileMapArray, b`fArrayIndex
    {
      && 0 <= block < fMapArraySize < fFileMapArray.Length && b.fArrayIndex == block
      && fFileMapArray[block] == b && b.fDataBuffer.Length == fDataBufferSize + 1
    }

    /** Queued buffers and mapped blocks correspond one to one. */
    ghost predicate Mapped()
      requires fFileMapArray != null
      reads this`fFileMapArray, this`fDataBufferSize, this`fMapArraySize, this`fBlocks
      reads fBlockPool, fFileMapArray, fBlockPool.fBuffers`fArrayIndex
    {
      && 0 < fDataBufferSize && fMapArraySize + 1 == fFileMapArray.Length
      && |fBlocks| == |fBlockPool.fQueue| && fBlockPool.Holds(fBlockPool.fQueue)
      && (forall i :: 0 <= i < |fBlocks| ==> Serves(fBlockPool.fQueue[i], fBlocks[i]))
      && (forall k :: 0 <= k < fFileMapArray.Length && fFileMapArray[k] != null ==> k in fBlocks)
    }

    ghost predicate Valid()
      reads this, fBlockPool, fFileMapArray, fBlockPool.fBuffers`fArrayIndex
    {
      && fBlockPool.Valid()
      && (fFileMapArray == null ==> fBlockPool.fQueue == [])
      && (fFileMapArray != null ==> Mapped() && MostRecent(fBlocks, fHistory))
    }

    /** There are as many buffers as there may be, or every block asked for has one. */
    ghost predicate AsFullAsCanBe()
      reads this`fBlocks, this`fHistory, fBlockPool`fMaxBuffers
    {
      Complete(fBlocks, fBlockPool.fMaxBuffers, fHistory)
    }

    constructor ()
      ensures Valid() && fFileMapArray == null && fresh(fBlockPool)
    {
      fBlockPool := new FileBlockPool();
      fFileMapArray, fDataBufferSize, fMapArraySize, fNumBuffSizeUnits := null, 0, 0, 0;
      fBlocks, fHistory := [], [];
    }

    /** The number of units in a buffer: the given one, or one worked out from the bit rate. */
    static function Units(unitSizeBytes: nat, units: nat, maxUnits: nat, bitRate: nat): (n: nat)
      requires 0 < unitSizeBytes || units != 0
      ensures 1 <= n && (n == units || (units == 0 && (n <= maxUnits || n == 1)))
    {
      if units != 0 then units
      else
        var rate := if bitRate == 0 then maxUnits * unitSizeBytes % TWO_TO_THE_32 else bitRate;
        QuotientBounds(rate, unitSizeBytes);
        var n := if rate / unitSizeBytes > maxUnits then maxUnits else rate / unitSizeBytes;
        if n < 1 then 1 else n
    }

    /** The number worked out is the greatest one that stays within the bit rate and the maximum, and at least 1; without
        a bit rate it is the maximum, as long as the code's 32-bit product holds that many units. */
    static lemma UnitsAreGreatest(unitSizeBytes: nat, maxUnits: nat, bitRate: nat)
      requires 0 < unitSizeBytes
      ensures var n := Units(unitSizeBytes, 0, maxUnits, bitRate);
              if bitRate == 0 then maxUnits * unitSizeBytes < TWO_TO_THE_32 ==> n == if maxUnits < 1 then 1 else maxUnits
              else
                && (n == 1 || (n <= maxUnits && n * unitSizeBytes <= bitRate))
                && forall k: nat :: k <= maxUnits && k * unitSizeBytes <= bitRate ==> k <= n
    {
      var n := Units(unitSizeBytes, 0, maxUnits, bitRate);
      if bitRate == 0 {
        if maxUnits * unitSizeBytes < TWO_TO_THE_32 {
          UniqueRemainder(maxUnits * unitSizeBytes, maxUnits, 0, unitSizeBytes);
        }
      } else {
        forall k: nat | k <= maxUnits && k * unitSizeBytes <= bitRate ensures k <= n {
          QuotientIsGreatest(bitRate, unitSizeBytes, k);
        }
        QuotientIsGreatest(bitRate, unitSizeBytes, n);
      }
    }

    static lemma QuotientIsGreatest(n: nat, d: nat, k: nat)
      requires 0 < d
      ensures k * d <= n <==> k <= n / d
    {
      var q := n / d;
      QuotientBounds(n, d);
      if q < k {
        TimesOrdered(q + 1, k, d);
      } else {
        TimesOrdered(k, q, d);
      }
    }

    /** The size in bytes of a unit of a number of Kbytes, in unsigned arithmetic. */
    static function UnitSize(inUnitSizeInK: nat): nat {
      (if inUnitSizeInK < 1 then 1 else inUnitSizeInK) * 1024 % TWO_TO_THE_32
    }

    /** The size of a buffer of a number of 32 Kbyte units, in unsigned arithmetic. */
    static function BufferSize(units: nat): (size: nat)
      ensures size < TWO_TO_THE_32 && size % BUFFER_UNIT_SIZE == 0
    {
      BUFFER_UNIT_SIZE * units % TWO_TO_THE_32
    }

    /** Neither the unit size nor the buffer size may come out as zero, since the code divides by them, and the map
        must not have too many blocks. */
    static predicate Allocatable(inUnitSizeInK: nat, inNumBuffSizeUnits: nat, inMaxBitRateBuffSizeInBlocks: nat,
                                 fileLen: nat, inBitRate: nat) {
      && (inNumBuffSizeUnits == 0 ==> 0 < UnitSize(inUnitSizeInK))
      && var units := Units(UnitSize(inUnitSizeInK), inNumBuffSizeUnits, inMaxBitRateBuffSizeInBlocks, inBitRate);
         var size := BufferSize(units);
         0 < size && fileLen / size + 1 < TOO_MANY_BLOCKS
    }

    predicate HasMap(inNumBuffSizeUnits: nat, inBufferIncCount: nat)
      reads this, fBlockPool
    {
      && fFileMapArray != null && fNumBuffSizeUnits == inNumBuffSizeUnits
      && inBufferIncCount == fBlockPool.fMaxBuffers
    }

    /** Makes an empty map of the file's blocks, unless there is one of that kind. Deleting the pool sets the unit size
        back to the default, so that a buffer is a number of 32 Kbyte units whatever unit size is asked for. */
    method AllocateBufferMap(inUnitSizeInK: nat, inNumBuffSizeUnits: nat, inBufferIncCount: nat,
                             inMaxBitRateBuffSizeInBlocks: nat, fileLen: nat, inBitRate: nat)
      requires Valid()
      requires HasMap(inNumBuffSizeUnits, inBufferIncCount) ||
               Allocatable(inUnitSizeInK, inNumBuffSizeUnits, inMaxBitRateBuffSizeInBlocks, fileLen, inBitRate)
      modifies this, fBlockPool
      ensures Valid() && fFileMapArray != null
      ensures old(HasMap(inNumBuffSizeUnits, inBufferIncCount)) ==>
                && fFileMapArray == old(fFileMapArray) && fDataBufferSize == old(fDataBufferSize)
                && fMapArraySize == old(fMapArraySize) && fBlocks == old(fBlocks) && fHistory == old(fHistory)
                && fBlockPool.fQueue == old(fBlockPool.fQueue)
                && fBlockPool.fBuffers == old(fBlockPool.fBuffers) && fBlockPool.fMaxBuffers == old(fBlockPool.fMaxBuffers)
      ensures !old(HasMap(inNumBuffSizeUnits, inBufferIncCount)) ==>
                && fresh(fFileMapArray) && fBlocks == [] && fHistory == [] && fBlockPool.fBuffers == {}
                && fNumBuffSizeUnits == Units(UnitSize(inUnitSizeInK), inNumBuffSizeUnits,
                                              inMaxBitRateBuffSizeInBlocks, inBitRate)
                && fDataBufferSize == BufferSize(fNumBuffSizeUnits) && 0 < fDataBufferSize
                && fMapArraySize == fileLen / fDataBufferSize + 1
                && fBlockPool.fMaxBuffers == if inBufferIncCount > 0 then inBufferIncCount else 1
    {
      hide UnitSize, Units;
      if HasMap(inNumBuffSizeUnits, inBufferIncCount) {
        return;
      }
      fBlockPool.fBufferUnitSizeBytes := UnitSize(inUnitSizeInK);
      var units := Units(fBlockPool.fBufferUnitSizeBytes, inNumBuffSizeUnits, inMaxBitRateBuffSizeInBlocks, inBitRate);
      fFileMapArray := null;
      fBlockPool.DeleteBlockPool();
      fNumBuffSizeUnits := units;
      fDataBufferSize := fBlockPool.fBufferUnitSizeBytes * units % TWO_TO_THE_32;
      if inBufferIncCount > 0 {
        fBlockPool.fMaxBuffers := inBufferIncCount;
        fBlockPool.fBufferInc := inBufferIncCount;
      }
      QuotientBounds(fileLen, fDataBufferSize);
      fMapArraySize := fileLen / fDataBufferSize + 1;
      fFileMapArray := new FileBlockBuffer?[fMapArraySize + 1](_ => null);
      fBlocks, fHistory := [], [];
    }

    /** No block is served by two buffers. */
    lemma BlocksDistinct()
      requires fFileMapArray != null && fBlockPool.Valid() && Mapped()
      ensures Distinct(fBlocks)
    {
      forall i, j | 0 <= i < j < |fBlocks| ensures fBlocks[i] != fBlocks[j] {
        assert Serves(fBlockPool.fQueue[i], fBlocks[i]) && Serves(fBlockPool.fQueue[j], fBlocks[j]);
      }
    }

    /** The queue has the buffers in the order in which their blocks were last asked for. */
    lemma QueuedByLastAccess(i: nat, j: nat)
      requires Valid() && i < j < |fBlockPool.fQueue|
      ensures 0 < LastAccess(fHistory, fBlockPool.fQueue[i].fArrayIndex)
              < LastAccess(fHistory, fBlockPool.fQueue[j].fArrayIndex)
    {
      assert Serves(fBlockPool.fQueue[i], fBlocks[i]) && Serves(fBlockPool.fQueue[j], fBlocks[j]);
    }

    /** A block without a buffer was last asked for before every block that has one. */
    lemma UnmappedIsOlder(block: nat, b: FileBlockBuffer)
      requires Valid() && fFileMapArray != null && block < fMapArraySize && fFileMapArray[block] == null
      requires b in fBlockPool.fQueue
      ensures LastAccess(fHistory, block) < LastAccess(fHistory, b.fArrayIndex)
    {
      var i :| 0 <= i < |fBlockPool.fQueue| && fBlockPool.fQueue[i] == b;
      assert Serves(b, fBlocks[i]);
      forall j | 0 <= j < |fBlocks| ensures fBlocks[j] != block {
        assert Serves(fBlockPool.fQueue[j], fBlocks[j]);
      }
    }

    /** What the map has for a block is in the queue. */
    lemma InQueue(b: FileBlockBuffer, block: nat)
      requires Valid() && fFileMapArray != null && block < fMapArraySize && fFileMapArray[block] == b
      ensures b in fBlockPool.fQueue && b.fArrayIndex == block && b.fDataBuffer.Length == fDataBufferSize + 1
    {
      var i :| 0 <= i < |fBlocks| && fBlocks[i] == block;
      assert Serves(fBlockPool.fQueue[i], fBlocks[i]);
    }

    method DeleteOldest()
      requires fBlockPool.Valid() && fFileMapArray != null && Mapped()
      requires fBlockPool.fNumCurrentBuffers > fBlockPool.fMaxBuffers
      modifies this`fBlocks, fBlockPool`fQueue, fBlockPool`fBuffers, fBlockPool`fNumCurrentBuffers, fFileMapArray
      ensures fBlockPool.Valid() && Mapped()
      ensures fBlocks == old(fBlocks)[1..] && fBlockPool.fQueue == old(fBlockPool.fQueue)[1..]
      ensures fBlockPool.fBuffers == old(fBlockPool.fBuffers)
    {
      BlocksDistinct();
      var theElem := fBlockPool.GetBufferElement(fDataBufferSize);
      assert Serves(theElem, fBlocks[0]);
      fFileMapArray[theElem.fArrayIndex] := null;
      fBlockPool.fNumCurrentBuffers := fBlockPool.fNumCurrentBuffers - 1;
      fBlocks := fBlocks[1..];
      assert fBlockPool.fQueue == old(fBlockPool.fQueue)[1..];
      forall i | 0 <= i < |fBlocks| ensures Serves(fBlockPool.fQueue[i], fBlocks[i]) {
        assert old(Serves(fBlockPool.fQueue[i + 1], fBlocks[i + 1]));
      }
      forall k | 0 <= k < fFileMapArray.Length && fFileMapArray[k] != null ensures k in fBlocks {
        assert k in old(fBlocks);
      }
    }

    /** Gives up the least recently used buffers beyond the maximum. */
    method DeleteOldBuffs()
      requires Valid() && fFileMapArray != null
      modifies this`fBlocks, fBlockPool`fQueue, fBlockPool`fBuffers, fBlockPool`fNumCurrentBuffers, fFileMapArray
      ensures fBlockPool.Valid() && Mapped()
      ensures fBlocks == Trimmed(old(fBlocks), fBlockPool.fMaxBuffers)
      ensures forall b :: b in fBlockPool.fQueue ==> b in old(fBlockPool.fQueue)
      ensures fBlockPool.fBuffers == old(fBlockPool.fBuffers)
    {
      hide Serves, MostRecent, Complete, Trimmed;
      ghost var cut, blocks, queue := 0, fBlocks, fBlockPool.fQueue;
      while fBlockPool.fNumCurrentBuffers > fBlockPool.fMaxBuffers
        invariant fBlockPool.Valid() && Mapped()
        invariant cut <= |blocks| && fBlocks == blocks[cut..]
        invariant fBlockPool.fQueue == queue[cut..]
        invariant fBlockPool.fBuffers == old(fBlockPool.fBuffers)
        invariant cut == 0 || fBlockPool.fMaxBuffers <= |fBlocks|
      {
        DeleteOldest();
        cut := cut + 1;
      }
      PartOf(queue, cut);
      TrimmedFrom(blocks, cut, fBlockPool.fMaxBuffers);
    }

    lemma MappedIffCached(block: nat)
      requires fFileMapArray != null && Mapped() && block < fMapArraySize
      ensures fFileMapArray[block] != null <==> block in fBlocks
      ensures forall i :: 0 <= i < |fBlocks| && fBlocks[i] == block ==>
                            fBlockPool.fQueue[i] == fFileMapArray[block] && Serves(fBlockPool.fQueue[i], block)
    {
      forall i | 0 <= i < |fBlocks| && fBlocks[i] == block
        ensures fBlockPool.fQueue[i] == fFileMapArray[block] && Serves(fBlockPool.fQueue[i], block)
      {
        assert Serves(fBlockPool.fQueue[i], fBlocks[i]);
      }
    }

    /** The block's buffer, or one to be used for it, at the tail of the queue. */
    method TakeBuffer(buffIndex: nat) returns (theElem: FileBlockBuffer)
      requires fFileMapArray != null && fBlockPool.Valid() && Mapped() && buffIndex < fMapArraySize
      requires |fBlocks| <= fBlockPool.fMaxBuffers && 0 < fBlockPool.fMaxBuffers
      modifies fBlockPool`fQueue, fBlockPool`fBuffers, fBlockPool`fNumCurrentBuffers
      ensures fBlockPool.Valid()
      ensures buffIndex in fBlocks ==>
                && Serves(theElem, buffIndex)
                && forall i :: 0 <= i < |fBlocks| && fBlocks[i] == buffIndex ==>
                                 fBlockPool.fQueue == Without(old(fBlockPool.fQueue), i) + [theElem]
      ensures buffIndex !in fBlocks && |fBlocks| < fBlockPool.fMaxBuffers ==>
                && theElem.fArrayIndex == -1 && theElem.fDataBuffer.Length == fDataBufferSize + 1
                && fresh(theElem) && fresh(theElem.fDataBuffer)
                && fBlockPool.fQueue == old(fBlockPool.fQueue) + [theElem]
      ensures buffIndex !in fBlocks && |fBlocks| == fBlockPool.fMaxBuffers ==>
                && theElem == old(fBlockPool.fQueue)[0]
                && fBlockPool.fQueue == old(fBlockPool.fQueue)[1..] + [theElem]
      ensures fresh(fBlockPool.fBuffers - old(fBlockPool.fBuffers))
    {
      MappedIffCached(buffIndex);
      var elem := fFileMapArray[buffIndex];
      if elem == null {
        theElem := fBlockPool.GetBufferElement(fDataBufferSize);
        ghost var last := |fBlockPool.fQueue| - 1;
        assert |fBlocks| < fBlockPool.fMaxBuffers ==>
                 fBlockPool.fQueue[last] == theElem && Without(fBlockPool.fQueue, last) == old(fBlockPool.fQueue);
      } else {
        theElem := elem;
      }
      fBlockPool.MarkUsed(theElem);
    }

    /** The buffer is at the tail of the queue, and the rest of the queue serves the given blocks. */
    ghost predicate RestServes(theElem: FileBlockBuffer, blocks: seq<int>)
      requires fFileMapArray != null
      reads this`fFileMapArray, this`fDataBufferSize, this`fMapArraySize
      reads fBlockPool, fFileMapArray, fBlockPool.fBuffers`fArrayIndex, theElem`fArrayIndex
    {
      && |fBlockPool.fQueue| == |blocks| + 1 && fBlockPool.fQueue[|blocks|] == theElem
      && fBlockPool.Holds(fBlockPool.fQueue)
      && (forall i :: 0 <= i < |blocks| ==> Serves(fBlockPool.fQueue[i], blocks[i]))
      && (forall k :: 0 <= k < fFileMapArray.Length && fFileMapArray[k] != null ==>
                        k in blocks || k == theElem.fArrayIndex)
      && -1 <= theElem.fArrayIndex < fMapArraySize && theElem.fArrayIndex !in blocks
      && theElem.fDataBuffer.Length == fDataBufferSize + 1
    }

    /** A queue and its blocks, whatever the pool's queue is by now. */
    ghost predicate Served(q: seq<FileBlockBuffer>)
      requires fFileMapArray != null
      reads this`fFileMapArray, this`fDataBufferSize, this`fMapArraySize, this`fBlocks, fFileMapArray, q`fArrayIndex
    {
      && 0 < fDataBufferSize && fMapArraySize + 1 == fFileMapArray.Length
      && |fBlocks| == |q| && Distinct(fBlocks)
      && (forall i :: 0 <= i < |fBlocks| ==> Serves(q[i], fBlocks[i]))
      && (forall k :: 0 <= k < fFileMapArray.Length && fFileMapArray[k] != null ==> k in fBlocks)
    }

    lemma RestOfHit(q: seq<FileBlockBuffer>, p: nat)
      requires fFileMapArray != null && Served(q) && p < |q|
      requires fBlockPool.fQueue == Without(q, p) + [q[p]] && fBlockPool.Holds(fBlockPool.fQueue)
      ensures RestServes(q[p], Without(fBlocks, p)) && q[p].fArrayIndex == fBlocks[p]
    {
      WithoutDistinct(fBlocks, p);
      assert Serves(q[p], fBlocks[p]);
      var rest := Without(fBlocks, p);
      forall i | 0 <= i < |rest| ensures Serves(fBlockPool.fQueue[i], rest[i]) {
        var o := if i < p then i else i + 1;
        assert Serves(q[o], fBlocks[o]);
      }
    }

    lemma RestOfFull(q: seq<FileBlockBuffer>)
      requires fFileMapArray != null && Served(q) && 0 < |q|
      requires fBlockPool.fQueue == q[1..] + [q[0]] && fBlockPool.Holds(fBlockPool.fQueue)
      ensures RestServes(q[0], fBlocks[1..]) && q[0].fArrayIndex == fBlocks[0]
    {
      assert Serves(q[0], fBlocks[0]);
      var rest := fBlocks[1..];
      forall i | 0 <= i < |rest| ensures Serves(fBlockPool.fQueue[i], rest[i]) {
        assert Serves(q[i + 1], fBlocks[i + 1]);
      }
    }

    lemma RestOfMiss(q: seq<FileBlockBuffer>, theElem: FileBlockBuffer)
      requires fFileMapArray != null && Served(q)
      requires fBlockPool.fQueue == q + [theElem] && fBlockPool.Holds(fBlockPool.fQueue)
      requires theElem.fArrayIndex == -1 && theElem.fDataBuffer.Length == fDataBufferSize + 1
      ensures RestServes(theElem, fBlocks)
    {
      forall i | 0 <= i < |fBlocks| ensures fBlocks[i] != -1 && Serves(fBlockPool.fQueue[i], fBlocks[i]) {
        assert Serves(q[i], fBlocks[i]);
      }
    }

    /** The rest of the queue serves the blocks that stay cached. */
    method Obtain(buffIndex: nat) returns (theElem: FileBlockBuffer)
      requires fFileMapArray != null && fBlockPool.Valid() && Mapped() && buffIndex < fMapArraySize
      requires |fBlocks| <= fBlockPool.fMaxBuffers && 0 < fBlockPool.fMaxBuffers
      modifies fBlockPool`fQueue, fBlockPool`fBuffers, fBlockPool`fNumCurrentBuffers
      ensures fBlockPool.Valid()
      ensures theElem.fArrayIndex == buffIndex <==> buffIndex in fBlocks
      ensures buffIndex in fBlocks ==> Serves(theElem, buffIndex)
      ensures RestServes(theElem, Others(fBlocks, fBlockPool.fMaxBuffers, buffIndex))
      ensures buffIndex !in Others(fBlocks, fBlockPool.fMaxBuffers, buffIndex)
      ensures theElem in old(fBlockPool.fQueue) || (fresh(theElem) && fresh(theElem.fDataBuffer))
      ensures forall b :: b in fBlockPool.fQueue ==> b == theElem || b in old(fBlockPool.fQueue)
      ensures fresh(fBlockPool.fBuffers - old(fBlockPool.fBuffers))
    {
      BlocksDistinct();
      ghost var q := fBlockPool.fQueue;
      assert Served(q);
      theElem := TakeBuffer(buffIndex);
      assert Served(q);
      hide RestServes;
      if buffIndex in fBlocks {
        ghost var p :| 0 <= p < |fBlocks| && fBlocks[p] == buffIndex;
        assert Serves(q[p], fBlocks[p]);
        assert Others(fBlocks, fBlockPool.fMaxBuffers, buffIndex) == Without(fBlocks, p) by { DroppedAt(fBlocks, p); }
        assert buffIndex !in Without(fBlocks, p) by { WithoutDistinct(fBlocks, p); }
        assert RestServes(theElem, Without(fBlocks, p)) by { RestOfHit(q, p); }
      } else if |fBlocks| == fBlockPool.fMaxBuffers {
        assert RestServes(theElem, fBlocks[1..]) && theElem.fArrayIndex != buffIndex by { RestOfFull(q); }
      } else {
        RestOfMiss(q, theElem);
      }
    }

    /** Maps a block to the buffer at the tail of the queue, and unmaps the block the buffer had before. */
    method MapBlock(theElem: FileBlockBuffer, buffIndex: nat, ghost blocks: seq<int>)
      requires fFileMapArray != null && fBlockPool.Valid()
      requires 0 < fDataBufferSize && fMapArraySize + 1 == fFileMapArray.Length && buffIndex < fMapArraySize
      requires RestServes(theElem, blocks) && buffIndex !in blocks && theElem.fArrayIndex != buffIndex
      modifies this`fBlocks, fFileMapArray, theElem`fArrayIndex
      ensures Mapped() && fBlocks == blocks + [buffIndex] && fFileMapArray[buffIndex] == theElem
    {
      if theElem.fArrayIndex >= 0 {
        fFileMapArray[theElem.fArrayIndex] := null;
      }
      fFileMapArray[buffIndex] := theElem;
      theElem.fArrayIndex := buffIndex;
      fBlocks := blocks + [buffIndex];
      forall i | 0 <= i < |fBlocks| ensures Serves(fBlockPool.fQueue[i], fBlocks[i]) {
        assert i < |blocks| ==> old(Serves(fBlockPool.fQueue[i], blocks[i]));
      }
    }

    lemma RestAndTail(theElem: FileBlockBuffer, blocks: seq<int>)
      requires fFileMapArray != null && RestServes(theElem, blocks) && Serves(theElem, theElem.fArrayIndex)
      requires 0 < fDataBufferSize && fMapArraySize + 1 == fFileMapArray.Length
      requires fBlocks == blocks + [theElem.fArrayIndex]
      ensures Mapped()
    {
      assert fBlocks[|blocks|] == theElem.fArrayIndex;
      forall k | 0 <= k < fFileMapArray.Length && fFileMapArray[k] != null ensures k in fBlocks {
        assert k in blocks || k == theElem.fArrayIndex;
      }
    }

    /** Looks the block up, or maps a buffer to it, which the caller then has to fill. */
    method FindBuffer(buffIndex: nat) returns (theElem: FileBlockBuffer, fillBuff: bool)
      requires fFileMapArray != null && fBlockPool.Valid() && Mapped() && buffIndex < fMapArraySize
      requires |fBlocks| <= fBlockPool.fMaxBuffers && 0 < fBlockPool.fMaxBuffers
      modifies this`fBlocks, fBlockPool`fQueue, fBlockPool`fBuffers, fBlockPool`fNumCurrentBuffers, fFileMapArray
      modifies fBlockPool.fBuffers`fArrayIndex
      ensures fBlockPool.Valid() && Mapped()
      ensures fBlocks == Others(old(fBlocks), fBlockPool.fMaxBuffers, buffIndex) + [buffIndex]
      ensures fillBuff <==> buffIndex !in old(fBlocks)
      ensures fFileMapArray[buffIndex] == theElem
      ensures forall b :: b in fBlockPool.fQueue ==>
                            b == theElem || (b in old(fBlockPool.fQueue) && b.fArrayIndex == old(b.fArrayIndex))
      ensures !fillBuff ==> theElem in old(fBlockPool.fQueue) && theElem.fArrayIndex == old(theElem.fArrayIndex)
      ensures theElem in old(fBlockPool.fQueue) || (fresh(theElem) && fresh(theElem.fDataBuffer))
      ensures fresh(fBlockPool.fBuffers - old(fBlockPool.fBuffers))
    {
      ghost var others := Others(fBlocks, fBlockPool.fMaxBuffers, buffIndex);
      theElem := Obtain(buffIndex);
      fillBuff := theElem.fArrayIndex != buffIndex;
      if fillBuff {
        MapBlock(theElem, buffIndex, others);
      } else {
        fBlocks := others + [buffIndex];
        assert Mapped() by { RestAndTail(theElem, others); }
      }
    }

    /** The buffer that serves a block, which goes to the tail of the queue; the caller has to fill it when the block
        was not cached. The cached blocks stay the most recently used ones. */
    method GetBuffer(buffIndex: nat) returns (theElem: FileBlockBuffer, fillBuff: bool)
      requires Valid() && fFileMapArray != null && buffIndex < fMapArraySize && 0 < fBlockPool.fMaxBuffers
      modifies this`fBlocks, this`fHistory, fBlockPool`fQueue, fBlockPool`fBuffers, fBlockPool`fNumCurrentBuffers, fFileMapArray
      modifies fBlockPool.fBuffers`fArrayIndex
      ensures Valid() && fBlockPool.fNumCurrentBuffers <= fBlockPool.fMaxBuffers
      ensures fBlocks == Touched(old(fBlocks), fBlockPool.fMaxBuffers, buffIndex)
      ensures fHistory == old(fHistory) + [buffIndex] && (old(AsFullAsCanBe()) ==> AsFullAsCanBe())
      ensures fillBuff <==> buffIndex !in Trimmed(old(fBlocks), fBlockPool.fMaxBuffers)
      ensures fFileMapArray[buffIndex] == theElem
      ensures forall b :: b in fBlockPool.fQueue ==>
                            b == theElem || (b in old(fBlockPool.fQueue) && b.fArrayIndex == old(b.fArrayIndex))
      ensures !fillBuff ==> theElem in old(fBlockPool.fQueue) && theElem.fArrayIndex == old(theElem.fArrayIndex)
      ensures theElem in old(fBlockPool.fQueue) || (fresh(theElem) && fresh(theElem.fDataBuffer))
      ensures fresh(fBlockPool.fBuffers - old(fBlockPool.fBuffers))
    {
      ghost var blocks, history, max := fBlocks, fHistory, fBlockPool.fMaxBuffers;
      DeleteOldBuffs();
      theElem, fillBuff := FindBuffer(buffIndex);
      fHistory := fHistory + [buffIndex];
      assert fBlocks == Touched(blocks, max, buffIndex);
      assert MostRecent(fBlocks, fHistory) by { TouchKeepsMostRecent(blocks, max, buffIndex, history); }
      assert Complete(blocks, max, history) ==> Complete(fBlocks, max, fHistory) by {
        if Complete(blocks, max, history) { TouchKeepsComplete(blocks, max, buffIndex, history); }
      }
      assert |fBlocks| <= max by { TouchedFits(blocks, max, buffIndex); }
    }
  }
}
