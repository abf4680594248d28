/** Reads through the block cache: OSFileSource in CommonUtilitiesLib/OSFileSource.cpp and .h. */
module FileSource {
  import opened Common
  import opened FileCache
  import opened LeastRecentlyUsed

  /** What a direct read at a position delivers: every byte there is, up to the length asked for. */
  function Direct(file: seq<Byte>, position: nat, length: nat): (r: seq<Byte>) {
    if |file| <= position then []
    else if |file| <= position + length then file[position..]
    else file[position..position + length]
  }

  /** The start of a block. */
  function Start(size: nat, block: nat): (start: nat) {
    if block == 0 then 0 else Start(size, block - 1) + size
  }

  lemma {:induction false} StartIsProduct(size: nat, block: nat)
    ensures Start(size, block) == block * size
  {
    if block != 0 {
      StartIsProduct(size, block - 1);
    }
  }

  lemma {:induction false} StartsOrdered(size: nat, a: nat, b: nat)
    requires a < b
    ensures Start(size, a) + size <= Start(size, b)
    decreases b
  {
    if a + 1 < b {
      StartsOrdered(size, a, b - 1);
    }
  }

  /** The filled part of a block's buffer: its bytes of the file. */
  function Block(file: seq<Byte>, size: nat, block: nat): seq<Byte> {
    Direct(file, Start(size, block), size)
  }

  /** The blocks of a range, in turn. */
  ghost function Range(from: nat, to: nat): seq<int> {
    if to <= from then [] else Range(from, to - 1) + [to - 1]
  }

  lemma LoggedNext(log: seq<int>, from: nat, to: nat)
    requires from <= to
    ensures log + Range(from, to) + [to] == log + Range(from, to + 1)
  {
    assert log + Range(from, to) + [to] == log + (Range(from, to) + [to]);
  }

  lemma DirectLength(file: seq<Byte>, position: nat, length: nat)
    ensures |Direct(file, position, length)|
            == if |file| <= position then 0 else if |file| <= position + length then |file| - position else length
  {
  }

  lemma DirectOf(file: seq<Byte>, position: nat, length: nat)
    requires position <= |file|
    ensures var end := position + |Direct(file, position, length)|;
            end <= |file| && Direct(file, position, length) == file[position..end]
  {
    if |file| <= position {
      assert file[position..position] == [];
    }
  }

  lemma DirectInside(file: seq<Byte>, position: nat, length: nat)
    requires position + length <= |file|
    ensures Direct(file, position, length) == file[position..position + length]
  {
    if |file| <= position {
      assert file[position..position + length] == [];
    }
  }

  lemma Joined(file: seq<Byte>, from: nat, middle: nat, to: nat)
    requires from <= middle <= to <= |file|
    ensures file[from..middle] + file[middle..to] == file[from..to]
  {
  }

  lemma SliceOfSlice(file: seq<Byte>, start: nat, end: nat, from: nat, to: nat)
    requires start <= end <= |file| && from <= to <= end - start
    ensures file[start..end][from..to] == file[start + from..start + to]
  {
    var a, b := file[start..end][from..to], file[start + from..start + to];
    assert forall k :: 0 <= k < to - from ==> a[k] == file[start..end][from + k] == file[start + from + k] == b[k];
  }

  lemma CopyOn(file: seq<Byte>, start: nat, size: nat, position: nat, length: nat, copied: nat, offset: nat, n: nat)
    requires position < |file| && copied <= length && position + copied == start + offset <= |file|
    requires offset == 0 || offset < |Direct(file, start, size)|
    requires n == if length - copied <= |Direct(file, start, size)| - offset then length - copied
                  else |Direct(file, start, size)| - offset
    ensures |Direct(file, position, copied)| == copied
    ensures Direct(file, position, copied + n)
            == Direct(file, position, copied) + Direct(file, start, size)[offset..offset + n]
    ensures position + length < start + size ==> Direct(file, position, copied + n) == Direct(file, position, length)
    ensures start + size <= position + length && start + size <= |file| ==> start + offset + n == start + size
  {
    hide Direct;
    DirectLength(file, start, size);
    DirectOf(file, start, size);
    var whole, middle, end := |Direct(file, start, size)|, position + copied, position + copied + n;
    assert end <= start + whole <= |file|;
    DirectInside(file, position, copied);
    DirectInside(file, position, copied + n);
    Joined(file, position, middle, end);
    SliceOfSlice(file, start, start + whole, offset, offset + n);
    if position + length < start + size {
      LastPart(file, position, length, copied + n);
    }
  }

  /** Reading to the end of the file or of the length asked for is all there is to read. */
  lemma LastPart(file: seq<Byte>, position: nat, length: nat, part: nat)
    requires position + part <= |file| && (part == length || (part < length && position + part == |file|))
    ensures Direct(file, position, part) == Direct(file, position, length)
  {
  }

  /** The block that holds a position. */
  function BlockOf(size: nat, position: nat): nat
    requires 0 < size
  {
    QuotientBounds(position, size);
    position / size
  }

  ghost predicate Holds(size: nat, block: nat, position: nat) {
    Start(size, block) <= position < Start(size, block) + size
  }

  lemma BlocksStartInFile(fileLen: nat, size: nat, block: nat)
    requires 0 < size && block < fileLen / size + 1
    ensures Start(size, block) <= fileLen
  {
    StartIsProduct(size, block);
    QuotientBounds(fileLen, size);
    TimesOrdered(block, fileLen / size, size);
  }

  lemma BlockHolds(size: nat, position: nat)
    requires 0 < size
    ensures Holds(size, BlockOf(size, position), position)
  {
    QuotientBounds(position, size);
    StartIsProduct(size, position / size);
  }

  /** A read of a length at a position of a file in blocks of a size, up to the block `end`. */
  datatype Reading = Reading(file: seq<Byte>, size: nat, position: nat, length: nat, end: nat)

  /** How far a read has come when it goes on at an offset in a block: to there, or all the way. */
  ghost predicate Progress(reading: Reading, copied: nat, block: nat, offset: nat) {
    match reading
    case Reading(file, size, position, length, end) =>
      && position < |file| && copied <= length && |Direct(file, position, copied)| == copied
      && Holds(size, end, position + length) && Start(size, end) <= |file| && block <= end + 1
      && (block <= end ==>
            && position + copied == Start(size, block) + offset <= |file|
            && (offset == 0 || offset < |Block(file, size, block)|))
      && (end < block ==> Direct(file, position, copied) == Direct(file, position, length))
  }

  lemma ProgressStarts(file: seq<Byte>, size: nat, position: nat, length: nat)
    requires 0 < size && position < |file| && BlockOf(size, position + length) <= BlockOf(size, |file|)
    ensures BlockOf(size, position) <= BlockOf(size, position + length) && Start(size, BlockOf(size, position)) <= position
    ensures Progress(Reading(file, size, position, length, BlockOf(size, position + length)), 0, BlockOf(size, position),
                     position - Start(size, BlockOf(size, position)))
  {
    var first, end, last := BlockOf(size, position), BlockOf(size, position + length), BlockOf(size, |file|);
    BlockHolds(size, position);
    BlockHolds(size, position + length);
    BlockHolds(size, |file|);
    if end < first { StartsOrdered(size, end, first); }
    if end < last { StartsOrdered(size, end, last); }
  }

  /** Copying on from one block: to the next block, or to the end of the read in its last block. A block that has less
      than what is wanted from its start is the last one. */
  lemma ProgressAdvances(reading: Reading, copied: nat, block: nat, offset: nat, n: nat)
    requires Progress(reading, copied, block, offset) && block <= reading.end
    requires offset <= |Block(reading.file, reading.size, block)|
    requires n == if reading.length - copied <= |Block(reading.file, reading.size, block)| - offset
                  then reading.length - copied else |Block(reading.file, reading.size, block)| - offset
    ensures Progress(reading, copied + n, block + 1, 0)
    ensures Direct(reading.file, reading.position, copied + n)
            == Direct(reading.file, reading.position, copied) + Block(reading.file, reading.size, block)[offset..offset + n]
    ensures offset == 0 && |Block(reading.file, reading.size, block)| < reading.length - copied <= reading.size ==>
              block == reading.end
  {
    var Reading(file, size, position, length, end) := reading;
    if block < end { StartsOrdered(size, block, end); }
    CopyOn(file, Start(size, block), size, position, length, copied, offset, n);
  }

  /** The bytes of a buffer once some have been written over at an index. */
  function Spliced(s: seq<Byte>, at: nat, piece: seq<Byte>): (r: seq<Byte>)
    requires at + |piece| <= |s|
    ensures |r| == |s|
  {
    s[..at] + piece + s[at + |piece|..]
  }

  /** The buffer once data has been received at its start. */
  function Received(s: seq<Byte>, data: seq<Byte>): (r: seq<Byte>)
    requires |data| <= |s|
    ensures |r| == |s|
  {
    data + s[|data|..]
  }

  lemma ReceivedFirst(s: seq<Byte>, data: seq<Byte>, r: seq<Byte>)
    requires |data| <= |s| && r == Received(s, data)
    ensures r[..|data|] == data
  {
  }

  lemma SliceOfFront(s: seq<Byte>, front: nat, from: nat, to: nat)
    requires from <= to <= front <= |s|
    ensures s[from..to] == s[..front][from..to]
  {
  }

  lemma SplicedBehind(s: seq<Byte>, data: seq<Byte>, piece: seq<Byte>)
    requires |data| + |piece| <= |s|
    ensures Spliced(Received(s, data), |data|, piece) == Received(s, data + piece)
  {
  }

  /** Copies bytes between buffers. */
  method CopyBytes(to: array<Byte>, at: nat, from: array<Byte>, start: nat, n: nat)
    requires to != from && at + n <= to.Length && start + n <= from.Length
    modifies to
    ensures to[..] == Spliced(old(to[..]), at, from[start..start + n])
  {
    forall i | 0 <= i < n {
      to[at + i] := from[start + i];
    }
  }

  class OSFileSource {
    /** The file's contents, which do not change. */
    const fFile: seq<Byte>
    var fPosition: nat
    var fCacheEnabled: bool
    const fFileMap: FileMap
    /** The buffer that owns each data buffer. */
    ghost var fOwners: map<array<Byte>, FileBlockBuffer>

    /** A mapped buffer holds the bytes of its block. */
    ghost predicate Filled(b: FileBlockBuffer)
      reads b, b.fDataBuffer, fFileMap`fDataBufferSize
    {
      && 0 <= b.fArrayIndex && b.fBufferFillSize <= b.fDataBuffer.Length
      && b.fDataBuffer[..b.fBufferFillSize] == Block(fFile, fFileMap.fDataBufferSize, b.fArrayIndex)
    }

    /** The queued buffers have data buffers of their own. */
    ghost predicate Owned()
      reads this`fOwners, fFileMap.fBlockPool
    {
      forall b :: b in fFileMap.fBlockPool.fQueue ==> b.fDataBuffer in fOwners && fOwners[b.fDataBuffer] == b
    }

    /** The map has all the blocks of the file. */
    ghost predicate Sized()
      reads fFileMap`fFileMapArray, fFileMap`fDataBufferSize, fFileMap`fMapArraySize
    {
      && |fFile| < TWO_TO_THE_63
      && (fFileMap.fFileMapArray != null ==>
            && 0 < fFileMap.fDataBufferSize < TWO_TO_THE_32
            && fFileMap.fMapArraySize == |fFile| / fFileMap.fDataBufferSize + 1 < TOO_MANY_BLOCKS)
    }

    ghost predicate Valid()
      reads this, fFileMap, fFileMap.fBlockPool, fFileMap.fFileMapArray, fFileMap.fBlockPool.fBuffers, fOwners.Keys
    {
      match (fFileMap.fBlockPool.fQueue, fOwners)
      case (queue, _) =>
        && fFileMap.Valid() && Sized() && Owned()
        && forall b :: b in queue ==> Filled(b)
    }

    constructor (file: seq<Byte>)
      requires |file| < TWO_TO_THE_63
      ensures Valid() && fFile == file && fFileMap.fFileMapArray == null && !fCacheEnabled && fOwners == map[]
      ensures fresh(fFileMap) && fresh(fFileMap.fBlockPool)
    {
      fFile, fPosition, fCacheEnabled := file, 0, false;
      fFileMap := new FileMap();
      fOwners := map[];
    }

    /** Reads on from the current position into the buffer, every byte there is. A position that is negative as a
        signed number is refused. */
    method ReadFromDisk(inBuffer: array<Byte>, inLength: nat) returns (rcvLen: Option<nat>)
      requires inLength <= inBuffer.Length
      modifies this`fPosition, inBuffer
      ensures rcvLen == if old(fPosition) < TWO_TO_THE_63 then Some(|Direct(fFile, old(fPosition), inLength)|) else None
      ensures rcvLen.None? ==> fPosition == old(fPosition) && inBuffer[..] == old(inBuffer[..])
      ensures rcvLen.Some? ==>
                && fPosition == old(fPosition) + rcvLen.value && rcvLen.value <= inLength
                && inBuffer[..] == Received(old(inBuffer[..]), Direct(fFile, old(fPosition), inLength))
    {
      if fPosition >= TWO_TO_THE_63 {
        return None;
      }
      var bytes := Direct(fFile, fPosition, inLength);
      forall i | 0 <= i < |bytes| {
        inBuffer[i] := bytes[i];
      }
      fPosition := fPosition + |bytes|;
      rcvLen := Some(|bytes|);
    }

    method ReadFromPos(inPosition: UInt64, inBuffer: array<Byte>, inLength: nat) returns (rcvLen: Option<nat>)
      requires inLength <= inBuffer.Length
      modifies this`fPosition, inBuffer
      ensures rcvLen == if inPosition < TWO_TO_THE_63 then Some(|Direct(fFile, inPosition, inLength)|) else None
      ensures rcvLen.None? ==> inBuffer[..] == old(inBuffer[..])
      ensures rcvLen.Some? ==>
                && rcvLen.value <= inLength
                && inBuffer[..] == Received(old(inBuffer[..]), Direct(fFile, inPosition, inLength))
    {
      fPosition := inPosition;
      rcvLen := ReadFromDisk(inBuffer, inLength);
    }

    /** Reads the block into its buffer. */
    method FillBuffer(b: FileBlockBuffer, buffIndex: nat)
      requires b.fArrayIndex == buffIndex && b.fDataBuffer.Length == fFileMap.fDataBufferSize + 1
      requires Start(fFileMap.fDataBufferSize, buffIndex) < TWO_TO_THE_63
      modifies this`fPosition, b`fBufferFillSize, b.fDataBuffer
      ensures Filled(b)
    {
      var buffSize := fFileMap.fDataBufferSize;
      StartIsProduct(buffSize, buffIndex);
      var startPos := buffIndex * buffSize;
      ghost var before := b.fDataBuffer[..];
      var readLen := ReadFromPos(startPos, b.fDataBuffer, buffSize);
      b.fBufferFillSize := readLen.value;
      ReceivedFirst(before, Direct(fFile, startPos, buffSize), b.fDataBuffer[..]);
    }

    /** The block's buffer; the other buffers are filled, and it is unless the caller has to fill it. */
    method TakeBlock(buffIndex: nat) returns (b: FileBlockBuffer, fillBuff: bool)
      requires Valid() && fFileMap.fFileMapArray != null && buffIndex < fFileMap.fMapArraySize
      requires 0 < fFileMap.fBlockPool.fMaxBuffers
      modifies this`fOwners, fFileMap`fHistory, fFileMap`fBlocks, fFileMap.fFileMapArray
      modifies fFileMap.fBlockPool`fQueue, fFileMap.fBlockPool`fBuffers, fFileMap.fBlockPool`fNumCurrentBuffers
      modifies fFileMap.fBlockPool.fBuffers`fArrayIndex
      ensures fFileMap.Valid() && Owned()
      ensures forall c :: c in fFileMap.fBlockPool.fQueue && (c != b || !fillBuff) ==> Filled(c)
      ensures fresh(fFileMap.fBlockPool.fBuffers - old(fFileMap.fBlockPool.fBuffers))
      ensures fresh(fOwners.Keys - old(fOwners.Keys))
      ensures b in fFileMap.fBlockPool.fQueue && b.fArrayIndex == buffIndex
      ensures b.fDataBuffer in fOwners.Keys && b.fDataBuffer.Length == fFileMap.fDataBufferSize + 1
      ensures fFileMap.fBlocks == Touched(old(fFileMap.fBlocks), fFileMap.fBlockPool.fMaxBuffers, buffIndex)
      ensures fFileMap.fHistory == old(fFileMap.fHistory) + [buffIndex]
      ensures old(fFileMap.AsFullAsCanBe()) ==> fFileMap.AsFullAsCanBe()
    {
      b, fillBuff := fFileMap.GetBuffer(buffIndex);
      fOwners := fOwners[b.fDataBuffer := b];
      fFileMap.InQueue(b, buffIndex);
    }

    /** Reads the block into its buffer when it was not cached. */
    method FillIfNew(b: FileBlockBuffer, fillBuff: bool, buffIndex: nat)
      requires fFileMap.Valid() && Sized() && Owned() && fFileMap.fFileMapArray != null
      requires forall c :: c in fFileMap.fBlockPool.fQueue && (c != b || !fillBuff) ==> Filled(c)
      requires b in fFileMap.fBlockPool.fQueue && b.fArrayIndex == buffIndex < fFileMap.fMapArraySize
      requires b.fDataBuffer.Length == fFileMap.fDataBufferSize + 1
      modifies this`fPosition, b`fBufferFillSize, b.fDataBuffer
      ensures Valid() && Filled(b)
    {
      if fillBuff {
        BlocksStartInFile(|fFile|, fFileMap.fDataBufferSize, buffIndex);
        FillBuffer(b, buffIndex);
      }
    }

    /** The block's buffer, with the block's bytes in it. */
    method LoadBlock(buffIndex: nat) returns (b: FileBlockBuffer)
      requires Valid() && fFileMap.fFileMapArray != null && buffIndex < fFileMap.fMapArraySize
      requires 0 < fFileMap.fBlockPool.fMaxBuffers
      modifies this`fPosition, this`fOwners, fFileMap`fHistory, fFileMap`fBlocks, fFileMap.fFileMapArray
      modifies fFileMap.fBlockPool`fQueue, fFileMap.fBlockPool`fBuffers, fFileMap.fBlockPool`fNumCurrentBuffers
      modifies fFileMap.fBlockPool.fBuffers`fArrayIndex, fFileMap.fBlockPool.fBuffers`fBufferFillSize, fOwners.Keys
      ensures Valid()
      ensures fresh(fFileMap.fBlockPool.fBuffers - old(fFileMap.fBlockPool.fBuffers))
      ensures fresh(fOwners.Keys - old(fOwners.Keys))
      ensures b.fArrayIndex == buffIndex && Filled(b)
      ensures b.fDataBuffer in fOwners.Keys
      ensures fFileMap.fHistory == old(fFileMap.fHistory) + [buffIndex]
      ensures old(fFileMap.AsFullAsCanBe()) ==> fFileMap.AsFullAsCanBe()
    {
      var fillBuff: bool;
      b, fillBuff := TakeBlock(buffIndex);
      FillIfNew(b, fillBuff, buffIndex);
    }

    /** Copies bytes of a block from its buffer. */
    method CopyFrom(b: FileBlockBuffer, buffPos: nat, inBuffer: array<Byte>, buffOut: nat, n: nat)
      requires Filled(b) && buffPos + n <= b.fBufferFillSize && b.fDataBuffer != inBuffer
      requires buffOut + n <= inBuffer.Length
      modifies inBuffer
      ensures inBuffer[..] == Spliced(old(inBuffer[..]), buffOut,
                                      Block(fFile, fFileMap.fDataBufferSize, b.fArrayIndex)[buffPos..buffPos + n])
    {
      hide Block;
      SliceOfFront(b.fDataBuffer[..], b.fBufferFillSize, buffPos, buffPos + n);
      CopyBytes(inBuffer, buffOut, b.fDataBuffer, buffPos, n);
    }

    /** One round of the copying loop: copies from a block behind the bytes read so far. The last block of the file ends
        the loop when it holds less than is wanted from its start. */
    method CopyBlock(buffIndex: nat, buffPos: nat, bytesToCopy: nat, inBuffer: array<Byte>, buffOut: nat)
      returns (copied: nat, endOfFile: bool)
      requires Valid() && fFileMap.fFileMapArray != null && buffIndex < fFileMap.fMapArraySize
      requires 0 < fFileMap.fBlockPool.fMaxBuffers
      requires inBuffer !in fOwners.Keys && buffOut + bytesToCopy <= inBuffer.Length
      requires buffPos <= |Block(fFile, fFileMap.fDataBufferSize, buffIndex)|
      modifies this`fPosition, this`fOwners, fFileMap`fHistory, fFileMap`fBlocks, fFileMap.fFileMapArray, inBuffer
      modifies fFileMap.fBlockPool`fQueue, fFileMap.fBlockPool`fBuffers, fFileMap.fBlockPool`fNumCurrentBuffers
      modifies fFileMap.fBlockPool.fBuffers`fArrayIndex, fFileMap.fBlockPool.fBuffers`fBufferFillSize, fOwners.Keys
      ensures Valid() && inBuffer !in fOwners.Keys
      ensures fresh(fFileMap.fBlockPool.fBuffers - old(fFileMap.fBlockPool.fBuffers))
      ensures fresh(fOwners.Keys - old(fOwners.Keys))
      ensures fFileMap.fHistory == old(fFileMap.fHistory) + [buffIndex]
      ensures old(fFileMap.AsFullAsCanBe()) ==> fFileMap.AsFullAsCanBe()
      ensures copied == if bytesToCopy <= |Block(fFile, fFileMap.fDataBufferSize, buffIndex)| - buffPos then bytesToCopy
                        else |Block(fFile, fFileMap.fDataBufferSize, buffIndex)| - buffPos
      ensures inBuffer[..] == Spliced(old(inBuffer[..]), buffOut,
                                      Block(fFile, fFileMap.fDataBufferSize, buffIndex)[buffPos..buffPos + copied])
      ensures endOfFile ==> |Block(fFile, fFileMap.fDataBufferSize, buffIndex)| < bytesToCopy <= fFileMap.fDataBufferSize
    {
      var b := LoadBlock(buffIndex);
      var buffSize := b.fBufferFillSize;
      if buffPos == 0 && bytesToCopy <= fFileMap.fDataBufferSize && buffSize < bytesToCopy {
        copied, endOfFile := buffSize, true;
      } else {
        var buffOffsetLen := buffSize - buffPos;
        copied, endOfFile := if bytesToCopy >= buffOffsetLen then buffOffsetLen else bytesToCopy, false;
      }
      CopyFrom(b, buffPos, inBuffer, buffOut, copied);
    }

    /** The copying loop has come to an offset in a block: the buffer has the bytes up to there, and the blocks before
        have been asked for. */
    ghost predicate Reached(reading: Reading, inBuffer: array<Byte>, before: seq<Byte>, log: seq<int>, firstIndex: nat,
                            copied: nat, block: nat, offset: nat)
      reads this, fFileMap, fFileMap.fBlockPool, fFileMap.fFileMapArray, fFileMap.fBlockPool.fBuffers, fOwners.Keys
      reads inBuffer
    {
      match reading
      case Reading(file, size, position, length, end) =>
        && Valid() && fFileMap.fFileMapArray != null && 0 < fFileMap.fBlockPool.fMaxBuffers
        && file == fFile && size == fFileMap.fDataBufferSize && end < fFileMap.fMapArraySize
        && inBuffer !in fOwners.Keys && length <= inBuffer.Length == |before|
        && Progress(reading, copied, block, offset) && inBuffer[..] == Received(before, Direct(file, position, copied))
        && firstIndex <= block && fFileMap.fHistory == log + Range(firstIndex, block)
    }

    /** A round keeps the bytes read so far in step with the file. */
    method CopyOnward(inBuffer: array<Byte>, inLength: nat, outRcvLen: nat, buffIndex: nat, buffPos: nat,
                      ghost reading: Reading, ghost before: seq<Byte>, ghost log: seq<int>, ghost firstIndex: nat)
      returns (copied: nat, endOfFile: bool)
      requires Reached(reading, inBuffer, before, log, firstIndex, outRcvLen, buffIndex, buffPos)
      requires reading.length == inLength && buffIndex <= reading.end
      modifies this`fPosition, this`fOwners, fFileMap`fHistory, fFileMap`fBlocks, fFileMap.fFileMapArray, inBuffer
      modifies fFileMap.fBlockPool`fQueue, fFileMap.fBlockPool`fBuffers, fFileMap.fBlockPool`fNumCurrentBuffers
      modifies fFileMap.fBlockPool.fBuffers`fArrayIndex, fFileMap.fBlockPool.fBuffers`fBufferFillSize, fOwners.Keys
      ensures Reached(reading, inBuffer, before, log, firstIndex, outRcvLen + copied, buffIndex + 1, 0)
      ensures fresh(fFileMap.fBlockPool.fBuffers - old(fFileMap.fBlockPool.fBuffers))
      ensures fresh(fOwners.Keys - old(fOwners.Keys))
      ensures old(fFileMap.AsFullAsCanBe()) ==> fFileMap.AsFullAsCanBe()
      ensures endOfFile ==> buffIndex == reading.end
    {
      copied, endOfFile := CopyBlock(buffIndex, buffPos, inLength - outRcvLen, inBuffer, outRcvLen);
      ProgressAdvances(reading, outRcvLen, buffIndex, buffPos, copied);
      LoggedNext(log, firstIndex, buffIndex);
      SplicedBehind(before, Direct(fFile, reading.position, outRcvLen),
                    Block(fFile, fFileMap.fDataBufferSize, buffIndex)[buffPos..buffPos + copied]);
    }

    /** The copying loop, from an offset in one block through another block. */
    method CopyBlocks(inBuffer: array<Byte>, inLength: nat, firstIndex: nat, firstPos: nat, endIndex: nat,
                      ghost reading: Reading, ghost before: seq<Byte>, ghost log: seq<int>)
      returns (outRcvLen: nat, ghost offset: nat)
      requires Reached(reading, inBuffer, before, log, firstIndex, 0, firstIndex, firstPos)
      requires reading.length == inLength && firstIndex <= endIndex == reading.end < fFileMap.fMapArraySize
      modifies this`fPosition, this`fOwners, fFileMap`fHistory, fFileMap`fBlocks, fFileMap.fFileMapArray, inBuffer
      modifies fFileMap.fBlockPool`fQueue, fFileMap.fBlockPool`fBuffers, fFileMap.fBlockPool`fNumCurrentBuffers
      modifies fFileMap.fBlockPool.fBuffers`fArrayIndex, fFileMap.fBlockPool.fBuffers`fBufferFillSize, fOwners.Keys
      ensures Reached(reading, inBuffer, before, log, firstIndex, outRcvLen, endIndex + 1, offset)
      ensures fresh(fFileMap.fBlockPool.fBuffers - old(fFileMap.fBlockPool.fBuffers))
      ensures fresh(fOwners.Keys - old(fOwners.Keys))
      ensures old(fFileMap.AsFullAsCanBe()) ==> fFileMap.AsFullAsCanBe()
    {
      hide *;
      outRcvLen, offset := 0, firstPos;
      var buffIndex, buffPos := firstIndex, firstPos;
      ghost var full, buffers, arrays := fFileMap.AsFullAsCanBe(), fFileMap.fBlockPool.fBuffers, fOwners.Keys;
      while buffIndex <= endIndex && buffIndex <= fFileMap.fMapArraySize - 1
        invariant Reached(reading, inBuffer, before, log, firstIndex, outRcvLen, buffIndex, buffPos)
        invariant fresh(fFileMap.fBlockPool.fBuffers - buffers) && fresh(fOwners.Keys - arrays)
        invariant full ==> fFileMap.AsFullAsCanBe()
        invariant offset == buffPos && buffIndex <= endIndex + 1
      {
        var buffCopyLen, endOfFile :=
          CopyOnward(inBuffer, inLength, outRcvLen, buffIndex, buffPos, reading, before, log, firstIndex);
        outRcvLen := outRcvLen + buffCopyLen;
        buffPos, offset := 0, 0;
        buffIndex := buffIndex + 1;
        if endOfFile {
          break;
        }
      }
    }

    /** The read ends no later than in the last mapped block, the end being computed in unsigned arithmetic. */
    predicate InMap(inPosition: UInt64, inLength: UInt32)
      requires 0 < fFileMap.fDataBufferSize
      reads fFileMap`fDataBufferSize
    {
      var size, end := fFileMap.fDataBufferSize, inPosition + inLength;
      BlockOf(size, if end < TWO_TO_THE_64 then end else end - TWO_TO_THE_64) <= BlockOf(size, |fFile|)
    }

    /** A read through the cache is a direct read, and asks for the blocks of its range in ascending order. */
    method ReadFromCache(inPosition: UInt64, inBuffer: array<Byte>, inLength: UInt32) returns (outRcvLen: nat)
      requires Valid() && fFileMap.fFileMapArray != null && fCacheEnabled && 0 < fFileMap.fBlockPool.fMaxBuffers
      requires inBuffer !in fOwners.Keys && inLength <= inBuffer.Length
      requires inPosition < |fFile| ==> InMap(inPosition, inLength)
      modifies this`fPosition, this`fOwners, fFileMap`fHistory, fFileMap`fBlocks, fFileMap.fFileMapArray, inBuffer
      modifies fFileMap.fBlockPool`fQueue, fFileMap.fBlockPool`fBuffers, fFileMap.fBlockPool`fNumCurrentBuffers
      modifies fFileMap.fBlockPool.fBuffers`fArrayIndex, fFileMap.fBlockPool.fBuffers`fBufferFillSize, fOwners.Keys
      ensures Valid() && fresh(fFileMap.fBlockPool.fBuffers - old(fFileMap.fBlockPool.fBuffers))
      ensures fresh(fOwners.Keys - old(fOwners.Keys))
      ensures outRcvLen == |Direct(fFile, inPosition, inLength)| <= inLength
      ensures inBuffer[..] == Received(old(inBuffer[..]), Direct(fFile, inPosition, inLength))
      ensures fFileMap.fHistory == old(fFileMap.fHistory) + BlocksOf(inPosition, inLength)
      ensures old(fFileMap.AsFullAsCanBe()) ==> fFileMap.AsFullAsCanBe()
    {
      if inPosition >= |fFile| {
        return 0;
      }
      var size := fFileMap.fDataBufferSize;
      var buffIndex := BlockOf(size, inPosition);
      var endIndex := BlockOf(size, inPosition + inLength);
      ProgressStarts(fFile, size, inPosition, inLength);
      ghost var reading, before := Reading(fFile, size, inPosition, inLength, endIndex), inBuffer[..];
      assert Received(before, []) == before;
      ghost var offset;
      outRcvLen, offset := CopyBlocks(inBuffer, inLength, buffIndex, inPosition - Start(size, buffIndex), endIndex,
                                      reading, before, fFileMap.fHistory);
    }

    /** The blocks of a range that begins in the file, in ascending order. */
    ghost function BlocksOf(inPosition: nat, inLength: nat): seq<int>
      requires 0 < fFileMap.fDataBufferSize
      reads fFileMap`fDataBufferSize
    {
      if |fFile| <= inPosition then []
      else Range(BlockOf(fFileMap.fDataBufferSize, inPosition), BlockOf(fFileMap.fDataBufferSize, inPosition + inLength) + 1)
    }

    /** Whether a read goes through the cache. */
    predicate Cached(inPosition: UInt64, inLength: UInt32)
      reads this`fCacheEnabled, fFileMap`fFileMapArray, fFileMap`fDataBufferSize
    {
      fFileMap.fFileMapArray != null && fCacheEnabled && 0 < fFileMap.fDataBufferSize && InMap(inPosition, inLength)
    }

    /** A read is a direct read, whatever reads, allocations and changes of capacity came before; but where a direct
        read refuses a position, one whose end wraps around into the map reads nothing instead. */
    method Read(inPosition: UInt64, inBuffer: array<Byte>, inLength: UInt32) returns (outRcvLen: Option<nat>)
      requires Valid() && inBuffer !in fOwners.Keys && inLength <= inBuffer.Length
      requires fCacheEnabled ==> 0 < fFileMap.fBlockPool.fMaxBuffers
      modifies this`fPosition, this`fOwners, fFileMap`fHistory, fFileMap`fBlocks, fFileMap.fFileMapArray, inBuffer
      modifies fFileMap.fBlockPool`fQueue, fFileMap.fBlockPool`fBuffers, fFileMap.fBlockPool`fNumCurrentBuffers
      modifies fFileMap.fBlockPool.fBuffers`fArrayIndex, fFileMap.fBlockPool.fBuffers`fBufferFillSize, fOwners.Keys
      ensures Valid() && fresh(fFileMap.fBlockPool.fBuffers - old(fFileMap.fBlockPool.fBuffers))
      ensures fresh(fOwners.Keys - old(fOwners.Keys))
      ensures outRcvLen == if inPosition < TWO_TO_THE_63 || Cached(inPosition, inLength)
                           then Some(|Direct(fFile, inPosition, inLength)|) else None
      ensures outRcvLen.None? ==> inBuffer[..] == old(inBuffer[..])
      ensures outRcvLen.Some? ==>
                && outRcvLen.value <= inLength
                && inBuffer[..] == Received(old(inBuffer[..]), Direct(fFile, inPosition, inLength))
      ensures fFileMap.fHistory == if Cached(inPosition, inLength)
                                   then old(fFileMap.fHistory) + BlocksOf(inPosition, inLength)
                                   else old(fFileMap.fHistory)
      ensures old(fFileMap.AsFullAsCanBe()) ==> fFileMap.AsFullAsCanBe()
    {
      if fFileMap.fFileMapArray == null || !fCacheEnabled || !InMap(inPosition, inLength) {
        outRcvLen := ReadFromPos(inPosition, inBuffer, inLength);
      } else {
        var rcvLen := ReadFromCache(inPosition, inBuffer, inLength);
        outRcvLen := Some(rcvLen);
      }
    }

    method EnableFileCache(enabled: bool)
      requires Valid()
      modifies this`fCacheEnabled
      ensures Valid() && fCacheEnabled == enabled
    {
      fCacheEnabled := enabled;
    }

    method IncMaxBuffers()
      requires Valid()
      modifies fFileMap.fBlockPool`fMaxBuffers
      ensures Valid()
      ensures fFileMap.fBlockPool.fMaxBuffers
              == (old(fFileMap.fBlockPool.fMaxBuffers) + fFileMap.fBlockPool.fBufferInc) % TWO_TO_THE_32
    {
      fFileMap.fBlockPool.IncMaxBuffers();
    }

    method DecMaxBuffers()
      requires Valid()
      modifies fFileMap.fBlockPool`fMaxBuffers
      ensures Valid()
      ensures var max, inc := old(fFileMap.fBlockPool.fMaxBuffers), fFileMap.fBlockPool.fBufferInc;
              fFileMap.fBlockPool.fMaxBuffers == if inc < max then max - inc else max
    {
      fFileMap.fBlockPool.DecMaxBuffers();
    }

    method AllocateFileCache(inUnitSizeInK: nat, bufferSizeUnits: nat, incBuffers: nat,
                             inMaxBitRateBuffSizeInBlocks: nat, inBitRate: nat)
      requires Valid()
      requires fFileMap.HasMap(bufferSizeUnits, incBuffers) ||
               FileMap.Allocatable(inUnitSizeInK, bufferSizeUnits, inMaxBitRateBuffSizeInBlocks, |fFile|, inBitRate)
      modifies this`fOwners, fFileMap, fFileMap.fBlockPool
      ensures Valid() && fFileMap.fFileMapArray != null
      ensures var kept := old(fFileMap.HasMap(bufferSizeUnits, incBuffers));
              && fFileMap.fBlocks == (if kept then old(fFileMap.fBlocks) else [])
              && fFileMap.fHistory == (if kept then old(fFileMap.fHistory) else [])
      ensures !old(fFileMap.HasMap(bufferSizeUnits, incBuffers)) ==>
                && fresh(fFileMap.fFileMapArray) && fFileMap.fBlockPool.fBuffers == {} && fOwners == map[]
                && fFileMap.fBlockPool.fMaxBuffers == if incBuffers > 0 then incBuffers else 1
    {
      ghost var kept := fFileMap.HasMap(bufferSizeUnits, incBuffers);
      fFileMap.AllocateBufferMap(inUnitSizeInK, bufferSizeUnits, incBuffers, inMaxBitRateBuffSizeInBlocks, |fFile|,
                                 inBitRate);
      if !kept {
        fOwners := map[];
      }
    }
  }

  /** At the last position there is, a read of one byte ends at 0, which is in the map: the read through the cache reads
      nothing, where a direct read refuses the position. */
  method WrappedReadExample() returns (cached: Option<nat>, direct: Option<nat>)
    ensures cached == Some(0) && direct == None
  {
    var source := new OSFileSource([]);
    var buffer := new Byte[1];
    direct := source.ReadFromPos(TWO_TO_THE_64 - 1, buffer, 1);
    source.AllocateFileCache(32, 0, 1, 8, 32768);
    source.EnableFileCache(true);
    cached := source.Read(TWO_TO_THE_64 - 1, buffer, 1);
  }
}
