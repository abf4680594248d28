/** The buffered, flow-controlled output stream of AuthServer/Server.tproj/HttpResponseStream.cpp. */
module ResponseStream {
  import opened Common
  import opened Formatter

  const QTSS_NO_ERR: int := 0
  const EAGAIN: int := 11

  datatype SendType = DontBuffer | AllOrNothing | AlwaysBuffer

  /** What the socket does with the bytes it is offered: it takes a prefix of them, or reports an error and takes
      nothing (CommonUtilitiesLib/Socket.cpp). */
  datatype SocketResult = Sent(count: nat) | Failed(err: int)
  {
    predicate PossibleFor(offered: nat) {
      if Sent? then count <= offered else err != QTSS_NO_ERR
    }

    function Count(): nat {
      if Sent? then count else 0
    }

    function Err(): int {
      if Sent? then QTSS_NO_ERR else err
    }
  }

  function Flatten(vecs: seq<Text>): Text {
    if vecs == [] then [] else vecs[0] + Flatten(vecs[1..])
  }

  /** What WriteV returns once the socket call is over, and how many bytes it reports as sent, if it reports at all. */
  function Settled(err: int, sent: nat, total: nat, sendType: SendType): (int, Option<nat>) {
    if err != QTSS_NO_ERR && err != EAGAIN then (err, None)
    else if sent == total then (QTSS_NO_ERR, Some(sent))
    else if sendType == DontBuffer then (err, Some(sent))
    else if sendType == AllOrNothing && sent == 0 then (EAGAIN, Some(0))
    else (QTSS_NO_ERR, Some(total))
  }

  /** How many bytes it then copies into the buffer. */
  function Kept(err: int, sent: nat, total: nat, sendType: SendType): nat {
    if Settled(err, sent, total, sendType).1 == Some(total) && sent <= total then total - sent else 0
  }

  /** What the socket call comes to, if there is one: its error, and how many bytes behind the buffered ones it took. */
  function Offered(noVectors: bool, buffered: nat, net: SocketResult): (int, nat) {
    if buffered == 0 && noVectors then (QTSS_NO_ERR, 0)
    else (net.Err(), if net.Count() > buffered then net.Count() - buffered else 0)
  }

  /** The socket is called, and fails with an error other than EAGAIN. */
  predicate Fails(net: SocketResult, called: bool) {
    called && net.Failed? && net.err != EAGAIN
  }

  lemma Associative(a: Text, b: Text, c: Text)
    ensures a + (b + c) == (a + b) + c
  {
  }

  lemma FlattenOne(text: Text)
    ensures Flatten([text]) == text
  {
    assert [text][1..] == [];
  }

  /** A socket that takes a prefix of the unsent bytes followed by the data moves the boundary between wire and rest. */
  lemma TakenFromBuffer(wire: Text, unsent: Text, data: Text, count: nat)
    requires count <= |unsent| + |data|
    ensures count >= |unsent| ==> wire + (unsent + data)[..count] == (wire + unsent) + data[..count - |unsent|]
    ensures count <= |unsent| ==> (wire + (unsent + data)[..count]) + unsent[count..] == wire + unsent
    ensures unsent + [] == unsent
  {
    if count <= |unsent| {
      assert (unsent + data)[..count] + unsent[count..] == unsent;
    }
  }

  lemma JoinedRest(before: Text, wire: Text, unsent: Text, data: Text, sent: nat)
    requires sent <= |data| && wire + unsent == before + data[..sent]
    ensures wire + (unsent + data[sent..]) == before + data && data[..|data|] == data
  {
    assert data == data[..sent] + data[sent..];
    assert wire + (unsent + data[sent..]) == (wire + unsent) + data[sent..];
    assert (before + data[..sent]) + data[sent..] == before + (data[..sent] + data[sent..]);
  }

  lemma NothingLeft(unsent: Text, data: Text)
    ensures unsent + data[|data|..] == unsent
  {
  }

  lemma {:induction false} FlattenSplit(vecs: seq<Text>, i: nat)
    requires i < |vecs|
    ensures Flatten(vecs[i..]) == vecs[i] + Flatten(vecs[i + 1..])
  {
    assert vecs[i..][1..] == vecs[i + 1..];
  }

  class HttpResponseStream {
    const fFormatter: StringFormatter
    var fBytesSentInBuffer: nat
    /** Everything the socket has taken so far. */
    ghost var wire: Text
    /** The buffered bytes that have not been sent yet. */
    ghost var unsent: Text

    /** Everything that calls have reported as sent so far, in order. */
    ghost var accepted: Text

    ghost predicate Buffered()
      reads this`fBytesSentInBuffer, this`unsent, fFormatter, fFormatter.fBuffer
    {
      && fFormatter.Valid() && fFormatter.fResizeable
      && (fBytesSentInBuffer < fFormatter.fCurrentPut || fBytesSentInBuffer == 0)
      && unsent == fFormatter.contents[fBytesSentInBuffer..]
    }

    /** The bytes on the wire followed by the unsent bytes are everything that was accepted. */
    ghost predicate Valid()
      reads this, fFormatter, fFormatter.fBuffer
    {
      Buffered() && wire + unsent == accepted
    }

    /** Nothing is lost, repeated or reordered: what was accepted, and not yet sent, is in the buffer behind what was
        sent of it. */
    lemma NothingLostOrReordered()
      requires Valid()
      ensures fBytesSentInBuffer <= fFormatter.fCurrentPut <= fFormatter.fBuffer.Length
      ensures accepted == wire + fFormatter.fBuffer[fBytesSentInBuffer..fFormatter.fCurrentPut]
    {
      assert fFormatter.contents[fBytesSentInBuffer..] == fFormatter.fBuffer[fBytesSentInBuffer..fFormatter.fCurrentPut];
    }

    constructor ()
      ensures Valid() && accepted == [] && fresh(fFormatter) && fresh(fFormatter.fBuffer)
    {
      var fOutputBuf := new char[512];
      fFormatter := new StringFormatter(fOutputBuf, true);
      fBytesSentInBuffer := 0;
      wire, unsent, accepted := [], [], [];
    }

    /** Adds bytes behind the unsent ones. */
    method Append(buffer: Text)
      requires Buffered() && fFormatter.HasRoom(|buffer|)
      modifies this`unsent, fFormatter, fFormatter.fBuffer
      ensures Buffered() && (fFormatter.fBuffer == old(fFormatter.fBuffer) || fresh(fFormatter.fBuffer))
      ensures unsent == old(unsent) + buffer
      ensures MaxSize(fFormatter.fBuffer.Length) == old(MaxSize(fFormatter.fBuffer.Length))
      ensures fFormatter.fBytesWritten == Counted(old(fFormatter.fBytesWritten), |buffer|)
      ensures fFormatter.fCurrentPut == old(fFormatter.fCurrentPut) + |buffer|
    {
      hide MaxSize, GrownSize, Counted;
      fFormatter.Put(buffer);
      unsent := unsent + buffer;
    }

    /** Writing to the stream through its formatter only adds to the unsent bytes. */
    method Put(buffer: Text)
      requires Valid() && fFormatter.HasRoom(|buffer|)
      modifies this`unsent, this`accepted, fFormatter, fFormatter.fBuffer
      ensures Valid() && (fFormatter.fBuffer == old(fFormatter.fBuffer) || fresh(fFormatter.fBuffer))
      ensures unsent == old(unsent) + buffer && accepted == old(accepted) + buffer
      ensures fFormatter.fBytesWritten == Counted(old(fFormatter.fBytesWritten), |buffer|)
    {
      hide MaxSize, GrownSize, Counted;
      Append(buffer);
      accepted := accepted + buffer;
      assert wire + (old(unsent) + buffer) == wire + old(unsent) + buffer;
    }

    /** One socket call: the socket takes a prefix of what the vectors hold. */
    method SocketWrite(iov: seq<Text>, net: SocketResult) returns (err: int, sent: nat)
      requires net.PossibleFor(|Flatten(iov)|)
      modifies this`wire
      ensures sent == net.Count() && err == net.Err()
      ensures wire == old(wire) + Flatten(iov)[..sent]
    {
      err, sent := net.Err(), net.Count();
      wire := wire + Flatten(iov)[..sent];
    }

    /** The first `count` unsent bytes are on the wire: the buffer is emptied, or remembers how far it got. */
    method BufferTaken(count: nat)
      requires Buffered() && count <= |unsent|
      modifies this`fBytesSentInBuffer, this`unsent, fFormatter`fCurrentPut, fFormatter`contents
      ensures Buffered() && unsent == old(unsent)[count..]
      ensures fFormatter.fCurrentPut == if count == |old(unsent)| then 0 else old(fFormatter.fCurrentPut)
    {
      if count == fFormatter.GetCurrentOffset() - fBytesSentInBuffer {
        fFormatter.Reset(0);
        fBytesSentInBuffer := 0;
      } else {
        fBytesSentInBuffer := fBytesSentInBuffer + count;
      }
      unsent := unsent[count..];
    }

    /** Sends what is buffered. Reports EAGAIN exactly if something is left. */
    method Flush(net: SocketResult) returns (err: int)
      requires Valid() && net.PossibleFor(|unsent|)
      modifies this`fBytesSentInBuffer, this`unsent, this`wire, fFormatter`fCurrentPut, fFormatter`contents
      ensures Valid() && old(wire) <= wire
      ensures old(unsent) != [] ==> |unsent| == |old(unsent)| - net.Count()
      ensures err == if unsent == [] then QTSS_NO_ERR else EAGAIN
    {
      var amtInBuffer := fFormatter.GetCurrentOffset() - fBytesSentInBuffer;
      if amtInBuffer > 0 {
        var pending := fFormatter.fBuffer[fBytesSentInBuffer..fFormatter.GetCurrentOffset()];
        FlattenOne(pending);
        var ignored, theLengthSent := SocketWrite([pending], net);
        BufferTaken(theLengthSent);
        TakenFromBuffer(old(wire), old(unsent), [], theLengthSent);
        if theLengthSent != amtInBuffer {
          return EAGAIN;
        }
      }
      return QTSS_NO_ERR;
    }

    /** Sends the buffered bytes and then the caller's vectors, in one socket call. `sent` is what the socket took of
        the vectors. Entry 0 of the array is room for the buffered bytes. */
    method SendVectors(inVec: array<Text>, inNumVectors: nat, net: SocketResult) returns (err: int, sent: nat)
      requires Buffered() && 1 <= inNumVectors <= inVec.Length
      requires net.PossibleFor(|unsent| + |Flatten(inVec[1..inNumVectors])|)
      modifies this`fBytesSentInBuffer, this`unsent, this`wire, fFormatter`fCurrentPut, fFormatter`contents, inVec
      ensures Buffered() && inVec[1..] == old(inVec[1..])
      ensures fFormatter.fCurrentPut == if |old(unsent)| <= net.Count() then 0 else old(fFormatter.fCurrentPut)
      ensures sent <= |old(Flatten(inVec[1..inNumVectors]))| && (sent == 0 || unsent == [])
      ensures wire == old(wire) + old(unsent + Flatten(inVec[1..inNumVectors]))[..net.Count()]
      ensures unsent == if |old(unsent)| <= net.Count() then [] else old(unsent)[net.Count()..]
      ensures wire + unsent == old(wire + unsent) + old(Flatten(inVec[1..inNumVectors]))[..sent]
      ensures sent == if net.Count() <= |old(unsent)| then 0 else net.Count() - |old(unsent)|
      ensures err == if old(unsent) == [] && inNumVectors == 1 then QTSS_NO_ERR else net.Err()
    {
      err, sent := QTSS_NO_ERR, 0;
      var amtInBuffer := fFormatter.GetCurrentOffset() - fBytesSentInBuffer;
      ghost var data := Flatten(inVec[1..inNumVectors]);
      if amtInBuffer > 0 {
        inVec[0] := fFormatter.fBuffer[fBytesSentInBuffer..fFormatter.GetCurrentOffset()];
        assert inVec[..inNumVectors][1..] == old(inVec[1..inNumVectors]);
        err, sent := SocketWrite(inVec[..inNumVectors], net);
        TakenFromBuffer(old(wire), old(unsent), data, sent);
        if sent >= amtInBuffer {
          BufferTaken(amtInBuffer);
          sent := sent - amtInBuffer;
        } else {
          BufferTaken(sent);
          sent := 0;
        }
      } else if inNumVectors > 1 {
        err, sent := SocketWrite(inVec[1..inNumVectors], net);
      }
    }

    /** The socket call, with what its result means. */
    method Offer(inVec: array<Text>, inNumVectors: nat, net: SocketResult, ghost data: Text) returns (err: int, sent: nat)
      requires Valid() && 1 <= inNumVectors <= inVec.Length && data == Flatten(inVec[1..inNumVectors])
      requires net.PossibleFor(|unsent| + |data|)
      modifies this`fBytesSentInBuffer, this`unsent, this`wire, fFormatter`fCurrentPut, fFormatter`contents, inVec
      ensures Buffered() && inVec[1..] == old(inVec[1..]) && sent <= |data|
      ensures fFormatter.fCurrentPut == if |old(unsent)| <= net.Count() then 0 else old(fFormatter.fCurrentPut)
      ensures wire == old(wire) + (old(unsent) + data)[..net.Count()]
      ensures wire + unsent == accepted + data[..sent]
      ensures unsent == if |old(unsent)| < net.Count() then [] else old(unsent)[net.Count()..]
      ensures sent == if |old(unsent)| < net.Count() then net.Count() - |old(unsent)| else 0
      ensures (err, sent) == Offered(inNumVectors == 1, |old(unsent)|, net)
      ensures err != QTSS_NO_ERR && err != EAGAIN <==> Fails(net, old(unsent) != [] || 1 < inNumVectors)
      ensures err == if old(unsent) == [] && inNumVectors == 1 then QTSS_NO_ERR else net.Err()
      ensures Fails(net, old(unsent) != [] || 1 < inNumVectors) ==>
                err == net.err && sent == 0 && unsent == old(unsent)
      ensures inNumVectors == 1 ==> data == []
    {
      err, sent := SendVectors(inVec, inNumVectors, net);
    }

    /** Finds the first vector of which a part is left, after `sent` bytes of the vectors have gone. */
    static method SkipSent(vecs: seq<Text>, sent: nat) returns (curVec: nat, offset: nat)
      requires sent < |Flatten(vecs)|
      ensures curVec < |vecs| && offset < |vecs[curVec]|
      ensures vecs[curVec][offset..] + Flatten(vecs[curVec + 1..]) == Flatten(vecs)[sent..]
    {
      offset := sent;
      curVec := 0;
      assert vecs[0..] == vecs;
      while offset >= |vecs[curVec]|
        invariant curVec < |vecs|
        invariant offset < |Flatten(vecs[curVec..])|
        invariant Flatten(vecs[curVec..])[offset..] == Flatten(vecs)[sent..]
        decreases |vecs| - curVec
      {
        FlattenSplit(vecs, curVec);
        offset := offset - |vecs[curVec]|;
        curVec := curVec + 1;
      }
      FlattenSplit(vecs, curVec);
    }

    /** Copies everything after the first `sent` bytes of the vectors into the buffer. */
    method BufferRest(vecs: seq<Text>, sent: nat)
      requires Buffered() && sent < |Flatten(vecs)|
      requires fFormatter.fCurrentPut + |Flatten(vecs)| - sent < MaxSize(fFormatter.fBuffer.Length)
      modifies this`unsent, fFormatter, fFormatter.fBuffer
      ensures Buffered() && unsent == old(unsent) + Flatten(vecs)[sent..]
      ensures fFormatter.fBytesWritten == Counted(old(fFormatter.fBytesWritten), |Flatten(vecs)| - sent)
    {
      hide MaxSize, GrownSize, Counted, Flatten;
      var curVec: nat, offset: nat := SkipSent(vecs, sent);
      ghost var left := Flatten(vecs)[sent..];
      ghost var all, size, end := unsent + left, |left|, fFormatter.fCurrentPut + |left|;
      ghost var max := MaxSize(fFormatter.fBuffer.Length);
      CountedNone(fFormatter.fBytesWritten);
      while curVec < |vecs|
        invariant Buffered() && (fFormatter.fBuffer == old(fFormatter.fBuffer) || fresh(fFormatter.fBuffer))
        invariant end < max == MaxSize(fFormatter.fBuffer.Length)
        invariant curVec <= |vecs| && (curVec < |vecs| ==> offset <= |vecs[curVec]|)
        invariant left == Remaining(vecs, curVec, offset)
        invariant unsent + left == all && fFormatter.fCurrentPut + |left| == end && |left| <= size
        invariant fFormatter.fBytesWritten == Counted(old(fFormatter.fBytesWritten), size - |left|)
      {
        ghost var next := Remaining(vecs, curVec + 1, 0);
        assert left == vecs[curVec][offset..] + next by { RemainingSplit(vecs, curVec, offset); }
        AppendPart(vecs[curVec][offset..], old(fFormatter.fBytesWritten), size - |left|, next, all);
        left := next;
        curVec, offset := curVec + 1, 0;
      }
    }

    /** What is left of the vectors from an offset in one of them. */
    static ghost function Remaining(vecs: seq<Text>, curVec: nat, offset: nat): Text {
      if curVec < |vecs| && offset <= |vecs[curVec]| then vecs[curVec][offset..] + Flatten(vecs[curVec + 1..]) else []
    }

    static lemma RemainingSplit(vecs: seq<Text>, curVec: nat, offset: nat)
      requires curVec < |vecs| && offset <= |vecs[curVec]|
      ensures Remaining(vecs, curVec, offset) == vecs[curVec][offset..] + Remaining(vecs, curVec + 1, 0)
    {
      if curVec + 1 < |vecs| {
        FlattenSplit(vecs, curVec + 1);
      } else {
        assert vecs[curVec + 1..] == [];
      }
    }

    /** Appends one vector's part and counts it. */
    method AppendPart(chunk: Text, ghost count: nat, ghost done: nat, ghost left: Text, ghost all: Text)
      requires Buffered() && fFormatter.fCurrentPut + |chunk| < MaxSize(fFormatter.fBuffer.Length)
      requires unsent + (chunk + left) == all && fFormatter.fBytesWritten == Counted(count, done)
      modifies this`unsent, fFormatter, fFormatter.fBuffer
      ensures Buffered() && (fFormatter.fBuffer == old(fFormatter.fBuffer) || fresh(fFormatter.fBuffer))
      ensures unsent + left == all && fFormatter.fCurrentPut == old(fFormatter.fCurrentPut) + |chunk|
      ensures MaxSize(fFormatter.fBuffer.Length) == old(MaxSize(fFormatter.fBuffer.Length))
      ensures fFormatter.fBytesWritten == Counted(count, done + |chunk|)
    {
      hide MaxSize, GrownSize, Counted;
      ghost var was := unsent;
      Append(chunk);
      CountedTwice(count, done, |chunk|);
      Associative(was, chunk, left);
    }

    /** What follows the socket call: counts the bytes that were sent, and buffers the rest if it is to be kept. */
    method Settle(vecs: seq<Text>, inTotalLength: nat, theErr: int, theLengthSent: nat, inSendType: SendType,
                  ghost before: Text)
      returns (err: int, outLengthSent: Option<nat>)
      requires Buffered() && inTotalLength == |Flatten(vecs)| && theLengthSent <= inTotalLength
      requires wire + unsent == before + Flatten(vecs)[..theLengthSent]
      requires theErr == QTSS_NO_ERR || theErr == EAGAIN || theLengthSent == 0
      requires var kept := Kept(theErr, theLengthSent, inTotalLength, inSendType);
               kept == 0 || fFormatter.fCurrentPut + kept < MaxSize(fFormatter.fBuffer.Length)
      modifies this`unsent, this`accepted, fFormatter, fFormatter.fBuffer
      ensures Valid()
      ensures (err, outLengthSent) == Settled(theErr, theLengthSent, inTotalLength, inSendType)
      ensures theErr != QTSS_NO_ERR && theErr != EAGAIN ==> (err, outLengthSent) == (theErr, None) && unsent == old(unsent)
      ensures theErr == QTSS_NO_ERR || theErr == EAGAIN ==>
                match inSendType
                case DontBuffer =>
                  && outLengthSent == Some(theLengthSent) && unsent == old(unsent)
                  && err == if theLengthSent == inTotalLength then QTSS_NO_ERR else theErr
                case AllOrNothing =>
                  if theLengthSent == 0 < inTotalLength then
                    (err, outLengthSent) == (EAGAIN, Some(0)) && unsent == old(unsent)
                  else
                    && (err, outLengthSent) == (QTSS_NO_ERR, Some(inTotalLength))
                    && unsent == old(unsent) + Flatten(vecs)[theLengthSent..]
                case AlwaysBuffer =>
                  && (err, outLengthSent) == (QTSS_NO_ERR, Some(inTotalLength))
                  && unsent == old(unsent) + Flatten(vecs)[theLengthSent..]
      ensures var count := if outLengthSent.Some? then outLengthSent.value else 0;
              && count <= inTotalLength && accepted == before + Flatten(vecs)[..count]
              && fFormatter.fBytesWritten == Counted(old(fFormatter.fBytesWritten), count)
    {
      hide MaxSize, GrownSize, Counted, Flatten;
      CountedNone(fFormatter.fBytesWritten);
      NothingLeft(unsent, Flatten(vecs));
      accepted := before + Flatten(vecs)[..theLengthSent];
      if theErr != QTSS_NO_ERR && theErr != EAGAIN {
        return theErr, None;
      }
      CountBytes(theLengthSent);
      if theLengthSent == inTotalLength {
        return QTSS_NO_ERR, Some(theLengthSent);
      }
      if inSendType == DontBuffer {
        return theErr, Some(theLengthSent);
      }
      if inSendType == AllOrNothing && theLengthSent == 0 {
        return EAGAIN, Some(theLengthSent);
      }
      ghost var wired, waiting := wire, unsent;
      BufferRest(vecs, theLengthSent);
      CountedTwice(old(fFormatter.fBytesWritten), theLengthSent, inTotalLength - theLengthSent);
      JoinedRest(before, wired, waiting, Flatten(vecs), theLengthSent);
      accepted := before + Flatten(vecs);
      return QTSS_NO_ERR, Some(inTotalLength);
    }

    /** Buffered bytes go first, then the caller's vectors; what the socket does not take is buffered, refused or left
        to the caller, as `inSendType` says. The stream accepts exactly the bytes reported as sent. */
    method WriteV(inVec: array<Text>, inNumVectors: nat, inTotalLength: nat, inSendType: SendType, net: SocketResult)
        returns (err: int, outLengthSent: Option<nat>)
      requires Valid() && 1 <= inNumVectors <= inVec.Length
      requires inTotalLength == |Flatten(inVec[1..inNumVectors])|
      requires var (theErr, sent) := Offered(inNumVectors == 1, |unsent|, net);
               var kept := Kept(theErr, sent, inTotalLength, inSendType);
               kept == 0 || (if |unsent| <= net.Count() then 0 else fFormatter.fCurrentPut) + kept
                            < MaxSize(fFormatter.fBuffer.Length)
      requires net.PossibleFor(|unsent| + inTotalLength)
      modifies this, fFormatter, fFormatter.fBuffer, inVec
      ensures Valid() && inVec[1..] == old(inVec[1..])
      ensures var (theErr, sent) := old(Offered(inNumVectors == 1, |unsent|, net));
              (err, outLengthSent) == Settled(theErr, sent, inTotalLength, inSendType)
      ensures var count := if outLengthSent.Some? then outLengthSent.value else 0;
              && count <= inTotalLength
              && accepted == old(accepted) + old(Flatten(inVec[1..inNumVectors]))[..count]
              && fFormatter.fBytesWritten == Counted(old(fFormatter.fBytesWritten), count)
      // The socket has taken a prefix of the unsent bytes and the vectors behind them.
      ensures wire == old(wire) + old(unsent + Flatten(inVec[1..inNumVectors]))[..net.Count()]
      ensures Fails(net, old(unsent) != [] || 1 < inNumVectors) ==>
                (err, outLengthSent) == (net.err, None) && unsent == old(unsent)
      ensures !Fails(net, old(unsent) != [] || 1 < inNumVectors) ==>
                var data, taken, left := old(Flatten(inVec[1..inNumVectors])),
                                         if |old(unsent)| < net.Count() then net.Count() - |old(unsent)| else 0,
                                         if |old(unsent)| < net.Count() then [] else old(unsent)[net.Count()..];
                taken <= inTotalLength &&
                match inSendType
                // What the socket has not taken is left to the caller.
                case DontBuffer =>
                  && outLengthSent == Some(taken) && unsent == left
                  && err == if taken == inTotalLength then QTSS_NO_ERR else net.Err()
                // All is accepted, unless the socket has taken nothing of it: then nothing is.
                case AllOrNothing =>
                  if taken == 0 < inTotalLength then (err, outLengthSent) == (EAGAIN, Some(0)) && unsent == left
                  else (err, outLengthSent) == (QTSS_NO_ERR, Some(inTotalLength)) && unsent == left + data[taken..]
                // All is accepted.
                case AlwaysBuffer =>
                  (err, outLengthSent) == (QTSS_NO_ERR, Some(inTotalLength)) && unsent == left + data[taken..]
    {
      hide *;
      var vecs := inVec[1..inNumVectors];
      ghost var before := accepted;
      var theErr, theLengthSent := Offer(inVec, inNumVectors, net, Flatten(vecs));
      err, outLengthSent := Settle(vecs, inTotalLength, theErr, theLengthSent, inSendType, before);
    }

    /** Bytes that went out without being buffered count as written too. */
    method CountBytes(count: nat)
      requires Buffered()
      modifies fFormatter`fBytesWritten
      ensures Buffered() && unsent == old(unsent)
      ensures fFormatter.fBytesWritten == Counted(old(fFormatter.fBytesWritten), count)
    {
      fFormatter.fBytesWritten := (fFormatter.fBytesWritten + count) % TWO_TO_THE_32;
    }
  }
}
