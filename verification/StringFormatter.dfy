/** Text output into a buffer: CommonUtilitiesLib/StringFormatter.cpp, StringFormatter.h and
    ResizeableStringFormatter.cpp. */
module Formatter {
  import opened Common

  /** BufferIsFull's new size: twice the old one in UInt32 arithmetic, and 64 when that comes out as 0. */
  function GrownSize(size: nat): (grown: nat)
    ensures grown < TWO_TO_THE_32
  {
    var doubled := size * 2 % TWO_TO_THE_32;
    if doubled == 0 then 64 else doubled
  }

  /** For UInt32 sizes, doubling makes the buffer larger exactly when the old size is below 2^31. */
  lemma GrownSizeIsLarger(size: nat)
    requires size < TWO_TO_THE_32
    ensures size < GrownSize(size) <==> size < 0x8000_0000
  {
  }

  /** How large a buffer can become before doubling its size overflows. */
  function MaxSize(size: nat): (max: nat)
    requires size < TWO_TO_THE_32
    ensures size <= max && 0x8000_0000 <= max < TWO_TO_THE_32
    decreases size == 0, TWO_TO_THE_32 - size
  {
    if 0x8000_0000 <= size then size else MaxSize(GrownSize(size))
  }

  lemma GrowsFurther(size: nat, end: nat)
    requires size < TWO_TO_THE_32 && size <= end < MaxSize(size)
    ensures size < 0x8000_0000 && MaxSize(GrownSize(size)) == MaxSize(size)
  {
  }

  /** A buffer one byte short of that size does not come up. */
  lemma MaxSizeIsNotNext(size: nat)
    requires size < TWO_TO_THE_32
    ensures MaxSize(size) != size + 1
  {
    if size < 0x8000_0000 {
      var grown := GrownSize(size);
      assert MaxSize(size) == MaxSize(grown) >= grown;
    }
  }

  /** A UInt32 counter after `count` more. */
  function Counted(counter: nat, count: nat): nat {
    (counter + count) % TWO_TO_THE_32
  }

  lemma CountedNone(counter: nat)
    requires counter < TWO_TO_THE_32
    ensures Counted(counter, 0) == counter
  {
  }

  /** Counting in two parts. */
  lemma CountedTwice(counter: nat, a: nat, b: nat)
    ensures Counted(Counted(counter, a), b) == Counted(counter, a + b)
  {
  }

  class StringFormatter {
    /** fStartPut .. fEndPut */
    var fBuffer: array<char>
    /** fCurrentPut - fStartPut */
    var fCurrentPut: nat
    var fBytesWritten: nat
    /** Whether BufferIsFull is ResizeableStringFormatter's or the base class's, which does nothing. */
    const fResizeable: bool
    /** The text in the buffer. */
    ghost var contents: Text

    ghost predicate Valid()
      reads this, fBuffer
    {
      && fCurrentPut <= fBuffer.Length < TWO_TO_THE_32 && fBytesWritten < TWO_TO_THE_32
      && contents == fBuffer[..fCurrentPut]
    }

    constructor (buffer: array<char>, resizeable: bool)
      requires buffer.Length < TWO_TO_THE_32
      ensures Valid() && contents == [] && fBuffer == buffer && fResizeable == resizeable && fBytesWritten == 0
    {
      fBuffer := buffer;
      fCurrentPut := 0;
      fBytesWritten := 0;
      fResizeable := resizeable;
      contents := [];
    }

    function GetCurrentOffset(): nat
      reads this
    {
      fCurrentPut
    }

    function GetSpaceLeft(): nat
      requires fCurrentPut <= fBuffer.Length
      reads this
    {
      fBuffer.Length - fCurrentPut
    }

    /** More bytes fit into the buffer, or into one it can grow to; a single byte may also fill the last place. */
    ghost predicate HasRoom(count: nat)
      requires fBuffer.Length < TWO_TO_THE_32
      reads this
    {
      fCurrentPut + count < MaxSize(fBuffer.Length) || (count == 1 && fCurrentPut < fBuffer.Length)
    }

    /** Forgets everything written but the first bytes. */
    method Reset(inNumBytesToLeave: nat)
      requires Valid() && inNumBytesToLeave <= fCurrentPut
      modifies this`fCurrentPut, this`contents
      ensures Valid() && contents == old(contents)[..inNumBytesToLeave]
    {
      fCurrentPut := inNumBytesToLeave;
      contents := contents[..inNumBytesToLeave];
    }

    /** A resizeable formatter moves its contents to a buffer of twice the size, in unsigned arithmetic; they have to
        fit into it. */
    method BufferIsFull()
      requires Valid() && (fResizeable ==> fCurrentPut <= GrownSize(fBuffer.Length))
      modifies this`fBuffer
      ensures Valid()
      ensures if fResizeable then fresh(fBuffer) && fBuffer.Length == GrownSize(old(fBuffer.Length)) else fBuffer == old(fBuffer)
    {
      if fResizeable {
        var theNewBuffer := new char[GrownSize(fBuffer.Length)];
        forall i | 0 <= i < fCurrentPut {
          theNewBuffer[i] := fBuffer[i];
        }
        fBuffer := theNewBuffer;
        assert fBuffer[..fCurrentPut] == contents;
      }
    }

    /** Copies bytes into space that is there. */
    method Copy(bytes: Text)
      requires Valid() && |bytes| <= GetSpaceLeft()
      modifies this`fCurrentPut, this`fBytesWritten, this`contents, fBuffer
      ensures Valid() && contents == old(contents) + bytes
      ensures fBytesWritten == Counted(old(fBytesWritten), |bytes|)
    {
      forall i | 0 <= i < |bytes| {
        fBuffer[fCurrentPut + i] := bytes[i];
      }
      fCurrentPut := fCurrentPut + |bytes|;
      fBytesWritten := (fBytesWritten + |bytes|) % TWO_TO_THE_32;
      contents := contents + bytes;
      assert fBuffer[..fCurrentPut] == contents;
    }

    /** How much of `size` bytes a formatter of fixed size takes: one byte of room is kept free, except that a single
        byte may fill the last place. */
    function Taken(size: nat): nat
      requires fCurrentPut <= fBuffer.Length
      reads this
    {
      var space := GetSpaceLeft();
      if space == 0 then 0 else if size == 1 then 1 else if size < space then size else space - 1
    }

    /** One pass of Put's loop: fill the buffer up to its last byte, then ask for more room. */
    method FillAndGrow(rest: Text) returns (left: Text, stuck: bool)
      requires Valid() && (fResizeable ==> fBuffer.Length < 0x8000_0000)
      requires GetSpaceLeft() == 0 || GetSpaceLeft() <= |rest|
      modifies this`fCurrentPut, this`fBytesWritten, this`contents, this`fBuffer, fBuffer
      ensures Valid() && (fBuffer == old(fBuffer) || fresh(fBuffer))
      ensures contents + left == old(contents) + rest
      ensures |left| == |rest| - if old(GetSpaceLeft()) == 0 then 0 else old(GetSpaceLeft()) - 1
      ensures fBytesWritten == Counted(old(fBytesWritten), |rest| - |left|)
      ensures stuck <==> GetSpaceLeft() == old(GetSpaceLeft())
      ensures fResizeable ==> !stuck && fBuffer.Length == GrownSize(old(fBuffer.Length)) > old(fBuffer.Length)
      ensures !fResizeable ==> fBuffer == old(fBuffer)
    {
      hide MaxSize, Counted;
      CountedNone(fBytesWritten);
      var spaceLeft := GetSpaceLeft();
      left := rest;
      if spaceLeft > 0 {
        Copy(rest[..spaceLeft - 1]);
        left := rest[spaceLeft - 1..];
        assert rest[..spaceLeft - 1] + left == rest;
      }
      BufferIsFull();
      stuck := spaceLeft == GetSpaceLeft();
    }

    /** Put's loop: fills the buffer and asks for more room until the rest fits, or until there is no more room. */
    method FillUp(buffer: Text) returns (rest: Text, stuck: bool)
      requires Valid() && (fResizeable ==> fCurrentPut + |buffer| < MaxSize(fBuffer.Length))
      modifies this, fBuffer
      ensures Valid() && (fBuffer == old(fBuffer) || fresh(fBuffer))
      ensures contents + rest == old(contents) + buffer && |rest| <= |buffer|
      ensures fBytesWritten == Counted(old(fBytesWritten), |buffer| - |rest|)
      ensures !stuck ==> |rest| < GetSpaceLeft()
      ensures fResizeable ==> !stuck && MaxSize(fBuffer.Length) == old(MaxSize(fBuffer.Length))
      ensures !fResizeable ==> fBuffer == old(fBuffer) && (stuck <==> old(GetSpaceLeft()) <= |buffer|)
      ensures !fResizeable ==> |buffer| - |rest| == if stuck && old(GetSpaceLeft()) != 0 then old(GetSpaceLeft()) - 1 else 0
    {
      hide MaxSize, GrownSize, Counted;
      ghost var all, max, counter, room := contents + buffer, MaxSize(fBuffer.Length), fBytesWritten, GetSpaceLeft();
      rest, stuck := buffer, false;
      CountedNone(counter);
      while GetSpaceLeft() == 0 || GetSpaceLeft() - 1 < |rest|
        invariant Valid() && (fBuffer == old(fBuffer) || fresh(fBuffer))
        invariant contents + rest == all && |rest| <= |buffer|
        invariant fResizeable ==> |all| < max == MaxSize(fBuffer.Length)
        invariant fBytesWritten == Counted(counter, |buffer| - |rest|)
        invariant !fResizeable ==> fBuffer == old(fBuffer)
        invariant !fResizeable ==> if rest == buffer then GetSpaceLeft() == room
                                   else GetSpaceLeft() == 1 && |buffer| - |rest| == room - 1 && room <= |buffer|
        decreases |all| + 1 - fBuffer.Length, |rest|
      {
        ghost var size := |rest|;
        if fResizeable {
          GrowsFurther(fBuffer.Length, |all|);
        }
        rest, stuck := FillAndGrow(rest);
        CountedTwice(counter, |buffer| - size, size - |rest|);
        if stuck {
          return;
        }
      }
    }

    /** Appends all of `buffer` if the formatter is resizeable, and otherwise as much as fits. */
    method Put(buffer: Text)
      requires Valid() && (fResizeable ==> HasRoom(|buffer|))
      modifies this, fBuffer
      ensures Valid() && (fBuffer == old(fBuffer) || fresh(fBuffer))
      ensures fResizeable ==> contents == old(contents) + buffer && MaxSize(fBuffer.Length) == old(MaxSize(fBuffer.Length))
      ensures !fResizeable ==> fBuffer == old(fBuffer) && contents == old(contents) + buffer[..old(Taken(|buffer|))]
      ensures fBytesWritten == Counted(old(fBytesWritten), |contents| - |old(contents)|)
    {
      assert buffer[..|buffer|] == buffer;
      if |buffer| == 1 && fCurrentPut != fBuffer.Length {
        Copy(buffer);
        return;
      }
      hide MaxSize, GrownSize, Counted;
      var rest, stuck := FillUp(buffer);
      assert contents == old(contents) + buffer[..|buffer| - |rest|] by { PrefixOf(old(contents), buffer, contents, rest); }
      if stuck {
        return;
      }
      CountedTwice(old(fBytesWritten), |buffer| - |rest|, |rest|);
      Copy(rest);
    }
  }

  lemma PrefixOf(before: Text, buffer: Text, contents: Text, rest: Text)
    requires contents + rest == before + buffer && |rest| <= |buffer|
    ensures contents == before + buffer[..|buffer| - |rest|]
  {
    assert contents == (contents + rest)[..|contents|];
    assert before + buffer[..|buffer| - |rest|] == (before + buffer)[..|contents|];
  }
}
