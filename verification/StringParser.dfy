/** The text cursor of CommonUtilitiesLib/StringParser.cpp and StringParser.h. */
module TextParser {

  import opened Common

  predicate IsWhitespace(c: char) {
    c == ' ' || c == '\t' || c == '\n' || c == '\r' || c as int == 11 || c as int == 12
  }

  predicate IsEOL(c: char) {
    c == '\r' || c == '\n'
  }

  /** The characters that XMLTag's sNonNameMask lets pass. */
  predicate IsNameChar(c: char) {
    'a' <= c <= 'z' || 'A' <= c <= 'Z' || '0' <= c <= '9' || c == '-' || c == '.' || c == ':' || c == '_'
  }

  /** The characters of the mask tables, by their codes. */
  lemma MaskTables(c: char)
    ensures IsWhitespace(c) <==> c as int in {9, 10, 11, 12, 13, 32}
    ensures IsEOL(c) <==> c as int in {10, 13}
    ensures IsNameChar(c) <==> c as int in {
              45, 46, 48, 49, 50, 51, 52, 53, 54, 55, 56, 57, 58,
              65, 66, 67, 68, 69, 70, 71, 72, 73, 74, 75, 76, 77, 78, 79, 80, 81, 82, 83, 84, 85, 86, 87, 88, 89, 90,
              95,
              97, 98, 99, 100, 101, 102, 103, 104, 105, 106, 107, 108, 109, 110, 111, 112, 113, 114, 115, 116,
              117, 118, 119, 120, 121, 122}
  {
  }

  /** What ConsumeUntil stops at: one character, or the characters of one of the mask tables. */
  datatype Stop = Is(c: char) | NonName | NonWhitespace | EndOfLine
  {
    predicate At(x: char) {
      match this
      case Is(c) => x == c
      case NonName => !IsNameChar(x)
      case NonWhitespace => !IsWhitespace(x)
      case EndOfLine => IsEOL(x)
    }
  }

  /** The first n characters are not for `stop`, and the next one is, if there is one. */
  ghost predicate IsRun(text: Text, stop: Stop, n: nat) {
    n <= |text| && (forall i :: 0 <= i < n ==> !stop.At(text[i])) && (n < |text| ==> stop.At(text[n]))
  }

  lemma RunExists(text: Text, stop: Stop) returns (n: nat)
    ensures IsRun(text, stop, n)
  {
    n := 0;
    while n < |text| && !stop.At(text[n])
      invariant n <= |text| && forall i :: 0 <= i < n ==> !stop.At(text[i])
    {
      n := n + 1;
    }
  }

  /** How many characters come before the first one that `stop` is for. */
  ghost function Run(text: Text, stop: Stop): (n: nat)
    ensures IsRun(text, stop, n)
  {
    assert exists n :: IsRun(text, stop, n) by {
      var n := RunExists(text, stop);
    }
    var n :| IsRun(text, stop, n);
    n
  }

  /** What ConsumeUntil passes, and what it leaves. */
  ghost function Span(text: Text, stop: Stop): (r: (Text, Text))
    ensures r.0 + r.1 == text
    ensures forall i :: 0 <= i < |r.0| ==> !stop.At(r.0[i])
    ensures r.1 != [] ==> stop.At(r.1[0])
  {
    (text[..Run(text, stop)], text[Run(text, stop)..])
  }

  /** Text without a stop character, followed by one: the span ends there. */
  lemma SpanStops(text: Text, tail: Text, stop: Stop)
    requires forall i :: 0 <= i < |text| ==> !stop.At(text[i])
    requires tail != [] ==> stop.At(tail[0])
    ensures Run(text + tail, stop) == |text| && Span(text + tail, stop) == (text, tail)
  {
    var n := Run(text + tail, stop);
    assert IsRun(text + tail, stop, n) && IsRun(text + tail, stop, |text|);
  }

  /** What Expect leaves, if the expected character is there. */
  datatype Rest = NotFound | Found(rest: Text)

  function After(text: Text, c: char): Rest {
    if text != [] && text[0] == c then Found(text[1..]) else NotFound
  }

  lemma ExpectFirst(c: char, tail: Text)
    ensures After([c] + tail, c) == Found(tail)
  {
    assert ([c] + tail)[1..] == tail;
  }

  /** What ExpectEOL steps over: CR LF, CR or LF. */
  function EolLength(text: Text): (n: nat)
    ensures n <= |text|
  {
    if text == [] || !IsEOL(text[0]) then 0
    else if text[0] == '\r' && 1 < |text| && text[1] == '\n' then 2
    else 1
  }

  /** The largest 16-bit signed number. */
  const MAX_SHORT: int := 32767

  class StringParser {
    const fStream: Text
    /** The character in memory right behind the stream, which PeekFast reads at the end. */
    const fPastEnd: char
    var fStartGet: nat
    /** What has not been parsed yet. */
    ghost var rest: Text

    ghost predicate Valid()
      reads this
    {
      fStartGet <= |fStream| && rest == fStream[fStartGet..]
    }

    constructor (inStream: Text, pastEnd: char)
      ensures Valid() && rest == inStream == fStream && fPastEnd == pastEnd
    {
      fStream := inStream;
      fPastEnd := pastEnd;
      fStartGet := 0;
      rest := inStream;
    }

    function GetDataRemaining(): nat
      requires Valid()
      reads this
      ensures GetDataRemaining() == |rest|
    {
      |fStream| - fStartGet
    }

    function PeekFast(): (c: char)
      requires Valid()
      reads this
      ensures c == if rest == [] then fPastEnd else rest[0]
    {
      if fStartGet < |fStream| then fStream[fStartGet] else fPastEnd
    }

    /** operator[] */
    function At(i: nat): (c: char)
      requires Valid() && i < |rest|
      reads this
      ensures c == rest[i]
    {
      fStream[fStartGet + i]
    }

    method AdvanceMark()
      requires Valid() && rest != []
      modifies this
      ensures Valid() && rest == old(rest)[1..]
    {
      fStartGet := fStartGet + 1;
      rest := rest[1..];
    }

    /** Both forms of ConsumeUntil: moves to the first stop character, or to the end, and returns what it passed. */
    method ConsumeUntil(stop: Stop) returns (outString: Text)
      requires Valid()
      modifies this
      ensures Valid()
      ensures (outString, rest) == Span(old(rest), stop)
    {
      var originalStartGet := fStartGet;
      ghost var start := rest;
      while fStartGet < |fStream| && !stop.At(fStream[fStartGet])
        invariant Valid() && originalStartGet <= fStartGet
        invariant rest == start[fStartGet - originalStartGet..]
        invariant forall i :: 0 <= i < fStartGet - originalStartGet ==> !stop.At(start[i])
        invariant fStartGet - originalStartGet <= |start| && start == fStream[originalStartGet..]
        decreases |fStream| - fStartGet
      {
        AdvanceMark();
      }
      outString := fStream[originalStartGet..fStartGet];
      assert start == outString + rest;
      SpanStops(outString, rest, stop);
    }

    /** Moves on by a number of characters, or to the end; a negative number moves back, except from the end. The loop
        counts with a 16-bit number, and does not end for more than that can hold. */
    method ConsumeLength(inLength: int) returns (outString: Text)
      requires Valid() && (inLength <= MAX_SHORT || |rest| <= MAX_SHORT)
      requires rest != [] ==> 0 <= fStartGet + inLength
      modifies this
      ensures Valid()
      ensures 0 <= inLength || old(rest) == [] ==>
                && outString + rest == old(rest)
                && |outString| == if inLength <= |old(rest)| && old(rest) != [] then inLength else |old(rest)|
      ensures inLength < 0 && old(rest) != [] ==> fStartGet == old(fStartGet) + inLength
    {
      outString := [];
      if fStartGet >= |fStream| {
        return;
      }
      var length := if GetDataRemaining() < inLength then GetDataRemaining() else inLength;
      if length > 0 {
        outString := fStream[fStartGet..fStartGet + length];
        var i := 0;
        while i < length
          invariant Valid() && i <= length <= |old(rest)| && i <= MAX_SHORT
          invariant rest == old(rest)[i..]
        {
          AdvanceMark();
          i := i + 1;
        }
      } else {
        fStartGet := fStartGet + length;
        rest := fStream[fStartGet..];
      }
    }

    method Expect(stopChar: char) returns (found: bool)
      requires Valid()
      modifies this
      ensures Valid()
      ensures if found then After(old(rest), stopChar) == Found(rest)
              else After(old(rest), stopChar) == NotFound && rest == old(rest)
    {
      if |fStream| <= fStartGet {
        return false;
      }
      if fStream[fStartGet] != stopChar {
        return false;
      }
      AdvanceMark();
      return true;
    }

    method ExpectEOL() returns (found: bool)
      requires Valid()
      modifies this
      ensures Valid() && found == (EolLength(old(rest)) > 0) && rest == old(rest)[EolLength(old(rest))..]
      ensures found <==> old(rest) != [] && old(rest)[0] in {'\r', '\n'}
      ensures found ==> old(rest) == (if |old(rest)| >= 2 && old(rest)[..2] == "\r\n" then "\r\n" else old(rest)[..1]) + rest
    {
      found := false;
      if fStartGet < |fStream| && IsEOL(fStream[fStartGet]) {
        found := true;
        AdvanceMark();
        if fStartGet < |fStream| && fStream[fStartGet - 1] == '\r' && fStream[fStartGet] == '\n' {
          AdvanceMark();
        }
      }
    }

    method GetThru(stopChar: char) returns (outString: Text, found: bool)
      requires Valid()
      modifies this
      ensures Valid() && outString == Span(old(rest), Is(stopChar)).0
      ensures found <==> Span(old(rest), Is(stopChar)).1 != []
      ensures rest == if found then Span(old(rest), Is(stopChar)).1[1..] else []
    {
      outString := ConsumeUntil(Is(stopChar));
      found := Expect(stopChar);
    }

    /** One line of text: what comes before the end of line, and the cursor behind it. */
    method GetThruEOL() returns (outString: Text, found: bool)
      requires Valid()
      modifies this
      ensures Valid() && outString == Span(old(rest), EndOfLine).0
      ensures found <==> Span(old(rest), EndOfLine).1 != []
      ensures rest == Span(old(rest), EndOfLine).1[EolLength(Span(old(rest), EndOfLine).1)..]
    {
      outString := ConsumeUntil(EndOfLine);
      found := ExpectEOL();
    }
  }
}
