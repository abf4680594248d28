/** ParseTag and FormatData of AuthServer/PrefsSourceLib/XMLParser.cpp: the parser moves a StringParser's cursor and
    builds the tag as a value, the printer appends a tag to a formatter's buffer. */
module XmlParser {
  import opened Common
  import opened TextParser
  import opened XmlText
  import opened Formatter

  // ---------- Printing piece by piece ----------

  /** The formatter's contents, once `rest` has been appended, will be `all`. */
  ghost predicate Owes(formatter: StringFormatter, rest: Text, all: Text)
    reads formatter, formatter.fBuffer
  {
    && formatter.Valid() && formatter.fResizeable
    && formatter.contents + rest == all && |all| <= MaxSize(formatter.fBuffer.Length)
  }

  /** Puts one piece of what is owed; the last one is a single character. */
  method Emit(formatter: StringFormatter, piece: Text, ghost rest: Text, ghost all: Text)
    requires Owes(formatter, piece + rest, all) && (|piece| == 1 || rest != [])
    modifies formatter, formatter.fBuffer
    ensures Owes(formatter, rest, all) && (formatter.fBuffer == old(formatter.fBuffer) || fresh(formatter.fBuffer))
  {
    ghost var contents := formatter.contents;
    assert |contents| == formatter.fCurrentPut && |all| == |contents| + |piece| + |rest|;
    MaxSizeIsNotNext(formatter.fBuffer.Length);
    formatter.Put(piece);
    assert contents + (piece + rest) == (contents + piece) + rest;
  }

  /** The loop that indents. */
  method EmitTabs(formatter: StringFormatter, indent: nat, ghost rest: Text, ghost all: Text)
    requires Owes(formatter, Tabs(indent) + rest, all)
    modifies formatter, formatter.fBuffer
    ensures Owes(formatter, rest, all) && (formatter.fBuffer == old(formatter.fBuffer) || fresh(formatter.fBuffer))
  {
    var i := 0;
    while i < indent
      invariant i <= indent && Owes(formatter, Tabs(indent - i) + rest, all)
      invariant formatter.fBuffer == old(formatter.fBuffer) || fresh(formatter.fBuffer)
    {
      ghost var later := Tabs(indent - i - 1) + rest;
      assert Tabs(indent - i) + rest == "\t" + later;
      Emit(formatter, "\t", later, all);
      i := i + 1;
    }
    assert Tabs(0) + rest == rest;
  }

  /** The loop over the attributes. */
  method EmitAttributes(formatter: StringFormatter, attributes: seq<Attribute>, ghost rest: Text, ghost all: Text)
    requires Owes(formatter, PrintAttributes(attributes, rest), all) && rest != []
    modifies formatter, formatter.fBuffer
    ensures Owes(formatter, rest, all) && (formatter.fBuffer == old(formatter.fBuffer) || fresh(formatter.fBuffer))
  {
    var i := 0;
    assert attributes[0..] == attributes;
    while i < |attributes|
      invariant i <= |attributes| && Owes(formatter, PrintAttributes(attributes[i..], rest), all)
      invariant formatter.fBuffer == old(formatter.fBuffer) || fresh(formatter.fBuffer)
    {
      var attr := attributes[i];
      assert attributes[i..][1..] == attributes[i + 1..];
      ghost var later := PrintAttributes(attributes[i + 1..], rest);
      PutCString(formatter, attr.name, "=\"" + (CString(attr.value) + ("\" " + later)), all);
      Emit(formatter, "=\"", CString(attr.value) + ("\" " + later), all);
      PutCString(formatter, attr.value, "\" " + later, all);
      Emit(formatter, "\" ", later, all);
      i := i + 1;
    }
  }

  /** Put(char*): strlen finds the first NUL. */
  method PutCString(formatter: StringFormatter, text: Text, ghost rest: Text, ghost all: Text)
    requires Owes(formatter, CString(text) + rest, all) && rest != []
    modifies formatter, formatter.fBuffer
    ensures Owes(formatter, rest, all) && (formatter.fBuffer == old(formatter.fBuffer) || fresh(formatter.fBuffer))
  {
    var length := 0;
    while length < |text| && text[length] != '\0'
      invariant length <= |text| && forall i :: 0 <= i < length ==> text[i] != '\0'
    {
      length := length + 1;
    }
    assert CString(text) == text[..length] by {
      assert text == text[..length] + text[length..];
      SpanStops(text[..length], text[length..], Is('\0'));
    }
    Emit(formatter, text[..length], rest, all);
  }

  /** FormatData: appends the printed tree to the formatter. */
  method FormatData(tag: Tag, formatter: StringFormatter, indent: nat)
    requires formatter.Valid() && formatter.fResizeable
    requires formatter.fCurrentPut + |Print(tag, indent, [])| <= MaxSize(formatter.fBuffer.Length)
    modifies formatter, formatter.fBuffer
    ensures formatter.Valid() && (formatter.fBuffer == old(formatter.fBuffer) || fresh(formatter.fBuffer))
    ensures formatter.contents == old(formatter.contents) + Print(tag, indent, [])
  {
    ghost var all := formatter.contents + Print(tag, indent, []);
    FormatInto(tag, formatter, indent, [], all);
  }

  /** FormatData, in front of whatever is printed later. */
  method FormatInto(tag: Tag, formatter: StringFormatter, indent: nat, ghost after: Text, ghost all: Text)
    requires Owes(formatter, Print(tag, indent, after), all)
    modifies formatter, formatter.fBuffer
    ensures Owes(formatter, after, all) && (formatter.fBuffer == old(formatter.fBuffer) || fresh(formatter.fBuffer))
    decreases tag
  {
    ghost var end := PrintEnd(tag, after);
    ghost var body := PrintBody(tag, indent, end);
    EmitTabs(formatter, indent, PrintHead(tag, body), all);
    FormatHead(tag, formatter, body, all);
    FormatBody(tag, formatter, indent, end, all);
    FormatEnd(tag, formatter, after, all);
  }

  method FormatHead(tag: Tag, formatter: StringFormatter, ghost body: Text, ghost all: Text)
    requires Owes(formatter, PrintHead(tag, body), all)
    modifies formatter, formatter.fBuffer
    ensures Owes(formatter, body, all) && (formatter.fBuffer == old(formatter.fBuffer) || fresh(formatter.fBuffer))
  {
    ghost var part := PrintAttributePart(tag.attributes, body);
    Emit(formatter, "<", CString(tag.name) + part, all);
    PutCString(formatter, tag.name, part, all);
    if |tag.attributes| > 0 {
      Emit(formatter, " ", PrintAttributes(tag.attributes, ">" + body), all);
      EmitAttributes(formatter, tag.attributes, ">" + body, all);
    }
    Emit(formatter, ">", body, all);
  }

  method FormatBody(tag: Tag, formatter: StringFormatter, indent: nat, ghost end: Text, ghost all: Text)
    requires Owes(formatter, PrintBody(tag, indent, end), all) && end != []
    modifies formatter, formatter.fBuffer
    ensures Owes(formatter, end, all) && (formatter.fBuffer == old(formatter.fBuffer) || fresh(formatter.fBuffer))
    decreases tag, 1
  {
    if |tag.children| == 0 {
      if tag.value.Some? {
        PutCString(formatter, tag.value.value, end, all);
      }
    } else {
      Emit(formatter, "\n", PrintAll(tag.children, indent + 1, Tabs(indent) + end), all);
      FormatChildren(tag.children, formatter, indent + 1, Tabs(indent) + end, all);
      EmitTabs(formatter, indent, end, all);
    }
  }

  method FormatEnd(tag: Tag, formatter: StringFormatter, ghost after: Text, ghost all: Text)
    requires Owes(formatter, PrintEnd(tag, after), all)
    modifies formatter, formatter.fBuffer
    ensures Owes(formatter, after, all) && (formatter.fBuffer == old(formatter.fBuffer) || fresh(formatter.fBuffer))
  {
    ghost var eol := "\n" + after;
    Emit(formatter, "</", CString(tag.name) + (">" + eol), all);
    PutCString(formatter, tag.name, ">" + eol, all);
    Emit(formatter, ">", eol, all);
    Emit(formatter, "\n", after, all);
  }

  /** FormatData's loop over the embedded tags. */
  method FormatChildren(tags: seq<Tag>, formatter: StringFormatter, indent: nat, ghost end: Text, ghost all: Text)
    requires Owes(formatter, PrintAll(tags, indent, end), all)
    modifies formatter, formatter.fBuffer
    ensures Owes(formatter, end, all)
    ensures formatter.fBuffer == old(formatter.fBuffer) || fresh(formatter.fBuffer)
    decreases tags, 0
  {
    var i := 0;
    assert tags[0..] == tags;
    while i < |tags|
      invariant i <= |tags|
      invariant Owes(formatter, PrintAll(tags[i..], indent, end), all)
      invariant formatter.fBuffer == old(formatter.fBuffer) || fresh(formatter.fBuffer)
    {
      assert tags[i..][1..] == tags[i + 1..];
      FormatInto(tags[i], formatter, indent, PrintAll(tags[i + 1..], indent, end), all);
      i := i + 1;
    }
  }

  // ---------- ParseTag ----------

  /** ConsumeIfComment. */
  method ConsumeIfComment(parser: StringParser)
    requires parser.Valid()
    modifies parser
    ensures parser.Valid() && parser.rest == SkipIfComment(old(parser.rest))
  {
    if parser.GetDataRemaining() > 2 && parser.At(1) == '-' && parser.At(2) == '-' {
      var _ := parser.ConsumeLength(2);
      ghost var start := parser.rest;
      while parser.GetDataRemaining() > 2 && (parser.PeekFast() != '-' || parser.At(1) != '-' || parser.At(2) != '>')
        invariant parser.Valid() && SkipToCommentEnd(parser.rest) == SkipToCommentEnd(start)
        decreases |parser.rest|
      {
        if parser.PeekFast() == '-' {
          var _ := parser.ConsumeLength(1);
        }
        var skipped := parser.ConsumeUntil(Is('-'));
      }
      if parser.GetDataRemaining() > 2 {
        var _ := parser.ConsumeLength(3);
      }
    }
  }

  /** The loop at the top of ParseTag. */
  method FindStart(parser: StringParser) returns (found: bool)
    requires parser.Valid()
    modifies parser
    ensures parser.Valid()
    ensures found <==> FindTag(old(parser.rest), parser.fPastEnd).Some?
    ensures found ==> parser.rest == FindTag(old(parser.rest), parser.fPastEnd).value
  {
    while true
      invariant parser.Valid()
      invariant FindTag(parser.rest, parser.fPastEnd) == FindTag(old(parser.rest), parser.fPastEnd)
      decreases |parser.rest|
    {
      ghost var before := parser.rest;
      var skipped, thru := parser.GetThru('<');
      if !thru {
        return false;
      }
      var c := parser.PeekFast();
      if c == '/' {
        return false;
      }
      if c != '!' && c != '?' {
        return true;
      }
      assert FindTag(before, parser.fPastEnd) == FindTag(SkipIfComment(parser.rest), parser.fPastEnd);
      ConsumeIfComment(parser);
    }
  }

  /** One attribute, as the attribute loop reads it. */
  method ParseAttribute(parser: StringParser) returns (ok: bool, attr: Attribute)
    requires parser.Valid()
    modifies parser
    ensures parser.Valid()
    ensures ok <==> ReadAttribute(old(parser.rest)).Some?
    ensures ok ==> ReadAttribute(old(parser.rest)) == Some((attr, parser.rest))
  {
    ghost var text := parser.rest;
    attr := Attribute("", "");
    var name := parser.ConsumeUntil(NonName);
    ghost var afterName := parser.rest;
    assert Span(text, NonName) == (name, afterName);
    if |name| == 0 {
      return false, attr;
    }
    var equals := parser.Expect('=');
    if !equals {
      return false, attr;
    }
    var quote := parser.Expect('"');
    if !quote {
      return false, attr;
    }
    ghost var inValue := parser.rest;
    var value := parser.ConsumeUntil(Is('"'));
    ok := parser.Expect('"');
    attr := Attribute(name, value);
    AttributeParts(text, name, afterName, inValue, value);
  }

  /** The attribute loop of ParseTag. */
  method ParseAttributes(parser: StringParser, v: Verifier, name: Text) returns (ok: bool, attributes: seq<Attribute>)
    requires parser.Valid()
    modifies parser
    ensures parser.Valid()
    ensures ReadAttributes(v, parser.fPastEnd, name, old(parser.rest), []) == if ok then Some((attributes, parser.rest)) else None
  {
    attributes := [];
    while parser.PeekFast() != '>' && parser.PeekFast() != '/'
      invariant parser.Valid()
      invariant ReadAttributes(v, parser.fPastEnd, name, parser.rest, attributes) ==
                ReadAttributes(v, parser.fPastEnd, name, old(parser.rest), [])
      decreases |parser.rest|
    {
      ghost var text, got := parser.rest, attributes;
      var read, attr := ParseAttribute(parser);
      if !read {
        return false, attributes;
      }
      ghost var afterValue := parser.rest;
      if !v.Attr(name, attr) {
        return false, attributes;
      }
      attributes := attributes + [attr];
      var skipped := parser.ConsumeUntil(NonWhitespace);
      assert SkipWhitespace(afterValue) == parser.rest;
      assert ReadAttributes(v, parser.fPastEnd, name, text, got) ==
             ReadAttributes(v, parser.fPastEnd, name, parser.rest, attributes);
    }
    return true, attributes;
  }

  /** ParseTag up to the tag's name and the whitespace behind it. */
  method ParseName(parser: StringParser, v: Verifier) returns (ok: bool, name: Text)
    requires parser.Valid()
    modifies parser
    ensures parser.Valid()
    ensures !ok ==> ReadHead(v, parser.fPastEnd, old(parser.rest)) == BadHead
    ensures ok ==> ReadHead(v, parser.fPastEnd, old(parser.rest)) ==
                   HeadEnd(name, parser.fPastEnd, ReadAttributes(v, parser.fPastEnd, name, parser.rest, []))
  {
    ghost var text := parser.rest;
    name := "";
    var found := FindStart(parser);
    if !found {
      return false, name;
    }
    ghost var start := parser.rest;
    name := parser.ConsumeUntil(NonName);
    if |name| == 0 {
      NoName(v, parser.fPastEnd, text, start);
      return false, name;
    }
    ghost var afterName := parser.rest;
    var skipped := parser.ConsumeUntil(NonWhitespace);
    assert parser.rest == SkipWhitespace(afterName);
    HeadFromParts(v, parser.fPastEnd, text, start, name, afterName);
    return true, name;
  }

  /** The '/' and '>' of a start tag. */
  method ParseHeadEnd(parser: StringParser, ghost name: Text, ghost attributes: seq<Attribute>)
      returns (ok: bool, selfClosing: bool)
    requires parser.Valid()
    modifies parser
    ensures parser.Valid()
    ensures HeadEnd(name, parser.fPastEnd, Some((attributes, old(parser.rest)))) ==
            if ok then Head(name, attributes, selfClosing, parser.rest) else BadHead
  {
    selfClosing := false;
    if parser.PeekFast() == '/' {
      selfClosing := true;
      var slash := parser.Expect('/');
    }
    ok := parser.Expect('>');
  }

  /** ParseTag up to the end of the start tag. */
  method ParseHead(parser: StringParser, v: Verifier)
      returns (ok: bool, name: Text, attributes: seq<Attribute>, selfClosing: bool)
    requires parser.Valid()
    modifies parser
    ensures parser.Valid()
    ensures ReadHead(v, parser.fPastEnd, old(parser.rest)) ==
            if ok then Head(name, attributes, selfClosing, parser.rest) else BadHead
  {
    attributes, selfClosing := [], false;
    ok, name := ParseName(parser, v);
    if !ok {
      return;
    }
    ok, attributes := ParseAttributes(parser, v, name);
    if !ok {
      return;
    }
    ok, selfClosing := ParseHeadEnd(parser, name, attributes);
  }

  /** The end tag: its name must be the start tag's, and then comes the next '>'. */
  method ParseEnd(parser: StringParser, name: Text) returns (ok: bool)
    requires parser.Valid()
    modifies parser
    ensures parser.Valid()
    ensures ReadEnd(name, old(parser.rest)) == if ok then Some(parser.rest) else None
  {
    var endName := parser.ConsumeUntil(NonName);
    if endName != name {
      return false;
    }
    var skipped, thru := parser.GetThru('>');
    return thru;
  }

  const NO_TAG := Tag("", [], None, [])

  /** ParseTag: reads a tag, its content and its end tag from the parser. */
  method ParseTag(parser: StringParser, v: Verifier) returns (ok: bool, tag: Tag)
    requires parser.Valid()
    modifies parser
    ensures parser.Valid()
    ensures Read(v, parser.fPastEnd, old(parser.rest)) == if ok then Some((tag, parser.rest)) else None
    decreases |parser.rest|, 0
  {
    ghost var text := parser.rest;
    var head, name, attributes, selfClosing := ParseHead(parser, v);
    ReadFromHead(v, parser.fPastEnd, text);
    if !head {
      return false, NO_TAG;
    }
    if selfClosing {
      return true, Tag(name, attributes, None, []);
    }
    ok, tag := ParseContent(parser, v, name, attributes);
  }

  /** ParseTag behind the start tag. */
  method ParseContent(parser: StringParser, v: Verifier, name: Text, attributes: seq<Attribute>) returns (ok: bool, tag: Tag)
    requires parser.Valid()
    modifies parser
    ensures parser.Valid()
    ensures ReadContent(v, parser.fPastEnd, name, attributes, old(parser.rest), []) ==
            if ok then Some((tag, parser.rest)) else None
    decreases |parser.rest|, 1
  {
    var embedded: seq<Tag> := [];
    while true
      invariant parser.Valid() && |parser.rest| <= |old(parser.rest)|
      invariant ReadContent(v, parser.fPastEnd, name, attributes, parser.rest, embedded) ==
                ReadContent(v, parser.fPastEnd, name, attributes, old(parser.rest), [])
      decreases |parser.rest|
    {
      ghost var text := parser.rest;
      var temp := parser.ConsumeUntil(Is('<'));
      if parser.GetDataRemaining() < 4 {
        return false, NO_TAG;
      }
      if parser.At(1) == '/' {
        ContentAtEnd(v, parser.fPastEnd, name, attributes, text, embedded);
        tag := Tag(name, attributes, if |embedded| == 0 && v.Value(name) then Some(temp) else None, embedded);
        var _ := parser.ConsumeLength(2);
        ok := ParseEnd(parser, name);
        return;
      }
      if parser.At(1) != '!' && parser.At(1) != '?' {
        ContentAtChild(v, parser.fPastEnd, name, attributes, text, embedded);
        ok, tag := ParseTag(parser, v);
        if !ok || !v.Subtag(name, tag.name) {
          return false, NO_TAG;
        }
        embedded := embedded + [tag];
      } else {
        ContentAtComment(v, parser.fPastEnd, name, attributes, text, embedded);
        var _ := parser.ConsumeLength(1);
        ConsumeIfComment(parser);
      }
    }
  }

  lemma ReadFromHead(v: Verifier, past: char, text: Text)
    ensures var head := ReadHead(v, past, text);
            Read(v, past, text) ==
            if head.BadHead? then None
            else if head.selfClosing then Some((Tag(head.name, head.attributes, None, []), head.rest))
            else ReadContent(v, past, head.name, head.attributes, head.rest, [])
  {
  }

  lemma ContentAtEnd(v: Verifier, past: char, name: Text, attributes: seq<Attribute>, text: Text, got: seq<Tag>)
    requires var rest := Span(text, Is('<')).1; 4 <= |rest| && rest[1] == '/'
    ensures var (value, rest) := Span(text, Is('<'));
            var end := ReadEnd(name, rest[2..]);
            ReadContent(v, past, name, attributes, text, got) ==
            if end.None? then None
            else Some((Tag(name, attributes, if got == [] && v.Value(name) then Some(value) else None, got), end.value))
  {
  }

  lemma ContentAtChild(v: Verifier, past: char, name: Text, attributes: seq<Attribute>, text: Text, got: seq<Tag>)
    requires var rest := Span(text, Is('<')).1; 4 <= |rest| && rest[1] != '/' && rest[1] != '!' && rest[1] != '?'
    ensures var child := Read(v, past, Span(text, Is('<')).1);
            ReadContent(v, past, name, attributes, text, got) ==
            if child.None? || !v.Subtag(name, child.value.0.name) then None
            else ReadContent(v, past, name, attributes, child.value.1, got + [child.value.0])
  {
  }

  lemma ContentAtComment(v: Verifier, past: char, name: Text, attributes: seq<Attribute>, text: Text, got: seq<Tag>)
    requires var rest := Span(text, Is('<')).1; 4 <= |rest| && (rest[1] == '!' || rest[1] == '?')
    ensures ReadContent(v, past, name, attributes, text, got) ==
            ReadContent(v, past, name, attributes, SkipIfComment(Span(text, Is('<')).1[1..]), got)
  {
  }

  lemma NoName(v: Verifier, past: char, text: Text, start: Text)
    requires FindTag(text, past) == Some(start) && Span(start, NonName).0 == []
    ensures ReadHead(v, past, text) == BadHead
  {
  }

  lemma HeadFromParts(v: Verifier, past: char, text: Text, start: Text, name: Text, afterName: Text)
    requires FindTag(text, past) == Some(start) && Span(start, NonName) == (name, afterName) && name != []
    ensures ReadHead(v, past, text) == HeadEnd(name, past, ReadAttributes(v, past, name, SkipWhitespace(afterName), []))
  {
  }

  lemma AttributeParts(text: Text, name: Text, afterName: Text, inValue: Text, value: Text)
    requires name != [] && Span(text, NonName) == (name, afterName)
    requires After(afterName, '=').Found? && After(After(afterName, '=').rest, '"') == Found(inValue)
    requires Span(inValue, Is('"')).0 == value
    ensures var close := Span(inValue, Is('"')).1;
            ReadAttribute(text) == if close == [] then None else Some((Attribute(name, value), close[1..]))
  {
  }
}
