/** Reading undoes printing, and whatever was read can be printed and read again. */
module XmlRoundTrip {
  import opened Common
  import opened TextParser
  import opened XmlText

  // ---------- Which trees survive printing ----------

  predicate IsName(name: Text) {
    name != [] && forall i :: 0 <= i < |name| ==> IsNameChar(name[i])
  }

  predicate Lacks(text: Text, c: char) {
    forall i :: 0 <= i < |text| ==> text[i] != c
  }

  predicate AttributesOk(attributes: seq<Attribute>) {
    forall i :: 0 <= i < |attributes| ==>
      IsName(attributes[i].name) && Lacks(attributes[i].value, '"') && Lacks(attributes[i].value, '\0')
  }

  /** Names made of name characters, no quote inside attribute values, no '<' inside values, no NUL anywhere, and no
      value on a tag that has embedded tags. */
  predicate Printable(tag: Tag)
    decreases tag, 0
  {
    && IsName(tag.name)
    && AttributesOk(tag.attributes)
    && (tag.value.Some? ==> tag.children == [] && Lacks(tag.value.value, '<') && Lacks(tag.value.value, '\0'))
    && AllPrintable(tag.children)
  }

  predicate AllPrintable(tags: seq<Tag>)
    decreases tags
  {
    tags == [] || (Printable(tags[0]) && AllPrintable(tags[1..]))
  }

  // ---------- What the verifier says about a tree ----------

  predicate AttributesAccepted(v: Verifier, tag: Text, attributes: seq<Attribute>) {
    attributes == [] || (v.Attr(tag, attributes[0]) && AttributesAccepted(v, tag, attributes[1..]))
  }

  predicate Accepted(v: Verifier, tag: Tag)
    decreases tag, 0
  {
    AttributesAccepted(v, tag.name, tag.attributes) && AllAccepted(v, tag.name, tag.children)
  }

  predicate AllAccepted(v: Verifier, parent: Text, tags: seq<Tag>)
    decreases tags
  {
    tags == [] || (Accepted(v, tags[0]) && v.Subtag(parent, tags[0].name) && AllAccepted(v, parent, tags[1..]))
  }

  /** The tree as it is read back: a missing value of a leaf comes back as the empty text, and a value that the
      verifier does not allow is dropped. */
  ghost function Normal(v: Verifier, tag: Tag): Tag
    decreases tag, 0
  {
    var value :=
      if tag.children == [] && v.Value(tag.name) then Some(if tag.value.Some? then tag.value.value else "") else None;
    Tag(tag.name, tag.attributes, value, NormalAll(v, tag.children))
  }

  ghost function NormalAll(v: Verifier, tags: seq<Tag>): (r: seq<Tag>)
    ensures |r| == |tags|
    decreases tags
  {
    if tags == [] then [] else [Normal(v, tags[0])] + NormalAll(v, tags[1..])
  }

  // ---------- Reading undoes printing ----------

  lemma CStringOf(text: Text)
    requires Lacks(text, '\0')
    ensures CString(text) == text
  {
    SpanStops(text, "", Is('\0'));
    assert text + "" == text;
  }

  lemma NameStops(name: Text, tail: Text)
    requires IsName(name) && tail != [] && !IsNameChar(tail[0])
    ensures Span(name + tail, NonName) == (name, tail) && CString(name) == name
  {
    SpanStops(name, tail, NonName);
    CStringOf(name);
  }

  lemma NoWhitespace(text: Text)
    requires text != [] && !IsWhitespace(text[0])
    ensures SkipWhitespace(text) == text && SkipWhitespace(" " + text) == text
  {
    SpanStops("", text, NonWhitespace);
    SpanStops(" ", text, NonWhitespace);
    assert "" + text == text;
  }

  /** Text in front of a '<' does not matter to the search for a tag. */
  lemma PrefixSkipped(prefix: Text, tail: Text, past: char)
    requires Lacks(prefix, '<') && tail != [] && tail[0] == '<'
    ensures FindTag(prefix + tail, past) == FindTag(tail, past)
  {
    SpanStops(prefix, tail, Is('<'));
    SpanStops("", tail, Is('<'));
    assert "" + tail == tail;
  }

  /** One printed attribute. */
  lemma AttributeReadsBack(a: Attribute, next: Text)
    requires IsName(a.name) && Lacks(a.value, '"')
    ensures ReadAttribute(a.name + ("=\"" + (a.value + ("\"" + next)))) == Some((a, next))
  {
    var afterValue := "\"" + next;
    var inValue := a.value + afterValue;
    NameStops(a.name, "=\"" + inValue);
    assert "=\"" + inValue == ['='] + (['"'] + inValue);
    ExpectFirst('=', ['"'] + inValue);
    ExpectFirst('"', inValue);
    SpanStops(a.value, afterValue, Is('"'));
    assert afterValue[1..] == next;
  }

  /** What the attribute part of a printed tag begins with. */
  lemma AttributesBegin(attributes: seq<Attribute>, tail: Text)
    requires AttributesOk(attributes) && tail != [] && tail[0] == '>'
    ensures var text := PrintAttributes(attributes, tail);
            text != [] && (if attributes == [] then text == tail else IsNameChar(text[0]))
  {
    if attributes != [] {
      CStringOf(attributes[0].name);
    }
  }

  lemma AttributesStep(v: Verifier, past: char, tag: Text, text: Text, a: Attribute, rest: Text, next: Text, got: seq<Attribute>)
    requires text != [] && IsNameChar(text[0]) && ReadAttribute(text) == Some((a, rest)) && SkipWhitespace(rest) == next
    ensures ReadAttributes(v, past, tag, text, got) ==
            if v.Attr(tag, a) then ReadAttributes(v, past, tag, next, got + [a]) else None
  {
  }

  lemma FirstAttribute(attributes: seq<Attribute>, tail: Text)
    requires AttributesOk(attributes) && attributes != []
    ensures ReadAttribute(PrintAttributes(attributes, tail)) ==
            Some((attributes[0], " " + PrintAttributes(attributes[1..], tail)))
  {
    var a := attributes[0];
    var next := PrintAttributes(attributes[1..], tail);
    CStringOf(a.name);
    CStringOf(a.value);
    assert "\"" + (" " + next) == "\" " + next;
    AttributeReadsBack(a, " " + next);
  }

  lemma AttributesSkip(attributes: seq<Attribute>, tail: Text)
    requires AttributesOk(attributes) && tail != [] && tail[0] == '>'
    ensures SkipWhitespace(" " + PrintAttributes(attributes, tail)) == PrintAttributes(attributes, tail)
  {
    AttributesBegin(attributes, tail);
    NoWhitespace(PrintAttributes(attributes, tail));
  }

  lemma FirstAttributeReadsBack(v: Verifier, past: char, tag: Text, attributes: seq<Attribute>, tail: Text, got: seq<Attribute>)
    requires AttributesOk(attributes) && attributes != [] && tail != [] && tail[0] == '>'
    ensures ReadAttributes(v, past, tag, PrintAttributes(attributes, tail), got) ==
            if v.Attr(tag, attributes[0])
            then ReadAttributes(v, past, tag, PrintAttributes(attributes[1..], tail), got + [attributes[0]])
            else None
  {
    AttributesBegin(attributes, tail);
    FirstAttribute(attributes, tail);
    AttributesSkip(attributes[1..], tail);
    var next := PrintAttributes(attributes[1..], tail);
    AttributesStep(v, past, tag, PrintAttributes(attributes, tail), attributes[0], " " + next, next, got);
  }

  lemma AttributesChain(v: Verifier, past: char, tag: Text, text: Text, next: Text, attributes: seq<Attribute>, tail: Text,
                        got: seq<Attribute>)
    requires attributes != []
    requires ReadAttributes(v, past, tag, text, got) ==
             if v.Attr(tag, attributes[0]) then ReadAttributes(v, past, tag, next, got + [attributes[0]]) else None
    requires ReadAttributes(v, past, tag, next, got + [attributes[0]]) ==
             if AttributesAccepted(v, tag, attributes[1..]) then Some(((got + [attributes[0]]) + attributes[1..], tail)) else None
    ensures ReadAttributes(v, past, tag, text, got) ==
            if AttributesAccepted(v, tag, attributes) then Some((got + attributes, tail)) else None
  {
    assert (got + [attributes[0]]) + attributes[1..] == got + attributes;
  }

  lemma {:induction false} AttributesReadBack(v: Verifier, past: char, tag: Text, attributes: seq<Attribute>, tail: Text,
                                              got: seq<Attribute>)
    requires AttributesOk(attributes) && tail != [] && tail[0] == '>'
    ensures ReadAttributes(v, past, tag, PrintAttributes(attributes, tail), got) ==
            if AttributesAccepted(v, tag, attributes) then Some((got + attributes, tail)) else None
    decreases attributes
  {
    if attributes == [] {
      assert got + attributes == got;
    } else {
      FirstAttributeReadsBack(v, past, tag, attributes, tail, got);
      AttributesReadBack(v, past, tag, attributes[1..], tail, got + [attributes[0]]);
      AttributesChain(v, past, tag, PrintAttributes(attributes, tail), PrintAttributes(attributes[1..], tail), attributes, tail, got);
    }
  }

  // ---------- Whole tags ----------

  lemma AttributePartBegins(attributes: seq<Attribute>, tail: Text)
    ensures var text := PrintAttributePart(attributes, tail);
            text != [] && (text[0] == '>' || text[0] == ' ') && !IsNameChar(text[0])
  {
  }

  lemma EmptyPartSkips(tail: Text)
    ensures SkipWhitespace(PrintAttributePart([], tail)) == PrintAttributes([], ">" + tail)
  {
    NoWhitespace(">" + tail);
  }

  lemma NonEmptyPartSkips(attributes: seq<Attribute>, tail: Text)
    requires AttributesOk(attributes) && attributes != []
    ensures SkipWhitespace(PrintAttributePart(attributes, tail)) == PrintAttributes(attributes, ">" + tail)
  {
    AttributesSkip(attributes, ">" + tail);
  }

  lemma AttributePartSkips(attributes: seq<Attribute>, tail: Text)
    requires AttributesOk(attributes)
    ensures SkipWhitespace(PrintAttributePart(attributes, tail)) == PrintAttributes(attributes, ">" + tail)
  {
    if attributes == [] {
      EmptyPartSkips(tail);
    } else {
      NonEmptyPartSkips(attributes, tail);
    }
  }

  /** A printed start tag is read back, up to its '>'. */
  lemma HeadReadsBack(v: Verifier, past: char, name: Text, attributes: seq<Attribute>, tail: Text)
    requires IsName(name) && AttributesOk(attributes)
    ensures ReadHead(v, past, "<" + (name + PrintAttributePart(attributes, tail))) ==
            if AttributesAccepted(v, name, attributes) then Head(name, attributes, false, tail) else BadHead
  {
    var afterName := PrintAttributePart(attributes, tail);
    var attributesText := PrintAttributes(attributes, ">" + tail);
    assert Span(name + afterName, NonName) == (name, afterName) by {
      AttributePartBegins(attributes, tail);
      NameStops(name, afterName);
    }
    assert SkipWhitespace(afterName) == attributesText by {
      AttributePartSkips(attributes, tail);
    }
    assert ReadAttributes(v, past, name, attributesText, []) ==
           if AttributesAccepted(v, name, attributes) then Some((attributes, ">" + tail)) else None by {
      AttributesReadBack(v, past, name, attributes, ">" + tail, []);
      assert [] + attributes == attributes;
    }
    NameFound(name, afterName, past);
    if AttributesAccepted(v, name, attributes) {
      HeadSucceeds(v, past, "<" + (name + afterName), name, afterName, attributes, tail);
    } else {
      HeadFails(v, past, "<" + (name + afterName), name, afterName);
    }
  }

  lemma HeadFails(v: Verifier, past: char, text: Text, name: Text, afterName: Text)
    requires FindTag(text, past) == Some(name + afterName) && Span(name + afterName, NonName) == (name, afterName) && name != []
    requires ReadAttributes(v, past, name, SkipWhitespace(afterName), []) == None
    ensures ReadHead(v, past, text) == BadHead
  {
  }

  lemma HeadSucceeds(v: Verifier, past: char, text: Text, name: Text, afterName: Text, attributes: seq<Attribute>, tail: Text)
    requires FindTag(text, past) == Some(name + afterName) && Span(name + afterName, NonName) == (name, afterName) && name != []
    requires ReadAttributes(v, past, name, SkipWhitespace(afterName), []) == Some((attributes, ">" + tail))
    ensures ReadHead(v, past, text) == Head(name, attributes, false, tail)
  {
    ExpectFirst('>', tail);
  }

  lemma NameFound(name: Text, tail: Text, past: char)
    requires IsName(name)
    ensures FindTag("<" + (name + tail), past) == Some(name + tail)
  {
    var text := "<" + (name + tail);
    SpanStops("", text, Is('<'));
    assert "" + text == text && text[1..] == name + tail;
    assert (name + tail)[0] == name[0];
  }

  /** A printed end tag, behind its "</". */
  lemma EndReadsBack(name: Text, tail: Text)
    requires IsName(name)
    ensures ReadEnd(name, name + (">" + tail)) == Some(tail)
  {
    var close := ">" + tail;
    NameStops(name, close);
    SpanStops("", close, Is('>'));
    assert "" + close == close && close[1..] == tail;
  }

  /** The text of the "</name>" that ends a tag, in front of `tail`. */
  function EndTag(name: Text, tail: Text): Text {
    "</" + (name + (">" + tail))
  }

  /** The end of a tag's content: text without '<', and the end tag. */
  lemma ContentEnds(v: Verifier, past: char, name: Text, attributes: seq<Attribute>, value: Text, tail: Text, children: seq<Tag>)
    requires IsName(name) && Lacks(value, '<')
    ensures ReadContent(v, past, name, attributes, value + EndTag(name, tail), children) ==
            Some((Tag(name, attributes, if children == [] && v.Value(name) then Some(value) else None, children), tail))
  {
    var end := EndTag(name, tail);
    EndTagBegins(name, tail);
    hide EndTag;
    SpanStops(value, end, Is('<'));
    EndReadsBack(name, tail);
  }

  lemma EndTagBegins(name: Text, tail: Text)
    ensures var end := EndTag(name, tail);
            3 <= |end| && end[0] == '<' && end[1] == '/' && end[2..] == name + (">" + tail)
  {
  }

  /** Content that begins, after some text, with an embedded tag. */
  lemma ContentStep(v: Verifier, past: char, name: Text, attributes: seq<Attribute>, before: Text, rest: Text, children: seq<Tag>)
    requires Lacks(before, '<') && 4 <= |rest| && rest[0] == '<' && rest[1] != '/' && rest[1] != '!' && rest[1] != '?'
    ensures ReadContent(v, past, name, attributes, before + rest, children) ==
            var child := Read(v, past, rest);
            if child.None? || !v.Subtag(name, child.value.0.name) then None
            else ReadContent(v, past, name, attributes, child.value.1, children + [child.value.0])
  {
    SpanStops(before, rest, Is('<'));
  }

  /** Leading text without '<' does not change what is read. */
  lemma ReadSkips(v: Verifier, past: char, before: Text, rest: Text)
    requires Lacks(before, '<') && rest != [] && rest[0] == '<'
    ensures Read(v, past, before + rest) == Read(v, past, rest)
  {
    PrefixSkipped(before, rest, past);
  }

  /** A printed tag without its indentation. */
  ghost function PrintFlush(tag: Tag, indent: nat, tail: Text): Text {
    PrintHead(tag, PrintBody(tag, indent, PrintEnd(tag, tail)))
  }

  /** What a printed tag is read back as. */
  ghost predicate ReadsBack(v: Verifier, past: char, tag: Tag, indent: nat, tail: Text) {
    Read(v, past, PrintFlush(tag, indent, tail)) == if Accepted(v, tag) then Some((Normal(v, tag), "\n" + tail)) else None
  }

  lemma FlushBegins(tag: Tag, indent: nat, tail: Text)
    requires Printable(tag)
    ensures var text := PrintFlush(tag, indent, tail);
            4 <= |text| && text[0] == '<' && IsNameChar(text[1])
  {
    CStringOf(tag.name);
    assert |PrintEnd(tag, tail)| >= 4;
  }

  /** The content behind a start tag, with the embedded tags still to come and those found so far. */
  ghost predicate ContentReadsBack(v: Verifier, past: char, name: Text, attributes: seq<Attribute>, before: Text,
                                   children: seq<Tag>, indent: nat, close: Text, tail: Text, got: seq<Tag>) {
    ReadContent(v, past, name, attributes, before + PrintAll(children, indent, close + EndTag(name, tail)), got) ==
    if AllAccepted(v, name, children) then Some((Tag(name, attributes, None, got + NormalAll(v, children)), tail)) else None
  }

  lemma NoMoreChildren(v: Verifier, past: char, name: Text, attributes: seq<Attribute>, before: Text, indent: nat,
                       close: Text, tail: Text, got: seq<Tag>)
    requires IsName(name) && Lacks(before, '<') && Lacks(close, '<') && got != []
    ensures ContentReadsBack(v, past, name, attributes, before, [], indent, close, tail, got)
  {
    var text := before + PrintAll([], indent, close + EndTag(name, tail));
    assert text == (before + close) + EndTag(name, tail) by {
      Associate(before, close, EndTag(name, tail));
    }
    assert got + NormalAll(v, []) == got;
    assert ReadContent(v, past, name, attributes, text, got) == Some((Tag(name, attributes, None, got), tail)) by {
      ContentEnds(v, past, name, attributes, before + close, tail, got);
    }
  }

  /** One embedded tag in front of the others. */
  lemma NextChild(v: Verifier, past: char, name: Text, attributes: seq<Attribute>, before: Text, child: Tag,
                  children: seq<Tag>, indent: nat, close: Text, tail: Text, got: seq<Tag>)
    requires Lacks(before, '<') && Printable(child)
    requires ReadsBack(v, past, child, indent, PrintAll(children, indent, close + EndTag(name, tail)))
    requires ContentReadsBack(v, past, name, attributes, "\n", children, indent, close, tail, got + [Normal(v, child)])
    ensures ContentReadsBack(v, past, name, attributes, before, [child] + children, indent, close, tail, got)
  {
    var more := PrintAll(children, indent, close + EndTag(name, tail));
    ChildText(before, child, children, indent, close + EndTag(name, tail));
    ChildStep(v, past, name, attributes, before, child, indent, more, got);
    NextChildResult(v, past, name, attributes, (before + Tabs(indent)) + PrintFlush(child, indent, more), "\n" + more,
                    child, children, tail, got);
  }

  lemma ChildText(before: Text, child: Tag, children: seq<Tag>, indent: nat, tail: Text)
    ensures before + PrintAll([child] + children, indent, tail) ==
            (before + Tabs(indent)) + PrintFlush(child, indent, PrintAll(children, indent, tail))
  {
    assert ([child] + children)[1..] == children;
    Associate(before, Tabs(indent), PrintFlush(child, indent, PrintAll(children, indent, tail)));
  }

  lemma ChildStep(v: Verifier, past: char, name: Text, attributes: seq<Attribute>, before: Text, child: Tag, indent: nat,
                  more: Text, got: seq<Tag>)
    requires Lacks(before, '<') && Printable(child) && ReadsBack(v, past, child, indent, more)
    ensures ReadContent(v, past, name, attributes, (before + Tabs(indent)) + PrintFlush(child, indent, more), got) ==
            if Accepted(v, child) && v.Subtag(name, child.name)
            then ReadContent(v, past, name, attributes, "\n" + more, got + [Normal(v, child)]) else None
  {
    var flush := PrintFlush(child, indent, more);
    FlushBegins(child, indent, more);
    ContentStep(v, past, name, attributes, before + Tabs(indent), flush, got);
  }

  lemma NextChildResult(v: Verifier, past: char, name: Text, attributes: seq<Attribute>, text: Text, more: Text, child: Tag,
                        children: seq<Tag>, tail: Text, got: seq<Tag>)
    requires ReadContent(v, past, name, attributes, text, got) ==
             if Accepted(v, child) && v.Subtag(name, child.name)
             then ReadContent(v, past, name, attributes, more, got + [Normal(v, child)]) else None
    requires ReadContent(v, past, name, attributes, more, got + [Normal(v, child)]) ==
             if AllAccepted(v, name, children)
             then Some((Tag(name, attributes, None, (got + [Normal(v, child)]) + NormalAll(v, children)), tail)) else None
    ensures ReadContent(v, past, name, attributes, text, got) ==
            if AllAccepted(v, name, [child] + children)
            then Some((Tag(name, attributes, None, got + NormalAll(v, [child] + children)), tail)) else None
  {
    assert ([child] + children)[1..] == children;
    assert (got + [Normal(v, child)]) + NormalAll(v, children) == got + NormalAll(v, [child] + children);
  }

  lemma Associate(a: Text, b: Text, c: Text)
    ensures a + (b + c) == (a + b) + c
  {
  }

  lemma {:induction false} ChildrenReadBack(v: Verifier, past: char, name: Text, attributes: seq<Attribute>, before: Text,
                                            children: seq<Tag>, indent: nat, close: Text, tail: Text, got: seq<Tag>)
    requires IsName(name) && AllPrintable(children) && Lacks(before, '<') && Lacks(close, '<') && got + children != []
    ensures ContentReadsBack(v, past, name, attributes, before, children, indent, close, tail, got)
    decreases children
  {
    if children == [] {
      NoMoreChildren(v, past, name, attributes, before, indent, close, tail, got);
    } else {
      TagReadsBack(v, past, children[0], indent, PrintAll(children[1..], indent, close + EndTag(name, tail)));
      ChildrenReadBack(v, past, name, attributes, "\n", children[1..], indent, close, tail, got + [Normal(v, children[0])]);
      NextChild(v, past, name, attributes, before, children[0], children[1..], indent, close, tail, got);
      assert [children[0]] + children[1..] == children;
    }
  }

  /** Reading a start tag and what follows it. */
  lemma HeadThenContent(v: Verifier, past: char, name: Text, attributes: seq<Attribute>, body: Text)
    requires IsName(name) && AttributesOk(attributes)
    ensures Read(v, past, "<" + (name + PrintAttributePart(attributes, body))) ==
            if AttributesAccepted(v, name, attributes) then ReadContent(v, past, name, attributes, body, []) else None
  {
    HeadReadsBack(v, past, name, attributes, body);
  }

  lemma LeafReadsBack(v: Verifier, past: char, tag: Tag, indent: nat, tail: Text)
    requires Printable(tag) && tag.children == []
    ensures ReadsBack(v, past, tag, indent, tail)
  {
    var value := if tag.value.Some? then tag.value.value else "";
    var body := value + EndTag(tag.name, "\n" + tail);
    assert CString(tag.name) == tag.name by {
      CStringOf(tag.name);
    }
    assert PrintBody(tag, indent, PrintEnd(tag, tail)) == body by {
      CStringOf(value);
      assert "" + EndTag(tag.name, "\n" + tail) == EndTag(tag.name, "\n" + tail);
    }
    HeadThenContent(v, past, tag.name, tag.attributes, body);
    ContentEnds(v, past, tag.name, tag.attributes, value, "\n" + tail, []);
    assert NormalAll(v, tag.children) == [];
  }

  lemma InnerReadsBack(v: Verifier, past: char, tag: Tag, indent: nat, tail: Text)
    requires Printable(tag) && tag.children != []
    requires ContentReadsBack(v, past, tag.name, tag.attributes, "\n", tag.children, indent + 1, Tabs(indent), "\n" + tail, [])
    ensures ReadsBack(v, past, tag, indent, tail)
  {
    CStringOf(tag.name);
    var body := "\n" + PrintAll(tag.children, indent + 1, Tabs(indent) + EndTag(tag.name, "\n" + tail));
    assert PrintBody(tag, indent, PrintEnd(tag, tail)) == body;
    HeadThenContent(v, past, tag.name, tag.attributes, body);
    assert [] + NormalAll(v, tag.children) == NormalAll(v, tag.children);
  }

  lemma {:induction false} TagReadsBack(v: Verifier, past: char, tag: Tag, indent: nat, tail: Text)
    requires Printable(tag)
    ensures ReadsBack(v, past, tag, indent, tail)
    decreases tag
  {
    if tag.children == [] {
      LeafReadsBack(v, past, tag, indent, tail);
    } else {
      ChildrenReadBack(v, past, tag.name, tag.attributes, "\n", tag.children, indent + 1, Tabs(indent), "\n" + tail, []);
      InnerReadsBack(v, past, tag, indent, tail);
    }
  }

  /** ParseTag on the output of FormatData, at any indentation and in front of any text: it succeeds exactly if the
      verifier accepts the tree, and rebuilds the tree with attributes and embedded tags in order. */
  lemma ReadUndoesPrint(v: Verifier, past: char, tag: Tag, indent: nat, tail: Text)
    requires Printable(tag)
    ensures Read(v, past, Print(tag, indent, tail)) ==
            if Accepted(v, tag) then Some((Normal(v, tag), "\n" + tail)) else None
  {
    TagReadsBack(v, past, tag, indent, tail);
    FlushBegins(tag, indent, tail);
    ReadSkips(v, past, Tabs(indent), PrintFlush(tag, indent, tail));
  }
}
