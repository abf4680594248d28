/** The tag trees of AuthServer/PrefsSourceLib/XMLParser.cpp: how they are printed and how text is read back. */
module XmlText {
  import opened Common
  import opened TextParser

  datatype Attribute = Attribute(name: Text, value: Text)

  datatype Tag = Tag(name: Text, attributes: seq<Attribute>, value: Option<Text>, children: seq<Tag>)

  /** A DTDVerifier, if there is one. */
  datatype Verifier =
    | NoVerifier
    | Verifier(validSubtag: (Text, Text) -> bool, validAttributeName: (Text, Text) -> bool,
               validAttributeValue: (Text, Text, Text) -> bool, mayHaveValue: Text -> bool)
  {
    predicate Subtag(tag: Text, subtag: Text) {
      NoVerifier? || validSubtag(tag, subtag)
    }

    predicate Attr(tag: Text, attribute: Attribute) {
      NoVerifier? || (validAttributeName(tag, attribute.name) && validAttributeValue(tag, attribute.name, attribute.value))
    }

    predicate Value(tag: Text) {
      NoVerifier? || mayHaveValue(tag)
    }
  }

  // ---------- Printing ----------

  /** Put takes a C string: what comes before the first NUL. */
  ghost function CString(text: Text): Text {
    Span(text, Is('\0')).0
  }

  ghost function Tabs(n: nat): Text {
    seq(n, _ => '\t')
  }

  ghost function PrintAttributes(attributes: seq<Attribute>, tail: Text): Text {
    if attributes == [] then tail
    else CString(attributes[0].name) + ("=\"" + (CString(attributes[0].value) + ("\" " + PrintAttributes(attributes[1..], tail))))
  }

  /** The attribute part and the '>' of a start tag. */
  ghost function PrintAttributePart(attributes: seq<Attribute>, tail: Text): Text {
    if attributes == [] then ">" + tail else " " + PrintAttributes(attributes, ">" + tail)
  }

  ghost function PrintHead(tag: Tag, tail: Text): Text {
    "<" + (CString(tag.name) + PrintAttributePart(tag.attributes, tail))
  }

  ghost function PrintEnd(tag: Tag, tail: Text): Text {
    "</" + (CString(tag.name) + (">" + ("\n" + tail)))
  }

  ghost function PrintBody(tag: Tag, indent: nat, tail: Text): Text
    decreases tag, 0
  {
    if tag.children == [] then (if tag.value.Some? then CString(tag.value.value) + tail else tail)
    else "\n" + PrintAll(tag.children, indent + 1, Tabs(indent) + tail)
  }

  /** What FormatData prints for a tag, in front of `tail`. */
  ghost function Print(tag: Tag, indent: nat, tail: Text): Text
    decreases tag, 1
  {
    Tabs(indent) + PrintHead(tag, PrintBody(tag, indent, PrintEnd(tag, tail)))
  }

  ghost function PrintAll(tags: seq<Tag>, indent: nat, tail: Text): Text
    decreases tags
  {
    if tags == [] then tail else Print(tags[0], indent, PrintAll(tags[1..], indent, tail))
  }

  // ---------- Reading ----------

  ghost function Peek(text: Text, past: char): char {
    if text == [] then past else text[0]
  }

  ghost function SkipWhitespace(text: Text): (rest: Text)
    ensures |rest| <= |text|
  {
    Span(text, NonWhitespace).1
  }

  predicate AtCommentEnd(text: Text) {
    2 < |text| && text[0] == '-' && text[1] == '-' && text[2] == '>'
  }

  /** The loop of ConsumeIfComment: to the next "-->", or to the last two characters. */
  ghost function SkipToCommentEnd(text: Text): (rest: Text)
    ensures |rest| <= |text|
    decreases |text|
  {
    if |text| <= 2 || AtCommentEnd(text) then text
    else SkipToCommentEnd(Span(if text[0] == '-' then text[1..] else text, Is('-')).1)
  }

  /** ConsumeIfComment. */
  ghost function SkipIfComment(text: Text): (rest: Text)
    ensures |rest| <= |text|
  {
    if 2 < |text| && text[1] == '-' && text[2] == '-' then
      var end := SkipToCommentEnd(text[2..]);
      if 2 < |end| then end[3..] else end
    else text
  }

  /** The start of the next regular tag, behind its '<'. Comments and processing instructions are passed over. */
  ghost function FindTag(text: Text, past: char): (r: Option<Text>)
    ensures r.Some? ==> |r.value| < |text|
    decreases |text|
  {
    var found := Span(text, Is('<')).1;
    if found == [] then None
    else
      var next := found[1..];
      var c := Peek(next, past);
      if c == '/' then None
      else if c != '!' && c != '?' then Some(next)
      else FindTag(SkipIfComment(next), past)
  }

  /** One attribute: a name, '=', and a quoted value. */
  ghost function ReadAttribute(text: Text): (r: Option<(Attribute, Text)>)
    ensures r.Some? ==> |r.value.1| < |text|
  {
    var (name, afterName) := Span(text, NonName);
    var equals := After(afterName, '=');
    if name == [] || equals == NotFound then None
    else
      var open := After(equals.rest, '"');
      if open == NotFound then None
      else
        var (value, afterValue) := Span(open.rest, Is('"'));
        if afterValue == [] then None else Some((Attribute(name, value), afterValue[1..]))
  }

  /** The attribute loop of ParseTag, with the attributes found so far. */
  ghost function ReadAttributes(v: Verifier, past: char, tag: Text, text: Text, got: seq<Attribute>): (r: Option<(seq<Attribute>, Text)>)
    ensures r.Some? ==> |r.value.1| <= |text|
    decreases |text|
  {
    if Peek(text, past) == '>' || Peek(text, past) == '/' then Some((got, text))
    else
      var next := ReadAttribute(text);
      if next.None? || !v.Attr(tag, next.value.0) then None
      else ReadAttributes(v, past, tag, SkipWhitespace(next.value.1), got + [next.value.0])
  }

  /** What a start tag turns out to be. */
  datatype Head = BadHead | Head(name: Text, attributes: seq<Attribute>, selfClosing: bool, rest: Text)

  /** The end of a start tag, once its attributes have been read. */
  ghost function HeadEnd(name: Text, past: char, r: Option<(seq<Attribute>, Text)>): (h: Head)
    ensures h.Head? ==> r.Some? && |h.rest| < |r.value.1|
  {
    if r.None? then BadHead
    else
      var slash := Peek(r.value.1, past) == '/';
      var afterSlash := if slash && After(r.value.1, '/').Found? then After(r.value.1, '/').rest else r.value.1;
      var end := After(afterSlash, '>');
      if end == NotFound then BadHead else Head(name, r.value.0, slash, end.rest)
  }

  /** ParseTag up to the '>' of the start tag. */
  ghost function ReadHead(v: Verifier, past: char, text: Text): (h: Head)
    ensures h.Head? ==> |h.rest| < |text|
  {
    var start := FindTag(text, past);
    if start.None? then BadHead
    else
      var (name, afterName) := Span(start.value, NonName);
      if name == [] then BadHead
      else
        HeadEnd(name, past, ReadAttributes(v, past, name, SkipWhitespace(afterName), []))
  }

  /** The end tag behind its "</": the same name, and anything up to the next '>'. */
  ghost function ReadEnd(name: Text, text: Text): (r: Option<Text>)
    ensures r.Some? ==> |r.value| < |text|
  {
    var (endName, afterName) := Span(text, NonName);
    var close := Span(afterName, Is('>')).1;
    if endName == name && close != [] then Some(close[1..]) else None
  }

  /** ParseTag: the tag tree at the start of a text, and the text behind it. */
  ghost function Read(v: Verifier, past: char, text: Text): (r: Option<(Tag, Text)>)
    ensures r.Some? ==> |r.value.1| < |text|
    decreases |text|, 0
  {
    var head := ReadHead(v, past, text);
    if head.BadHead? then None
    else if head.selfClosing then Some((Tag(head.name, head.attributes, None, []), head.rest))
    else ReadContent(v, past, head.name, head.attributes, head.rest, [])
  }

  /** The content loop of ParseTag, with the embedded tags found so far, and the end tag. */
  ghost function ReadContent(v: Verifier, past: char, name: Text, attributes: seq<Attribute>, text: Text, children: seq<Tag>):
      (r: Option<(Tag, Text)>)
    ensures r.Some? ==> |r.value.1| < |text|
    decreases |text|, 1
  {
    var (value, rest) := Span(text, Is('<'));
    if |rest| < 4 then None
    else if rest[1] == '/' then
      var end := ReadEnd(name, rest[2..]);
      if end.None? then None
      else Some((Tag(name, attributes, if children == [] && v.Value(name) then Some(value) else None, children), end.value))
    else if rest[1] != '!' && rest[1] != '?' then
      var child := Read(v, past, rest);
      if child.None? || !v.Subtag(name, child.value.0.name) then None
      else ReadContent(v, past, name, attributes, child.value.1, children + [child.value.0])
    else ReadContent(v, past, name, attributes, SkipIfComment(rest[1..]), children)
  }
}
