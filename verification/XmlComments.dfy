/** What the pieces of an XML text mean to ParseTag: comments and declarations, start tags in any spacing, end tags. */
module XmlComments {
  import opened Common
  import opened TextParser
  import opened XmlText
  import opened XmlRoundTrip

  // ---------- Where a comment ends ----------

  /** "-->" stands at position k. */
  predicate EndsAt(text: Text, k: nat) {
    k + 2 < |text| && text[k] == '-' && text[k + 1] == '-' && text[k + 2] == '>'
  }

  /** "<!--" + c + "-->" is one comment: no earlier "-->" ends it. The second '-' of its "<!--" may belong to one. */
  ghost predicate IsComment(c: Text) {
    forall j: nat :: j <= |c| ==> !EndsAt("-" + c + "-->", j)
  }

  /** What the loop of ConsumeIfComment passes in one round. */
  lemma Round(text: Text) returns (m: nat)
    requires 2 < |text| && !AtCommentEnd(text)
    ensures 1 <= m <= |text| && (forall i :: 1 <= i < m ==> text[i] != '-') && (m < |text| ==> text[m] == '-')
    ensures SkipToCommentEnd(text) == SkipToCommentEnd(text[m..])
  {
    var d := if text[0] == '-' then 1 else 0;
    var from := text[d..];
    assert from == if text[0] == '-' then text[1..] else text;
    var n := Run(from, Is('-'));
    m := d + n;
    assert Span(from, Is('-')).1 == from[n..] == text[m..];
    assert forall i :: 1 <= i < m ==> text[i] == from[i - d];
    assert m < |text| ==> text[m] == from[n];
  }

  lemma EndBehind(text: Text, m: nat, j: nat)
    requires m <= |text|
    ensures EndsAt(text[m..], j) <==> EndsAt(text, m + j)
  {
  }

  lemma AtEnd(text: Text)
    ensures EndsAt(text, 0) <==> AtCommentEnd(text)
    ensures AtCommentEnd(text) || |text| <= 2 ==> SkipToCommentEnd(text) == text
  {
  }

  /** The loop of ConsumeIfComment stops at the first "-->". */
  lemma {:induction false} StopsAtFirstEnd(text: Text, k: nat)
    requires EndsAt(text, k) && forall j: nat :: j < k ==> !EndsAt(text, j)
    ensures SkipToCommentEnd(text) == text[k..]
    decreases |text|
  {
    hide SkipToCommentEnd, AtCommentEnd;
    AtEnd(text);
    if k != 0 {
      assert !EndsAt(text, 0);
      var m := Round(text);
      var next := text[m..];
      EndBehind(text, m, k - m);
      forall j: nat | j < k - m ensures !EndsAt(next, j) {
        EndBehind(text, m, j);
      }
      StopsAtFirstEnd(next, k - m);
      assert next[k - m..] == text[k..];
    } else {
      assert text[0..] == text;
    }
  }

  /** Without a "-->" the loop runs to the last two characters. */
  lemma {:induction false} RunsOut(text: Text)
    requires forall j: nat :: !EndsAt(text, j)
    ensures |SkipToCommentEnd(text)| <= 2
    decreases |text|
  {
    hide SkipToCommentEnd, AtCommentEnd;
    AtEnd(text);
    if 2 < |text| {
      assert !EndsAt(text, 0);
      var m := Round(text);
      forall j: nat ensures !EndsAt(text[m..], j) {
        EndBehind(text, m, j);
      }
      RunsOut(text[m..]);
    }
  }

  /** A comment, behind its '<', is passed up to and including the first "-->" behind its "<!-". The character in the
      place of the '!' does not matter. */
  lemma CommentIsPassed(c: Text, rest: Text, mark: char)
    requires IsComment(c)
    ensures SkipIfComment([mark] + ("--" + (c + ("-->" + rest)))) == rest
  {
    var text := [mark] + ("--" + (c + ("-->" + rest)));
    var whole := "-" + c + "-->";
    var body := text[2..];
    assert body == whole + rest;
    forall j: nat | j < |c| + 1 ensures !EndsAt(body, j) {
      assert !EndsAt(whole, j);
    }
    StopsAtFirstEnd(body, |c| + 1);
    assert body[|c| + 1..][3..] == rest;
  }

  /** Of a comment that is never closed at most two characters are left. */
  lemma UnclosedComment(c: Text, mark: char)
    requires forall j: nat :: !EndsAt("-" + c, j)
    ensures |SkipIfComment([mark] + ("--" + c))| <= 2
  {
    var text := [mark] + ("--" + c);
    assert text[2..] == "-" + c;
    RunsOut(text[2..]);
  }

  /** Text behind a '<' that does not go on with "--" behind its first character is no comment. */
  lemma NoComment(text: Text)
    requires |text| <= 2 || text[1..3] != "--"
    ensures SkipIfComment(text) == text
  {
    if 2 < |text| {
      assert text[1..3] == [text[1], text[2]];
    }
  }

  // ---------- Comments and declarations around tags ----------

  function Comment(c: Text, rest: Text): Text {
    "<!--" + (c + ("-->" + rest))
  }

  /** What is behind the '<' of a comment. */
  lemma CommentText(c: Text, rest: Text)
    ensures var text := Comment(c, rest);
            7 <= |text| && text[0] == '<' && text[1] == '!' && text[1..] == ['!'] + ("--" + (c + ("-->" + rest)))
  {
    var inner := c + ("-->" + rest);
    assert "<!--" + inner == ['<'] + (['!'] + ("--" + inner));
  }

  /** The next tag is the one behind the '!' or '?'. */
  lemma MarkPassed(lead: Text, text: Text, past: char)
    requires Lacks(lead, '<') && 2 <= |text| && text[0] == '<' && (text[1] == '!' || text[1] == '?')
    ensures FindTag(lead + text, past) == FindTag(SkipIfComment(text[1..]), past)
  {
    SpanStops(lead, text, Is('<'));
  }

  lemma SameTagFound(v: Verifier, past: char, a: Text, b: Text)
    requires FindTag(a, past) == FindTag(b, past)
    ensures Read(v, past, a) == Read(v, past, b)
  {
    hide FindTag;
    assert ReadHead(v, past, a) == ReadHead(v, past, b);
  }

  /** A comment in front of a tag changes nothing, whatever tags it comments out. */
  lemma CommentInFront(v: Verifier, past: char, lead: Text, c: Text, rest: Text)
    requires Lacks(lead, '<') && IsComment(c)
    ensures Read(v, past, lead + Comment(c, rest)) == Read(v, past, rest)
  {
    var text := Comment(c, rest);
    CommentText(c, rest);
    CommentIsPassed(c, rest, '!');
    hide Comment, SkipIfComment, IsComment;
    MarkPassed(lead, text, past);
    SameTagFound(v, past, lead + text, rest);
  }

  lemma MarkInContent(v: Verifier, past: char, name: Text, attributes: seq<Attribute>, before: Text, text: Text, children: seq<Tag>)
    requires Lacks(before, '<') && 4 <= |text| && text[0] == '<' && (text[1] == '!' || text[1] == '?')
    ensures ReadContent(v, past, name, attributes, before + text, children) ==
            ReadContent(v, past, name, attributes, SkipIfComment(text[1..]), children)
  {
    SpanStops(before, text, Is('<'));
  }

  /** A comment inside a tag's content changes nothing either: the tags in it do not become embedded tags. The value is
      what comes behind the last comment. */
  lemma CommentInContent(v: Verifier, past: char, name: Text, attributes: seq<Attribute>, before: Text, c: Text, rest: Text,
                         children: seq<Tag>)
    requires Lacks(before, '<') && IsComment(c)
    ensures ReadContent(v, past, name, attributes, before + Comment(c, rest), children) ==
            ReadContent(v, past, name, attributes, rest, children)
  {
    var text := Comment(c, rest);
    CommentText(c, rest);
    CommentIsPassed(c, rest, '!');
    hide Comment, SkipIfComment, IsComment;
    MarkInContent(v, past, name, attributes, before, text, children);
  }

  /** A comment that is never closed leaves no tag to read. */
  lemma UnclosedCommentIsNoTag(v: Verifier, past: char, lead: Text, c: Text)
    requires Lacks(lead, '<') && forall j: nat :: !EndsAt("-" + c, j)
    ensures Read(v, past, lead + ("<!--" + c)) == None
  {
    var text := "<!--" + c;
    assert text[1..] == ['!'] + ("--" + c);
    UnclosedComment(c, '!');
    var left := SkipIfComment(text[1..]);
    MarkPassed(lead, text, past);
    SameTagFound(v, past, lead + text, left);
    TooShort(v, past, left);
  }

  /** A tag has at least three characters. */
  lemma TooShort(v: Verifier, past: char, text: Text)
    requires |text| <= 2
    ensures Read(v, past, text) == None
  {
    hide FindTag, ReadAttributes;
    var start := FindTag(text, past);
    if start.Some? {
      var (name, afterName) := Span(start.value, NonName);
      var r := ReadAttributes(v, past, name, SkipWhitespace(afterName), []);
      if name != [] && r.Some? {
        assert |r.value.1| <= |SkipWhitespace(afterName)| <= |afterName| == 0;
      }
    }
  }

  /** A declaration or a processing instruction in front of a tag is passed too. */
  lemma DeclarationInFront(v: Verifier, past: char, lead: Text, mark: char, d: Text, rest: Text)
    requires Lacks(lead, '<') && (mark == '!' || mark == '?')
    requires Lacks(d, '<') && (|d| < 2 || d[..2] != "--") && rest != [] && rest[0] == '<'
    ensures Read(v, past, lead + (['<', mark] + (d + rest))) == Read(v, past, rest)
  {
    var text := ['<', mark] + (d + rest);
    assert FindTag(lead + text, past) == FindTag(rest, past) by {
      assert text[1..] == ([mark] + d) + rest;
      DeclarationIsNoComment(mark, d, rest);
      hide FindTag, SkipIfComment;
      MarkPassed(lead, text, past);
      PrefixSkipped([mark] + d, rest, past);
    }
    hide *;
    SameTagFound(v, past, lead + text, rest);
  }

  lemma DeclarationIsNoComment(mark: char, d: Text, rest: Text)
    requires (|d| < 2 || d[..2] != "--") && rest != [] && rest[0] == '<'
    ensures SkipIfComment(([mark] + d) + rest) == ([mark] + d) + rest
  {
    var text := ([mark] + d) + rest;
    if 2 <= |d| {
      assert text[1..3] == d[..2];
    } else {
      assert text[1 + |d|] == '<';
      assert 2 < |text| ==> text[1..3][|d|] == '<';
    }
    NoComment(text);
  }

  /** Inside a tag's content only its '<' is passed: the rest of it becomes the value of the tag. */
  lemma DeclarationBecomesValue(v: Verifier, past: char, name: Text, attributes: seq<Attribute>, before: Text, mark: char,
                                d: Text, tail: Text, children: seq<Tag>)
    requires IsName(name) && Lacks(before, '<') && (mark == '!' || mark == '?')
    requires Lacks(d, '<') && (|d| < 2 || d[..2] != "--")
    ensures ReadContent(v, past, name, attributes, before + (['<', mark] + (d + EndTag(name, tail))), children) ==
            Some((Tag(name, attributes, if children == [] && v.Value(name) then Some([mark] + d) else None, children), tail))
  {
    var end := EndTag(name, tail);
    var text := ['<', mark] + (d + end);
    assert ReadContent(v, past, name, attributes, before + text, children) ==
           ReadContent(v, past, name, attributes, ([mark] + d) + end, children) by {
      assert text[1..] == ([mark] + d) + end;
      EndTagBegins(name, tail);
      hide EndTag, ReadContent;
      DeclarationIsNoComment(mark, d, end);
      hide SkipIfComment;
      MarkInContent(v, past, name, attributes, before, text, children);
    }
    assert Lacks([mark] + d, '<');
    hide *;
    ContentEnds(v, past, name, attributes, [mark] + d, tail, children);
  }

  // ---------- Start tags in any spacing ----------

  predicate Blank(text: Text) {
    forall i :: 0 <= i < |text| ==> IsWhitespace(text[i])
  }

  /** An attribute and the whitespace behind it. */
  datatype Spaced = Spaced(attribute: Attribute, space: Text)

  ghost function AttributesOf(spaced: seq<Spaced>): (r: seq<Attribute>)
    ensures |r| == |spaced| && forall i :: 0 <= i < |r| ==> r[i] == spaced[i].attribute
  {
    seq(|spaced|, i requires 0 <= i < |spaced| => spaced[i].attribute)
  }

  ghost predicate SpacedOk(spaced: seq<Spaced>) {
    forall i :: 0 <= i < |spaced| ==>
      IsName(spaced[i].attribute.name) && Lacks(spaced[i].attribute.value, '"') && Blank(spaced[i].space)
  }

  function AttributeText(a: Attribute, tail: Text): Text {
    a.name + ("=\"" + (a.value + ("\"" + tail)))
  }

  ghost function SpacedText(spaced: seq<Spaced>, tail: Text): Text {
    if spaced == [] then tail
    else AttributeText(spaced[0].attribute, spaced[0].space + SpacedText(spaced[1..], tail))
  }

  /** An attribute is a name, '=', and a value in double quotes without blanks between them, and nothing else is. */
  lemma AttributeIff(text: Text, a: Attribute, rest: Text)
    ensures ReadAttribute(text) == Some((a, rest)) <==>
            text == AttributeText(a, rest) && IsName(a.name) && Lacks(a.value, '"')
  {
    if IsName(a.name) && Lacks(a.value, '"') && text == AttributeText(a, rest) {
      AttributeReadsBack(a, rest);
    }
    if ReadAttribute(text) == Some((a, rest)) {
      AttributeWasThere(text, a, rest);
    }
  }

  lemma AttributeWasThere(text: Text, a: Attribute, rest: Text)
    requires ReadAttribute(text) == Some((a, rest))
    ensures text == AttributeText(a, rest) && IsName(a.name) && Lacks(a.value, '"')
  {
    var (name, afterName) := Span(text, NonName);
    var open := afterName[1..];
    var inValue := open[1..];
    var (value, afterValue) := Span(inValue, Is('"'));
    assert a == Attribute(name, value) && rest == afterValue[1..];
    assert text == name + afterName && inValue == value + afterValue;
    hide Span;
    assert afterName == "=\"" + inValue && afterValue == "\"" + rest;
  }

  lemma SpaceSkipped(space: Text, next: Text)
    requires Blank(space) && next != [] && !IsWhitespace(next[0])
    ensures SkipWhitespace(space + next) == next
  {
    SpanStops(space, next, NonWhitespace);
  }

  lemma SpacedBegins(spaced: seq<Spaced>, tail: Text)
    requires SpacedOk(spaced) && tail != [] && (tail[0] == '>' || tail[0] == '/')
    ensures var text := SpacedText(spaced, tail);
            text != [] && !IsWhitespace(text[0]) && (if spaced == [] then text == tail else IsNameChar(text[0]))
  {
  }

  lemma SpacedStep(v: Verifier, past: char, tag: Text, spaced: seq<Spaced>, tail: Text, got: seq<Attribute>)
    requires SpacedOk(spaced) && spaced != [] && tail != [] && (tail[0] == '>' || tail[0] == '/')
    ensures ReadAttributes(v, past, tag, SpacedText(spaced, tail), got) ==
            if v.Attr(tag, spaced[0].attribute)
            then ReadAttributes(v, past, tag, SpacedText(spaced[1..], tail), got + [spaced[0].attribute])
            else None
  {
    var next := SpacedText(spaced[1..], tail);
    var text := SpacedText(spaced, tail);
    assert text != [] && IsNameChar(text[0]) by {
      SpacedBegins(spaced, tail);
    }
    assert ReadAttribute(text) == Some((spaced[0].attribute, spaced[0].space + next)) by {
      AttributeReadsBack(spaced[0].attribute, spaced[0].space + next);
    }
    assert SkipWhitespace(spaced[0].space + next) == next by {
      SpacedBegins(spaced[1..], tail);
      SpaceSkipped(spaced[0].space, next);
    }
    hide *;
    AttributesStep(v, past, tag, text, spaced[0].attribute, spaced[0].space + next, next, got);
  }

  lemma NoMoreSpaced(v: Verifier, past: char, tag: Text, tail: Text, got: seq<Attribute>)
    requires tail != [] && (tail[0] == '>' || tail[0] == '/')
    ensures ReadAttributes(v, past, tag, SpacedText([], tail), got) == Some((got, tail))
  {
  }

  lemma {:induction false} SpacedAreRead(v: Verifier, past: char, tag: Text, spaced: seq<Spaced>, tail: Text, got: seq<Attribute>)
    requires SpacedOk(spaced) && tail != [] && (tail[0] == '>' || tail[0] == '/')
    ensures ReadAttributes(v, past, tag, SpacedText(spaced, tail), got) ==
            if AttributesAccepted(v, tag, AttributesOf(spaced)) then Some((got + AttributesOf(spaced), tail)) else None
    decreases |spaced|
  {
    hide SpacedText, ReadAttributes;
    var all := AttributesOf(spaced);
    if spaced == [] {
      NoMoreSpaced(v, past, tag, tail, got);
      assert got + all == got;
    } else {
      SpacedStep(v, past, tag, spaced, tail, got);
      SpacedAreRead(v, past, tag, spaced[1..], tail, got + [spaced[0].attribute]);
      assert AttributesOf(spaced[1..]) == all[1..];
      AttributesChain(v, past, tag, SpacedText(spaced, tail), SpacedText(spaced[1..], tail), all, tail, got);
    }
  }

  /** The '>' or "/>" of a start tag. */
  function Close(selfClosing: bool, rest: Text): Text {
    if selfClosing then "/" + (">" + rest) else ">" + rest
  }

  lemma CloseIsRead(name: Text, past: char, attributes: seq<Attribute>, selfClosing: bool, rest: Text)
    ensures HeadEnd(name, past, Some((attributes, Close(selfClosing, rest)))) == Head(name, attributes, selfClosing, rest)
  {
    ExpectFirst('>', rest);
    ExpectFirst('/', ">" + rest);
  }

  lemma CloseBegins(selfClosing: bool, rest: Text)
    ensures var text := Close(selfClosing, rest);
            text != [] && (text[0] == '>' || text[0] == '/')
  {
  }

  /** The name of a start tag, and whitespace behind it. */
  lemma NameThenSpace(v: Verifier, past: char, name: Text, space: Text, text: Text)
    requires IsName(name) && Blank(space) && text != [] && !IsWhitespace(text[0])
    requires space == [] ==> !IsNameChar(text[0])
    ensures ReadHead(v, past, "<" + (name + (space + text))) == HeadEnd(name, past, ReadAttributes(v, past, name, text, []))
  {
    hide ReadAttributes, HeadEnd, FindTag, SkipWhitespace, Span;
    var afterName := space + text;
    assert afterName != [] && !IsNameChar(afterName[0]);
    SpaceSkipped(space, text);
    NameStops(name, afterName);
    NameFound(name, afterName, past);
  }

  /** A start tag in any spacing: the name, whitespace (there must be some unless no attribute follows), the attributes
      with any whitespace or none behind each, and '>' or "/>". The attributes come in order, and the tag is refused
      exactly if the verifier refuses one of them. */
  lemma StartTagIsRead(v: Verifier, past: char, name: Text, space: Text, spaced: seq<Spaced>, selfClosing: bool, rest: Text)
    requires IsName(name) && Blank(space) && SpacedOk(spaced) && (spaced != [] ==> space != [])
    ensures ReadHead(v, past, "<" + (name + (space + SpacedText(spaced, Close(selfClosing, rest))))) ==
            if AttributesAccepted(v, name, AttributesOf(spaced))
            then Head(name, AttributesOf(spaced), selfClosing, rest) else BadHead
  {
    hide SpacedText, ReadAttributes, HeadEnd, ReadHead, Close, AttributesAccepted;
    var end := Close(selfClosing, rest);
    CloseBegins(selfClosing, rest);
    CloseIsRead(name, past, AttributesOf(spaced), selfClosing, rest);
    var text := SpacedText(spaced, end);
    SpacedBegins(spaced, end);
    SpacedAreRead(v, past, name, spaced, end, []);
    assert [] + AttributesOf(spaced) == AttributesOf(spaced);
    NameThenSpace(v, past, name, space, text);
    NoneOrSome(v, name, past, ReadAttributes(v, past, name, text, []));
  }

  lemma NoneOrSome(v: Verifier, name: Text, past: char, r: Option<(seq<Attribute>, Text)>)
    ensures r.None? ==> HeadEnd(name, past, r) == BadHead
  {
  }

  /** A self-closing tag has its attributes, no value and no embedded tags. */
  lemma SelfClosingIsRead(v: Verifier, past: char, name: Text, space: Text, spaced: seq<Spaced>, rest: Text)
    requires IsName(name) && Blank(space) && SpacedOk(spaced) && (spaced != [] ==> space != [])
    ensures Read(v, past, "<" + (name + (space + SpacedText(spaced, Close(true, rest))))) ==
            if AttributesAccepted(v, name, AttributesOf(spaced))
            then Some((Tag(name, AttributesOf(spaced), None, []), rest)) else None
  {
    StartTagIsRead(v, past, name, space, spaced, true, rest);
  }

  // ---------- End tags ----------

  /** Behind "</", the name decides, up to its first character that is not for names; what else stands before the '>'
      does not matter. */
  lemma EndTagIff(name: Text, endName: Text, more: Text, tail: Text)
    requires Lacks(more, '>') && (more != [] ==> !IsNameChar(more[0]))
    requires forall i :: 0 <= i < |endName| ==> IsNameChar(endName[i])
    ensures ReadEnd(name, endName + (more + (">" + tail))) == if endName == name then Some(tail) else None
  {
    var close := ">" + tail;
    var afterName := more + close;
    SpanStops(endName, afterName, NonName);
    SpanStops(more, close, Is('>'));
    assert close[1..] == tail;
  }

  /** Content is ended by an end tag with the name of the start tag, and a tag with another one there is refused. */
  lemma ContentEndsIff(v: Verifier, past: char, name: Text, attributes: seq<Attribute>, value: Text, endName: Text, more: Text,
                       tail: Text, children: seq<Tag>)
    requires Lacks(value, '<') && Lacks(more, '>') && (more != [] ==> !IsNameChar(more[0])) && IsName(endName)
    ensures ReadContent(v, past, name, attributes, value + ("</" + (endName + (more + (">" + tail)))), children) ==
            if endName != name then None
            else Some((Tag(name, attributes, if children == [] && v.Value(name) then Some(value) else None, children), tail))
  {
    var behind := endName + (more + (">" + tail));
    var end := "</" + behind;
    assert end[2..] == behind && 4 <= |end|;
    SpanStops(value, end, Is('<'));
    EndTagIff(name, endName, more, tail);
  }

  /** Content in which no other '<' comes is refused. */
  lemma ContentMustEnd(v: Verifier, past: char, name: Text, attributes: seq<Attribute>, text: Text, children: seq<Tag>)
    requires Lacks(text, '<')
    ensures ReadContent(v, past, name, attributes, text, children) == None
  {
    SpanStops(text, "", Is('<'));
    assert text + "" == text;
  }

  // ---------- What the verifier is asked ----------

  /** The names and values of all attributes, and nothing without a verifier. */
  lemma {:induction false} AttributesAcceptedIff(v: Verifier, tag: Text, attributes: seq<Attribute>)
    ensures AttributesAccepted(v, tag, attributes) <==>
            v.NoVerifier? || forall a :: a in attributes ==>
              v.validAttributeName(tag, a.name) && v.validAttributeValue(tag, a.name, a.value)
    decreases |attributes|
  {
    if attributes != [] {
      AttributesAcceptedIff(v, tag, attributes[1..]);
      assert attributes == [attributes[0]] + attributes[1..];
    }
  }

  /** All embedded tags, each accepted itself and as a subtag. */
  lemma {:induction false} EmbeddedAcceptedIff(v: Verifier, parent: Text, tags: seq<Tag>)
    ensures AllAccepted(v, parent, tags) <==>
            forall i :: 0 <= i < |tags| ==> Accepted(v, tags[i]) && (v.NoVerifier? || v.validSubtag(parent, tags[i].name))
    decreases |tags|
  {
    if tags != [] {
      var rest := tags[1..];
      EmbeddedAcceptedIff(v, parent, rest);
      assert forall i :: 1 <= i < |tags| ==> tags[i] == rest[i - 1];
      assert forall i :: 0 <= i < |rest| ==> rest[i] == tags[i + 1];
    }
  }

  // ---------- What is printed ----------

  /** A leaf is one line, indented by tabs. */
  lemma LeafIsPrinted(name: Text, a: Attribute, value: Text, indent: nat, tail: Text)
    requires IsName(name) && AttributesOk([a]) && Lacks(value, '\0')
    ensures Print(Tag(name, [a], Some(value), []), indent, tail) ==
            seq(indent, _ => '\t') + ("<" + (name + (" " + (AttributeText(a, " >" + (value + EndTag(name, "\n" + tail)))))))
  {
    CStringOf(name);
    CStringOf(value);
    assert [a][0] == a;
    CStringOf(a.name);
    CStringOf(a.value);
    var body := value + EndTag(name, "\n" + tail);
    assert PrintAttributes([a][1..], ">" + body) == ">" + body;
    assert "\" " + (">" + body) == "\"" + (" >" + body);
  }
}
