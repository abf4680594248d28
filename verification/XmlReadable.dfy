/** Whatever ParseTag accepts can be printed and read again. */
module XmlReadable {
  import opened Common
  import opened TextParser
  import opened XmlText
  import opened XmlRoundTrip

  // ---------- Everything read comes from the text ----------

  predicate NoNul(text: Text) {
    Lacks(text, '\0')
  }

  lemma SpanNoNul(text: Text, stop: Stop)
    requires NoNul(text)
    ensures NoNul(Span(text, stop).0) && NoNul(Span(text, stop).1)
  {
    var (a, b) := Span(text, stop);
    assert forall i :: 0 <= i < |a| ==> a[i] == text[i];
    assert forall i :: 0 <= i < |b| ==> b[i] == text[|a| + i];
  }

  lemma {:induction false} CommentNoNul(text: Text)
    requires NoNul(text)
    ensures NoNul(SkipToCommentEnd(text))
    decreases |text|
  {
    if |text| > 2 && !AtCommentEnd(text) {
      var next := if text[0] == '-' then text[1..] else text;
      SpanNoNul(next, Is('-'));
      CommentNoNul(Span(next, Is('-')).1);
    }
  }

  lemma SkipNoNul(text: Text)
    requires NoNul(text)
    ensures NoNul(SkipIfComment(text))
  {
    if 2 < |text| {
      CommentNoNul(text[2..]);
    }
  }

  lemma {:induction false} FindNoNul(text: Text, past: char)
    requires NoNul(text) && FindTag(text, past).Some?
    ensures NoNul(FindTag(text, past).value)
    decreases |text|
  {
    SpanNoNul(text, Is('<'));
    var next := Span(text, Is('<')).1[1..];
    if Peek(next, past) == '!' || Peek(next, past) == '?' {
      SkipNoNul(next);
      FindNoNul(SkipIfComment(next), past);
    }
  }

  lemma AttributeOk(text: Text)
    requires NoNul(text) && ReadAttribute(text).Some?
    ensures var (a, rest) := ReadAttribute(text).value;
            IsName(a.name) && Lacks(a.value, '"') && NoNul(a.value) && NoNul(rest)
  {
    var (name, afterName) := Span(text, NonName);
    SpanNoNul(text, NonName);
    SpanNoNul(After(After(afterName, '=').rest, '"').rest, Is('"'));
  }

  lemma {:induction false} AcceptedAppend(v: Verifier, tag: Text, got: seq<Attribute>, a: Attribute)
    ensures AttributesAccepted(v, tag, got + [a]) <==> AttributesAccepted(v, tag, got) && v.Attr(tag, a)
  {
    if got == [] {
      assert (got + [a])[1..] == [];
    } else {
      assert (got + [a])[1..] == got[1..] + [a];
      AcceptedAppend(v, tag, got[1..], a);
    }
  }

  lemma AttributesContinue(v: Verifier, past: char, tag: Text, text: Text, got: seq<Attribute>)
    requires ReadAttributes(v, past, tag, text, got).Some? && Peek(text, past) != '>' && Peek(text, past) != '/'
    ensures ReadAttribute(text).Some? && v.Attr(tag, ReadAttribute(text).value.0)
    ensures ReadAttributes(v, past, tag, text, got) ==
            ReadAttributes(v, past, tag, SkipWhitespace(ReadAttribute(text).value.1), got + [ReadAttribute(text).value.0])
  {
  }

  lemma {:induction false} AttributesReadOk(v: Verifier, past: char, tag: Text, text: Text, got: seq<Attribute>)
    requires NoNul(text) && AttributesOk(got) && AttributesAccepted(v, tag, got)
    requires ReadAttributes(v, past, tag, text, got).Some?
    ensures var (attributes, rest) := ReadAttributes(v, past, tag, text, got).value;
            AttributesOk(attributes) && AttributesAccepted(v, tag, attributes) && NoNul(rest)
    decreases |text|
  {
    if Peek(text, past) != '>' && Peek(text, past) != '/' {
      AttributesContinue(v, past, tag, text, got);
      var (a, rest) := ReadAttribute(text).value;
      assert AttributesOk(got + [a]) && NoNul(rest) by {
        AttributeOk(text);
      }
      assert AttributesAccepted(v, tag, got + [a]) by {
        AcceptedAppend(v, tag, got, a);
      }
      SpanNoNul(rest, NonWhitespace);
      AttributesReadOk(v, past, tag, SkipWhitespace(rest), got + [a]);
    }
  }

  lemma HeadOk(v: Verifier, past: char, text: Text)
    requires NoNul(text) && ReadHead(v, past, text).Head?
    ensures var head := ReadHead(v, past, text);
            && IsName(head.name) && AttributesOk(head.attributes) && AttributesAccepted(v, head.name, head.attributes)
            && NoNul(head.rest)
  {
    var start := FindTag(text, past).value;
    var (name, afterName) := Span(start, NonName);
    var inHead := SkipWhitespace(afterName);
    assert NoNul(inHead) && IsName(name) by {
      FindNoNul(text, past);
      SpanNoNul(start, NonName);
      SpanNoNul(afterName, NonWhitespace);
    }
    AttributesReadOk(v, past, name, inHead, []);
    HeadParts(v, past, text, name, inHead);
  }

  lemma HeadParts(v: Verifier, past: char, text: Text, name: Text, inHead: Text)
    requires ReadHead(v, past, text).Head? && FindTag(text, past).Some?
    requires Span(FindTag(text, past).value, NonName).0 == name
    requires SkipWhitespace(Span(FindTag(text, past).value, NonName).1) == inHead
    requires ReadAttributes(v, past, name, inHead, []).Some? && NoNul(ReadAttributes(v, past, name, inHead, []).value.1)
    ensures var head := ReadHead(v, past, text);
            head.name == name && head.attributes == ReadAttributes(v, past, name, inHead, []).value.0 && NoNul(head.rest)
  {
  }

  lemma EndNoNul(name: Text, text: Text)
    requires NoNul(text) && ReadEnd(name, text).Some?
    ensures NoNul(ReadEnd(name, text).value)
  {
    SpanNoNul(text, NonName);
    SpanNoNul(Span(text, NonName).1, Is('>'));
  }

  // ---------- Everything read is printable ----------

  lemma {:induction false} PrintableAppend(got: seq<Tag>, tag: Tag)
    ensures AllPrintable(got + [tag]) <==> AllPrintable(got) && Printable(tag)
  {
    if got == [] {
      assert (got + [tag])[1..] == [];
    } else {
      assert (got + [tag])[1..] == got[1..] + [tag];
      PrintableAppend(got[1..], tag);
    }
  }

  lemma {:induction false} AllAcceptedAppend(v: Verifier, parent: Text, got: seq<Tag>, tag: Tag)
    ensures AllAccepted(v, parent, got + [tag]) <==> AllAccepted(v, parent, got) && Accepted(v, tag) && v.Subtag(parent, tag.name)
  {
    if got == [] {
      assert (got + [tag])[1..] == [];
    } else {
      assert (got + [tag])[1..] == got[1..] + [tag];
      AllAcceptedAppend(v, parent, got[1..], tag);
    }
  }

  /** A tree that came out of a NUL-free text: printable, accepted, and so is the rest of the text. */
  ghost predicate Good(v: Verifier, r: Option<(Tag, Text)>) {
    r.Some? ==> Printable(r.value.0) && Accepted(v, r.value.0) && NoNul(r.value.1)
  }

  lemma ClosedIsGood(v: Verifier, past: char, text: Text)
    requires NoNul(text)
    requires var head := ReadHead(v, past, text);
             head.Head? && !head.selfClosing ==> Good(v, ReadContent(v, past, head.name, head.attributes, head.rest, []))
    ensures Good(v, Read(v, past, text))
  {
    if ReadHead(v, past, text).Head? {
      HeadOk(v, past, text);
    }
  }

  lemma {:induction false} ReadIsGood(v: Verifier, past: char, text: Text)
    requires NoNul(text)
    ensures Good(v, Read(v, past, text))
    decreases |text|, 0
  {
    var head := ReadHead(v, past, text);
    if head.Head? && !head.selfClosing {
      HeadOk(v, past, text);
      ContentIsGood(v, past, head.name, head.attributes, head.rest, []);
    }
    ClosedIsGood(v, past, text);
  }

  lemma EndIsGood(v: Verifier, past: char, name: Text, attributes: seq<Attribute>, text: Text, got: seq<Tag>)
    requires NoNul(text) && IsName(name) && AttributesOk(attributes) && AttributesAccepted(v, name, attributes)
    requires AllPrintable(got) && AllAccepted(v, name, got)
    requires var rest := Span(text, Is('<')).1;
             4 <= |rest| && rest[1] == '/'
    ensures Good(v, ReadContent(v, past, name, attributes, text, got))
  {
    var rest := Span(text, Is('<')).1;
    SpanNoNul(text, Is('<'));
    if ReadEnd(name, rest[2..]).Some? {
      EndNoNul(name, rest[2..]);
    }
  }

  lemma {:induction false} ContentIsGood(v: Verifier, past: char, name: Text, attributes: seq<Attribute>, text: Text, got: seq<Tag>)
    requires NoNul(text) && IsName(name) && AttributesOk(attributes) && AttributesAccepted(v, name, attributes)
    requires AllPrintable(got) && AllAccepted(v, name, got)
    ensures Good(v, ReadContent(v, past, name, attributes, text, got))
    decreases |text|, 1
  {
    var rest := Span(text, Is('<')).1;
    assert NoNul(rest) by {
      SpanNoNul(text, Is('<'));
    }
    if 4 <= |rest| && rest[1] == '/' {
      EndIsGood(v, past, name, attributes, text, got);
    } else if 4 <= |rest| && rest[1] != '!' && rest[1] != '?' {
      ReadIsGood(v, past, rest);
      var child := Read(v, past, rest);
      if child.Some? && v.Subtag(name, child.value.0.name) {
        assert AllPrintable(got + [child.value.0]) by {
          PrintableAppend(got, child.value.0);
        }
        assert AllAccepted(v, name, got + [child.value.0]) by {
          AllAcceptedAppend(v, name, got, child.value.0);
        }
        ContentIsGood(v, past, name, attributes, child.value.1, got + [child.value.0]);
        assert ReadContent(v, past, name, attributes, text, got) ==
               ReadContent(v, past, name, attributes, child.value.1, got + [child.value.0]);
      }
    } else if 4 <= |rest| {
      SkipNoNul(rest[1..]);
      ContentIsGood(v, past, name, attributes, SkipIfComment(rest[1..]), got);
      assert ReadContent(v, past, name, attributes, text, got) ==
             ReadContent(v, past, name, attributes, SkipIfComment(rest[1..]), got);
    }
  }

  // ---------- Reading, printing and reading again ----------

  lemma {:induction false} NormalIsPrintable(v: Verifier, tag: Tag)
    requires Printable(tag)
    ensures Printable(Normal(v, tag)) && (Accepted(v, tag) ==> Accepted(v, Normal(v, tag)))
    ensures Normal(v, Normal(v, tag)) == Normal(v, tag)
    decreases tag, 1
  {
    AllNormalIsPrintable(v, tag.name, tag.children);
  }

  lemma {:induction false} AllNormalIsPrintable(v: Verifier, parent: Text, tags: seq<Tag>)
    requires AllPrintable(tags)
    ensures AllPrintable(NormalAll(v, tags))
    ensures AllAccepted(v, parent, tags) ==> AllAccepted(v, parent, NormalAll(v, tags))
    ensures NormalAll(v, NormalAll(v, tags)) == NormalAll(v, tags)
    decreases tags
  {
    if tags != [] {
      NormalIsPrintable(v, tags[0]);
      AllNormalIsPrintable(v, parent, tags[1..]);
      assert NormalAll(v, tags)[1..] == NormalAll(v, tags[1..]);
    }
  }

  /** For every NUL-free text that ParseTag accepts: printing the tree and parsing the output succeeds and gives the same
      tree, with a missing leaf value turned into an empty one; and after that, printing and parsing change nothing. */
  lemma ReadPrintRead(v: Verifier, past: char, text: Text, indent: nat, tail: Text)
    requires NoNul(text) && Read(v, past, text).Some?
    ensures var tag := Read(v, past, text).value.0;
            && Read(v, past, Print(tag, indent, tail)) == Some((Normal(v, tag), "\n" + tail))
            && Read(v, past, Print(Normal(v, tag), indent, tail)) == Some((Normal(v, tag), "\n" + tail))
  {
    ReadIsGood(v, past, text);
    var tag := Read(v, past, text).value.0;
    ReadUndoesPrint(v, past, tag, indent, tail);
    NormalIsPrintable(v, tag);
    ReadUndoesPrint(v, past, Normal(v, tag), indent, tail);
  }
}
