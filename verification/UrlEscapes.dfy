/** What percent-decoding and the escapes of URL encoding mean, by the hexadecimal digits. */
module UrlEscapes {
  import opened Common
  import opened UrlCodec

  const LOWER: Text := "0123456789abcdef"
  const UPPER: Text := "0123456789ABCDEF"

  /** The digits are those of both cases, each with its value. */
  lemma HexDigitIff(c: char, k: nat)
    requires k < 16
    ensures IsHex(c) && HexValue(c) == k <==> c == LOWER[k] || c == UPPER[k]
  {
  }

  // ---------- Percent-decoding ----------

  /** A percent sign and two digits of either case. */
  ghost predicate IsEscapeOf(w: Text, hi: nat, lo: nat)
    requires hi < 16 && lo < 16
  {
    && |w| == 3 && w[0] == '%'
    && (w[1] == LOWER[hi] || w[1] == UPPER[hi])
    && (w[2] == LOWER[lo] || w[2] == UPPER[lo])
  }

  /** A piece of a URL stands for a character: an escape of its number, or the character itself, unless that is a percent
      sign or NUL. */
  ghost predicate StandsFor(w: Text, c: char) {
    || (w == [c] && c != '%' && c != '\0')
    || (c as int < 256 && IsEscapeOf(w, c as int / 16, c as int % 16))
  }

  ghost function Joined(pieces: seq<Text>): Text {
    if pieces == [] then [] else pieces[0] + Joined(pieces[1..])
  }

  /** The pieces of a URL stand for the characters of a text, one for one. */
  ghost predicate Spells(pieces: seq<Text>, t: Text) {
    |pieces| == |t| && forall i :: 0 <= i < |t| ==> StandsFor(pieces[i], t[i])
  }

  lemma EscapeOfByte(w: Text, c: char)
    requires c as int < 256 && IsEscapeOf(w, c as int / 16, c as int % 16)
    ensures IsHex(w[1]) && IsHex(w[2]) && HexValue(w[1]) * 16 + HexValue(w[2]) == c as int
  {
    HexDigitIff(w[1], c as int / 16);
    HexDigitIff(w[2], c as int % 16);
  }

  lemma ByteOfEscape(w: Text)
    requires |w| == 3 && w[0] == '%' && IsHex(w[1]) && IsHex(w[2])
    ensures StandsFor(w, (HexValue(w[1]) * 16 + HexValue(w[2])) as char)
  {
    var hi, lo := HexValue(w[1]), HexValue(w[2]);
    UniqueRemainder(hi * 16 + lo, hi, lo, 16);
    HexDigitIff(w[1], hi);
    HexDigitIff(w[2], lo);
  }

  lemma TokenOfPiece(w: Text, c: char, rest: Text)
    requires StandsFor(w, c)
    ensures Token(w + rest) == Some((c, |w|)) && (w + rest)[|w|..] == rest
  {
    if !(w == [c] && c != '%' && c != '\0') {
      EscapeOfByte(w, c);
    }
  }

  /** The decoder's first character stands at the front of the text. */
  lemma PieceOfToken(s: Text)
    requires s != [] && Token(s).Some?
    ensures StandsFor(s[..Token(s).value.1], Token(s).value.0)
  {
    if s[0] == '%' {
      ByteOfEscape(s[..3]);
    } else {
      assert s[..1] == [s[0]];
    }
  }

  /** Every way to spell a text, with plain characters and escapes in digits of either case, decodes to it. */
  lemma {:induction false} SpellingDecodes(pieces: seq<Text>, t: Text)
    requires Spells(pieces, t)
    ensures Percent(Joined(pieces)) == Some(t)
    decreases |pieces|
  {
    if pieces != [] {
      assert StandsFor(pieces[0], t[0]);
      TokenOfPiece(pieces[0], t[0], Joined(pieces[1..]));
      SpellingDecodes(pieces[1..], t[1..]);
      assert t == [t[0]] + t[1..];
    }
  }

  /** And a text that decodes is spelt from such pieces: all others are malformed. */
  lemma {:induction false} DecodedIsSpelt(s: Text) returns (pieces: seq<Text>)
    requires Percent(s).Some?
    ensures Joined(pieces) == s && Spells(pieces, Percent(s).value)
    decreases |s|
  {
    hide Token, StandsFor;
    if s == [] {
      pieces := [];
    } else {
      PieceOfToken(s);
      var n := Token(s).value.1;
      var more := DecodedIsSpelt(s[n..]);
      pieces := [s[..n]] + more;
      assert s == s[..n] + s[n..];
      PrependPiece(s[..n], more, Token(s).value.0, Percent(s[n..]).value);
    }
  }

  lemma PrependPiece(w: Text, pieces: seq<Text>, c: char, t: Text)
    requires StandsFor(w, c) && Spells(pieces, t)
    ensures Joined([w] + pieces) == w + Joined(pieces) && Spells([w] + pieces, [c] + t)
  {
    hide StandsFor;
    assert ([w] + pieces)[1..] == pieces;
  }

  /** Percent-decoding succeeds exactly on the texts that are spelt from plain characters and escapes, and gives what they
      spell. */
  lemma PercentIff(s: Text, t: Text)
    ensures Percent(s) == Some(t) <==> exists pieces :: Joined(pieces) == s && Spells(pieces, t)
  {
    if Percent(s) == Some(t) {
      var pieces := DecodedIsSpelt(s);
    }
    forall pieces | Joined(pieces) == s && Spells(pieces, t) ensures Percent(s) == Some(t) {
      SpellingDecodes(pieces, t);
    }
  }

  // ---------- Encoding ----------

  /** The characters written as they are: letters, digits, some punctuation, and the control characters but tab and the
      ends of lines. All others are escaped. */
  lemma WrittenAsIs(c: char)
    requires c as int < 256
    ensures EncodeChar(c) == [c] <==>
            || 'a' <= c <= 'z' || 'A' <= c <= 'Z' || '0' <= c <= '9'
            || c in {'!', '\'', '(', ')', '*', '+', ',', '-', '.', '/', ':', '_'}
            || c as int in {0, 1, 2, 3, 4, 5, 6, 7, 8, 11, 12, 14, 15, 16, 17, 18, 19, 20, 21, 22, 23, 24, 25, 26, 27, 28, 29, 30, 31, 127}
    ensures EncodeChar(c) == [c] || EncodeChar(c) == Escape(c)
  {
  }

  /** An escape is a percent sign and the character's number in upper-case hexadecimal; a number below sixteen has one
      digit, and the NUL that ends the printed text stands behind it. */
  lemma EscapeIs(c: char)
    requires c as int < 256
    ensures Escape(c) ==
            if c as int < 16 then ['%', UPPER[c as int], '\0'] else ['%', UPPER[c as int / 16], UPPER[c as int % 16]]
  {
    DigitIs(c as int / 16);
    DigitIs(c as int % 16);
  }

  lemma DigitIs(n: nat)
    requires n < 16
    ensures HexDigit(n) == UPPER[n]
  {
  }
}
