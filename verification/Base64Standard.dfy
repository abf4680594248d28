/** What the encoding of section 4 of RFC 4648 says, group by group, about the text and the bytes of Base64. */
module Base64Standard {
  import opened Common
  import opened Base64

  const UPPER: Text := "ABCDEFGHIJKLMNOPQRSTUVWXYZ"
  const LOWER: Text := "abcdefghijklmnopqrstuvwxyz"
  const DIGITS: Text := "0123456789"
  const ALPHABET: Text := UPPER + LOWER + DIGITS + "+/"

  /** The tables are those of table 1 of the RFC, and each is the inverse of the other. */
  lemma AlphabetIff(c: char, v: nat)
    requires v < 64
    ensures Pr2Six(c) == v <==> c == ALPHABET[v]
    ensures Basis64(v) == c <==> c == ALPHABET[v]
  {
    AlphabetAt(v);
    BasisInverse(v);
    if InBasis(c) {
      InverseBasis(c);
    }
    hide *;
  }

  lemma AlphabetAt(v: nat)
    requires v < 64
    ensures Basis64(v) == ALPHABET[v]
  {
    var upper, lower, digits := "ABCDEFGHIJKLMNOPQRSTUVWXYZ", "abcdefghijklmnopqrstuvwxyz", "0123456789";
    assert v < 26 ==> upper[v] == ('A' as int + v) as char;
    assert 26 <= v < 52 ==> lower[v - 26] == ('a' as int + (v - 26)) as char;
    assert 52 <= v < 62 ==> digits[v - 52] == ('0' as int + (v - 52)) as char;
    assert UPPER == upper && LOWER == lower && DIGITS == digits;
  }

  lemma InverseBasis(c: char)
    requires InBasis(c)
    ensures Basis64(Pr2Six(c)) == c
  {
  }

  /** The characters that belong to no value stop the decoder. */
  lemma OutsideAlphabet(c: char)
    ensures InBasis(c) <==> c in ALPHABET
  {
    if InBasis(c) {
      AlphabetIff(c, Pr2Six(c));
    }
    if c in ALPHABET {
      var v: nat :| v < |ALPHABET| && ALPHABET[v] == c;
      AlphabetIff(c, v);
    }
  }

  /** The 24-bit number of three bytes. */
  function Bits(a: nat, b: nat, c: nat): nat {
    (a * 256 + b) * 256 + c
  }

  /** The 24-bit number of four 6-bit values. */
  function Sixes(v0: nat, v1: nat, v2: nat, v3: nat): nat {
    ((v0 * 64 + v1) * 64 + v2) * 64 + v3
  }

  /** The value of a character in a group that encodes n bytes; padding counts as zero. */
  function ValueAt(e: Text, i: nat): nat
    requires i < |e|
  {
    if e[i] == '=' then 0 else Pr2Six(e[i])
  }

  function ByteAt(x: seq<Byte>, i: nat): Byte {
    if i < |x| then x[i] else 0
  }

  lemma FieldsAreBits(a: Byte, b: Byte, c: Byte)
    ensures Sixes(Six0(a), Six1(a, b), Six2(b, c), Six3(c)) == Bits(a, b, c)
  {
    assert a == a / 4 * 4 + a % 4;
    assert b == b / 16 * 16 + b % 16;
    assert c == c / 64 * 64 + c % 64;
  }

  /** A group of the encoding: four characters that, with zero for padding, have the 24 bits of the three bytes, with
      zero for missing ones. Padding stands exactly for the missing bytes. */
  ghost predicate GroupEncodes(e: Text, i: nat, x: seq<Byte>, j: nat)
    requires j < |x|
  {
    && i + 4 <= |e|
    && Sixes(ValueAt(e, i), ValueAt(e, i + 1), ValueAt(e, i + 2), ValueAt(e, i + 3))
       == Bits(x[j], ByteAt(x, j + 1), ByteAt(x, j + 2))
    && InBasis(e[i]) && InBasis(e[i + 1])
    && (if j + 1 < |x| then InBasis(e[i + 2]) else e[i + 2] == '=')
    && (if j + 2 < |x| then InBasis(e[i + 3]) else e[i + 3] == '=')
  }

  lemma CharacterOf(v: nat)
    requires v < 64
    ensures Basis64(v) != '=' && InBasis(Basis64(v)) && Pr2Six(Basis64(v)) == v
  {
  }

  lemma NoBits()
    ensures Six2(0, 0) == 0 && Six3(0) == 0
  {
  }

  lemma FirstGroup(x: seq<Byte>)
    requires x != []
    ensures GroupEncodes(Encoded(x), 0, x, 0)
  {
    hide Six0, Six1, Six2, Six3, Basis64, Pr2Six, InBasis, Encoded, Sixes, Bits;
    var a, b, c := x[0], ByteAt(x, 1), ByteAt(x, 2);
    EncodedCharacters(x, b, c);
    CharacterOf(Six0(a));
    CharacterOf(Six1(a, b));
    CharacterOf(Six2(b, c));
    CharacterOf(Six3(c));
    FieldsAreBits(a, b, c);
    NoBits();
  }

  /** Every group of the encoding has the bits of its three bytes. */
  lemma {:induction false} EncodedGroups(x: seq<Byte>, k: nat)
    requires 3 * k < |x|
    ensures GroupEncodes(Encoded(x), 4 * k, x, 3 * k)
    decreases k
  {
    if k == 0 {
      FirstGroup(x);
    } else {
      EncodedGroups(x[3..], k - 1);
      GroupBehind(Encoded(x), Encoded(x[3..]), x, k);
    }
  }

  lemma GroupBehind(e: Text, f: Text, x: seq<Byte>, k: nat)
    requires 1 <= k && 3 * k < |x| && 4 <= |e| && e[4..] == f
    requires GroupEncodes(f, 4 * (k - 1), x[3..], 3 * (k - 1))
    ensures GroupEncodes(e, 4 * k, x, 3 * k)
  {
    var i := 4 * (k - 1);
    assert f[i] == e[i + 4] && f[i + 1] == e[i + 5] && f[i + 2] == e[i + 6] && f[i + 3] == e[i + 7];
  }

  // ---------- Decoding any text ----------

  /** The decoder's bytes of a group that goes on for n characters of the alphabet: the bits of the values, less those
      that do not fill a byte. */
  ghost predicate GroupDecodes(d: seq<Byte>, j: nat, s: Text, i: nat, n: nat)
    requires 2 <= n && i + n <= |s|
  {
    var v0, v1 := Pr2Six(s[i]), Pr2Six(s[i + 1]);
    if n == 2 then j + 1 <= |d| && d[j] == (v0 * 64 + v1) / 16
    else
      var v2 := Pr2Six(s[i + 2]);
      if n == 3 then j + 2 <= |d| && d[j] as int * 256 + d[j + 1] as int == ((v0 * 64 + v1) * 64 + v2) / 4
      else j + 3 <= |d| && Bits(d[j], d[j + 1], d[j + 2]) == Sixes(v0, v1, v2, Pr2Six(s[i + 3]))
  }

  lemma BytesAre(v: nat, w: nat)
    requires v < 64 && w < 64
    ensures Byte0(v, w) == v * 4 + w / 16
    ensures Byte1(v, w) == v % 16 * 16 + w / 4
    ensures Byte2(v, w) == v % 4 * 64 + w
  {
  }

  lemma OneByte(v: nat, w: nat)
    requires v < 64 && w < 64
    ensures Byte0(v, w) == (v * 64 + w) / 16
  {
    BytesAre(v, w);
    UniqueRemainder(v * 64 + w, v * 4 + w / 16, w % 16, 16);
  }

  lemma TwoBytes(v: nat, w: nat, u: nat)
    requires v < 64 && w < 64 && u < 64
    ensures Byte0(v, w) as int * 256 + Byte1(w, u) as int == ((v * 64 + w) * 64 + u) / 4
  {
    BytesAre(v, w);
    BytesAre(w, u);
    hide *;
    var wh, wl, uh, ul := w / 16, w % 16, u / 4, u % 4;
    UniqueRemainder((v * 64 + w) * 64 + u, (v * 4 + wh) * 256 + (wl * 16 + uh), ul, 4);
  }

  lemma AllBytes(v0: nat, v1: nat, v2: nat, v3: nat)
    requires v0 < 64 && v1 < 64 && v2 < 64 && v3 < 64
    ensures Bits(Byte0(v0, v1), Byte1(v1, v2), Byte2(v2, v3)) == Sixes(v0, v1, v2, v3)
  {
    BytesAre(v0, v1);
    BytesAre(v1, v2);
    BytesAre(v2, v3);
    hide Byte0, Byte1, Byte2;
    var h1, l1, h2, l2 := v1 / 16, v1 % 16, v2 / 4, v2 % 4;
    assert v1 == h1 * 16 + l1 && v2 == h2 * 4 + l2;
  }

  lemma FirstDecodes(s: Text)
    requires 2 <= Leading(s)
    ensures GroupDecodes(Decoded(s), 0, s, 0, if Leading(s) < 4 then Leading(s) else 4)
  {
    var m := Leading(s);
    OneByte(Pr2Six(s[0]), Pr2Six(s[1]));
    if 3 <= m {
      TwoBytes(Pr2Six(s[0]), Pr2Six(s[1]), Pr2Six(s[2]));
    }
    if 4 <= m {
      AllBytes(Pr2Six(s[0]), Pr2Six(s[1]), Pr2Six(s[2]), Pr2Six(s[3]));
    }
  }

  /** Every group of any text, up to the first character outside the alphabet, is decoded to the bits of its values; a
      single last character is dropped (DecodedLength). */
  lemma {:induction false} DecodedGroups(s: Text, k: nat)
    requires 4 * k + 2 <= Leading(s)
    ensures GroupDecodes(Decoded(s), 3 * k, s, 4 * k, if Leading(s) - 4 * k < 4 then Leading(s) - 4 * k else 4)
    decreases k
  {
    if k == 0 {
      FirstDecodes(s);
    } else {
      LeadingBehind(s);
      DecodedGroups(s[4..], k - 1);
      assert Decoded(s) == ThreeBytes(s, 0) + Decoded(s[4..]);
      DecodesBehind(Decoded(s), Decoded(s[4..]), s, k, if Leading(s) - 4 * k < 4 then Leading(s) - 4 * k else 4);
    }
  }

  lemma DecodesBehind(d: seq<Byte>, e: seq<Byte>, s: Text, k: nat, n: nat)
    requires 1 <= k && 2 <= n <= 4 && 4 * k + n <= |s| && 3 <= |d| && d[3..] == e
    requires GroupDecodes(e, 3 * (k - 1), s[4..], 4 * (k - 1), n)
    ensures GroupDecodes(d, 3 * k, s, 4 * k, n)
  {
    var i, j := 4 * (k - 1), 3 * (k - 1);
    assert forall l :: i <= l < i + n ==> s[4..][l] == s[l + 4];
    assert forall l :: j <= l < |e| ==> e[l] == d[l + 3];
  }
}
