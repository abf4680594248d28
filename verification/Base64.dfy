/** Base64 encoding and decoding: CommonUtilitiesLib/base64.c, the encoding of section 4 of RFC 4648. */
module Base64 {
  import opened BitMask
  import opened Common

  /** The 64 characters of the encoding, by their value (basis_64). */
  function Basis64(v: nat): char
    requires v < 64
  {
    if v < 26 then ('A' as int + v) as char
    else if v < 52 then ('a' as int + (v - 26)) as char
    else if v < 62 then ('0' as int + (v - 52)) as char
    else if v == 62 then '+'
    else '/'
  }

  /** The value of a character of the encoding, 64 for any other one (pr2six). */
  function Pr2Six(c: char): (v: nat)
    ensures v <= 64
  {
    if 'A' <= c <= 'Z' then c as int - 'A' as int
    else if 'a' <= c <= 'z' then c as int - 'a' as int + 26
    else if '0' <= c <= '9' then c as int - '0' as int + 52
    else if c == '+' then 62
    else if c == '/' then 63
    else 64
  }

  predicate InBasis(c: char) {
    Pr2Six(c) <= 63
  }

  // The four values of three bytes, and the three bytes of four values, in arithmetic: FieldsOfBytes and BytesOfFields
  // say that they are what the shifts and masks give.

  function Six0(a: Byte): (v: nat) ensures v < 64 { a / 4 }

  function Six1(a: Byte, b: Byte): (v: nat) ensures v < 64 { a % 4 * 16 + b / 16 }

  function Six2(b: Byte, c: Byte): (v: nat) ensures v < 64 { b % 16 * 4 + c / 64 }

  function Six3(c: Byte): (v: nat) ensures v < 64 { c % 64 }

  function Byte0(v: nat, w: nat): Byte { v % 64 * 4 + w / 16 % 4 }

  function Byte1(v: nat, w: nat): Byte { v % 16 * 16 + w / 4 % 16 }

  function Byte2(v: nat, w: nat): Byte { v % 4 * 64 + w % 64 }

  lemma Powers()
    ensures PowerOfTwo(2) == 4 && PowerOfTwo(4) == 16 && PowerOfTwo(6) == 64
  {
    assert PowerOfTwo(1) == 2 && PowerOfTwo(3) == 2 * PowerOfTwo(2) && PowerOfTwo(5) == 2 * PowerOfTwo(4);
  }

  lemma Lefts(n: nat)
    ensures ShiftLeft(n, 2) == n * 4 && ShiftLeft(n, 4) == n * 16 && ShiftLeft(n, 6) == n * 64
  {
    assert ShiftLeft(n, 1) == 2 * ShiftLeft(n, 0) && ShiftLeft(n, 2) == 2 * ShiftLeft(n, 1);
    assert ShiftLeft(n, 3) == 2 * ShiftLeft(n, 2) && ShiftLeft(n, 4) == 2 * ShiftLeft(n, 3);
    assert ShiftLeft(n, 5) == 2 * ShiftLeft(n, 4) && ShiftLeft(n, 6) == 2 * ShiftLeft(n, 5);
  }

  lemma Rights(n: nat)
    ensures ShiftRight(n, 2) == n / 4 && ShiftRight(n, 4) == n / 16 && ShiftRight(n, 6) == n / 64
  {
    assert forall m: nat :: ShiftRight(m, 2) == m / 4 by {
      forall m: nat ensures ShiftRight(m, 2) == m / 4 {
        assert ShiftRight(m, 2) == ShiftRight(m / 2, 1) == ShiftRight(m / 2 / 2, 0);
      }
    }
    assert ShiftRight(n, 4) == ShiftRight(n / 2, 3) == ShiftRight(n / 2 / 2, 2);
    assert ShiftRight(n, 6) == ShiftRight(n / 2, 5) == ShiftRight(n / 2 / 2, 4) == ShiftRight(n / 2 / 2 / 2, 3)
           == ShiftRight(n / 2 / 2 / 2 / 2, 2);
  }

  lemma LowMasks(h: nat)
    ensures BitAnd(h, 0x3) == h % 4 && BitAnd(h, 0xF) == h % 16 && BitAnd(h, 0x3F) == h % 64
  {
    hide BitAnd, PowerOfTwo;
    Powers();
    MaskIsRemainder(h, 2);
    MaskIsRemainder(h, 4);
    MaskIsRemainder(h, 6);
  }

  lemma HighMasks(h: Byte)
    ensures BitAnd(h, 0xF0) == h / 16 * 16 && BitAnd(h, 0xC0) == h / 64 * 64
  {
    hide BitAnd, ShiftLeft, ShiftRight;
    Rights(h);
    Lefts(0xF);
    Lefts(0x3);
    MaskHigh(h, 0xF, 4);
    MaskHigh(h, 0x3, 6);
    LowMasks(h / 16);
    LowMasks(h / 64);
    Lefts(h / 16);
    Lefts(h / 64);
  }

  /** Two fields put together, the second one in the places the first one is moved up by. */
  lemma FieldsTogether(v: nat, w: nat)
    ensures w < 4 ==> BitOr(ShiftLeft(v, 2), w) == v * 4 + w
    ensures w < 16 ==> BitOr(ShiftLeft(v, 4), w) == v * 16 + w
    ensures w < 64 ==> BitOr(ShiftLeft(v, 6), w) == v * 64 + w
  {
    hide BitOr, ShiftLeft, PowerOfTwo;
    Powers();
    Lefts(v);
    if w < 4 { ShiftedOr(v, w, 2); }
    if w < 16 { ShiftedOr(v, w, 4); }
    if w < 64 { ShiftedOr(v, w, 6); }
  }

  lemma FirstField(a: Byte)
    ensures BitAnd(ShiftRight(a, 2), 0x3F) == a / 4
  {
    hide BitAnd, ShiftRight;
    assert ShiftRight(a, 2) == a / 4 by { Rights(a); }
    var high := a / 4;
    LowMasks(high);
  }

  lemma SecondField(a: Byte, b: Byte)
    ensures BitOr(ShiftLeft(BitAnd(a, 0x3), 4), ShiftRight(BitAnd(b, 0xF0), 4)) == a % 4 * 16 + b / 16
  {
    hide BitAnd, BitOr, ShiftLeft, ShiftRight;
    LowMasks(a);
    HighMasks(b);
    var high := b / 16;
    Rights(high * 16);
    assert high * 16 / 16 == high;
    FieldsTogether(a % 4, high);
  }

  lemma ThirdField(b: Byte, c: Byte)
    ensures BitOr(ShiftLeft(BitAnd(b, 0xF), 2), ShiftRight(BitAnd(c, 0xC0), 6)) == b % 16 * 4 + c / 64
  {
    hide BitAnd, BitOr, ShiftLeft, ShiftRight;
    LowMasks(b);
    HighMasks(c);
    var high := c / 64;
    Rights(high * 64);
    assert high * 64 / 64 == high;
    FieldsTogether(b % 16, high);
  }

  /** The values the encoder looks up are the shifted and masked fields of the bytes. */
  lemma FieldsOfBytes(a: Byte, b: Byte, c: Byte)
    ensures Six0(a) == BitAnd(ShiftRight(a, 2), 0x3F)
    ensures Six1(a, b) == BitOr(ShiftLeft(BitAnd(a, 0x3), 4), ShiftRight(BitAnd(b, 0xF0), 4))
    ensures Six2(b, c) == BitOr(ShiftLeft(BitAnd(b, 0xF), 2), ShiftRight(BitAnd(c, 0xC0), 6))
    ensures Six3(c) == BitAnd(c, 0x3F)
  {
    hide BitAnd, BitOr, ShiftLeft, ShiftRight;
    FirstField(a);
    SecondField(a, b);
    ThirdField(b, c);
    assert BitAnd(c, 0x3F) == c % 64 by { LowMasks(c); }
  }

  lemma CutToByte(v: nat, x: nat, n: nat, m: nat)
    requires v < 64 && x < n && (n, m) in {(4, 64), (16, 16), (64, 4)}
    ensures (v * n + x) % 256 == v % m * n + x
  {
    var q, r := v / m, v % m;
    assert v == q * m + r;
    assert v * n + x == q * 256 + (r * n + x);
  }

  /** The bytes the decoder writes are the shifted values put together, cut off to a byte. */
  lemma BytesOfFields(v: nat, w: nat)
    requires v < 64 && w < 64
    ensures Byte0(v, w) == BitOr(ShiftLeft(v, 2), ShiftRight(w, 4)) % 256
    ensures Byte1(v, w) == BitOr(ShiftLeft(v, 4), ShiftRight(w, 2)) % 256
    ensures Byte2(v, w) == BitOr(ShiftLeft(v, 6), w) % 256
  {
    hide BitOr, ShiftLeft, ShiftRight;
    Rights(w);
    var high, middle := w / 16, w / 4;
    FieldsTogether(v, high);
    FieldsTogether(v, middle);
    FieldsTogether(v, w);
    CutToByte(v, high, 4, 64);
    CutToByte(v, middle, 16, 16);
    CutToByte(v, w, 64, 4);
  }

  /** The four characters of three bytes. */
  function Group(a: Byte, b: Byte, c: Byte): (g: Text)
    ensures |g| == 4
  {
    [Basis64(Six0(a)), Basis64(Six1(a, b)), Basis64(Six2(b, c)), Basis64(Six3(c))]
  }

  /** The encoding: four characters for every three bytes, padded at the end. */
  function Encoded(x: seq<Byte>): Text {
    if x == [] then []
    else if |x| == 1 then Group(x[0], 0, 0)[..2] + ['=', '=']
    else if |x| == 2 then Group(x[0], x[1], 0)[..3] + ['=']
    else Group(x[0], x[1], x[2]) + Encoded(x[3..])
  }

  /** The three bytes of four characters. */
  function ThreeBytes(s: Text, j: nat): (g: seq<Byte>)
    requires j + 4 <= |s|
    ensures |g| == 3
  {
    [Byte0(Pr2Six(s[j]), Pr2Six(s[j + 1])), Byte1(Pr2Six(s[j + 1]), Pr2Six(s[j + 2])),
     Byte2(Pr2Six(s[j + 2]), Pr2Six(s[j + 3]))]
  }

  /** The decoding of the characters before the first one that is not of the encoding. */
  function Decoded(s: Text): seq<Byte> {
    if |s| < 2 || !InBasis(s[0]) || !InBasis(s[1]) then []
    else if |s| == 2 || !InBasis(s[2]) then [Byte0(Pr2Six(s[0]), Pr2Six(s[1]))]
    else if |s| == 3 || !InBasis(s[3]) then [Byte0(Pr2Six(s[0]), Pr2Six(s[1])), Byte1(Pr2Six(s[1]), Pr2Six(s[2]))]
    else ThreeBytes(s, 0) + Decoded(s[4..])
  }

  function EncodeLen(len: nat): nat {
    (len + 2) / 3 * 4 + 1
  }

  lemma {:induction false} EncodedLength(x: seq<Byte>)
    ensures |Encoded(x)| + 1 == EncodeLen(|x|)
  {
    if 3 <= |x| {
      EncodedLength(x[3..]);
      assert (|x| + 2) / 3 == (|x| - 3 + 2) / 3 + 1;
    }
  }

  lemma BasisInverse(v: nat)
    requires v < 64
    ensures Pr2Six(Basis64(v)) == v
  {
  }

  lemma FirstByteBack(a: Byte, b: Byte)
    ensures Byte0(Six0(a), Six1(a, b)) == a
  {
    assert (a % 4 * 16 + b / 16) / 16 == a % 4;
  }

  lemma SecondByteBack(a: Byte, b: Byte, c: Byte)
    ensures Byte1(Six1(a, b), Six2(b, c)) == b
  {
    assert (b % 16 * 4 + c / 64) / 4 == b % 16;
    assert (a % 4 * 16 + b / 16) % 16 == b / 16;
  }

  lemma ThirdByteBack(b: Byte, c: Byte)
    ensures Byte2(Six2(b, c), Six3(c)) == c
  {
    assert (b % 16 * 4 + c / 64) % 4 == c / 64;
  }

  /** What the characters of a group decode to. */
  lemma GroupBack(a: Byte, b: Byte, c: Byte)
    ensures var g := Group(a, b, c);
            && (forall k :: 0 <= k < 4 ==> InBasis(g[k]))
            && Byte0(Pr2Six(g[0]), Pr2Six(g[1])) == a
            && Byte1(Pr2Six(g[1]), Pr2Six(g[2])) == b
            && Byte2(Pr2Six(g[2]), Pr2Six(g[3])) == c
  {
    var v0, v1, v2, v3 := Six0(a), Six1(a, b), Six2(b, c), Six3(c);
    BasisInverse(v0);
    BasisInverse(v1);
    BasisInverse(v2);
    BasisInverse(v3);
    assert Byte0(v0, v1) == a by { FirstByteBack(a, b); }
    assert Byte1(v1, v2) == b by { SecondByteBack(a, b, c); }
    assert Byte2(v2, v3) == c by { ThirdByteBack(b, c); }
  }

  lemma DecodedTail(t: Text, n: nat)
    requires n <= 4 && n < |t| && !InBasis(t[n]) && forall k :: 0 <= k < n ==> InBasis(t[k])
    ensures Decoded(t) == if n <= 1 then []
                          else if n == 2 then [Byte0(Pr2Six(t[0]), Pr2Six(t[1]))]
                          else if n == 3 then [Byte0(Pr2Six(t[0]), Pr2Six(t[1])), Byte1(Pr2Six(t[1]), Pr2Six(t[2]))]
                          else [Byte0(Pr2Six(t[0]), Pr2Six(t[1])), Byte1(Pr2Six(t[1]), Pr2Six(t[2])),
                                Byte2(Pr2Six(t[2]), Pr2Six(t[3]))]
  {
    if n == 4 {
      assert t[4..][0] == t[4];
      assert Decoded(t[4..]) == [];
    }
  }

  /** The first characters of an encoding are those of its first group, with padding for missing bytes. */
  lemma FrontCharacters(x: seq<Byte>, b: Byte, c: Byte, rest: Text)
    requires x != [] && b == (if |x| < 2 then 0 else x[1]) && c == (if |x| < 3 then 0 else x[2])
    ensures var s, g := Encoded(x) + rest, Group(x[0], b, c);
            && 4 <= |s| && s[0] == g[0] && s[1] == g[1]
            && s[2] == (if |x| == 1 then '=' else g[2])
            && s[3] == (if |x| < 3 then '=' else g[3])
            && (3 <= |x| ==> s[4..] == Encoded(x[3..]) + rest)
  {
    EncodedCharacters(x, b, c);
    FrontOfConcat(Encoded(x), rest);
  }

  lemma EncodedCharacters(x: seq<Byte>, b: Byte, c: Byte)
    requires x != [] && b == (if |x| < 2 then 0 else x[1]) && c == (if |x| < 3 then 0 else x[2])
    ensures var e, g := Encoded(x), Group(x[0], b, c);
            && 4 <= |e| && e[0] == g[0] && e[1] == g[1]
            && e[2] == (if |x| == 1 then '=' else g[2])
            && e[3] == (if |x| < 3 then '=' else g[3])
            && (3 <= |x| ==> e[4..] == Encoded(x[3..]))
            && (|x| < 3 ==> e[4..] == [])
  {
  }

  lemma FrontOfConcat(e: Text, rest: Text)
    requires 4 <= |e|
    ensures var s := e + rest;
            s[0] == e[0] && s[1] == e[1] && s[2] == e[2] && s[3] == e[3] && s[4..] == e[4..] + rest
  {
  }

  /** What a text that begins with the characters of a group, or with some of them and padding, decodes to. */
  lemma FrontDecodes(g: Text, s: Text, a: Byte, b: Byte, c: Byte, n: nat)
    requires 1 <= n <= 3 && |g| == 4 && InBasis(g[0]) && InBasis(g[1]) && InBasis(g[2]) && InBasis(g[3])
    requires Byte0(Pr2Six(g[0]), Pr2Six(g[1])) == a
    requires Byte1(Pr2Six(g[1]), Pr2Six(g[2])) == b
    requires Byte2(Pr2Six(g[2]), Pr2Six(g[3])) == c
    requires 4 <= |s| && s[0] == g[0] && s[1] == g[1]
    requires s[2] == (if n == 1 then '=' else g[2]) && s[3] == (if n < 3 then '=' else g[3])
    ensures Decoded(s) == if n == 1 then [a] else if n == 2 then [a, b] else [a, b, c] + Decoded(s[4..])
  {
  }

  /** Decoding the encoding of any bytes gives them back, whatever stands behind its end. */
  lemma {:induction false} RoundTrip(x: seq<Byte>, rest: Text)
    requires rest == [] || !InBasis(rest[0])
    ensures Decoded(Encoded(x) + rest) == x
  {
    if x != [] {
      var a: Byte := x[0];
      var b: Byte := if |x| < 2 then 0 else x[1];
      var c: Byte := if |x| < 3 then 0 else x[2];
      var n := if |x| < 3 then |x| else 3;
      var s, g := Encoded(x) + rest, Group(a, b, c);
      FrontCharacters(x, b, c, rest);
      assert Decoded(s) == if n == 1 then [a] else if n == 2 then [a, b] else [a, b, c] + Decoded(s[4..]) by {
        GroupBack(a, b, c);
        FrontDecodes(g, s, a, b, c, n);
      }
      if n == 3 {
        assert Decoded(s[4..]) == x[3..] by { RoundTrip(x[3..], rest); }
      }
      assert x == if n == 1 then [a] else if n == 2 then [a, b] else [a, b, c] + x[3..];
    }
  }

  // ---------- The encoder ----------

  method PutGroup(encoded: array<char>, p: nat, g: Text)
    requires |g| == 4 && p + 4 <= encoded.Length
    modifies encoded
    ensures encoded[..p + 4] == old(encoded[..p]) + g && encoded[p + 4..] == old(encoded[p + 4..])
  {
    encoded[p], encoded[p + 1], encoded[p + 2], encoded[p + 3] := g[0], g[1], g[2], g[3];
  }

  /** The whole encoding, from a position where the encoding of the remaining bytes begins. */
  lemma NextGroup(goal: Text, p: nat, x: seq<Byte>)
    requires p <= |goal| && goal[p..] == Encoded(x) && 3 <= |x|
    ensures p + 4 <= |goal| && goal[..p + 4] == goal[..p] + Group(x[0], x[1], x[2])
    ensures goal[p + 4..] == Encoded(x[3..])
  {
    SplitBehind(goal, p, Group(x[0], x[1], x[2]), Encoded(x[3..]));
  }

  lemma SplitBehind<T>(goal: seq<T>, p: nat, g: seq<T>, rest: seq<T>)
    requires p <= |goal| && goal[p..] == g + rest
    ensures p + |g| <= |goal| && goal[..p + |g|] == goal[..p] + g && goal[p + |g|..] == rest
  {
    assert goal[p + |g|..] == goal[p..][|g|..];
    assert goal[..p + |g|] == goal[..p] + goal[p..][..|g|];
  }

  lemma EncodedShort(a: Byte, b: Byte)
    ensures Encoded([a]) == [Basis64(Six0(a)), Basis64(Six1(a, 0)), '=', '=']
    ensures Encoded([a, b]) == [Basis64(Six0(a)), Basis64(Six1(a, b)), Basis64(Six2(b, 0)), '=']
  {
  }

  method EncodeGroup(a: Byte, b: Byte, c: Byte) returns (g: Text)
    ensures g == Group(a, b, c)
  {
    g := [Basis64(Six0(a))];
    g := g + [Basis64(Six1(a, b))];
    g := g + [Basis64(Six2(b, c))];
    g := g + [Basis64(Six3(c))];
  }

  /** Writes the characters of the next three bytes. */
  method PutNext(encoded: array<char>, p: nat, input: seq<Byte>, i: nat, ghost goal: Text)
    requires i + 3 <= |input| && p <= |goal| <= encoded.Length && goal[p..] == Encoded(input[i..])
    requires encoded[..p] == goal[..p]
    modifies encoded
    ensures p + 4 <= |goal| && goal[p + 4..] == Encoded(input[i + 3..])
    ensures encoded[..p + 4] == goal[..p + 4] && encoded[p + 4..] == old(encoded[p + 4..])
  {
    var g := EncodeGroup(input[i], input[i + 1], input[i + 2]);
    assert p + 4 <= |goal| && goal[..p + 4] == goal[..p] + g && goal[p + 4..] == Encoded(input[i + 3..]) by {
      NextGroup(goal, p, input[i..]);
      assert input[i..][3..] == input[i + 3..];
    }
    PutGroup(encoded, p, g);
  }

  /** Encodes into the buffer, with a NUL behind, and writes exactly the announced number of characters. */
  method Base64encode(encoded: array<char>, input: seq<Byte>) returns (n: nat)
    requires EncodeLen(|input|) <= encoded.Length
    modifies encoded
    ensures n == EncodeLen(|input|)
    ensures encoded[..n] == Encoded(input) + ['\0'] && encoded[n..] == old(encoded[n..])
  {
    var len, i, p: nat := |input|, 0, 0;
    ghost var goal, was := Encoded(input), encoded[..];
    assert |goal| + 1 == EncodeLen(len) by { EncodedLength(input); }
    assert goal[p..] == Encoded(input[i..]) by { assert input[0..] == input; }
    while i < len - 2
      invariant i <= len && p <= |goal| && goal[p..] == Encoded(input[i..])
      invariant encoded[..p] == goal[..p] && encoded[p..] == was[p..]
    {
      PutNext(encoded, p, input, i, goal);
      assert was[p..][4..] == was[p + 4..] && encoded[p + 4..] == was[p + 4..];
      p, i := p + 4, i + 3;
    }
    if i < len {
      var g := EncodeRest(input, i);
      assert goal == goal[..p] + g;
      PutGroup(encoded, p, g);
      assert was[p..][4..] == was[p + 4..] && encoded[p + 4..] == was[p + 4..];
      p := p + 4;
    } else {
      assert input[i..] == [];
    }
    assert encoded[..p] == goal && p == |goal|;
    assert was[p..][1..] == was[p + 1..] && encoded[p + 1..] == was[p + 1..];
    encoded[p] := '\0';
    n := p + 1;
    assert encoded[..n] == encoded[..p] + ['\0'];
  }

  /** The last group, of one or two bytes. */
  method EncodeRest(input: seq<Byte>, i: nat) returns (g: Text)
    requires |input| - 2 <= i < |input|
    ensures g == Encoded(input[i..]) && |g| == 4
  {
    g := [Basis64(Six0(input[i]))];
    if i == |input| - 1 {
      assert input[i..] == [input[i]];
      EncodedShort(input[i], 0);
      g := g + [Basis64(Six1(input[i], 0)), '='];
    } else {
      assert input[i..] == [input[i], input[i + 1]];
      EncodedShort(input[i], input[i + 1]);
      g := g + [Basis64(Six1(input[i], input[i + 1])), Basis64(Six2(input[i + 1], 0))];
    }
    g := g + ['='];
  }

  // ---------- The decoder ----------

  /** The number of characters of the encoding in front. */
  function Leading(s: Text): (n: nat)
    ensures n <= |s| && (forall k :: 0 <= k < n ==> InBasis(s[k])) && (n < |s| ==> !InBasis(s[n]))
  {
    if s == [] || !InBasis(s[0]) then 0 else 1 + Leading(s[1..])
  }

  lemma LeadingIs(s: Text, n: nat)
    requires n < |s| && (forall k :: 0 <= k < n ==> InBasis(s[k])) && !InBasis(s[n])
    ensures Leading(s) == n
  {
  }

  function DecodeLen(s: Text): nat {
    (Leading(s) + 3) / 4 * 3 + 1
  }

  /** Counts the characters of the encoding; the text has to end in another one. */
  method CountLeading(bufcoded: Text) returns (nprbytes: nat)
    requires Leading(bufcoded) < |bufcoded|
    ensures nprbytes == Leading(bufcoded)
  {
    nprbytes := 0;
    while InBasis(bufcoded[nprbytes])
      invariant nprbytes <= Leading(bufcoded)
      decreases |bufcoded| - nprbytes
    {
      nprbytes := nprbytes + 1;
    }
    LeadingIs(bufcoded, nprbytes);
  }

  method Base64decode_len(bufcoded: Text) returns (len: nat)
    requires Leading(bufcoded) < |bufcoded|
    ensures len == DecodeLen(bufcoded)
  {
    var nprbytes := CountLeading(bufcoded);
    return (nprbytes + 3) / 4 * 3 + 1;
  }

  lemma {:induction false} DecodedCount(s: Text)
    ensures |Decoded(s)| == Leading(s) / 4 * 3 + (if Leading(s) % 4 <= 1 then 0 else Leading(s) % 4 - 1)
  {
    if 4 <= Leading(s) {
      DecodedCount(s[4..]);
      LeadingBehind(s);
    }
  }

  lemma Groups(m: nat)
    ensures (m + 3) / 4 == if m % 4 == 0 then m / 4 else m / 4 + 1
  {
  }

  lemma DecodedLength(s: Text)
    ensures |Decoded(s)| == Leading(s) / 4 * 3 + (if Leading(s) % 4 <= 1 then 0 else Leading(s) % 4 - 1)
    ensures |Decoded(s)| + 1 <= DecodeLen(s)
    ensures DecodeLen(s) == if Leading(s) % 4 == 0 then |Decoded(s)| + 1 else 3 * (Leading(s) / 4) + 4
  {
    DecodedCount(s);
    Groups(Leading(s));
    hide Decoded, Leading;
  }

  lemma LeadingBehind(s: Text)
    requires 4 <= Leading(s)
    ensures Leading(s[4..]) == Leading(s) - 4
  {
    assert s[1..][1..][1..][1..] == s[4..];
  }

  /** The whole decoding, from a position where the decoding of the remaining characters begins. */
  lemma NextBytes(goal: seq<Byte>, p: nat, s: Text, j: nat)
    requires j + 4 <= |s| && (forall k :: j <= k < j + 4 ==> InBasis(s[k]))
    requires p <= |goal| && goal[p..] == Decoded(s[j..])
    ensures p + 3 <= |goal| && goal[..p + 3] == goal[..p] + ThreeBytes(s, j) && goal[p + 3..] == Decoded(s[j + 4..])
  {
    assert Decoded(s[j..]) == ThreeBytes(s, j) + Decoded(s[j + 4..]) by { assert s[j..][4..] == s[j + 4..]; }
    SplitBehind(goal, p, ThreeBytes(s, j), Decoded(s[j + 4..]));
  }

  method PutBytes(bufplain: array<Byte>, p: nat, s: Text, j: nat, ghost goal: seq<Byte>)
    requires j + 4 <= |s| && (forall k :: j <= k < j + 4 ==> InBasis(s[k]))
    requires p <= |goal| <= bufplain.Length && goal[p..] == Decoded(s[j..]) && bufplain[..p] == goal[..p]
    modifies bufplain
    ensures p + 3 <= |goal| && goal[p + 3..] == Decoded(s[j + 4..])
    ensures bufplain[..p + 3] == goal[..p + 3] && bufplain[p + 3..] == old(bufplain[p + 3..])
  {
    NextBytes(goal, p, s, j);
    bufplain[p] := Byte0(Pr2Six(s[j]), Pr2Six(s[j + 1]));
    bufplain[p + 1] := Byte1(Pr2Six(s[j + 1]), Pr2Six(s[j + 2]));
    bufplain[p + 2] := Byte2(Pr2Six(s[j + 2]), Pr2Six(s[j + 3]));
    assert bufplain[..p + 3] == goal[..p] + ThreeBytes(s, j);
  }

  /** The decoding loop: leaves at most four characters. */
  method DecodeGroups(bufplain: array<Byte>, bufcoded: Text, count: nat, ghost goal: seq<Byte>)
    returns (j: nat, p: nat, nprbytes: nat, ghost groups: nat)
    requires count == Leading(bufcoded) < |bufcoded| && goal == Decoded(bufcoded) && |goal| <= bufplain.Length
    modifies bufplain
    ensures j + nprbytes == count && nprbytes <= 4 && j == 4 * groups && (nprbytes == 0 ==> j == 0)
    ensures p <= |goal| && goal[p..] == Decoded(bufcoded[j..])
    ensures bufplain[..p] == goal[..p] && bufplain[p..] == old(bufplain[p..])
  {
    j, p, nprbytes, groups := 0, 0, count, 0;
    assert goal[p..] == Decoded(bufcoded[j..]) by { assert bufcoded[0..] == bufcoded; }
    while nprbytes > 4
      invariant j + nprbytes == count && j == 4 * groups && (nprbytes == 0 ==> j == 0)
      invariant p <= |goal| && goal[p..] == Decoded(bufcoded[j..])
      invariant bufplain[..p] == goal[..p] && bufplain[p..] == old(bufplain[p..])
    {
      PutBytes(bufplain, p, bufcoded, j, goal);
      p, j, nprbytes, groups := p + 3, j + 4, nprbytes - 4, groups + 1;
    }
  }

  /** Decodes into the buffer, with a zero byte behind, and stays within the announced length. */
  method Base64decode(bufplain: array<Byte>, bufcoded: Text) returns (n: nat)
    requires Leading(bufcoded) < |bufcoded| && DecodeLen(bufcoded) <= bufplain.Length
    modifies bufplain
    ensures n == |Decoded(bufcoded)| && n + 1 <= DecodeLen(bufcoded)
    ensures bufplain[..n] == Decoded(bufcoded) && bufplain[n] == 0
    ensures bufplain[n + 1..] == old(bufplain[n + 1..])
  {
    var count := CountLeading(bufcoded);
    ghost var goal := Decoded(bufcoded);
    assert |goal| + 1 <= DecodeLen(bufcoded) by { DecodedLength(bufcoded); }
    var j, p, nprbytes;
    ghost var groups, was := 0, bufplain[..];
    j, p, nprbytes, groups := DecodeGroups(bufplain, bufcoded, count, goal);
    assert bufplain[p..] == was[p..];
    var q := DecodeRest(bufplain, p, bufcoded, j, nprbytes);
    assert bufplain[..q] == goal && q == |goal|;
    assert bufplain[q..] == was[q..] by {
      assert was[p..][q - p..] == was[q..];
    }
    bufplain[q] := 0;
    n := BytesDecoded(bufcoded, count, nprbytes, groups);
  }

  /** The number of bytes written, worked out from the number of characters. */
  method BytesDecoded(bufcoded: Text, count: nat, nprbytes: nat, ghost groups: nat) returns (n: nat)
    requires count == Leading(bufcoded) == 4 * groups + nprbytes && nprbytes <= 4 && (nprbytes == 0 ==> groups == 0)
    ensures n == |Decoded(bufcoded)|
  {
    assert (count + 3) / 4 * 3 - (4 - nprbytes) % 4 == |Decoded(bufcoded)| by {
      BytesOfCharacters(count, groups, nprbytes);
      DecodedLength(bufcoded);
    }
    var nbytesdecoded := (count + 3) / 4 * 3;
    n := nbytesdecoded - (4 - nprbytes) % 4;
  }

  /** The last group, of up to four characters; a single one is ignored. */
  method DecodeRest(bufplain: array<Byte>, start: nat, bufcoded: Text, j: nat, nprbytes: nat) returns (p: nat)
    requires nprbytes <= 4 && j + nprbytes == Leading(bufcoded) < |bufcoded|
    requires start + |Decoded(bufcoded[j..])| <= bufplain.Length
    modifies bufplain
    ensures p == start + |Decoded(bufcoded[j..])|
    ensures bufplain[..p] == old(bufplain[..start]) + Decoded(bufcoded[j..]) && bufplain[p..] == old(bufplain[p..])
  {
    DecodedRest(bufcoded, j, nprbytes);
    p := start;
    if nprbytes > 1 {
      bufplain[p] := Byte0(Pr2Six(bufcoded[j]), Pr2Six(bufcoded[j + 1]));
      p := p + 1;
    }
    if nprbytes > 2 {
      bufplain[p] := Byte1(Pr2Six(bufcoded[j + 1]), Pr2Six(bufcoded[j + 2]));
      p := p + 1;
    }
    if nprbytes > 3 {
      bufplain[p] := Byte2(Pr2Six(bufcoded[j + 2]), Pr2Six(bufcoded[j + 3]));
      p := p + 1;
    }
  }

  lemma DecodedRest(s: Text, j: nat, n: nat)
    requires n <= 4 && j + n == Leading(s) < |s|
    ensures Decoded(s[j..]) == if n <= 1 then []
                               else if n == 2 then [Byte0(Pr2Six(s[j]), Pr2Six(s[j + 1]))]
                               else if n == 3 then [Byte0(Pr2Six(s[j]), Pr2Six(s[j + 1])),
                                                    Byte1(Pr2Six(s[j + 1]), Pr2Six(s[j + 2]))]
                               else [Byte0(Pr2Six(s[j]), Pr2Six(s[j + 1])), Byte1(Pr2Six(s[j + 1]), Pr2Six(s[j + 2])),
                                     Byte2(Pr2Six(s[j + 2]), Pr2Six(s[j + 3]))]
  {
    var t := s[j..];
    assert t[n] == s[j + n] && !InBasis(t[n]) && forall k :: 0 <= k < n ==> t[k] == s[j + k] && InBasis(t[k]);
    DecodedTail(t, n);
  }

  lemma BytesOfCharacters(n: nat, groups: nat, rest: nat)
    requires n == 4 * groups + rest && rest <= 4 && (rest == 0 ==> groups == 0)
    ensures (n + 3) / 4 * 3 - (4 - rest) % 4 == n / 4 * 3 + (if n % 4 <= 1 then 0 else n % 4 - 1)
  {
    if rest == 4 {
      assert n / 4 == groups + 1 && (n + 3) / 4 == groups + 1;
    } else {
      assert n / 4 == groups && n % 4 == rest;
      assert rest != 0 ==> (n + 3) / 4 == groups + 1;
    }
  }

  /** What Base64encode writes, Base64decode accepts and gives back. */
  lemma DecodeUndoesEncode(x: seq<Byte>)
    ensures var s := Encoded(x) + ['\0'];
            |s| == EncodeLen(|x|) && Leading(s) < |s| && Decoded(s) == x && |x| + 1 <= DecodeLen(s)
  {
    var s := Encoded(x) + ['\0'];
    assert |s| == EncodeLen(|x|) by { EncodedLength(x); }
    assert Decoded(s) == x by { RoundTrip(x, ['\0']); }
    assert |Decoded(s)| + 1 <= DecodeLen(s) by { DecodedLength(s); }
    assert !InBasis(s[|s| - 1]);
  }
}
