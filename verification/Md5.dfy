/** Streaming MD5 over an uninterpreted block transformation: CommonUtilitiesLib/md5.c, sections 3.1 to 3.3 and 3.5 of
    RFC 1321. */
module Md5 {
  import opened Common

  type Word = n: int | 0 <= n < TWO_TO_THE_32

  type Words = s: seq<Word> | |s| == 4 witness [0, 0, 0, 0]

  /** The transformation of the state by a block of 64 bytes (MD5Transform). */
  type Transform = (Words, seq<Byte>) -> Words

  const INITIAL: Words := [0x67452301, 0xefcdab89, 0x98badcfe, 0x10325476]

  // ---------- Words and bytes ----------

  /** The four bytes of a word, low-order byte first. */
  function WordBytes(w: Word): (b: seq<Byte>)
    ensures |b| == 4
  {
    [w % 0x100, w / 0x100 % 0x100, w / 0x1_0000 % 0x100, w / 0x100_0000]
  }

  function BytesWord(a: Byte, b: Byte, c: Byte, d: Byte): Word {
    a + b * 0x100 + c * 0x1_0000 + d * 0x100_0000
  }

  lemma BytesBack(a: Byte, b: Byte, c: Byte, d: Byte)
    ensures WordBytes(BytesWord(a, b, c, d)) == [a, b, c, d]
  {
    var x, y := c + d * 0x100, b + (c + d * 0x100) * 0x100;
    var w := BytesWord(a, b, c, d);
    assert w == a + y * 0x100 && w / 0x100 == y && w % 0x100 == a;
    assert y / 0x100 == x && y % 0x100 == b && w / 0x1_0000 == x;
    assert x / 0x100 == d && x % 0x100 == c && w / 0x100_0000 == d;
  }

  lemma WordBack(w: Word)
    ensures var b := WordBytes(w); BytesWord(b[0], b[1], b[2], b[3]) == w
  {
    var x, y := w / 0x100, w / 0x1_0000;
    assert w == x * 0x100 + w % 0x100;
    assert x == x / 0x100 * 0x100 + x % 0x100 && x / 0x100 == y;
    assert y == y / 0x100 * 0x100 + y % 0x100 && y / 0x100 == w / 0x100_0000;
  }

  /** The bytes of words in order. */
  function BytesOf(words: seq<Word>): (b: seq<Byte>)
    ensures |b| == 4 * |words|
  {
    if words == [] then [] else BytesOf(words[..|words| - 1]) + WordBytes(words[|words| - 1])
  }

  method Encode(input: seq<Word>, len: nat) returns (output: seq<Byte>)
    requires len == 4 * |input|
    ensures output == BytesOf(input)
  {
    output := [];
    var i, j := 0, 0;
    while j < len
      invariant j == 4 * i <= len && output == BytesOf(input[..i])
    {
      assert input[..i + 1][..i] == input[..i];
      var w := input[i];
      output := output + [w % 0x100, w / 0x100 % 0x100, w / 0x1_0000 % 0x100, w / 0x100_0000];
      i, j := i + 1, j + 4;
    }
    assert input[..i] == input;
  }

  /** Decoding gives the words whose encoding the input is. */
  method Decode(input: seq<Byte>, len: nat) returns (output: seq<Word>)
    requires len == |input| && len % 4 == 0
    ensures BytesOf(output) == input
  {
    output := [];
    var i, j := 0, 0;
    while j < len
      invariant j == 4 * i <= len && BytesOf(output) == input[..j]
    {
      var w: Word := input[j] as int + input[j + 1] as int * 0x100 + input[j + 2] as int * 0x1_0000
                     + input[j + 3] as int * 0x100_0000;
      assert WordBytes(w) == [input[j], input[j + 1], input[j + 2], input[j + 3]] by {
        BytesBack(input[j], input[j + 1], input[j + 2], input[j + 3]);
      }
      ghost var before := output;
      output := output + [w];
      assert output[..|before|] == before;
      assert input[..j + 4] == input[..j] + [input[j], input[j + 1], input[j + 2], input[j + 3]];
      i, j := i + 1, j + 4;
    }
    assert input[..j] == input;
  }

  /** Different words have different encodings, so that decoding an encoding gives the words back. */
  lemma {:induction false} EncodingIsUnique(u: seq<Word>, v: seq<Word>)
    requires BytesOf(u) == BytesOf(v)
    ensures u == v
  {
    if u != [] {
      var n := |u| - 1;
      assert |v| == |u|;
      var a, b := BytesOf(u), BytesOf(v);
      assert BytesOf(u[..n]) == a[..4 * n] && BytesOf(v[..n]) == b[..4 * n];
      assert WordBytes(u[n]) == a[4 * n..] && WordBytes(v[n]) == b[4 * n..];
      WordBack(u[n]);
      WordBack(v[n]);
      EncodingIsUnique(u[..n], v[..n]);
      assert u == u[..n] + [u[n]] && v == v[..n] + [v[n]];
    }
  }

  // ---------- The digest of a message ----------

  /** The state after the complete blocks of some bytes. */
  function Fold(f: Transform, h: Words, m: seq<Byte>): Words
    decreases |m|
  {
    if |m| < 64 then h else Fold(f, f(h, m[..64]), m[64..])
  }

  lemma {:induction false} FoldBlock(f: Transform, h: Words, blocks: seq<Byte>, block: seq<Byte>)
    requires |blocks| % 64 == 0 && |block| == 64
    ensures Fold(f, h, blocks + block) == f(Fold(f, h, blocks), block)
    decreases |blocks|
  {
    if blocks == [] {
      assert blocks + block == block && block[..64] == block && block[64..] == [];
    } else {
      assert (blocks + block)[..64] == blocks[..64] && (blocks + block)[64..] == blocks[64..] + block;
      FoldBlock(f, f(h, blocks[..64]), blocks[64..], block);
    }
  }

  lemma {:induction false} FoldTail(f: Transform, h: Words, blocks: seq<Byte>, tail: seq<Byte>)
    requires |blocks| % 64 == 0 && |tail| < 64
    ensures Fold(f, h, blocks + tail) == Fold(f, h, blocks)
    decreases |blocks|
  {
    if blocks == [] {
      assert blocks + tail == tail;
    } else {
      assert (blocks + tail)[..64] == blocks[..64] && (blocks + tail)[64..] == blocks[64..] + tail;
      FoldTail(f, f(h, blocks[..64]), blocks[64..], tail);
    }
  }

  /** The number of padding bytes: at least one, to 56 modulo 64 (section 3.1 of RFC 1321). */
  function PadLength(n: nat): (k: nat)
    ensures 1 <= k <= 64 && (n + k) % 64 == 56
  {
    if n % 64 < 56 then 56 - n % 64 else 120 - n % 64
  }

  function Padding(k: nat): (p: seq<Byte>)
    requires 1 <= k
    ensures |p| == k
  {
    [0x80] + seq(k - 1, _ => 0)
  }

  /** The length in bits modulo 2 to the 64, as two words, low-order word first (section 3.2). */
  function LengthBytes(n: nat): (b: seq<Byte>)
    ensures |b| == 8
  {
    BytesOf([LowCount(n), HighCount(n)])
  }

  function LowCount(n: nat): Word {
    8 * n % TWO_TO_THE_32
  }

  function HighCount(n: nat): Word {
    8 * n / TWO_TO_THE_32 % TWO_TO_THE_32
  }

  lemma WholeBlocks(n: nat, k: nat)
    requires (n + k) % 64 == 56
    ensures (n + k + 8) % 64 == 0
  {
  }

  function Padded(m: seq<Byte>): (p: seq<Byte>)
    ensures |p| % 64 == 0
  {
    WholeBlocks(|m|, PadLength(|m|));
    m + Padding(PadLength(|m|)) + LengthBytes(|m|)
  }

  function DigestOf(f: Transform, m: seq<Byte>): (d: seq<Byte>)
    ensures |d| == 16
  {
    BytesOf(Fold(f, INITIAL, Padded(m)))
  }

  // ---------- What is digested ----------

  /** A number by its bytes, low-order byte first. */
  function Number(b: seq<Byte>): nat {
    if b == [] then 0 else b[0] + 256 * Number(b[1..])
  }

  lemma NumberOfFour(b: seq<Byte>)
    requires |b| == 4
    ensures Number(b) == BytesWord(b[0], b[1], b[2], b[3])
  {
    assert b[1..][1..] == b[2..] && b[2..][1..] == b[3..] && b[3..][1..] == [];
    assert Number(b[3..]) == b[3] && Number(b[2..]) == b[2] as int + 256 * b[3] as int;
    assert Number(b[1..]) == b[1] as int + 256 * (b[2] as int + 256 * b[3] as int);
  }

  lemma {:induction false} NumberConcat(a: seq<Byte>, b: seq<Byte>)
    requires |a| == 4
    ensures Number(a + b) == Number(a) + TWO_TO_THE_32 * Number(b)
  {
    var c := a + b;
    assert c[1..][1..] == c[2..] && c[2..][1..] == c[3..] && c[3..][1..] == b;
    assert Number(c[3..]) == a[3] + 256 * Number(b);
    assert Number(c[2..]) == a[2] + 256 * Number(c[3..]);
    assert Number(c[1..]) == a[1] + 256 * Number(c[2..]);
    NumberOfFour(a);
  }

  /** Each word stands in four bytes, low-order byte first. */
  lemma {:induction false} WordsInOrder(words: seq<Word>, i: nat)
    requires i < |words|
    ensures Number(BytesOf(words)[4 * i..4 * i + 4]) == words[i]
    decreases |words|
  {
    var n := |words| - 1;
    var b := BytesOf(words);
    if i < n {
      WordsInOrder(words[..n], i);
      assert b[4 * i..4 * i + 4] == BytesOf(words[..n])[4 * i..4 * i + 4];
    } else {
      assert b[4 * i..4 * i + 4] == WordBytes(words[n]);
      WordBack(words[n]);
      NumberOfFour(WordBytes(words[n]));
    }
  }

  /** The words A, B, C and D begin with the bytes 01 23 45 67 89 ab cd ef and the same ones downwards (section 3.3). */
  lemma InitialBytes()
    ensures BytesOf(INITIAL) == [0x01, 0x23, 0x45, 0x67] + [0x89, 0xab, 0xcd, 0xef] + [0xfe, 0xdc, 0xba, 0x98] + [0x76, 0x54, 0x32, 0x10]
  {
    hide BytesOf, WordBytes;
    BytesOfFour(0x67452301, 0xefcdab89, 0x98badcfe, 0x10325476);
    BytesBack(0x01, 0x23, 0x45, 0x67);
    BytesBack(0x89, 0xab, 0xcd, 0xef);
    BytesBack(0xfe, 0xdc, 0xba, 0x98);
    BytesBack(0x76, 0x54, 0x32, 0x10);
  }

  lemma BytesOfMore(words: seq<Word>, w: Word)
    ensures BytesOf(words + [w]) == BytesOf(words) + WordBytes(w)
  {
    assert (words + [w])[..|words|] == words;
  }

  lemma BytesOfFour(a: Word, b: Word, c: Word, d: Word)
    ensures BytesOf([a, b, c, d]) == WordBytes(a) + WordBytes(b) + WordBytes(c) + WordBytes(d)
  {
    hide BytesOf, WordBytes;
    BytesOfTwo(a, b);
    BytesOfMore([a, b], c);
    BytesOfMore([a, b, c], d);
    assert [a, b] + [c] == [a, b, c] && [a, b, c] + [d] == [a, b, c, d];
  }

  lemma BytesOfTwo(v: Word, w: Word)
    ensures BytesOf([v, w]) == WordBytes(v) + WordBytes(w)
  {
    assert [] + [v] == [v] && [v] + [w] == [v, w];
    BytesOfMore([], v);
    BytesOfMore([v], w);
  }

  /** What is digested is the message, a byte of 0x80, as few zeros as make whole blocks, and the length of the message in
      bits modulo 2 to the 64 in eight bytes, low-order byte first (sections 3.1 and 3.2). */
  lemma PaddedIs(m: seq<Byte>)
    ensures var p := Padded(m);
            && |p| % 64 == 0 && |m| + 9 <= |p| < |m| + 9 + 64
            && p[..|m|] == m && p[|m|] == 0x80
            && (forall i :: |m| < i < |p| - 8 ==> p[i] == 0)
            && Number(p[|p| - 8..]) == 8 * |m| % TWO_TO_THE_64
  {
    var p, n := Padded(m), |m|;
    var low, high := LowCount(n), HighCount(n);
    var a, b := WordBytes(low), WordBytes(high);
    assert p[|p| - 8..] == LengthBytes(n);
    BytesOfTwo(low, high);
    NumberConcat(a, b);
    NumberOfFour(a);
    NumberOfFour(b);
    WordBack(low);
    WordBack(high);
    CountsTogether(n);
  }

  lemma CountsTogether(n: nat)
    ensures LowCount(n) + TWO_TO_THE_32 * HighCount(n) == 8 * n % TWO_TO_THE_64
  {
    var q, low := 8 * n / TWO_TO_THE_32, LowCount(n);
    var r, high := q / TWO_TO_THE_32, HighCount(n);
    assert 8 * n == q * TWO_TO_THE_32 + low && q == r * TWO_TO_THE_32 + high;
    UniqueRemainder(8 * n, r, low + TWO_TO_THE_32 * high, TWO_TO_THE_64);
  }

  // ---------- Counting bits in two words ----------

  /** The index into the buffer that the counter gives. */
  lemma IndexOfCount(n: nat)
    ensures LowCount(n) / 8 % 64 == n % 64
  {
    var q, low := 8 * n / TWO_TO_THE_32, LowCount(n);
    assert 8 * n == q * TWO_TO_THE_32 + low;
    hide LowCount;
    var m := n - 64 * (q * 0x80_0000);
    assert low == 8 * m;
    assert m % 64 == n % 64 by { SameRemainder(n, q * 0x80_0000); }
  }

  lemma SameRemainder(n: nat, k: nat)
    requires 64 * k <= n
    ensures (n - 64 * k) % 64 == n % 64
  {
    UniqueRemainder(n, (n - 64 * k) / 64 + k, (n - 64 * k) % 64, 64);
  }

  lemma IndexOfTail(b: nat, t: nat)
    requires b % 64 == 0 && t < 64
    ensures LowCount(b + t) / 8 % 64 == t
  {
    IndexOfCount(b + t);
    UniqueRemainder(b + t, b / 64, t, 64);
  }

  /** Adding a length to the counters, with the carry the comparison finds. */
  lemma CountAdds(n: nat, len: Word)
    ensures var add := len * 8 % TWO_TO_THE_32;
            var low := (LowCount(n) + add) % TWO_TO_THE_32;
            var carried := if low < add then (HighCount(n) + 1) % TWO_TO_THE_32 else HighCount(n);
            && low == LowCount(n + len)
            && (carried + len / 0x2000_0000) % TWO_TO_THE_32 == HighCount(n + len)
  {
    var q, l := 8 * n / TWO_TO_THE_32, LowCount(n);
    var p, a := len / 0x2000_0000, len * 8 % TWO_TO_THE_32;
    assert 8 * n == q * TWO_TO_THE_32 + l;
    assert 8 * len == p * TWO_TO_THE_32 + a;
    var c := if TWO_TO_THE_32 <= l + a then 1 else 0;
    var low := l + a - c * TWO_TO_THE_32;
    assert 8 * (n + len) == (q + p + c) * TWO_TO_THE_32 + low;
    assert LowCount(n + len) == low && 8 * (n + len) / TWO_TO_THE_32 == q + p + c by {
      UniqueRemainder(8 * (n + len), q + p + c, low, TWO_TO_THE_32);
    }
    assert (l + a) % TWO_TO_THE_32 == low;
    CarryAdds(q, c, p);
  }

  lemma CarryAdds(q: nat, c: nat, p: nat)
    requires c <= 1
    ensures var high := if c == 1 then (q % TWO_TO_THE_32 + 1) % TWO_TO_THE_32 else q % TWO_TO_THE_32;
            (high + p) % TWO_TO_THE_32 == (q + p + c) % TWO_TO_THE_32
  {
  }

  // ---------- The context ----------

  /** The counters hold a number of bytes in bits. */
  ghost predicate Counts(n: nat, count: (Word, Word)) {
    match count
    case (low, high) => low == LowCount(n) && high == HighCount(n)
  }

  class MD5Context {
    const transform: Transform
    const buffer: array<Byte>
    var state: Words
    var count0: Word
    var count1: Word
    /** The message so far: its complete blocks, and the bytes behind them. */
    ghost var blocks: seq<Byte>
    ghost var tail: seq<Byte>

    /** The state is the fold over the complete blocks, the buffer begins with the bytes behind them, and the counters
        hold the length in bits. */
    ghost predicate Valid()
      reads this, buffer
    {
      && buffer.Length == 64 && |blocks| % 64 == 0 && |tail| < 64
      && state == Fold(transform, INITIAL, blocks)
      && buffer[..|tail|] == tail
      && Counts(|blocks| + |tail|, (count0, count1))
    }

    /** MD5_Init. */
    constructor (f: Transform)
      ensures Valid() && transform == f && blocks == [] && tail == [] && fresh(buffer)
    {
      transform := f;
      buffer := new Byte[64];
      state, count0, count1, blocks, tail := INITIAL, 0, 0, [], [];
    }

    /** The block loop's index, at the start of the last incomplete block, must not wrap when 63 is added to it. */
    ghost predicate IndexFits(length: nat)
      reads this`tail
    {
      length - (|tail| + length) % 64 + 63 < TWO_TO_THE_32
    }

    /** Takes in the next bytes of the message. */
    method Update(input: seq<Byte>)
      requires Valid() && |input| < TWO_TO_THE_32 && IndexFits(|input|)
      modifies this, buffer
      ensures Valid() && blocks + tail == old(blocks + tail) + input
    {
      ghost var n := |blocks| + |tail|;
      var index := count0 / 8 % 64;
      assert index == |tail| by { IndexOfTail(|blocks|, |tail|); }
      UpdateCount(|input|, n);
      var partLen := 64 - index;
      if |input| >= partLen {
        Transforms(input, index, partLen);
      } else {
        BufferInput(input, index);
      }
      assert |blocks| + |tail| == |blocks + tail| == n + |input|;
    }

    /** Buffers an input that does not complete a block. */
    method BufferInput(input: seq<Byte>, index: nat)
      requires buffer.Length == 64 && index == |tail| && index + |input| < 64 && buffer[..index] == tail
      modifies this`tail, buffer
      ensures tail == old(tail) + input && buffer[..|tail|] == tail
      ensures blocks + tail == old(blocks + tail) + input
    {
      forall k | 0 <= k < |input| {
        buffer[index + k] := input[k];
      }
      assert buffer[..index + |input|] == tail + input;
      tail := tail + input;
    }

    method UpdateCount(inputLen: nat, ghost n: nat)
      requires inputLen < TWO_TO_THE_32 && Counts(n, (count0, count1))
      modifies this`count0, this`count1
      ensures Counts(n + inputLen, (count0, count1))
    {
      CountAdds(n, inputLen);
      var add := inputLen * 8 % TWO_TO_THE_32;
      count0 := (count0 + add) % TWO_TO_THE_32;
      if count0 < add {
        count1 := (count1 + 1) % TWO_TO_THE_32;
      }
      count1 := (count1 + inputLen / 0x2000_0000) % TWO_TO_THE_32;
    }

    /** Completes the buffered block, transforms every complete block of the input, and buffers the rest. */
    method Transforms(input: seq<Byte>, index: nat, partLen: nat)
      requires buffer.Length == 64 && |blocks| % 64 == 0 && index == |tail| < 64 && partLen == 64 - index <= |input|
      requires IndexFits(|input|)
      requires state == Fold(transform, INITIAL, blocks) && buffer[..index] == tail
      modifies this`state, this`blocks, this`tail, buffer
      ensures |blocks| % 64 == 0 && |tail| < 64
      ensures state == Fold(transform, INITIAL, blocks) && buffer[..|tail|] == tail
      ensures blocks + tail == old(blocks + tail) + input
    {
      ghost var message := blocks + tail;
      forall k | 0 <= k < partLen {
        buffer[index + k] := input[k];
      }
      assert buffer[..] == tail + input[..partLen];
      TransformBlock(buffer[..]);
      assert blocks == message + input[..partLen];
      var i := TransformInput(input, partLen, message);
      forall k | 0 <= k < |input| - i {
        buffer[k] := input[i + k];
      }
      tail := input[i..];
      assert message + input[..i] + tail == message + (input[..i] + tail);
      assert input == input[..i] + tail;
    }

    method TransformBlock(block: seq<Byte>)
      requires |blocks| % 64 == 0 && |block| == 64 && state == Fold(transform, INITIAL, blocks)
      modifies this`state, this`blocks
      ensures blocks == old(blocks) + block && |blocks| % 64 == 0 && state == Fold(transform, INITIAL, blocks)
    {
      FoldBlock(transform, INITIAL, blocks, block);
      state := transform(state, block);
      blocks := blocks + block;
    }

    /** Transforms the complete blocks of the input from an index on. */
    method TransformInput(input: seq<Byte>, partLen: nat, ghost message: seq<Byte>) returns (i: nat)
      requires |blocks| % 64 == 0 && partLen <= |input| && blocks == message + input[..partLen]
      requires |input| - (|input| - partLen) % 64 + 63 < TWO_TO_THE_32
      requires state == Fold(transform, INITIAL, blocks)
      modifies this`state, this`blocks
      ensures i <= |input| < i + 64 && blocks == message + input[..i]
      ensures |blocks| % 64 == 0 && state == Fold(transform, INITIAL, blocks)
    {
      i := partLen;
      while i + 63 < |input|
        invariant i <= |input| && |blocks| % 64 == 0
        invariant (|input| - i) % 64 == (|input| - partLen) % 64 && i + 63 < TWO_TO_THE_32
        invariant blocks == message + input[..i]
        invariant state == Fold(transform, INITIAL, blocks)
      {
        TransformBlock(input[i..i + 64]);
        assert input[..i + 64] == input[..i] + input[i..i + 64];
        i := i + 64;
      }
    }

    /** Pads the message, appends its length, and gives the digest. */
    method Final() returns (digest: seq<Byte>)
      requires Valid()
      modifies this, buffer
      ensures digest == DigestOf(transform, old(blocks + tail))
    {
      ghost var m := blocks + tail;
      var bits := Encode([count0, count1], 8);
      assert bits == LengthBytes(|m|);
      var index := count0 / 8 % 64;
      assert index == |m| % 64 by { IndexOfCount(|m|); }
      var padLen := if index < 56 then 56 - index else 120 - index;
      Update(Padding(padLen));
      Update(bits);
      assert blocks + tail == Padded(m);
      assert Fold(transform, INITIAL, blocks + tail) == state by { FoldTail(transform, INITIAL, blocks, tail); }
      digest := Encode(state, 16);
      forall k | 0 <= k < 64 {
        buffer[k] := 0;
      }
      state, count0, count1 := [0, 0, 0, 0], 0, 0;
    }
  }
}
