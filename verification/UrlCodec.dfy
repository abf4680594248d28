/** URL decoding with dot-segment stripping, and URL encoding: CommonUtilitiesLib/StringTranslator.cpp. */
module UrlCodec {
  import opened Common
  import opened UrlPath

  datatype UrlResult = Length(n: nat) | BadURLFormat | NotEnoughSpace

  predicate IsHex(c: char) {
    '0' <= c <= '9' || 'a' <= c <= 'f' || 'A' <= c <= 'F'
  }

  function HexValue(c: char): (n: nat)
    requires IsHex(c)
    ensures n < 16
  {
    if '0' <= c <= '9' then c as int - '0' as int
    else if 'a' <= c <= 'f' then c as int - 'a' as int + 10
    else c as int - 'A' as int + 10
  }

  /** The first character of a text and the number of source characters it takes: a percent sign with two hexadecimal
      digits, or any other character but NUL. */
  function Token(s: Text): (t: Option<(char, nat)>)
    requires s != []
    ensures t.Some? ==> 1 <= t.value.1 <= |s|
  {
    if s[0] == '%' then
      if |s| < 3 || !IsHex(s[1]) || !IsHex(s[2]) then None
      else Some(((HexValue(s[1]) * 16 + HexValue(s[2])) as char, 3))
    else if s[0] == '\0' then None
    else Some((s[0], 1))
  }

  /** Text in front of a decoded text, if there is one. */
  function Then(a: Text, b: Option<Text>): Option<Text> {
    if b.Some? then Some(a + b.value) else None
  }

  /** Percent-decoding. */
  function Percent(s: Text): Option<Text> {
    if s == [] then Some([])
    else if Token(s) == None then None
    else Then([Token(s).value.0], Percent(s[Token(s).value.1..]))
  }

  lemma ThenThen(a: Text, b: Text, c: Option<Text>)
    ensures Then(a, Then(b, c)) == Then(a + b, c)
  {
    if c.Some? {
      assert a + (b + c.value) == a + b + c.value;
    }
  }

  /** Where the query starts: at the first question mark. */
  function QueryStart(s: Text): (q: nat)
    ensures q <= |s| && '?' !in s[..q] && (q < |s| ==> s[q] == '?')
  {
    if s == [] then 0
    else if s[0] == '?' then 0
    else
      var q := QueryStart(s[1..]);
      assert s[..q + 1] == [s[0]] + s[1..][..q];
      q + 1
  }

  /** The last segment of a path. */
  function LastSegment(p: Text): Text
    requires IsPath(p)
  {
    p[LastSlash(p) + 1..]
  }

  /** What the decoder has written once it has read a path and a query: a dot segment at the end of the path is still
      there. */
  function Unfinished(path: Text, query: Text): Text
    requires IsPath(path)
  {
    Strip(path) + (if IsDots(LastSegment(path)) then LastSegment(path) else []) + query
  }

  /** What the decoder makes of a decoded path and query: it takes as many characters off the end as a dot segment at
      the end of the path has, also when a query follows. */
  function Finish(path: Text, query: Text): Text
    requires IsPath(path)
  {
    Unfinished(path, query)[..|Strip(path)| + |query|]
  }

  /** The decoder's output. */
  function Decoded(s: Text): Option<Text> {
    if s == [] || s[0] != '/' then None
    else
      var q := QueryStart(s);
      var path, query := Percent(s[..q]), Percent(s[q..]);
      if path.Some? && query.Some? then
        PercentOfPath(s[..q]);
        Some(Finish(path.value, query.value))
      else None
  }

  lemma PercentOfPath(s: Text)
    requires s != [] && s[0] == '/'
    ensures Percent(s).Some? ==> IsPath(Percent(s).value)
  {
  }

  /** The output is the stripped path with its query exactly when there is no query or the path does not end in a dot
      segment. */
  lemma FinishStripsPath(path: Text, query: Text)
    requires IsPath(path) && (query == [] || query[0] == '?')
    ensures Finish(path, query) == Strip(path) + query <==> query == [] || !IsDots(LastSegment(path))
  {
    var a, dots := Strip(path), if IsDots(LastSegment(path)) then LastSegment(path) else [];
    var f := a + dots + query;
    if query == [] || dots == [] {
      assert f[..|a| + |query|] == a + query;
    } else {
      assert f[|a|] == '.' && (a + query)[|a|] == '?';
    }
  }

  // ---------- What has been read before an error ----------

  /** The path and the query that the first characters of a URL decode to. */
  function ReadSoFar(s: Text, i: nat): Option<(Text, Text)>
    requires i <= |s|
  {
    var q := QueryStart(s);
    var path, query := Percent(if i <= q then s[..i] else s[..q]), Percent(if i <= q then [] else s[q..i]);
    if path.Some? && query.Some? then Some((path.value, query.value)) else None
  }

  /** After some characters, none of them malformed, as many have been written as there is room for, and more are to
      come. */
  ghost predicate FullAt(s: Text, i: nat, room: nat) {
    i < |s| && ReadSoFar(s, i).Some?
    && var (path, query) := ReadSoFar(s, i).value;
       room == if IsPath(path) then |Unfinished(path, query)| else 0
  }

  ghost predicate Overflows(s: Text, room: nat) {
    exists i :: FullAt(s, i, room)
  }

  lemma {:induction false} PercentConcat(s: Text, t: Text)
    requires Percent(s).Some?
    ensures Percent(s + t) == Then(Percent(s).value, Percent(t))
  {
    if s == [] {
      assert s + t == t;
      ThenEmpty([], Percent(t));
    } else {
      var (c, n) := Token(s).value;
      assert Token(s + t) == Some((c, n)) && (s + t)[n..] == s[n..] + t;
      PercentConcat(s[n..], t);
      ThenThen([c], Percent(s[n..]).value, Percent(t));
    }
  }

  lemma PercentOfFirst(u: Text, m: nat)
    requires 1 <= m <= |u|
    ensures Token(u) == None ==> Percent(u[..m]) == None
    ensures Token(u).Some? && m < Token(u).value.1 ==> Percent(u[..m]) == None
    ensures Token(u).Some? && m == Token(u).value.1 ==> Percent(u[..m]) == Some([Token(u).value.0])
  {
    var v := u[..m];
    assert v[0] == u[0] && (3 <= m ==> v[1] == u[1] && v[2] == u[2]);
    assert Token(v) == if Token(u).Some? && Token(u).value.1 <= m then Token(u) else None;
    if Token(u).Some? && m == Token(u).value.1 {
      assert v[m..] == [] && [Token(u).value.0] + [] == [Token(u).value.0];
    }
  }

  lemma PercentOnward(s: Text, q: nat, i: nat, k: nat, a: Text)
    requires q <= i < k <= |s| && Percent(s[q..i]) == Some(a)
    ensures Token(s[i..]) == None ==> Percent(s[q..k]) == None
    ensures Token(s[i..]).Some? && k < i + Token(s[i..]).value.1 ==> Percent(s[q..k]) == None
    ensures Token(s[i..]).Some? && k == i + Token(s[i..]).value.1 ==> Percent(s[q..k]) == Some(a + [Token(s[i..]).value.0])
  {
    assert s[q..k] == s[q..i] + s[i..][..k - i];
    PercentConcat(s[q..i], s[i..][..k - i]);
    PercentOfFirst(s[i..], k - i);
  }

  lemma ReadOnInPath(s: Text, i: nat, path: Text)
    requires i < QueryStart(s) && ReadSoFar(s, i) == Some((path, []))
    ensures Token(s[i..]) == None ==> forall k :: i < k <= |s| ==> ReadSoFar(s, k) == None
    ensures Token(s[i..]).Some? ==>
              && i + Token(s[i..]).value.1 <= QueryStart(s)
              && ReadSoFar(s, i + Token(s[i..]).value.1) == Some((path + [Token(s[i..]).value.0], []))
              && forall k :: i < k < i + Token(s[i..]).value.1 ==> ReadSoFar(s, k) == None
  {
    var q := QueryStart(s);
    TokenBeforeQuery(s, i, q);
    assert s[0..i] == s[..i];
    forall k | i < k <= q
      ensures s[0..k] == s[..k] && Percent(s[0..i]) == Some(path)
      ensures Token(s[i..]) == None ==> Percent(s[..k]) == None
      ensures Token(s[i..]).Some? && k < i + Token(s[i..]).value.1 ==> Percent(s[..k]) == None
      ensures Token(s[i..]).Some? && k == i + Token(s[i..]).value.1 ==>
                Percent(s[..k]) == Some(path + [Token(s[i..]).value.0])
    {
      assert s[0..k] == s[..k];
      PercentOnward(s, 0, i, k, path);
    }
  }

  lemma ReadOnInQuery(s: Text, i: nat, path: Text, query: Text)
    requires QueryStart(s) <= i < |s| && ReadSoFar(s, i) == Some((path, query))
    ensures Token(s[i..]) == None ==> forall k :: i < k <= |s| ==> ReadSoFar(s, k) == None
    ensures Token(s[i..]).Some? ==>
              && ReadSoFar(s, i + Token(s[i..]).value.1) == Some((path, query + [Token(s[i..]).value.0]))
              && forall k :: i < k < i + Token(s[i..]).value.1 ==> ReadSoFar(s, k) == None
  {
    var q := QueryStart(s);
    assert s[q..q] == [];
    forall k | i < k <= |s|
      ensures Token(s[i..]) == None ==> ReadSoFar(s, k) == None
      ensures Token(s[i..]).Some? && k < i + Token(s[i..]).value.1 ==> ReadSoFar(s, k) == None
      ensures Token(s[i..]).Some? && k == i + Token(s[i..]).value.1 ==>
                ReadSoFar(s, k) == Some((path, query + [Token(s[i..]).value.0]))
    {
      PercentOnward(s, q, i, k, query);
    }
  }

  lemma ReadOn(s: Text, i: nat, path: Text, query: Text)
    requires i < |s| && ReadSoFar(s, i) == Some((path, query))
    ensures Token(s[i..]) == None ==> forall k :: i < k <= |s| ==> ReadSoFar(s, k) == None
    ensures Token(s[i..]).Some? ==>
              && var (c, n) := Token(s[i..]).value;
                 ReadSoFar(s, i + n) == Some(if i < QueryStart(s) then (path + [c], query) else (path, query + [c]))
                 && forall k :: i < k < i + n ==> ReadSoFar(s, k) == None
  {
    if i < QueryStart(s) {
      ReadOnInPath(s, i, path);
    } else {
      ReadOnInQuery(s, i, path, query);
    }
  }

  // ---------- The decoder ----------

  /** Reads one character; `None` is a malformed one. */
  method ReadChar(inSrc: Text, i: nat) returns (t: Option<(char, nat)>)
    requires i < |inSrc|
    ensures t == Token(inSrc[i..])
  {
    if inSrc[i] == '%' {
      if |inSrc| - i < 3 {
        return None;
      }
      if !IsHex(inSrc[i + 1]) {
        return None;
      }
      if !IsHex(inSrc[i + 2]) {
        return None;
      }
      return Some(((HexValue(inSrc[i + 1]) * 16 + HexValue(inSrc[i + 2])) as char, 3));
    } else if inSrc[i] == '\0' {
      return None;
    }
    return Some((inSrc[i], 1));
  }

  /** A question mark ends the character before it, or makes it malformed. */
  lemma TokenBeforeQuery(s: Text, i: nat, q: nat)
    requires i < q <= |s| && (q < |s| ==> s[q] == '?')
    ensures Token(s[i..q]) == Token(s[i..])
  {
  }

  lemma PercentSteps(s: Text, i: nat, q: nat, a: Text)
    requires i < q <= |s| && (q < |s| ==> s[q] == '?')
    ensures var t := Token(s[i..]);
            if t == None then Then(a, Percent(s[i..q])) == None
            else
              && i + t.value.1 <= q
              && Then(a, Percent(s[i..q])) == Then(a + [t.value.0], Percent(s[i + t.value.1..q]))
  {
    TokenBeforeQuery(s, i, q);
    var t := Token(s[i..]);
    if t.Some? {
      assert s[i..q][t.value.1..] == s[i + t.value.1..q];
      ThenThen(a, [t.value.0], Percent(s[i + t.value.1..q]));
    }
  }

  /** Writes one character of the path, over a dot segment if it is the '/' behind one. */
  method PutPathChar(ioDest: array<char>, length: nat, dotChars: nat, tempChar: char, ghost path: Text)
    returns (theLengthWritten: nat, numDotChars: nat)
    requires length < ioDest.Length
    requires if path == [] then length == dotChars == 0 && tempChar == '/' else ReadTo(path, ioDest[..length], dotChars)
    modifies ioDest
    ensures theLengthWritten <= length + 1 && theLengthWritten <= ioDest.Length
    ensures ReadTo(path + [tempChar], ioDest[..theLengthWritten], numDotChars)
  {
    theLengthWritten, numDotChars := length, dotChars;
    ghost var written := ioDest[..length];
    assert written[..length] == written;
    if path == [] {
      assert path + [tempChar] == ['/'];
      ReadFirst();
    } else if tempChar == '/' {
      SlashEndsSegment(path, written, dotChars);
    } else {
      CharGrowsSegment(path, written, dotChars, tempChar);
    }
    if tempChar == '/' && numDotChars <= 2 && numDotChars > 0 {
      theLengthWritten := theLengthWritten - (numDotChars + 1);
    }
    ioDest[theLengthWritten] := tempChar;
    assert ioDest[..theLengthWritten + 1] == written[..theLengthWritten] + [tempChar];
    if ioDest[theLengthWritten] == '.' {
      if numDotChars == 0 && ioDest[theLengthWritten - 1] == '/' {
        numDotChars := numDotChars + 1;
      } else if numDotChars > 0 && ioDest[theLengthWritten - 1] == '.' {
        numDotChars := numDotChars + 1;
      }
    } else {
      numDotChars := 0;
    }
    theLengthWritten := theLengthWritten + 1;
  }

  /** Where the query starts, and what the path and the query decode to. */
  datatype Goal = Goal(q: nat, path: Option<Text>, query: Option<Text>)

  ghost predicate IsGoal(s: Text, goal: Goal) {
    match goal
    case Goal(q, path, query) => q == QueryStart(s) && path == Percent(s[..q]) && query == Percent(s[q..])
  }

  /** What has been read: the decoded path, what has been written of it, the dots of its last segment, and the decoded
      query. */
  datatype Reading = Reading(path: Text, base: Text, dots: nat, query: Text)

  ghost predicate Progress(s: Text, goal: Goal, i: nat, inQuery: bool, reading: Reading) {
    match reading
    case Reading(path, base, dots, query) =>
      && i <= |s| && goal.q <= |s| && (inQuery <==> goal.q < i)
      && (if path == [] then i == 0 && base == [] && dots == 0 else IsPath(path) && ReadTo(path, base, dots))
      && (!inQuery ==> query == [] && Then(path, Percent(s[i..goal.q])) == goal.path)
      && (inQuery ==> path != [] && goal.path == Some(path) && Then(query, Percent(s[i..])) == goal.query)
  }

  lemma ThenEmpty(a: Text, b: Option<Text>)
    ensures Then([], b) == b && Then(a, Percent([])) == Some(a)
  {
    assert a + [] == a;
    if b.Some? {
      assert [] + b.value == b.value;
    }
  }

  lemma ProgressStarts(s: Text, goal: Goal)
    requires s != [] && s[0] == '/' && IsGoal(s, goal)
    ensures Progress(s, goal, 0, false, Reading([], [], 0, []))
  {
    assert s[0..goal.q] == s[..goal.q];
    ThenEmpty([], goal.path);
  }

  lemma BeforeQuery(s: Text, goal: Goal, i: nat)
    requires IsGoal(s, goal) && i < |s| && i <= goal.q
    ensures goal.q <= |s| && (goal.q < |s| ==> s[goal.q] == '?')
    ensures s[i] == '?' <==> i == goal.q
  {
    if i < goal.q {
      assert s[i] in s[..goal.q];
    }
  }

  /** A character of the path is read. */
  lemma ProgressInPath(s: Text, goal: Goal, i: nat, r: Reading, base: Text, dots: nat)
    requires IsGoal(s, goal) && i < |s| && s[0] == '/' && Progress(s, goal, i, false, r) && s[i] != '?'
    ensures Token(s[i..]) == None ==> goal.path == None
    ensures r.path == [] ==> Token(s[i..]) == Some(('/', 1))
    ensures Token(s[i..]).Some? && ReadTo(r.path + [Token(s[i..]).value.0], base, dots) ==>
              Progress(s, goal, i + Token(s[i..]).value.1, false,
                       Reading(r.path + [Token(s[i..]).value.0], base, dots, []))
  {
    BeforeQuery(s, goal, i);
    PercentSteps(s, i, goal.q, r.path);
    assert Token(s[i..]).Some? ==> IsPath(r.path + [Token(s[i..]).value.0]);
  }

  /** A character of the query is read, the question mark or one behind it. */
  lemma ProgressInQuery(s: Text, goal: Goal, i: nat, inQuery: bool, r: Reading)
    requires IsGoal(s, goal) && i < |s| && s[0] == '/' && Progress(s, goal, i, inQuery, r) && (inQuery || s[i] == '?')
    ensures Token(s[i..]) == None ==> goal.query == None
    ensures Token(s[i..]).Some? ==>
              Progress(s, goal, i + Token(s[i..]).value.1, true, r.(query := r.query + [Token(s[i..]).value.0]))
  {
    assert Then(r.query, Percent(s[i..])) == goal.query && goal.path == Some(r.path) && r.path != [] by {
      if !inQuery {
        BeforeQuery(s, goal, i);
        assert s[i..goal.q] == [];
        ThenEmpty(r.path, goal.query);
      }
    }
    assert s[i..|s|] == s[i..];
    PercentSteps(s, i, |s|, r.query);
    if Token(s[i..]).Some? {
      assert s[i + Token(s[i..]).value.1..|s|] == s[i + Token(s[i..]).value.1..];
    }
  }

  lemma GoalReached(s: Text, goal: Goal, inQuery: bool, r: Reading)
    requires s != [] && IsGoal(s, goal) && Progress(s, goal, |s|, inQuery, r)
    ensures IsPath(r.path) && ReadTo(r.path, r.base, r.dots)
    ensures goal.path == Some(r.path) && goal.query == Some(r.query)
  {
    assert s[|s|..] == [];
    ThenEmpty(r.path, goal.path);
    ThenEmpty(r.query, goal.query);
  }

  lemma DecodedByGoal(s: Text, goal: Goal)
    requires s != [] && s[0] == '/' && IsGoal(s, goal)
    ensures goal.path.Some? ==> IsPath(goal.path.value)
    ensures Decoded(s) == if goal.path.Some? && goal.query.Some? then Some(Finish(goal.path.value, goal.query.value)) else None
  {
    if goal.q != 0 {
      PercentOfPath(s[..goal.q]);
    }
  }

  /** The output once the dots of a dot segment at its end are taken back. */
  function TakenBack(written: Text, dots: nat): Text {
    if dots <= 2 && dots <= |written| then written[..|written| - dots] else written
  }

  /** At the end, taking back the dots gives the decoder's output. */
  lemma ProgressEnds(s: Text, goal: Goal, inQuery: bool, r: Reading, written: Text)
    requires s != [] && s[0] == '/' && IsGoal(s, goal) && Progress(s, goal, |s|, inQuery, r)
    requires written == r.base + r.query
    ensures r.dots < |written| && Decoded(s) == Some(TakenBack(written, r.dots))
  {
    GoalReached(s, goal, inQuery, r);
    OutputOf(s, goal, r, written);
  }

  lemma OutputOf(s: Text, goal: Goal, r: Reading, written: Text)
    requires s != [] && s[0] == '/' && IsGoal(s, goal) && goal.path == Some(r.path) && goal.query == Some(r.query)
    requires IsPath(r.path) && ReadTo(r.path, r.base, r.dots) && written == r.base + r.query
    ensures r.dots < |written| && Decoded(s) == Some(TakenBack(written, r.dots))
  {
    hide Decoded, Finish, IsGoal, IsPath, ReadTo;
    assert Decoded(s) == Some(Finish(r.path, r.query)) by { DecodedByGoal(s, goal); }
    assert r.dots < |written| && Finish(r.path, r.query) == TakenBack(written, r.dots) by {
      FinishIs(r.path, r.query, r.base, r.dots);
    }
  }

  lemma FinishIs(path: Text, query: Text, base: Text, dots: nat)
    requires ReadTo(path, base, dots) && IsPath(path)
    ensures dots < |base|
    ensures Finish(path, query) == if dots <= 2 then (base + query)[..|base| + |query| - dots] else base + query
  {
    var a, end := Strip(path), if IsDots(LastSegment(path)) then LastSegment(path) else [];
    assert dots < |base| by { EndStrips(path, base, dots); }
    assert base == a + end && (if end == [] then dots == 0 || 2 < dots else dots == |end| <= 2) by {
      DotsBehind(path, base, dots);
    }
    CutEnd(a, end, query, dots);
  }

  lemma CutEnd(a: Text, end: Text, query: Text, dots: nat)
    requires if end == [] then dots == 0 || 2 < dots else dots == |end| <= 2
    ensures (a + end + query)[..|a| + |query|]
            == if dots <= 2 then (a + end + query)[..|a + end| + |query| - dots] else a + end + query
  {
  }

  lemma SegmentBehind(path: Text, a: Text, segment: Text)
    requires '/' !in segment && (a == [] || IsPath(a)) && path == a + ['/'] + segment
    ensures IsPath(path) && LastSegment(path) == segment
    ensures Strip(path) == if IsDots(segment) then Kept(a) + ['/'] else Kept(a) + ['/'] + segment
  {
    assert LastSlash(path) == |a| by { LastSlashIs(a, segment); }
    assert path[|a| + 1..] == segment;
    BySegment(a, segment);
  }

  lemma DotsOfDots(segment: Text)
    requires IsDots(segment)
    ensures DotsOf(segment) == |segment|
  {
  }

  lemma DotsBehind(path: Text, base: Text, dots: nat)
    requires ReadTo(path, base, dots) && IsPath(path)
    ensures base == Strip(path) + (if IsDots(LastSegment(path)) then LastSegment(path) else [])
    ensures IsDots(LastSegment(path)) ==> dots == |LastSegment(path)|
    ensures !IsDots(LastSegment(path)) ==> dots == 0 || 2 < dots
  {
    var a, segment :| InSegment(path, a, segment, base, dots);
    hide *;
    SegmentDots(path, a, segment, base, dots);
  }

  lemma SegmentDots(path: Text, a: Text, segment: Text, base: Text, dots: nat)
    requires InSegment(path, a, segment, base, dots)
    ensures IsPath(path)
    ensures base == Strip(path) + (if IsDots(LastSegment(path)) then LastSegment(path) else [])
    ensures IsDots(LastSegment(path)) ==> dots == |LastSegment(path)|
    ensures !IsDots(LastSegment(path)) ==> dots == 0 || 2 < dots
  {
    hide LastSegment, Strip, Kept, DotsOf, IsPath;
    SegmentBehind(path, a, segment);
    DotSegmentHasOneOrTwo(segment);
    if IsDots(segment) {
      DotsOfDots(segment);
    }
  }

  lemma ByQuery(s: Text, goal: Goal, i: nat, inQuery: bool, r: Reading)
    requires Progress(s, goal, i, inQuery, r)
    ensures !inQuery ==> r.query == [] && r.base + r.query == r.base
    ensures r.path == [] ==> r.base == [] && r.dots == 0 && !inQuery
    ensures r.path != [] ==> ReadTo(r.path, r.base, r.dots)
  {
  }

  lemma InQueryFrom(s: Text, goal: Goal, i: nat, inQuery: bool, r: Reading)
    requires IsGoal(s, goal) && i < |s| && Progress(s, goal, i, inQuery, r)
    ensures inQuery || s[i] == '?' <==> goal.q <= i
  {
    if !inQuery {
      BeforeQuery(s, goal, i);
    }
  }

  method PutQueryChar(ioDest: array<char>, length: nat, tempChar: char, ghost reading: Reading)
    requires length < ioDest.Length && ioDest[..length] == reading.base + reading.query
    modifies ioDest
    ensures ioDest[..length + 1] == reading.base + (reading.query + [tempChar])
  {
    ioDest[length] := tempChar;
    assert ioDest[..length + 1] == reading.base + reading.query + [tempChar];
  }

  /** One round of the decoding loop: reads a character and writes it. */
  method DecodeChar(inSrc: Text, i: nat, ioDest: array<char>, length: nat, dotChars: nat, wasInQuery: bool,
                    ghost goal: Goal, ghost reading: Reading)
    returns (ok: bool, next: nat, theLengthWritten: nat, numDotChars: nat, inQuery: bool, ghost now: Reading)
    requires IsGoal(inSrc, goal) && i < |inSrc| && inSrc[0] == '/'
    requires Progress(inSrc, goal, i, wasInQuery, reading) && dotChars == reading.dots
    requires length < ioDest.Length && ioDest[..length] == reading.base + reading.query
    modifies ioDest
    ensures !ok ==> goal.path == None || goal.query == None
    ensures ok <==> Token(inSrc[i..]).Some?
    ensures ok ==>
              && next == i + Token(inSrc[i..]).value.1
              && var c := [Token(inSrc[i..]).value.0];
                 (now.path, now.query) == if i < goal.q then (reading.path + c, reading.query)
                                          else (reading.path, reading.query + c)
    ensures ok ==>
              && i < next <= |inSrc| && theLengthWritten <= length + 1
              && Progress(inSrc, goal, next, inQuery, now) && numDotChars == now.dots
              && ioDest[..theLengthWritten] == now.base + now.query
  {
    hide *;
    InQueryFrom(inSrc, goal, i, wasInQuery, reading);
    ok, next, theLengthWritten, numDotChars, inQuery, now := true, i, length, dotChars, wasInQuery, reading;
    if inSrc[i] == '?' {
      inQuery := true;
    }
    ByQuery(inSrc, goal, i, wasInQuery, reading);
    var token := ReadChar(inSrc, i);
    if token == None {
      ok := false;
      if inQuery { ProgressInQuery(inSrc, goal, i, wasInQuery, reading); } else { ProgressInPath(inSrc, goal, i, reading, [], 0); }
      return;
    }
    var (tempChar, taken) := token.value;
    next := i + taken;
    if !inQuery {
      assert reading.path == [] ==> tempChar == '/' by { ProgressInPath(inSrc, goal, i, reading, [], 0); }
      theLengthWritten, numDotChars := PutPathChar(ioDest, length, dotChars, tempChar, reading.path);
      now := Reading(reading.path + [tempChar], ioDest[..theLengthWritten], numDotChars, []);
      assert Progress(inSrc, goal, next, false, now) by {
        ProgressInPath(inSrc, goal, i, reading, ioDest[..theLengthWritten], numDotChars);
      }
      assert now.base + [] == now.base;
    } else {
      now := reading.(query := reading.query + [tempChar]);
      assert Progress(inSrc, goal, next, true, now) by { ProgressInQuery(inSrc, goal, i, wasInQuery, reading); }
      PutQueryChar(ioDest, length, tempChar, reading);
      theLengthWritten := theLengthWritten + 1;
    }
  }

  /** What has been written at a point of the decoding loop fills the room there is exactly when the text says so. */
  lemma RoomAt(s: Text, goal: Goal, i: nat, inQuery: bool, r: Reading, room: nat)
    requires i < |s| && Progress(s, goal, i, inQuery, r) && ReadSoFar(s, i) == Some((r.path, r.query))
    ensures FullAt(s, i, room) <==> room == |r.base + r.query|
  {
    if r.path != [] {
      DotsBehind(r.path, r.base, r.dots);
    }
  }

  /** There was room before each of the first characters. */
  ghost predicate RoomBefore(s: Text, i: nat, room: nat) {
    forall k :: 0 <= k < i ==> !FullAt(s, k, room)
  }

  lemma NothingRead(s: Text, goal: Goal, room: nat)
    requires IsGoal(s, goal)
    ensures goal.q == QueryStart(s) && ReadSoFar(s, 0) == Some(([], [])) && RoomBefore(s, 0, room)
  {
    assert s[..0] == [];
  }

  /** One character on, or at a malformed one, there is room still. */
  lemma RoomOnward(s: Text, i: nat, path: Text, query: Text, room: nat)
    requires i < |s| && ReadSoFar(s, i) == Some((path, query)) && RoomBefore(s, i, room)
    ensures FullAt(s, i, room) ==> Overflows(s, room)
    ensures !FullAt(s, i, room) && Token(s[i..]) == None ==> !Overflows(s, room)
    ensures !FullAt(s, i, room) && Token(s[i..]).Some? ==>
              && var (c, n) := Token(s[i..]).value;
                 ReadSoFar(s, i + n) == Some(if i < QueryStart(s) then (path + [c], query) else (path, query + [c]))
                 && RoomBefore(s, i + n, room)
  {
    ReadOn(s, i, path, query);
  }

  lemma RoomToTheEnd(s: Text, room: nat)
    requires RoomBefore(s, |s|, room)
    ensures !Overflows(s, room)
  {
  }

  /** The decoding loop. It runs out of room exactly when the text overflows it. */
  method DecodeChars(inSrc: Text, ioDest: array<char>, inDestLen: nat, ghost goal: Goal)
    returns (r: UrlResult, numDotChars: nat, ghost inQuery: bool, ghost reading: Reading)
    requires inSrc != [] && inSrc[0] == '/' && inDestLen <= ioDest.Length && IsGoal(inSrc, goal)
    modifies ioDest
    ensures r.Length? ==>
              && r.n <= inDestLen && Progress(inSrc, goal, |inSrc|, inQuery, reading) && numDotChars == reading.dots
              && ioDest[..r.n] == reading.base + reading.query
    ensures r.BadURLFormat? ==> goal.path == None || goal.query == None
    ensures r.NotEnoughSpace? <==> Overflows(inSrc, inDestLen)
    ensures r.NotEnoughSpace? ==> inDestLen < |inSrc|
  {
    hide *;
    var theLengthWritten: nat, query, i: nat, ok := 0, false, 0, true;
    numDotChars, inQuery, reading := 0, false, Reading([], [], 0, []);
    ProgressStarts(inSrc, goal);
    NothingRead(inSrc, goal, inDestLen);
    while i < |inSrc|
      invariant i <= |inSrc| && Progress(inSrc, goal, i, query, reading) && numDotChars == reading.dots
      invariant theLengthWritten <= i && theLengthWritten <= inDestLen
      invariant ioDest[..theLengthWritten] == reading.base + reading.query
      invariant ReadSoFar(inSrc, i) == Some((reading.path, reading.query)) && RoomBefore(inSrc, i, inDestLen)
    {
      assert FullAt(inSrc, i, inDestLen) <==> theLengthWritten == inDestLen by {
        RoomAt(inSrc, goal, i, query, reading, inDestLen);
        assert |ioDest[..theLengthWritten]| == theLengthWritten;
      }
      RoomOnward(inSrc, i, reading.path, reading.query, inDestLen);
      if theLengthWritten == inDestLen {
        return NotEnoughSpace, numDotChars, query, reading;
      }
      ok, i, theLengthWritten, numDotChars, query, reading :=
        DecodeChar(inSrc, i, ioDest, theLengthWritten, numDotChars, query, goal, reading);
      if !ok {
        return BadURLFormat, numDotChars, query, reading;
      }
    }
    RoomToTheEnd(inSrc, inDestLen);
    return Length(theLengthWritten), numDotChars, query, reading;
  }

  /** Decodes a URL. It finds too little space exactly when the room is full before the last character, with nothing
      malformed up to there; with room for as many characters as the source has, there is always enough. */
  method DecodeURL(inSrc: Text, ioDest: array<char>, inDestLen: nat) returns (r: UrlResult)
    requires inDestLen <= ioDest.Length
    modifies ioDest
    ensures r.NotEnoughSpace? <==> inSrc != [] && inSrc[0] == '/' && Overflows(inSrc, inDestLen)
    ensures r.NotEnoughSpace? ==> inDestLen < |inSrc|
    ensures r.BadURLFormat? <==> !r.NotEnoughSpace? && Decoded(inSrc) == None
    ensures r.Length? ==> r.n <= inDestLen && Decoded(inSrc) == Some(ioDest[..r.n])
  {
    if |inSrc| == 0 || inSrc[0] != '/' {
      return BadURLFormat;
    }
    var numDotChars;
    ghost var inQuery, reading;
    ghost var q := QueryStart(inSrc);
    ghost var goal := Goal(q, Percent(inSrc[..q]), Percent(inSrc[q..]));
    r, numDotChars, inQuery, reading := DecodeChars(inSrc, ioDest, inDestLen, goal);
    if r.BadURLFormat? {
      DecodedByGoal(inSrc, goal);
    }
    if r.Length? {
      hide IsGoal, Progress, Decoded;
      ghost var written := ioDest[..r.n];
      assert numDotChars < |written| && Decoded(inSrc) == Some(TakenBack(written, numDotChars)) by {
        ProgressEnds(inSrc, goal, inQuery, reading, written);
      }
      if numDotChars <= 2 {
        r := Length(r.n - numDotChars);
      }
      assert ioDest[..r.n] == TakenBack(written, numDotChars);
    }
  }

  /** For every well-formed URL the decoder strips the path and leaves the query exactly when there is no query or the
      path does not end in a dot segment. Without a query no dot segment survives. */
  lemma DecodeStripsPath(s: Text, path: Text, query: Text)
    requires s != [] && s[0] == '/'
    requires Percent(s[..QueryStart(s)]) == Some(path) && Percent(s[QueryStart(s)..]) == Some(query)
    ensures IsPath(path)
    ensures Decoded(s) == Some(Strip(path) + query) <==> QueryStart(s) == |s| || !IsDots(LastSegment(path))
    ensures QueryStart(s) == |s| ==> Decoded(s).Some? && !HasDotSegment(Decoded(s).value)
  {
    hide *;
    var q := QueryStart(s);
    var goal := Goal(q, Some(path), Some(query));
    assert IsPath(path) && Decoded(s) == Some(Finish(path, query)) by { DecodedByGoal(s, goal); }
    assert (q == |s| <==> query == []) && (query != [] ==> query[0] == '?') by { QueryFirst(s[q..], query); }
    assert Finish(path, query) == Strip(path) + query <==> query == [] || !IsDots(LastSegment(path)) by {
      FinishStripsPath(path, query);
    }
    var stripped := Strip(path);
    assert stripped + [] == stripped;
    assert !HasDotSegment(stripped) by { StripRemovesDotSegments(path); }
  }

  lemma QueryFirst(t: Text, query: Text)
    requires (t == [] || t[0] == '?') && Percent(t) == Some(query)
    ensures (t == [] <==> query == []) && (query != [] ==> query[0] == '?')
  {
  }

  ghost predicate Plain(s: Text) {
    forall i :: 0 <= i < |s| ==> s[i] != '%' && s[i] != '\0'
  }

  /** A query behind a dot segment loses its end, and the dot segment stays. */
  lemma QueryBehindDotSegment(query: Text)
    requires 2 <= |query| && query[0] == '?' && Plain(query)
    ensures Decoded("/.." + query) == Some("/.." + query[..|query| - 2])
  {
    SplitsAtQuery("/..", query);
    FinishParentOfRoot(query);
  }

  lemma SplitsAtQuery(path: Text, query: Text)
    requires IsPath(path) && query != [] && query[0] == '?' && '?' !in path && Plain(path) && Plain(query)
    ensures Decoded(path + query) == Some(Finish(path, query))
  {
    var s := path + query;
    assert s[..|path|] == path && s[|path|..] == query;
    assert QueryStart(s) == |path| by {
      assert s[|path|] == '?' && forall k :: 0 <= k < |path| ==> s[k] in path;
      assert forall k :: 0 <= k < QueryStart(s) ==> s[k] in s[..QueryStart(s)];
    }
    assert Percent(path) == Some(path) by { PercentOfPlain(path); }
    assert Percent(query) == Some(query) by { PercentOfPlain(query); }
    DecodedByGoal(s, Goal(|path|, Some(path), Some(query)));
  }

  lemma FinishParentOfRoot(query: Text)
    requires 2 <= |query|
    ensures IsPath("/..") && Finish("/..", query) == "/.." + query[..|query| - 2]
  {
    ParentOfRoot();
    assert ("/" + ".." + query)[..1 + |query|] == "/.." + query[..|query| - 2];
  }

  lemma ParentOfRoot()
    ensures IsPath("/..") && LastSegment("/..") == ".." && Strip("/..") == "/"
  {
    assert [] + ['/'] + ".." == "/.." && Kept([]) == [] && Kept([]) + ['/'] == "/";
    LastSlashIs([], "..");
    BySegment([], "..");
    assert "/.."[1..] == "..";
  }

  /** Text without percent signs and NULs decodes to itself. */
  lemma {:induction false} PercentOfPlain(s: Text)
    requires Plain(s)
    ensures Percent(s) == Some(s)
  {
    if s != [] {
      PercentOfPlain(s[1..]);
      assert s == [s[0]] + s[1..];
    }
  }

  // ---------- The encoder ----------

  /** The 7-bit characters the encoder escapes. */
  predicate IsIllegal(c: char) {
    c in {' ', '\r', '\n', '\t', '<', '>', '#', '%', '{', '}', '|', '\\', '^', '~', '[', ']', '`', ';', '?', '@', '=', '&', '$', '"'}
  }

  function HexDigit(n: nat): (c: char)
    requires n < 16
    ensures IsHex(c) && HexValue(c) == n
  {
    if n < 10 then ('0' as int + n) as char else ('A' as int + (n - 10)) as char
  }

  /** A percent sign and the number in hexadecimal without leading zeros, in three bytes: below sixteen the third byte is
      the NUL that ends the printed text. */
  function Escape(c: char): (e: Text)
    requires c as int < 256
    ensures |e| == 3
  {
    if c as int < 16 then ['%', HexDigit(c as int), '\0']
    else ['%', HexDigit(c as int / 16), HexDigit(c as int % 16)]
  }

  function EncodeChar(c: char): (e: Text)
    requires c as int < 256
    ensures 1 <= |e| <= 3
  {
    if c as int > 127 || IsIllegal(c) then Escape(c) else [c]
  }

  ghost predicate Bytes(s: Text) {
    forall i :: 0 <= i < |s| ==> s[i] as int < 256
  }

  function Encoded(s: Text): Text
    requires Bytes(s)
  {
    if s == [] then [] else EncodeChar(s[0]) + Encoded(s[1..])
  }

  lemma {:induction false} EncodedConcat(a: Text, b: Text)
    requires Bytes(a) && Bytes(b)
    ensures Bytes(a + b) && Encoded(a + b) == Encoded(a) + Encoded(b)
  {
    if a == [] {
      assert a + b == b;
    } else {
      var x, y, z := EncodeChar(a[0]), Encoded(a[1..]), Encoded(b);
      assert Encoded(a + b) == x + Encoded(a[1..] + b) by {
        assert (a + b)[0] == a[0] && (a + b)[1..] == a[1..] + b;
      }
      EncodedConcat(a[1..], b);
      assert x + (y + z) == x + y + z;
    }
  }

  lemma EncodedPrefix(s: Text, i: nat)
    requires Bytes(s) && i < |s|
    ensures Encoded(s[..i + 1]) == Encoded(s[..i]) + EncodeChar(s[i])
    ensures |Encoded(s[..i + 1])| <= |Encoded(s)|
  {
    assert s[..i + 1] == s[..i] + [s[i]];
    EncodedConcat(s[..i], [s[i]]);
    assert [s[i]][1..] == [];
    assert s == s[..i + 1] + s[i + 1..];
    EncodedConcat(s[..i + 1], s[i + 1..]);
  }

  method PutEscape(ioDest: array<char>, length: nat, c: char)
    requires c as int < 256 && length + 3 <= ioDest.Length && (16 <= c as int ==> length + 3 < ioDest.Length)
    modifies ioDest
    ensures ioDest[..length + 3] == old(ioDest[..length]) + Escape(c)
  {
    var e := Escape(c);
    ioDest[length], ioDest[length + 1], ioDest[length + 2] := e[0], e[1], e[2];
    if c as int >= 16 {
      ioDest[length + 3] := '\0';
    }
  }

  method PutPlain(ioDest: array<char>, length: nat, c: char)
    requires length < ioDest.Length
    modifies ioDest
    ensures ioDest[..length + 1] == old(ioDest[..length]) + [c]
  {
    ioDest[length] := c;
  }

  /** The encoding of some first characters ends in an escape of two digits just where the room ends: the NUL that ends
      the printed escape goes into the byte behind. */
  ghost predicate WritesBehind(s: Text, room: nat)
    requires Bytes(s)
  {
    exists i :: 0 <= i < |s| && |Encoded(s[..i + 1])| == room && |EncodeChar(s[i])| == 3 && 16 <= s[i] as int
  }

  /** Encodes a text. The buffer has one more byte than is encoded into where that is written. */
  method EncodeURL(inSrc: Text, ioDest: array<char>, inDestLen: nat) returns (r: UrlResult)
    requires Bytes(inSrc) && inDestLen <= ioDest.Length && (WritesBehind(inSrc, inDestLen) ==> inDestLen < ioDest.Length)
    modifies ioDest
    ensures r.NotEnoughSpace? <==> inDestLen < |Encoded(inSrc)|
    ensures !r.NotEnoughSpace? ==> r == Length(|Encoded(inSrc)|) && ioDest[..r.n] == Encoded(inSrc)
  {
    var theLengthWritten: nat, i := 0, 0;
    while i < |inSrc|
      invariant i <= |inSrc| && theLengthWritten == |Encoded(inSrc[..i])| <= inDestLen
      invariant ioDest[..theLengthWritten] == Encoded(inSrc[..i])
    {
      EncodedPrefix(inSrc, i);
      if theLengthWritten == inDestLen {
        return NotEnoughSpace;
      }
      if inSrc[i] as int > 127 || IsIllegal(inSrc[i]) {
        if inDestLen - theLengthWritten < 3 {
          return NotEnoughSpace;
        }
        assert |EncodeChar(inSrc[i])| == 3 && |Encoded(inSrc[..i + 1])| == theLengthWritten + 3;
        PutEscape(ioDest, theLengthWritten, inSrc[i]);
        theLengthWritten := theLengthWritten + 3;
      } else {
        PutPlain(ioDest, theLengthWritten, inSrc[i]);
        theLengthWritten := theLengthWritten + 1;
      }
      i := i + 1;
    }
    assert inSrc[..|inSrc|] == inSrc;
    return Length(theLengthWritten);
  }

  // ---------- The round trip ----------

  /** The characters whose encoding the decoder does not read back. */
  predicate IsLost(c: char) {
    c == '\t' || c == '\n' || c == '\r' || c == '\0'
  }

  lemma TokenOfEncoded(c: char, rest: Text)
    requires c as int < 256
    ensures Token(EncodeChar(c) + rest) == if IsLost(c) then None else Some((c, |EncodeChar(c)|))
    ensures '?' !in EncodeChar(c)
  {
    var s := EncodeChar(c) + rest;
    assert s[0] == EncodeChar(c)[0];
    if |EncodeChar(c)| == 3 {
      assert s[1] == EncodeChar(c)[1] && s[2] == EncodeChar(c)[2];
      assert c as int == c as int / 16 * 16 + c as int % 16;
    }
  }

  lemma {:induction false} PercentOfEncoded(p: Text)
    requires Bytes(p)
    ensures Percent(Encoded(p)) == if exists i :: 0 <= i < |p| && IsLost(p[i]) then None else Some(p)
    ensures '?' !in Encoded(p)
  {
    if p != [] {
      var c, rest := p[0], Encoded(p[1..]);
      PercentOfEncoded(p[1..]);
      TokenOfEncoded(c, rest);
      assert (EncodeChar(c) + rest)[|EncodeChar(c)|..] == rest;
      assert p == [c] + p[1..];
      assert forall i :: 0 <= i < |p| ==> p[i] == if i == 0 then c else p[1..][i - 1];
    }
  }

  /** Decoding the encoding of a path gives the stripped path back exactly when the path begins with a '/' and has no
      tab, line end or NUL in it; of any other text it gives nothing. */
  lemma DecodeUndoesEncode(p: Text)
    requires Bytes(p)
    ensures Decoded(Encoded(p))
            == if IsPath(p) && forall i :: 0 <= i < |p| ==> !IsLost(p[i]) then Some(Strip(p)) else None
  {
    var s := Encoded(p);
    var percent := Percent(s);
    assert percent == (if exists i :: 0 <= i < |p| && IsLost(p[i]) then None else Some(p)) && '?' !in s by {
      PercentOfEncoded(p);
    }
    assert p != [] ==> s[0] == EncodeChar(p[0])[0];
    assert QueryStart(s) == |s| by { assert forall k :: 0 <= k < |s| ==> s[k] in s; }
    if s != [] && s[0] == '/' {
      assert s[..|s|] == s && s[|s|..] == [];
      assert Decoded(s) == if percent.Some? then Some(Finish(p, [])) else None by {
        DecodedByGoal(s, Goal(|s|, percent, Some([])));
      }
      if percent.Some? {
        assert Finish(p, []) == Strip(p) by {
          FinishStripsPath(p, []);
          assert Strip(p) + [] == Strip(p);
        }
      }
    }
  }

  /** A path with a tab in it is encoded as the decoder does not accept it. */
  lemma TabIsLost()
    ensures Bytes("/\t") && Decoded(Encoded("/\t")) == None
  {
    var p := "/\t";
    assert IsLost(p[1]);
    DecodeUndoesEncode(p);
  }
}
