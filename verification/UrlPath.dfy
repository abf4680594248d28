/** Dot segments of a path, as DecodeURL strips them: CommonUtilitiesLib/StringTranslator.cpp. */
module UrlPath {
  import opened Common

  predicate IsPath(p: Text) {
    p != [] && p[0] == '/'
  }

  /** The last '/' of a path. */
  function LastSlash(p: Text): (j: nat)
    requires IsPath(p)
    ensures j < |p| && p[j] == '/' && '/' !in p[j + 1..]
    decreases |p|
  {
    var n := |p| - 1;
    if p[n] == '/' then n
    else
      var j := LastSlash(p[..n]);
      assert p[j + 1..] == p[..n][j + 1..] + [p[n]];
      j
  }

  lemma LastSlashIs(a: Text, segment: Text)
    requires '/' !in segment && (a == [] || IsPath(a))
    ensures IsPath(a + ['/'] + segment) && LastSlash(a + ['/'] + segment) == |a|
  {
    var p := a + ['/'] + segment;
    var j := LastSlash(p);
    assert p[|a|] == '/' && p[|a| + 1..] == segment;
    assert forall k :: j < k < |p| ==> p[k] in p[j + 1..];
    assert forall k :: |a| < k < |p| ==> p[k] in p[|a| + 1..];
  }

  predicate IsDots(segment: Text) {
    segment == "." || segment == ".."
  }

  /** The segments of a path whose segments are all complete, without the dot segments. */
  function Kept(p: Text): Text
    requires p == [] || IsPath(p)
    decreases |p|
  {
    if p == [] then []
    else
      var j := LastSlash(p);
      var before := p[..j];
      assert j != 0 ==> before[0] == '/';
      Kept(before) + (if IsDots(p[j + 1..]) then [] else p[j..])
  }

  /** The path without its dot segments; one at the end leaves its '/'. */
  function Strip(p: Text): Text
    requires IsPath(p)
  {
    var j := LastSlash(p);
    Kept(p[..j]) + (if IsDots(p[j + 1..]) then ['/'] else p[j..])
  }

  predicate AllDots(segment: Text) {
    forall i :: 0 <= i < |segment| ==> segment[i] == '.'
  }

  /** The number of dots of a segment of nothing but dots. */
  function DotsOf(segment: Text): nat {
    if AllDots(segment) then |segment| else 0
  }

  lemma DotSegmentHasOneOrTwo(segment: Text)
    ensures IsDots(segment) <==> 1 <= DotsOf(segment) <= 2
  {
    if 1 <= DotsOf(segment) <= 2 {
      assert segment == if |segment| == 1 then "." else "..";
    }
  }

  lemma DotsGrow(segment: Text, c: char)
    ensures DotsOf(segment + [c]) == if c == '.' && AllDots(segment) then |segment| + 1 else 0
  {
    var s := segment + [c];
    assert s[|segment|] == c && forall i :: 0 <= i < |segment| ==> s[i] == segment[i];
  }

  /** A path by its last segment. */
  lemma BySegment(a: Text, segment: Text)
    requires '/' !in segment && (a == [] || IsPath(a))
    ensures var p := a + ['/'] + segment;
            && IsPath(p)
            && Kept(p) == (if IsDots(segment) then Kept(a) else Kept(a) + ['/'] + segment)
            && Strip(p) == (if IsDots(segment) then Kept(a) + ['/'] else Kept(a) + ['/'] + segment)
  {
    var p := a + ['/'] + segment;
    assert IsPath(p) && LastSlash(p) == |a| by { LastSlashIs(a, segment); }
    assert p[..|a|] == a && p[|a| + 1..] == segment && p[|a|..] == ['/'] + segment;
    assert Kept(a) + (['/'] + segment) == Kept(a) + ['/'] + segment;
  }

  lemma SplitPath(p: Text) returns (a: Text, segment: Text)
    requires IsPath(p)
    ensures p == a + ['/'] + segment && '/' !in segment && (a == [] || IsPath(a))
  {
    var j := LastSlash(p);
    a, segment := p[..j], p[j + 1..];
  }

  /** What the decoder has written once a path has been read up to its last segment as it stands, and the number of
      dots when that segment is nothing but dots. */
  ghost predicate InSegment(p: Text, a: Text, segment: Text, written: Text, dots: nat) {
    && '/' !in segment && (a == [] || IsPath(a)) && p == a + ['/'] + segment
    && written == Kept(a) + ['/'] + segment && dots == DotsOf(segment)
  }

  ghost predicate ReadTo(p: Text, written: Text, dots: nat) {
    exists a, segment :: InSegment(p, a, segment, written, dots)
  }

  lemma ReadFirst()
    ensures ReadTo(['/'], ['/'], 0)
  {
    assert InSegment(['/'], [], [], ['/'], 0);
  }

  lemma AtSlash(p: Text, w: Text)
    requires IsPath(p) && w == Kept(p)
    ensures ReadTo(p + ['/'], w + ['/'], 0)
  {
    assert p + ['/'] + [] == p + ['/'] && w + ['/'] + [] == w + ['/'];
    assert InSegment(p + ['/'], p, [], w + ['/'], 0);
  }

  /** A '/' takes back a dot segment before it. */
  lemma SlashEndsSegment(p: Text, written: Text, dots: nat)
    requires ReadTo(p, written, dots)
    ensures 1 <= dots <= 2 ==> dots < |written|
    ensures ReadTo(p + ['/'], (if 1 <= dots <= 2 then written[..|written| - dots - 1] else written) + ['/'], 0)
  {
    var a, segment :| InSegment(p, a, segment, written, dots);
    var kept, w := Kept(a), if 1 <= dots <= 2 then written[..|written| - dots - 1] else written;
    assert w == if IsDots(segment) then kept else kept + ['/'] + segment by { DotSegmentHasOneOrTwo(segment); }
    assert w == Kept(p) && IsPath(p) by { BySegment(a, segment); }
    AtSlash(p, w);
  }

  lemma SegmentGrows(kept: Text, segment: Text, c: char)
    requires '/' !in segment
    ensures var w := kept + ['/'] + segment;
            && kept + ['/'] + (segment + [c]) == w + [c]
            && (DotsOf(segment) == 0 || w[|w| - 1] == '.')
            && DotsOf(segment + [c]) == (if c != '.' then 0
                                         else if DotsOf(segment) != 0 || w[|w| - 1] == '/' then DotsOf(segment) + 1 else 0)
  {
    var w := kept + ['/'] + segment;
    assert w[|w| - 1] == if segment == [] then '/' else segment[|segment| - 1];
    DotsGrow(segment, c);
  }

  /** Any other character goes behind, and counts when it is a dot behind a '/' or behind nothing but dots. */
  lemma CharGrowsSegment(p: Text, written: Text, dots: nat, c: char)
    requires ReadTo(p, written, dots) && c != '/'
    ensures written != [] && (dots == 0 || written[|written| - 1] == '.')
    ensures ReadTo(p + [c], written + [c],
                   if c != '.' then 0 else if dots != 0 || written[|written| - 1] == '/' then dots + 1 else 0)
  {
    var a, segment :| InSegment(p, a, segment, written, dots);
    SegmentGrows(Kept(a), segment, c);
    assert p + [c] == a + ['/'] + (segment + [c]);
    assert InSegment(p + [c], a, segment + [c], written + [c], DotsOf(segment + [c]));
  }

  lemma WithoutEnd(a: Text, b: Text)
    ensures (a + b)[..|a + b| - |b|] == a
  {
  }

  /** Taking back the dots of a dot segment at the end leaves the stripped path. */
  lemma EndStrips(p: Text, written: Text, dots: nat)
    requires ReadTo(p, written, dots)
    ensures IsPath(p) && dots < |written|
    ensures 1 <= dots <= 2 <==> IsDots(p[LastSlash(p) + 1..])
    ensures Strip(p) == if 1 <= dots <= 2 then written[..|written| - dots] else written
  {
    var a, segment :| InSegment(p, a, segment, written, dots);
    var kept := Kept(a);
    EndOfSegment(p, a, segment, kept);
    SegmentEnds(kept, segment, written, dots);
  }

  lemma EndOfSegment(p: Text, a: Text, segment: Text, kept: Text)
    requires '/' !in segment && (a == [] || IsPath(a)) && p == a + ['/'] + segment && kept == Kept(a)
    ensures IsPath(p) && p[LastSlash(p) + 1..] == segment
    ensures Strip(p) == if IsDots(segment) then kept + ['/'] else kept + ['/'] + segment
  {
    BySegment(a, segment);
    LastSlashIs(a, segment);
    assert p[|a| + 1..] == segment;
  }

  lemma SegmentEnds(kept: Text, segment: Text, written: Text, dots: nat)
    requires written == kept + ['/'] + segment && dots == DotsOf(segment)
    ensures dots < |written| && (1 <= dots <= 2 <==> IsDots(segment))
    ensures (if 1 <= dots <= 2 then written[..|written| - dots] else written)
            == if IsDots(segment) then kept + ['/'] else kept + ['/'] + segment
  {
    DotSegmentHasOneOrTwo(segment);
    WithoutEnd(kept + ['/'], segment);
  }

  // ---------- What stripping means ----------

  /** Some segment of the path is "." or "..". */
  ghost predicate HasDotSegment(p: Text) {
    exists i, j :: DotSegmentAt(p, i, j)
  }

  ghost predicate DotSegmentAt(p: Text, i: int, j: int) {
    && 0 <= i < j <= |p| && p[i] == '/' && IsDots(p[i + 1..j]) && (j == |p| || p[j] == '/')
  }

  lemma DotSegmentIn(a: Text, segment: Text)
    requires '/' !in segment && (a == [] || IsPath(a))
    ensures HasDotSegment(a + ['/'] + segment) <==> IsDots(segment) || (a != [] && HasDotSegment(a))
  {
    var p := a + ['/'] + segment;
    assert p[|a|] == '/' && p[|a| + 1..] == segment && forall k :: 0 <= k < |a| ==> p[k] == a[k];
    if IsDots(segment) {
      assert DotSegmentAt(p, |a|, |p|);
    }
    if HasDotSegment(a) {
      var i, j :| DotSegmentAt(a, i, j);
      assert p[i + 1..j] == a[i + 1..j];
      assert DotSegmentAt(p, i, j);
    }
    if HasDotSegment(p) {
      var i, j :| DotSegmentAt(p, i, j);
      DotSegmentBetween(a, segment, i, j);
    }
  }

  lemma DotSegmentBetween(a: Text, segment: Text, i: int, j: int)
    requires '/' !in segment && DotSegmentAt(a + ['/'] + segment, i, j)
    ensures IsDots(segment) || DotSegmentAt(a, i, j)
  {
    var p := a + ['/'] + segment;
    assert forall k :: |a| < k < |p| ==> p[k] == segment[k - |a| - 1];
    var d := p[i + 1..j];
    assert forall k :: i < k < j ==> p[k] == d[k - i - 1];
    assert forall k :: 0 <= k < |d| ==> d[k] == '.';
    if i < |a| {
      assert j <= |a| by { assert p[|a|] == '/'; }
      assert a[i + 1..j] == d;
    } else {
      assert i == |a|;
      assert j == |p|;
      assert d == segment;
    }
  }

  lemma {:induction false} KeptHasNoDotSegment(p: Text)
    requires p == [] || IsPath(p)
    ensures Kept(p) == [] || IsPath(Kept(p))
    ensures !HasDotSegment(Kept(p))
    ensures !HasDotSegment(p) ==> Kept(p) == p
    decreases |p|
  {
    if p != [] {
      var a, segment := SplitPath(p);
      KeptHasNoDotSegment(a);
      BySegment(a, segment);
      DotSegmentIn(a, segment);
      if !IsDots(segment) {
        DotSegmentIn(Kept(a), segment);
      }
    }
  }

  /** A stripped path has no dot segment, and a path without one is left as it is; hence stripping twice is stripping
      once. */
  lemma StripRemovesDotSegments(p: Text)
    requires IsPath(p)
    ensures IsPath(Strip(p)) && !HasDotSegment(Strip(p))
    ensures Strip(p) == p <==> !HasDotSegment(p)
    ensures Strip(Strip(p)) == Strip(p)
  {
    StripOnce(p);
    StripOnce(Strip(p));
  }

  lemma StripOnce(p: Text)
    requires IsPath(p)
    ensures IsPath(Strip(p)) && !HasDotSegment(Strip(p))
    ensures !HasDotSegment(p) ==> Strip(p) == p
  {
    var a, segment := SplitPath(p);
    var kept := Kept(a);
    assert Strip(p) == kept + ['/'] + (if IsDots(segment) then [] else segment) by {
      BySegment(a, segment);
      assert kept + ['/'] + [] == kept + ['/'];
    }
    assert (kept == [] || IsPath(kept)) && !HasDotSegment(kept) && (!HasDotSegment(a) ==> kept == a) by {
      KeptHasNoDotSegment(a);
    }
    DotSegmentIn(a, segment);
    DotSegmentIn(kept, if IsDots(segment) then [] else segment);
  }

  // ---------- Paths by their segments ----------

  ghost predicate AreSegments(segments: seq<Text>) {
    forall i :: 0 <= i < |segments| ==> '/' !in segments[i]
  }

  /** A '/' and the segment, for each of them. */
  function PathOf(segments: seq<Text>): (p: Text)
    ensures if segments == [] then p == [] else IsPath(p)
  {
    if segments == [] then []
    else PathOf(segments[..|segments| - 1]) + ['/'] + segments[|segments| - 1]
  }

  function NonDots(segments: seq<Text>): (r: seq<Text>)
    ensures |r| <= |segments|
  {
    if segments == [] then []
    else
      var last := segments[|segments| - 1];
      NonDots(segments[..|segments| - 1]) + (if IsDots(last) then [] else [last])
  }

  lemma PathOfMore(segments: seq<Text>, last: Text)
    ensures PathOf(segments + [last]) == PathOf(segments) + ['/'] + last
  {
    assert (segments + [last])[..|segments|] == segments;
  }

  lemma {:induction false} KeptBySegments(segments: seq<Text>)
    requires AreSegments(segments)
    ensures Kept(PathOf(segments)) == PathOf(NonDots(segments))
    decreases |segments|
  {
    if segments != [] {
      var front, last := segments[..|segments| - 1], segments[|segments| - 1];
      KeptBySegments(front);
      BySegment(PathOf(front), last);
      PathOfMore(NonDots(front), last);
      assert NonDots(front) + [] == NonDots(front);
    }
  }

  /** Every path is that of some segments. */
  lemma {:induction false} EveryPathHasSegments(p: Text) returns (segments: seq<Text>)
    requires p == [] || IsPath(p)
    ensures AreSegments(segments) && PathOf(segments) == p
    decreases |p|
  {
    segments := [];
    if p != [] {
      var a, last := SplitPath(p);
      var front := EveryPathHasSegments(a);
      segments := front + [last];
      PathOfMore(front, last);
    }
  }

  lemma WithNothing(a: Text)
    ensures a + "" == a
  {
  }

  /** Stripping keeps the segments that are not "." or "..", in order, and an empty one in the place of a dot segment at
      the end. A ".." does not take the segment before it away. */
  lemma StripBySegments(front: seq<Text>, last: Text)
    requires AreSegments(front) && '/' !in last
    ensures Strip(PathOf(front + [last])) == PathOf(NonDots(front) + [if IsDots(last) then "" else last])
  {
    hide *;
    PathOfMore(front, last);
    KeptBySegments(front);
    BySegment(PathOf(front), last);
    PathOfMore(NonDots(front), if IsDots(last) then "" else last);
    WithNothing(Kept(PathOf(front)) + ['/']);
  }
}
