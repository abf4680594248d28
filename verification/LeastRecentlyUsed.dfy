/** Which blocks a cache with least-recently-used replacement holds, in order of their last access. */
module LeastRecentlyUsed {
  import opened Common

  /** The sequence without one element. */
  ghost function Dropped(s: seq<int>, x: int): seq<int> {
    if x in s then (var i :| 0 <= i < |s| && s[i] == x; Without(s, i)) else s
  }

  lemma DroppedAt(s: seq<int>, i: nat)
    requires i < |s| && Distinct(s)
    ensures Dropped(s, s[i]) == Without(s, i)
  {
  }

  /** The blocks that remain once the oldest have been given up for a smaller capacity. */
  function Trimmed(lru: seq<int>, max: nat): (r: seq<int>)
    ensures |r| <= max
  {
    if max < |lru| then lru[|lru| - max..] else lru
  }

  lemma TrimmedFrom(lru: seq<int>, cut: nat, max: nat)
    requires cut <= |lru| && |lru| - cut <= max && (cut == 0 || max <= |lru| - cut)
    ensures Trimmed(lru, max) == lru[cut..]
  {
  }

  /** The blocks that stay cached beside the one accessed: a new block takes the place of the oldest one when the cache
      is full. */
  ghost function Others(kept: seq<int>, max: nat, block: int): seq<int> {
    if block in kept then Dropped(kept, block) else if 0 < |kept| && |kept| == max then kept[1..] else kept
  }

  /** The cached blocks after an access, which puts its block at the end. */
  ghost function Touched(lru: seq<int>, max: nat, block: int): seq<int> {
    Others(Trimmed(lru, max), max, block) + [block]
  }

  lemma TouchedFits(lru: seq<int>, max: nat, block: int)
    requires 1 <= max
    ensures |Touched(lru, max, block)| <= max
  {
  }

  /** When a block was last accessed: the number of accesses up to that one, zero when there was none. */
  ghost function LastAccess(history: seq<int>, block: int): (t: nat)
    ensures t <= |history|
  {
    if history == [] then 0
    else if history[|history| - 1] == block then |history|
    else LastAccess(history[..|history| - 1], block)
  }

  lemma {:induction false} LastAccessIsLast(history: seq<int>, block: int)
    ensures var t := LastAccess(history, block);
            if t == 0 then block !in history else history[t - 1] == block && block !in history[t..]
  {
    if history != [] && history[|history| - 1] != block {
      var n := |history| - 1;
      LastAccessIsLast(history[..n], block);
      var t := LastAccess(history[..n], block);
      assert history == history[..n] + [history[n]] && history[t..] == history[..n][t..] + [history[n]];
    }
  }

  lemma LastAccessNext(history: seq<int>, next: int, block: int)
    ensures LastAccess(history + [next], block) == if block == next then |history| + 1 else LastAccess(history, block)
  {
    assert (history + [next])[..|history|] == history;
  }

  /** The blocks come in the order of their last access, and every other block but one was last accessed before all of
      them. */
  ghost predicate MostRecentBut(lru: seq<int>, history: seq<int>, but: Option<int>) {
    && (forall i {:trigger LastAccess(history, lru[i])} :: 0 <= i < |lru| ==> 0 < LastAccess(history, lru[i]))
    && (forall i, j {:trigger LastAccess(history, lru[i]), LastAccess(history, lru[j])} ::
          0 <= i < j < |lru| ==> LastAccess(history, lru[i]) < LastAccess(history, lru[j]))
    && (forall i, x {:trigger LastAccess(history, x), LastAccess(history, lru[i])} ::
          0 <= i < |lru| && x !in lru && but != Some(x) ==> LastAccess(history, x) < LastAccess(history, lru[i]))
  }

  /** The cached blocks are the most recently used ones, in the order of their last access. */
  ghost predicate MostRecent(lru: seq<int>, history: seq<int>) {
    MostRecentBut(lru, history, None)
  }

  lemma MostRecentDistinct(lru: seq<int>, history: seq<int>)
    requires MostRecent(lru, history)
    ensures Distinct(lru)
  {
    forall i, j | 0 <= i < j < |lru| ensures lru[i] != lru[j] {
      assert LastAccess(history, lru[i]) < LastAccess(history, lru[j]);
    }
  }

  lemma NewestStay(lru: seq<int>, history: seq<int>, cut: nat)
    requires MostRecent(lru, history) && cut <= |lru|
    ensures MostRecent(lru[cut..], history)
  {
    var kept := lru[cut..];
    forall i, x | 0 <= i < |kept| && x !in kept ensures LastAccess(history, x) < LastAccess(history, kept[i]) {
      assert kept[i] == lru[cut + i] && lru == lru[..cut] + kept;
      if x in lru {
        var j :| 0 <= j < cut && lru[..cut][j] == x;
        assert lru[j] == x;
      }
    }
  }

  lemma WithoutStays(kept: seq<int>, history: seq<int>, p: nat)
    requires MostRecent(kept, history) && Distinct(kept) && p < |kept|
    ensures MostRecentBut(Without(kept, p), history, Some(kept[p])) && kept[p] !in Without(kept, p)
  {
    WithoutDistinct(kept, p);
    var others := Without(kept, p);
    assert forall i :: 0 <= i < |others| ==> others[i] == if i < p then kept[i] else kept[i + 1];
  }

  lemma OthersStay(kept: seq<int>, history: seq<int>, max: nat, block: int)
    requires MostRecent(kept, history)
    ensures MostRecentBut(Others(kept, max, block), history, Some(block))
    ensures block !in Others(kept, max, block)
  {
    MostRecentDistinct(kept, history);
    if block in kept {
      var p :| 0 <= p < |kept| && kept[p] == block;
      DroppedAt(kept, p);
      WithoutStays(kept, history, p);
    } else if 0 < |kept| && |kept| == max {
      NewestStay(kept, history, 1);
    }
  }

  lemma NewestAtEnd(others: seq<int>, history: seq<int>, block: int)
    requires MostRecentBut(others, history, Some(block)) && block !in others
    ensures MostRecent(others + [block], history + [block])
  {
    var lru, after := others + [block], history + [block];
    forall x ensures LastAccess(after, x) == if x == block then |history| + 1 else LastAccess(history, x) {
      LastAccessNext(history, block, x);
    }
    assert forall i :: 0 <= i < |lru| ==> lru[i] == if i < |others| then others[i] else block;
    assert lru[|others|] == block && forall x :: x in others ==> x in lru;
  }

  /** An access keeps exactly the most recently used blocks, whatever the capacities were before: what an access
      evicts was last accessed before everything it keeps. */
  lemma TouchKeepsMostRecent(lru: seq<int>, max: nat, block: int, history: seq<int>)
    requires MostRecent(lru, history)
    ensures MostRecent(Touched(lru, max, block), history + [block])
  {
    var kept := Trimmed(lru, max);
    NewestStay(lru, history, |lru| - |kept|);
    OthersStay(kept, history, max, block);
    NewestAtEnd(Others(kept, max, block), history, block);
  }

  /** The cache is full or holds every block that was accessed. */
  ghost predicate Complete(lru: seq<int>, max: nat, history: seq<int>) {
    |lru| < max ==> forall x {:trigger LastAccess(history, x)} :: 0 < LastAccess(history, x) ==> x in lru
  }

  /** At an unchanged capacity the cache stays as full as it can be. */
  lemma TouchKeepsComplete(lru: seq<int>, max: nat, block: int, history: seq<int>)
    requires Complete(lru, max, history)
    ensures Complete(Touched(lru, max, block), max, history + [block])
  {
    var touched := Touched(lru, max, block);
    if |touched| < max {
      forall x | 0 < LastAccess(history + [block], x) ensures x in touched {
        LastAccessNext(history, block, x);
        assert touched[|touched| - 1] == block;
        if x != block {
          assert x in lru;
          if block in lru {
            var p :| 0 <= p < |lru| && lru[p] == block;
          }
        }
      }
    }
  }
}
