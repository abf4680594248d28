/**
 Event words (Task::EventFlags) and the operations of CommonUtilitiesLib/atomic.cpp on them. Each of those operations
 holds one global mutex for its whole body, so it is a single step from the word before it to the word after it.

 A word is the set of its bits that are on; `Value` and `FromValue` give its numeric value, which is what
 atomic_sub subtracts.
 */
module Atomic {

  const WORD_BITS: nat := 32
  const IDLE_BIT: nat := 1
  const ALIVE_BIT: nat := 31

  type Word = w: set<nat> | forall b :: b in w ==> b < WORD_BITS

  function Pow2(n: nat): (p: nat)
    ensures 0 < p
  {
    if n == 0 then 1 else 2 * Pow2(n - 1)
  }

  /** The number whose binary digits below position n are the given bits. */
  function Value(bits: set<nat>, n: nat): (v: nat)
    ensures v < Pow2(n)
  {
    if n == 0 then 0 else (if n - 1 in bits then Pow2(n - 1) else 0) + Value(bits, n - 1)
  }

  /** The binary digits below position n of a number. */
  function FromValue(v: nat, n: nat): (bits: set<nat>)
    requires v < Pow2(n)
    ensures forall b :: b in bits ==> b < n
  {
    if n == 0 then {}
    else if Pow2(n - 1) <= v then FromValue(v - Pow2(n - 1), n - 1) + {n - 1}
    else FromValue(v, n - 1)
  }

  /** Subtraction of n-bit numbers, which wraps. */
  function SubtractBits(a: set<nat>, b: set<nat>, n: nat): (bits: set<nat>)
    ensures forall b :: b in bits ==> b < n
  {
    FromValue((Value(a, n) - Value(b, n)) % Pow2(n), n)
  }

  function AtomicSub(area: Word, val: Word): Word {
    SubtractBits(area, val, WORD_BITS)
  }

  function AtomicOr(area: Word, val: Word): Word {
    area + val
  }

  predicate IsAlive(word: Word) {
    ALIVE_BIT in word
  }

  /** The events in a word: everything but the alive bit. */
  function Pending(word: Word): Word {
    word - {ALIVE_BIT}
  }

  lemma {:induction false} ValueDigits(bits: set<nat>, n: nat)
    ensures FromValue(Value(bits, n), n) == set b | b in bits && b < n
  {
    if n != 0 {
      ValueDigits(bits, n - 1);
    }
  }

  lemma {:induction false} ValueDifference(a: set<nat>, b: set<nat>, n: nat)
    requires b <= a
    ensures Value(b, n) <= Value(a, n) && Value(a, n) - Value(b, n) == Value(a - b, n)
  {
    if n != 0 {
      ValueDifference(a, b, n - 1);
    }
  }

  lemma SmallRemainder(v: nat, m: nat)
    requires v < m
    ensures v % m == v
  {
  }

  lemma SubtractBitsClears(a: set<nat>, b: set<nat>, n: nat)
    requires b <= a && forall i :: i in a ==> i < n
    ensures SubtractBits(a, b, n) == a - b
  {
    ValueDifference(a, b, n);
    ValueDigits(a - b, n);
    SmallRemainder(Value(a - b, n), Pow2(n));
    assert (set i | i in a - b && i < n) == a - b;
  }

  /** GetEvents subtracts the bits it read earlier. Whatever was signalled in between, no borrow reaches another bit:
      exactly the bits it read go. In particular the alive bit stays. */
  lemma SubtractClearsExactly(area: Word, val: Word)
    requires val <= area
    ensures AtomicSub(area, val) == area - val
  {
    SubtractBitsClears(area, val, WORD_BITS);
  }

  /** A word equals the bare alive bit exactly when it is alive and nothing is pending. */
  lemma RetirableWord(word: Word)
    ensures word == {ALIVE_BIT} <==> IsAlive(word) && Pending(word) == {}
  {
    if IsAlive(word) {
      assert word == Pending(word) + {ALIVE_BIT};
    }
  }
}
