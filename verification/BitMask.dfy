/** Bitwise "and" and "or" of unsigned numbers, as the hash table's mask (CommonUtilitiesLib/OSHashTable.h) and Base64
    use them. */
module BitMask {
  import opened Common

  /** Bitwise "and", digit by binary digit. */
  function BitAnd(a: nat, b: nat): nat {
    if a == 0 || b == 0 then 0 else (if a % 2 == 1 && b % 2 == 1 then 1 else 0) + 2 * BitAnd(a / 2, b / 2)
  }

  function PowerOfTwo(k: nat): (p: nat)
    ensures 1 <= p
  {
    if k == 0 then 1 else 2 * PowerOfTwo(k - 1)
  }

  /** Bitwise "or", digit by binary digit. */
  function BitOr(a: nat, b: nat): nat {
    if a == 0 then b
    else if b == 0 then a
    else (if a % 2 == 1 || b % 2 == 1 then 1 else 0) + 2 * BitOr(a / 2, b / 2)
  }

  lemma MaskedDigit(h: nat, p: nat)
    requires h != 0 && 1 <= p
    ensures BitAnd(h, 2 * p - 1) == h % 2 + 2 * BitAnd(h / 2, p - 1)
  {
    var mask := 2 * p - 1;
    assert mask / 2 == p - 1 && mask % 2 == 1;
  }

  lemma MaskStep(h: nat, p: nat)
    requires h != 0 && 1 <= p && BitAnd(h / 2, p - 1) == h / 2 % p
    ensures BitAnd(h, 2 * p - 1) == h % (2 * p)
  {
    hide BitAnd;
    MaskedDigit(h, p);
    RemainderHalves(h, p);
  }

  /** Masking with one less than a power of two is the remainder by that power. */
  lemma {:induction false} MaskIsRemainder(h: nat, k: nat)
    ensures BitAnd(h, PowerOfTwo(k) - 1) == h % PowerOfTwo(k)
  {
    if h == 0 {
      UniqueRemainder(h, 0, 0, PowerOfTwo(k));
    } else if k != 0 {
      MaskIsRemainder(h / 2, k - 1);
      hide BitAnd;
      MaskStep(h, PowerOfTwo(k - 1));
    }
  }

  lemma RemainderHalves(h: nat, p: nat)
    requires 0 < p
    ensures h % (2 * p) == h % 2 + 2 * (h / 2 % p)
  {
    var q, r := h / 2 / p, h / 2 % p;
    assert h / 2 == q * p + r;
    assert h == q * (2 * p) + (h % 2 + 2 * r);
    UniqueRemainder(h, q, h % 2 + 2 * r, 2 * p);
  }

  /** The digits moved up by k places. */
  function ShiftLeft(n: nat, k: nat): nat {
    if k == 0 then n else 2 * ShiftLeft(n, k - 1)
  }

  /** The digits moved down by k places, where the last ones are lost. */
  function ShiftRight(n: nat, k: nat): nat {
    if k == 0 then n else ShiftRight(n / 2, k - 1)
  }

  /** Above the digits of a number, "or" puts another one: the two are added. */
  lemma {:induction false} ShiftedOr(a: nat, b: nat, k: nat)
    requires b < PowerOfTwo(k)
    ensures BitOr(ShiftLeft(a, k), b) == ShiftLeft(a, k) + b
  {
    if k != 0 && b != 0 {
      var high := ShiftLeft(a, k - 1);
      ShiftedOr(a, b / 2, k - 1);
      assert 2 * high / 2 == high && 2 * high % 2 == 0;
    }
  }

  /** A mask of high digits takes the high digits. */
  lemma {:induction false} MaskHigh(h: nat, m: nat, k: nat)
    ensures BitAnd(h, ShiftLeft(m, k)) == ShiftLeft(BitAnd(ShiftRight(h, k), m), k)
  {
    if k != 0 {
      var mask := ShiftLeft(m, k - 1);
      MaskHigh(h / 2, m, k - 1);
      assert 2 * mask / 2 == mask && 2 * mask % 2 == 0;
      assert BitAnd(h, 2 * mask) == 2 * BitAnd(h / 2, mask);
    }
  }

  ghost predicate IsPowerOfTwo(n: nat) {
    exists k: nat :: n == PowerOfTwo(k)
  }

  lemma HalfIsPower(n: nat)
    requires 2 <= n
    ensures IsPowerOfTwo(n) <==> n % 2 == 0 && IsPowerOfTwo(n / 2)
  {
    if IsPowerOfTwo(n) {
      var k: nat :| n == PowerOfTwo(k);
      assert k != 0;
      assert n / 2 == PowerOfTwo(k - 1);
    }
    if n % 2 == 0 && IsPowerOfTwo(n / 2) {
      var k: nat :| n / 2 == PowerOfTwo(k);
      assert n == PowerOfTwo(k + 1);
    }
  }

  /** The test the table's constructor makes finds exactly the powers of two. */
  lemma {:induction false} MaskTest(size: nat)
    requires 1 <= size
    ensures BitAnd(size - 1, size) == 0 <==> IsPowerOfTwo(size)
  {
    if size == 1 {
      assert size == PowerOfTwo(0);
    } else {
      HalfIsPower(size);
      if size % 2 == 0 {
        assert (size - 1) / 2 == size / 2 - 1;
        MaskTest(size / 2);
      } else {
        BitAndSelf(size / 2);
      }
    }
  }

  lemma {:induction false} BitAndSelf(a: nat)
    ensures BitAnd(a, a) == a
  {
    if a != 0 {
      BitAndSelf(a / 2);
    }
  }
}
