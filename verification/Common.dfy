/** Small definitions that several components share. */
module Common {

  datatype Option<+T> = None | Some(value: T)

  /** The number of values of an unsigned 32-bit integer (UInt32). */
  const TWO_TO_THE_32: int := 0x1_0000_0000

  type UInt32 = n: int | 0 <= n < TWO_TO_THE_32

  const TWO_TO_THE_63: int := 0x8000_0000_0000_0000
  const TWO_TO_THE_64: int := 0x1_0000_0000_0000_0000

  type UInt64 = n: int | 0 <= n < TWO_TO_THE_64

  /** Text in memory: its characters, one per byte. */
  type Text = seq<char>

  /** A byte as an unsigned number. */
  type Byte = n: int | 0 <= n < 256

  /** No element occurs at two positions. */
  ghost predicate Distinct<T>(s: seq<T>) {
    forall i, j :: 0 <= i < j < |s| ==> s[i] != s[j]
  }

  /** The sequence without the element at one position. */
  function Without<T>(s: seq<T>, i: nat): (r: seq<T>)
    requires i < |s|
    ensures |r| == |s| - 1
    ensures forall j :: 0 <= j < i ==> r[j] == s[j]
    ensures forall j :: i <= j < |r| ==> r[j] == s[j + 1]
  {
    s[..i] + s[i + 1..]
  }

  /** Removing one position of a duplicate-free sequence removes exactly that element. */
  lemma WithoutDistinct<T>(s: seq<T>, i: nat)
    requires i < |s| && Distinct(s)
    ensures Distinct(Without(s, i))
    ensures forall x :: x in Without(s, i) <==> x in s && x != s[i]
  {
    forall x | x in s && x != s[i] ensures x in Without(s, i) {
      var j :| 0 <= j < |s| && s[j] == x;
      assert Without(s, i)[if j < i then j else j - 1] == x;
    }
  }

  /** The quotient of two numbers, and the multiples of the divisor around the dividend. */
  lemma QuotientBounds(n: nat, d: nat)
    requires 0 < d
    ensures 0 <= n / d <= n
    ensures n / d * d <= n < n / d * d + d
  {
    var q, r := n / d, n % d;
    assert n == q * d + r && 0 <= r < d;
    if q < 0 {
      TimesOrdered(q, -1, d);
    } else {
      TimesOrdered(1, d, q);
    }
  }

  lemma TimesOrdered(a: int, b: int, c: nat)
    requires a <= b
    ensures a * c <= b * c
  {
  }

  lemma SameParts(p: int, s: int, q: int, r: int, d: int)
    requires p * d + s == q * d + r && 0 <= s < d && 0 <= r < d
    ensures p == q && s == r
  {
    if p < q {
      TimesOrdered(p + 1, q, d);
    } else if q < p {
      TimesOrdered(q + 1, p, d);
    }
  }

  lemma UniqueRemainder(n: nat, q: nat, r: nat, d: nat)
    requires r < d && n == q * d + r
    ensures n % d == r && n / d == q
  {
    SameParts(n / d, n % d, q, r, d);
  }
}
