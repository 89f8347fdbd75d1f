/** Three-way comparisons in the style of java.util.Comparator and
    java.lang.Comparable: cmp(x, y) is negative, zero or positive as x
    sorts before, ties with, or sorts after y. */
module Comparators {

  /** What a caller of a comparator-driven algorithm must supply: the sign
      of cmp(x, y) is the opposite of the sign of cmp(y, x), and "sorts no
      later than" (cmp(x, y) <= 0) is transitive. Every comparator that
      keeps the java.util.Comparator contract has both properties. The
      relation "cmp(x, y) <= 0" is then a total preorder: ties between
      distinct values are allowed. */
  ghost predicate IsComparator<T(!new)>(cmp: (T, T) -> int) {
    && (forall x, y :: cmp(x, y) < 0 <==> cmp(y, x) > 0)
    && (forall x, y, z {:trigger cmp(x, z), cmp(x, y), cmp(y, z)} :: cmp(x, y) <= 0 && cmp(y, z) <= 0 ==> cmp(x, z) <= 0)
  }

  /** m sorts no later than any element of s. */
  ghost predicate IsLowerBound<T>(cmp: (T, T) -> int, m: T, s: seq<T>) {
    forall j | 0 <= j < |s| :: cmp(m, s[j]) <= 0
  }

  /** m sorts no earlier than any element of s. */
  ghost predicate IsUpperBound<T>(cmp: (T, T) -> int, m: T, s: seq<T>) {
    forall j | 0 <= j < |s| :: cmp(s[j], m) <= 0
  }

  /** The comparator contract makes "cmp(x, y) <= 0" reflexive, total and
      transitive. */
  lemma ComparatorIsTotalPreorder<T(!new)>(cmp: (T, T) -> int, x: T, y: T, z: T)
    requires IsComparator(cmp)
    ensures cmp(x, x) == 0
    ensures cmp(x, y) <= 0 || cmp(y, x) <= 0
    ensures cmp(x, y) > 0 ==> cmp(y, x) < 0
    ensures cmp(x, y) <= 0 && cmp(y, z) <= 0 ==> cmp(x, z) <= 0
  {
    assert cmp(x, x) < 0 <==> cmp(x, x) > 0;
    assert cmp(x, y) < 0 <==> cmp(y, x) > 0;
  }

  /** The sign of a comparison result, as java.lang.Integer.signum. */
  function Sign(n: int): (r: int)
    ensures r == -1 || r == 0 || r == 1
    ensures r < 0 <==> n < 0
    ensures r > 0 <==> n > 0
  {
    if n < 0 then -1 else if n == 0 then 0 else 1
  }

  /** The three clauses of the java.util.Comparator contract, in the words
      of its documentation: sign antisymmetry, transitivity of "sorts
      after", and that ties compare alike with every third value. */
  ghost predicate KeepsComparatorContract<T(!new)>(cmp: (T, T) -> int) {
    && (forall x, y :: Sign(cmp(x, y)) == -Sign(cmp(y, x)))
    && (forall x, y, z {:trigger cmp(x, z), cmp(x, y), cmp(y, z)} :: cmp(x, y) > 0 && cmp(y, z) > 0 ==> cmp(x, z) > 0)
    && (forall x, y, z {:trigger cmp(x, z), cmp(x, y), cmp(y, z)} :: cmp(x, y) == 0 ==> Sign(cmp(x, z)) == Sign(cmp(y, z)))
  }

  /** IsComparator asks exactly what java.util.Comparator promises: a
      comparator keeps the documented contract if and only if it has the
      two properties the scans rely on. */
  lemma ComparatorContractMatches<T(!new)>(cmp: (T, T) -> int)
    ensures IsComparator(cmp) <==> KeepsComparatorContract(cmp)
  {
    if IsComparator(cmp) {
      forall x, y ensures Sign(cmp(x, y)) == -Sign(cmp(y, x)) {
        ComparatorIsTotalPreorder(cmp, x, y, x);
      }
      forall x, y, z | cmp(x, y) > 0 && cmp(y, z) > 0
        ensures cmp(x, z) > 0
      {
        ComparatorIsTotalPreorder(cmp, z, y, x);
        ComparatorIsTotalPreorder(cmp, x, z, y);
        ComparatorIsTotalPreorder(cmp, y, x, z);
      }
      forall x, y, z | cmp(x, y) == 0
        ensures Sign(cmp(x, z)) == Sign(cmp(y, z))
      {
        ComparatorIsTotalPreorder(cmp, x, y, z);
        ComparatorIsTotalPreorder(cmp, y, x, z);
        ComparatorIsTotalPreorder(cmp, z, x, y);
        ComparatorIsTotalPreorder(cmp, z, y, x);
      }
    }
    if KeepsComparatorContract(cmp) {
      forall x, y ensures cmp(x, y) < 0 <==> cmp(y, x) > 0 {
        assert Sign(cmp(x, y)) == -Sign(cmp(y, x));
      }
      forall x, y, z | cmp(x, y) <= 0 && cmp(y, z) <= 0
        ensures cmp(x, z) <= 0
      {
        assert Sign(cmp(x, y)) == -Sign(cmp(y, x));
        assert Sign(cmp(y, z)) == -Sign(cmp(z, y));
        assert Sign(cmp(x, z)) == -Sign(cmp(z, x));
        if cmp(x, y) == 0 {
          assert Sign(cmp(x, z)) == Sign(cmp(y, z));
        } else if cmp(y, z) == 0 {
          assert Sign(cmp(y, x)) == Sign(cmp(z, x));
        } else {
          assert cmp(z, y) > 0 && cmp(y, x) > 0 ==> cmp(z, x) > 0;
        }
      }
    }
  }

  /** Integer.compareTo, the natural order of the boxed integers the
      natural-order minMax is exercised with. */
  function IntCompare(x: int, y: int): (r: int)
    ensures r < 0 <==> x < y
    ensures r == 0 <==> x == y
    ensures r > 0 <==> x > y
  {
    if x < y then -1 else if x == y then 0 else 1
  }

  lemma IntCompareIsComparator()
    ensures IsComparator(IntCompare)
  {
    forall x: int, y: int, z: int | IntCompare(x, y) <= 0 && IntCompare(y, z) <= 0
      ensures IntCompare(x, z) <= 0
    {
      assert x <= y <= z;
    }
  }

  /** Java's int division, which truncates toward zero (Dafny's is
      Euclidean); the divisor is a positive constant here. */
  function JavaDiv(n: int, d: int): (q: int)
    requires d > 0
    ensures n >= 0 ==> 0 <= q && q * d <= n < q * d + d
    ensures n < 0 ==> q <= 0 && q * d - d < n <= q * d
  {
    assert n / d * d + n % d == n && 0 <= n % d < d;
    assert (-n) / d * d + (-n) % d == -n && 0 <= (-n) % d < d;
    if n >= 0 then n / d else -((-n) / d)
  }

  /** Java's int remainder, whose sign follows the dividend. */
  function JavaRem(n: int, d: int): (m: int)
    requires d > 0
    ensures -d < m < d
    ensures n >= 0 ==> 0 <= m
    ensures n < 0 ==> m <= 0
    ensures n == JavaDiv(n, d) * d + m
  {
    if n >= 0 then n % d else -((-n) % d)
  }

  /** The tens digit the test comparator extracts with "num /= 10; num %= 10"
      (negative for a negative number). */
  function TensDigit(n: int): (d: int)
    ensures -9 <= d <= 9
    ensures n >= 0 ==> d == (n / 10) % 10
  {
    JavaRem(JavaDiv(n, 10), 10)
  }

  /** The digits the test comparator sees in the values of its scenarios. */
  lemma TensDigitsOfMultiples()
    ensures TensDigit(0) == 0 && TensDigit(10) == 1 && TensDigit(20) == 2 && TensDigit(30) == 3
    ensures TensDigit(40) == 4 && TensDigit(50) == 5 && TensDigit(60) == 6
  {
  }

  /** The test comparator: integers ordered by their tens digit alone,
      returned as the difference of the digits. */
  function TensCompare(x: int, y: int): (r: int)
    ensures r < 0 <==> TensDigit(x) < TensDigit(y)
    ensures r == 0 <==> TensDigit(x) == TensDigit(y)
    ensures -18 <= r <= 18
  {
    TensDigit(x) - TensDigit(y)
  }

  lemma TensCompareIsComparator()
    ensures IsComparator(TensCompare)
  {
  }

  /** The test comparator ties distinct integers, so it is a preorder and
      not an order: the minimum it selects is not unique as a value. */
  lemma TensCompareTiesDistinctValues()
    ensures TensCompare(0, 9) == 0 && TensCompare(31, 38) == 0
  {
  }
}
