/** The pairwise ("tournament") minimum/maximum scan of GenericPair.minMax,
    stated as functions over the input sequence, with its correctness,
    its comparison count and the test scenarios proved about it. */
module Tournament {
  import opened Comparators

  /** i is a cell the scan of a length-n input can stand at: it starts at
      n % 2 and moves two cells at a time, so an odd leftover cell is cell 0,
      which the initialisation already covers. */
  predicate IsScanPosition(n: nat, i: nat) {
    n % 2 <= i <= n && (i - n % 2) % 2 == 0
  }

  /** How many leading cells the running extremes account for after the
      scan has reached i: cell 0 from the start, then every processed cell. */
  function Covered(i: nat): (c: nat)
    ensures c >= 1 && c >= i
  {
    if i == 0 then 1 else i
  }

  /** The one comparison between the two cells of a pair: (smaller, larger),
      where a tie puts y first. */
  function Ordered<T>(cmp: (T, T) -> int, x: T, y: T): (r: (T, T))
    ensures r == (x, y) || r == (y, x)
    ensures cmp(x, y) < 0 ==> r == (x, y)
    ensures cmp(x, y) >= 0 ==> r == (y, x)
  {
    if cmp(x, y) < 0 then (x, y) else (y, x)
  }

  /** Under the comparator contract the ordered pair is sorted: its first
      cell sorts no later than its second, whichever way x and y compare. */
  lemma OrderedIsSorted<T(!new)>(cmp: (T, T) -> int, x: T, y: T)
    requires IsComparator(cmp)
    ensures cmp(Ordered(cmp, x, y).0, Ordered(cmp, x, y).1) <= 0
  {
    ComparatorIsTotalPreorder(cmp, x, y, x);
  }

  /** One round of the scan on the cells x, y: order them, then the smaller
      may replace the running minimum and the larger the running maximum,
      each only on a strict improvement. */
  function Round<T>(cmp: (T, T) -> int, acc: (T, T), x: T, y: T): (r: (T, T))
    ensures r.0 == acc.0 || r.0 == x || r.0 == y
    ensures r.1 == acc.1 || r.1 == x || r.1 == y
  {
    var (lo, hi) := Ordered(cmp, x, y);
    (if cmp(lo, acc.0) < 0 then lo else acc.0,
     if cmp(hi, acc.1) > 0 then hi else acc.1)
  }

  /** The running (min, max) once the scan stands at cell i. */
  function Scan<T>(cmp: (T, T) -> int, s: seq<T>, i: nat): (r: (T, T))
    requires |s| > 0 && IsScanPosition(|s|, i)
    ensures r.0 in s && r.1 in s
    decreases i
  {
    if i == |s| % 2 then (s[0], s[0])
    else Round(cmp, Scan(cmp, s, i - 2), s[i - 2], s[i - 1])
  }

  /** One more round moves the scan two cells on. */
  lemma ScanStep<T>(cmp: (T, T) -> int, s: seq<T>, i: nat)
    requires |s| > 0 && IsScanPosition(|s|, i) && i + 2 <= |s|
    ensures IsScanPosition(|s|, i + 2)
    ensures Scan(cmp, s, i + 2) == Round(cmp, Scan(cmp, s, i), s[i], s[i + 1])
  {
  }

  /** The pair minMax returns: the running extremes once every pair is done. */
  function MinMaxOf<T>(cmp: (T, T) -> int, s: seq<T>): (r: (T, T))
    requires |s| > 0
    ensures |s| == 1 ==> r == (s[0], s[0])
    ensures r.0 in s && r.1 in s
  {
    Scan(cmp, s, |s|)
  }

  /** A round keeps the running minimum no later than the old one and than
      both new cells, and the running maximum no earlier than all three. */
  lemma RoundBounds<T(!new)>(cmp: (T, T) -> int, acc: (T, T), x: T, y: T)
    requires IsComparator(cmp)
    ensures var r := Round(cmp, acc, x, y);
      && cmp(r.0, acc.0) <= 0 && cmp(r.0, x) <= 0 && cmp(r.0, y) <= 0
      && cmp(acc.1, r.1) <= 0 && cmp(x, r.1) <= 0 && cmp(y, r.1) <= 0
  {
    var (lo, hi) := Ordered(cmp, x, y);
    ComparatorIsTotalPreorder(cmp, x, y, x);
    ComparatorIsTotalPreorder(cmp, lo, acc.0, hi);
    ComparatorIsTotalPreorder(cmp, acc.0, lo, hi);
    ComparatorIsTotalPreorder(cmp, acc.1, hi, lo);
    ComparatorIsTotalPreorder(cmp, lo, hi, acc.1);
    ComparatorIsTotalPreorder(cmp, hi, acc.1, hi);
  }

  /** The running extremes are only ever cells already covered: cell 0 from
      the initialisation, or a cell of a processed pair. */
  lemma {:induction false} ScanFromInput<T>(cmp: (T, T) -> int, s: seq<T>, i: nat)
    requires |s| > 0 && IsScanPosition(|s|, i)
    ensures Scan(cmp, s, i).0 in s[..Covered(i)] && Scan(cmp, s, i).1 in s[..Covered(i)]
  {
    if i != |s| % 2 {
      ScanFromInput(cmp, s, i - 2);
      assert s[..Covered(i - 2)] <= s[..i];
    }
  }

  /** A round that extends the scan from cell i - 2 to cell i keeps the
      running extremes bounding every covered cell. */
  lemma RoundKeepsBounds<T(!new)>(cmp: (T, T) -> int, s: seq<T>, i: nat, prev: (T, T))
    requires IsComparator(cmp)
    requires 2 <= i <= |s|
    requires forall j | 0 <= j < Covered(i - 2) :: cmp(prev.0, s[j]) <= 0 && cmp(s[j], prev.1) <= 0
    ensures var r := Round(cmp, prev, s[i - 2], s[i - 1]);
      forall j | 0 <= j < i :: cmp(r.0, s[j]) <= 0 && cmp(s[j], r.1) <= 0
  {
    var r := Round(cmp, prev, s[i - 2], s[i - 1]);
    RoundBounds(cmp, prev, s[i - 2], s[i - 1]);
    forall j | 0 <= j < i
      ensures cmp(r.0, s[j]) <= 0 && cmp(s[j], r.1) <= 0
    {
      if j < Covered(i - 2) {
        ComparatorIsTotalPreorder(cmp, r.0, prev.0, s[j]);
        ComparatorIsTotalPreorder(cmp, s[j], prev.1, r.1);
      } else {
        assert j == i - 2 || j == i - 1;
      }
    }
  }

  /** Loop invariant of minMax: once the scan stands at cell i, the running
      minimum sorts no later and the running maximum no earlier than every
      cell covered so far. */
  lemma {:induction false} ScanBounds<T(!new)>(cmp: (T, T) -> int, s: seq<T>, i: nat)
    requires |s| > 0 && IsScanPosition(|s|, i)
    requires IsComparator(cmp)
    ensures forall j | 0 <= j < Covered(i) :: cmp(Scan(cmp, s, i).0, s[j]) <= 0 && cmp(s[j], Scan(cmp, s, i).1) <= 0
  {
    if i == |s| % 2 {
      ComparatorIsTotalPreorder(cmp, s[0], s[0], s[0]);
    } else {
      ScanBounds(cmp, s, i - 2);
      RoundKeepsBounds(cmp, s, i, Scan(cmp, s, i - 2));
    }
  }

  /** minMax's promise: both results are elements of the input, the first
      sorts no later and the second no earlier than every element, and so
      the first sorts no later than the second. */
  lemma MinMaxOfCorrect<T(!new)>(cmp: (T, T) -> int, s: seq<T>)
    requires |s| > 0
    requires IsComparator(cmp)
    ensures MinMaxOf(cmp, s).0 in s && MinMaxOf(cmp, s).1 in s
    ensures IsLowerBound(cmp, MinMaxOf(cmp, s).0, s)
    ensures IsUpperBound(cmp, MinMaxOf(cmp, s).1, s)
    ensures cmp(MinMaxOf(cmp, s).0, MinMaxOf(cmp, s).1) <= 0
  {
    var r := MinMaxOf(cmp, s);
    ScanFromInput(cmp, s, |s|);
    ScanBounds(cmp, s, |s|);
    ComparatorIsTotalPreorder(cmp, r.0, s[0], r.1);
  }

  /** Under the natural order of the integers the pair is exactly the least
      and the greatest element. */
  lemma NaturalMinMax(s: seq<int>)
    requires |s| > 0
    ensures MinMaxOf(IntCompare, s).0 in s && MinMaxOf(IntCompare, s).1 in s
    ensures forall j | 0 <= j < |s| :: MinMaxOf(IntCompare, s).0 <= s[j] <= MinMaxOf(IntCompare, s).1
  {
    IntCompareIsComparator();
    MinMaxOfCorrect(IntCompare, s);
  }

  /** The reference the pairwise scan is measured against: the least and the
      greatest element found by two plain linear scans. */
  function LinearMin(s: seq<int>): int
    requires |s| > 0
  {
    if |s| == 1 then s[0]
    else if s[|s| - 1] < LinearMin(s[..|s| - 1]) then s[|s| - 1]
    else LinearMin(s[..|s| - 1])
  }

  function LinearMax(s: seq<int>): int
    requires |s| > 0
  {
    if |s| == 1 then s[0]
    else if s[|s| - 1] > LinearMax(s[..|s| - 1]) then s[|s| - 1]
    else LinearMax(s[..|s| - 1])
  }

  lemma {:induction false} LinearExtremes(s: seq<int>)
    requires |s| > 0
    ensures LinearMin(s) in s && LinearMax(s) in s
    ensures forall j | 0 <= j < |s| :: LinearMin(s) <= s[j] <= LinearMax(s)
  {
    if |s| > 1 {
      var t := s[..|s| - 1];
      LinearExtremes(t);
      assert forall j | 0 <= j < |t| :: t[j] == s[j];
      assert t <= s;
    }
  }

  /** Under the natural order the pairwise scan finds exactly what the two
      linear scans find. */
  lemma NaturalMatchesLinearScans(s: seq<int>)
    requires |s| > 0
    ensures MinMaxOf(IntCompare, s) == (LinearMin(s), LinearMax(s))
  {
    NaturalMinMax(s);
    LinearExtremes(s);
  }

  /** A one-cell input has no pair to process: the result is that cell twice. */
  lemma SingletonMinMax<T>(cmp: (T, T) -> int, x: T)
    ensures MinMaxOf(cmp, [x]) == (x, x)
  {
  }

  /** The test of the natural-order minMax: an even and an odd input, both
      with minimum 0 and maximum 6. */
  lemma ComparableScenarios()
    ensures MinMaxOf(IntCompare, [3, 5, 6, 4, 1, 0]) == (0, 6)
    ensures MinMaxOf(IntCompare, [6, 3, 5, 2, 4, 1, 0]) == (0, 6)
  {
    var even, odd := [3, 5, 6, 4, 1, 0], [6, 3, 5, 2, 4, 1, 0];
    NaturalMinMax(even);
    assert MinMaxOf(IntCompare, even).0 <= even[5] && MinMaxOf(IntCompare, even).1 >= even[2];
    NaturalMinMax(odd);
    assert MinMaxOf(IntCompare, odd).0 <= odd[6] && MinMaxOf(IntCompare, odd).1 >= odd[0];
  }

  /** The test of the comparator minMax on an even-length input, ordered by
      tens digit (3, 5, 6, 4, 1, 0): the scan traced pair by pair. */
  lemma ComparatorScenarioEven()
    ensures MinMaxOf(TensCompare, [30, 50, 60, 40, 10, 0]) == (0, 60)
  {
    var s := [30, 50, 60, 40, 10, 0];
    TensDigitsOfMultiples();
    assert Scan(TensCompare, s, 2) == (30, 50);
    assert Scan(TensCompare, s, 4) == (30, 60);
  }

  /** The same test on an odd-length input, where cell 0 (60) is covered by
      the initialisation alone. */
  lemma ComparatorScenarioOdd()
    ensures MinMaxOf(TensCompare, [60, 30, 50, 20, 40, 10, 0]) == (0, 60)
  {
    var s := [60, 30, 50, 20, 40, 10, 0];
    TensDigitsOfMultiples();
    assert Scan(TensCompare, s, 3) == (30, 60);
    assert Scan(TensCompare, s, 5) == (20, 60);
  }

  /** Ties are not settled in favour of the first cell met: 7 and 3 tie
      under the tens-digit order, the pair puts its later cell 3 first, and
      3 beats the running minimum 60, so 3 is reported. */
  lemma TiedPairReportsLaterCell()
    ensures TensCompare(7, 3) == 0
    ensures MinMaxOf(TensCompare, [60, 7, 3]) == (3, 60)
  {
    var s := [60, 7, 3];
    TensDigitsOfMultiples();
    assert TensDigit(7) == 0 && TensDigit(3) == 0;
    assert Scan(TensCompare, s, 3) == (3, 60);
  }

  /** The scan makes three comparisons per pair, 3 * (n / 2) in all: the
      optimum ceil(3n/2) - 2 for odd n, two more than it for even n (where
      cell 0 is compared against itself), and no more than the 2(n - 1) of
      two separate linear scans once n >= 3. */
  lemma ComparisonCount(n: nat)
    requires n >= 1
    ensures n % 2 == 1 ==> 3 * (n / 2) == (3 * n + 1) / 2 - 2
    ensures n % 2 == 0 ==> 3 * (n / 2) == (3 * n + 1) / 2 - 2 + 2
    ensures n >= 3 ==> 3 * (n / 2) <= 2 * (n - 1)
  {
  }
}
