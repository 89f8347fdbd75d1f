# GenericPairs in Dafny

This project models `GenericPair<K,V>` from the GenericPairs repository. It is a
key/value entry in the style of `Map.Entry`: the key is fixed when the pair is
built and only the value can be replaced. The class also holds two static
`minMax` methods. Each one finds the minimum and the maximum of an array in one
pairwise ("tournament") pass and returns them as a pair.

The project has three modules.

- `Comparators` (`comparators.dfy`) defines three-way comparisons.
  - A comparator is a function `(T, T) -> int`.
  - `IsComparator` states what the `java.util.Comparator` contract guarantees:
    the signs of `cmp(x, y)` and `cmp(y, x)` are opposite, and `cmp(x, y) <= 0`
    is transitive. That makes "sorts no later than" a total preorder, in which
    two distinct values may tie.
  - `IntCompare` is `Integer.compareTo`.
  - `TensCompare` is the comparator from the test, which compares integers by
    their tens digit. It uses Java's truncating `/` and `%`.
- `Tournament` (`tournament.dfy`) states the pairwise scan as functions on the
  input sequence.
  - `Round` is one iteration of the loop: one comparison orders the two cells of
    a pair, a second one may lower the running minimum, and a third may raise
    the running maximum.
  - `Scan` gives the running `(min, max)` once the loop stands at cell `i`.
  - `MinMaxOf` is the pair that `minMax` returns.
  - The lemmas here prove that the result is correct and that it comes from the
    input. They also prove the comparison count, that the natural order agrees
    with two plain linear scans, and the test scenarios.
- `GenericPairs` (`generic_pair.dfy`) holds the class `GenericPair`.
  - `key` is a `const` and `value` a `var`, so only the value can change.
  - `Of` and `Swap` allocate new pairs. `SetValue` overwrites the value and
    returns the old one. `Equals` compares the components and `HashCode` adds
    the component hashes with 32-bit wrap-around.
  - `MinMax` and `MinMaxBy` are the two `minMax` overloads. Each is a `while`
    loop over an `array` that steps two cells at a time, as in the source. Each
    proves that its result equals `MinMaxOf` of the array, and it counts its
    comparisons in a ghost out-parameter. The two overloads have the
    same loop body except for the form of the comparison call
    (`x.compareTo(y)` against `cmp.compare(x, y)`). So `MinMaxBy` holds the
    loop, and `MinMax` runs it with `IntCompare` as the comparator. The loop
    body is the method `PlayPair`, which counts each comparator call where it
    is made.

Inputs from outside the model are parameters:

- The comparator is a function value.
- The component hash codes of `hashCode` are the functions `keyHash` and
  `valueHash`.

Some behaviour of the code differs from what one might expect. The model
follows the code:

- **Comparison count.** The loop makes exactly 3·⌊n/2⌋ comparisons
  (`ComparisonCount`). For odd n this equals the optimum ⌈3n/2⌉ − 2. For even
  n it is two more, because cell 0 is loaded into both extremes and then
  compared again as part of the first pair. So a bound of ⌈3n/2⌉ − 2 for every
  n does not hold. For n = 2 the code makes 3 comparisons, and for n = 4 it
  makes 6, the same as two separate linear scans. The source's own claim,
  "O(1.5n)", does hold.
- **Ties.** When the two cells of a pair tie, the second cell is taken as the
  smaller one (`Ordered`). The running extremes change only on a strict
  improvement. So among tied minima the result is not always the first one
  met. For example, with `TensCompare` on `[60, 7, 3]` the result's minimum is
  3 (`TiedPairReportsLaterCell`).
- **Hash.** `hashCode` is a plain sum, so it does not depend on the order of
  the components. A pair and its swap hash alike when both components use the
  same hash function (`SwapKeepsHashCode`).

## Model

| member | source | states |
|---|---|---|
| `GenericPairs.GenericPair.constructor` | GenericPairs/src/GenericPairs/GenericPair.java:21-24 | the new pair holds exactly the key and the value passed in |
| `GenericPairs.GenericPair.Of` | GenericPairs/src/GenericPairs/GenericPair.java:149-151 | returns a fresh pair whose `GetKey()` and `GetValue()` are exactly the arguments (the accessor round trip) |
| `GenericPairs.GenericPair.SetValue` | GenericPairs/src/GenericPairs/GenericPair.java:60-66 | returns the value held before the call, after which `GetValue()` is the new value; only `value` can change, and the key is a constant |
| `GenericPairs.GenericPair.Swap` | GenericPairs/src/GenericPairs/GenericPair.java:31-33 | returns a fresh pair whose key is the argument's value and whose value is the argument's key, and leaves the argument unchanged |
| `GenericPairs.GenericPair.Equals` | GenericPairs/src/GenericPairs/GenericPair.java:158-169 | every pair equals itself |
| `GenericPairs.GenericPair.HashCode` | GenericPairs/src/GenericPairs/GenericPair.java:176-178 | Java `int` addition of the two component hash codes: the result is congruent to their exact sum modulo 2^32 and equals the sum whenever it fits in 32 bits |
| `GenericPairs.SwapInvolution` | GenericPairs/src/GenericPairs/GenericPair.java:31-33 | swapping the swap of a pair gives a pair equal to the original, in both directions of `Equals` |
| `GenericPairs.EqualsIsEquivalence` | GenericPairs/src/GenericPairs/GenericPair.java:158-169 | `Equals` is reflexive, symmetric and transitive |
| `GenericPairs.EqualsHashConsistent` | GenericPairs/src/GenericPairs/GenericPair.java:176-178 | equal pairs have equal hash codes, whatever the component hash functions |
| `GenericPairs.SwapKeepsHashCode` | GenericPairs/src/GenericPairs/GenericPair.java:176-178 | the hash is a sum, so a pair and its swap hash alike under one hash function |
| `GenericPairs.WrapInt32` | GenericPairs/src/GenericPairs/GenericPair.java:177 | Java `int` addition: the result is in the 32-bit range, congruent to the exact sum modulo 2^32, and equal to it when the sum fits |
| `GenericPairs.PlayPair` | GenericPairs/src/GenericPairs/GenericPair.java:81-99 | one loop iteration, the same in both overloads up to the form of the comparison call: the new running extremes are exactly `Round` of the old ones and the two cells, and it makes three comparator calls, each one counted |
| `GenericPairs.MinMax` | GenericPairs/src/GenericPairs/GenericPair.java:73-103 | for a non-empty `Integer` array, running the comparator loop with `IntCompare` in place of `compareTo`: returns a fresh pair equal to `MinMaxOf(IntCompare, a)`; its key and value are elements of the array with key <= every element <= value; exactly 3·⌊n/2⌋ comparisons; the array is not modified |
| `GenericPairs.MinMaxBy` | GenericPairs/src/GenericPairs/GenericPair.java:111-141 | for a non-empty array and any comparator: returns a fresh pair equal to `MinMaxOf(cmp, a)` whose components are array elements; when `cmp` keeps the comparator contract, the key sorts no later and the value no earlier than every element; exactly 3·⌊n/2⌋ comparisons |
| `Tournament.Ordered` | GenericPairs/src/GenericPairs/GenericPair.java:84-89 | the pair holds the two cells, one each way round; a strict "x before y" keeps the order, and a tie puts the later cell y first |
| `Tournament.OrderedIsSorted` | GenericPairs/src/GenericPairs/GenericPair.java:122-127 | under the comparator contract the pair's first cell sorts no later than its second |
| `Tournament.Round` | GenericPairs/src/GenericPairs/GenericPair.java:84-98 | each new running extreme is the old one or one of the two cells of the pair |
| `Tournament.Scan` | GenericPairs/src/GenericPairs/GenericPair.java:74-100 | the running minimum and maximum at every point of the loop are elements of the input |
| `Tournament.MinMaxOf` | GenericPairs/src/GenericPairs/GenericPair.java:112-140 | the returned pair consists of elements of the input, and a one-element input gives that element twice |
| `Tournament.ScanStep` | GenericPairs/src/GenericPairs/GenericPair.java:80 | one iteration moves the scan from cell i to cell i + 2 by one `Round` on cells i and i + 1 |
| `Tournament.RoundBounds` | GenericPairs/src/GenericPairs/GenericPair.java:122-136 | under a comparator, the new minimum sorts no later than the old minimum and both cells, and the new maximum no earlier than the old maximum and both cells |
| `Tournament.ScanFromInput` | GenericPairs/src/GenericPairs/GenericPair.java:112-136 | the running min and max are always cells already covered: cell 0 or a cell of a processed pair |
| `Tournament.RoundKeepsBounds` | GenericPairs/src/GenericPairs/GenericPair.java:118-137 | one round extends the "bounds every covered cell" invariant from cell i − 2 to cell i |
| `Tournament.ScanBounds` | GenericPairs/src/GenericPairs/GenericPair.java:112-138 | the loop invariant: once the scan stands at cell i, min sorts no later and max no earlier than every cell in the covered prefix (cell 0 for odd length, then all processed cells) |
| `Tournament.MinMaxOfCorrect` | GenericPairs/src/GenericPairs/GenericPair.java:111-141 | for a non-empty input and a comparator: both results are input elements, the first is a lower bound and the second an upper bound of the input, and the first sorts no later than the second |
| `Tournament.NaturalMinMax` | GenericPairs/src/GenericPairs/GenericPair.java:73-103 | under `Integer.compareTo` the result is the least and the greatest element of the input |
| `Tournament.LinearExtremes` | GenericPairs/src/GenericPairs/GenericPair.java:68-72 | the reference linear scans return elements of the input that bound it below and above |
| `Tournament.NaturalMatchesLinearScans` | GenericPairs/src/GenericPairs/GenericPair.java:68-73 | under the natural order the pairwise scan returns exactly what two plain linear scans return |
| `Tournament.SingletonMinMax` | GenericPairs/src/GenericPairs/GenericPair.java:74-80 | a one-element input gives `(x, x)`: the loop does not run |
| `Tournament.ComparableScenarios` | GenericPairs/src/GenericPairs/PairTest.java:84-96 | `{3,5,6,4,1,0}` and `{6,3,5,2,4,1,0}` both give `(0, 6)` |
| `Tournament.ComparatorScenarioEven` | GenericPairs/src/GenericPairs/PairTest.java:116-129 | `{30,50,60,40,10,0}` by tens digit gives `(0, 60)` |
| `Tournament.ComparatorScenarioOdd` | GenericPairs/src/GenericPairs/PairTest.java:116-130 | `{60,30,50,20,40,10,0}` by tens digit gives `(0, 60)` |
| `Tournament.TiedPairReportsLaterCell` | GenericPairs/src/GenericPairs/GenericPair.java:122-132 | on `[60, 7, 3]` under the tens-digit order, 7 and 3 tie and the reported minimum is 3, the later of the tied cells |
| `Tournament.ComparisonCount` | GenericPairs/src/GenericPairs/GenericPair.java:68-100 | 3·⌊n/2⌋ equals ⌈3n/2⌉ − 2 for odd n and exceeds it by 2 for even n, and is at most 2(n − 1) for n >= 3 |
| `Comparators.ComparatorIsTotalPreorder` | GenericPairs/src/GenericPairs/GenericPair.java:111 | a comparator that keeps the contract makes `cmp(x, y) <= 0` reflexive, total and transitive, and `cmp(x, x) == 0` |
| `Comparators.ComparatorContractMatches` | GenericPairs/src/GenericPairs/GenericPair.java:111 | a comparator has the two properties the scans assume (`IsComparator`) if and only if it keeps the three clauses of the `java.util.Comparator` contract: sign antisymmetry, transitivity, and ties comparing alike with every third value |
| `Comparators.IntCompare` | GenericPairs/src/GenericPairs/GenericPair.java:84-97 | `Integer.compareTo`: negative, zero or positive exactly when x < y, x == y or x > y |
| `Comparators.IntCompareIsComparator` | GenericPairs/src/GenericPairs/GenericPair.java:73 | the natural order of `Integer` keeps the comparator contract |
| `Comparators.JavaDiv` | GenericPairs/src/GenericPairs/PairTest.java:107 | Java's `/` on `int` truncates toward zero: for n >= 0 the quotient is the largest q with q·d <= n, for n < 0 the smallest q with q·d >= n |
| `Comparators.JavaRem` | GenericPairs/src/GenericPairs/PairTest.java:108 | Java's `%` takes the sign of the dividend, is smaller than the divisor in magnitude, and completes `n == (n / d) * d + n % d` |
| `Comparators.TensDigit` | GenericPairs/src/GenericPairs/PairTest.java:104-110 | the digit is in -9..9 and is the usual tens digit for non-negative numbers |
| `Comparators.TensDigitsOfMultiples` | GenericPairs/src/GenericPairs/PairTest.java:118-119 | the tens digits of the values the comparator tests use |
| `Comparators.TensCompare` | GenericPairs/src/GenericPairs/PairTest.java:103-113 | the sign of the result is the order of the two tens digits |
| `Comparators.TensCompareIsComparator` | GenericPairs/src/GenericPairs/PairTest.java:98-114 | the tens-digit comparator keeps the comparator contract |
| `Comparators.TensCompareTiesDistinctValues` | GenericPairs/src/GenericPairs/PairTest.java:112 | the tens-digit comparator ties distinct integers, so it is a preorder and not an order |

## Left out

- `toString` is not modelled. It concatenates the runtime's string forms of arbitrary objects, so the only thing to state about it is that it depends on the key and the value alone.
- `Equals` compares only pairs with the same type arguments. In the source, an argument that is not a `GenericPair` gives `false`. A `GenericPair` with other declared type arguments is compared component by component, because `instanceof` does not see type arguments, so it can be equal. Neither case is expressible in Dafny's static types.
- `Equals` uses Dafny's `==` on the components, where the source calls the components' own `equals`.
- Null keys and values are not modelled. In the source, `hashCode` throws `NullPointerException` when the key or the value is null. `equals` with an argument that is not a pair returns `false` without reading any component. When the argument is a pair, a null key of the receiver makes `equals` throw. A null value of the receiver makes it throw only when the keys are also equal, because `&&` stops after unequal keys. A null component of the argument pair makes `equals` return `false`.
- `MinMax` and `MinMaxBy` do not model null array cells. A one-cell array holding null returns `(null, null)` in the source, because the loop does not run. With two or more cells, every cell reaches a `compareTo` call, either as the receiver or as the argument, so a null cell throws `NullPointerException`. With a comparator, what happens depends on the comparator.
- `MinMaxBy` models array cells as values (`T(!new)`) and the comparator as a pure function of two cells. Arrays of mutable objects, and comparators that read or change the heap, are not modelled.
- `HashCode` takes the components' hash codes as parameters (`keyHash`, `valueHash`). The concrete hash codes of Java's library classes are not part of this model.
- `MinMax` models the natural-order overload for `Integer` only, the element type its callers and tests use. For any other `Comparable` type the natural order is a comparator like any other, and `MinMaxBy` covers it.
- `MinMax` treats the array's integers as unbounded. Comparing never overflows, so nothing changes.
- `MinMax` and `MinMaxBy` require a non-empty array. The source reads `array[0]` unconditionally, so an empty array raises an index-out-of-bounds exception rather than returning a result. A null array is not modelled.
- `MinMaxBy` states its bounds only for comparators that keep the contract (`IsComparator`, equivalent to the `java.util.Comparator` contract by `ComparatorContractMatches`). For any other comparator, only the exact result (`MinMaxOf`) and the membership of the result in the array are stated.
- `TensCompare` returns the difference of two digits. That difference lies within -18..18, so the source's `int` subtraction cannot overflow and none is modelled.
- The `Map.Entry` interface plumbing, the wildcard bounds of the generic signatures, and the reference-identity checks (`assertSame`) of the tests are not modelled.
