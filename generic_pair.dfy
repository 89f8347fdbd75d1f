/** GenericPair: a key/value entry whose key is fixed at construction and
    whose value alone can be replaced, with value equality, a hash built
    from the components' hashes, a swap that builds a new pair, and the two
    minMax scans that return their result as a pair. */
module GenericPairs {
  import opened Comparators
  import opened Tournament

  /** Java's int. */
  type int32 = x: int | -0x8000_0000 <= x < 0x8000_0000

  /** Java int addition: the mathematical result reduced to 32 bits. */
  function WrapInt32(x: int): (r: int32)
    ensures (r - x) % 0x1_0000_0000 == 0
    ensures -0x8000_0000 <= x < 0x8000_0000 ==> r == x
  {
    var m := x % 0x1_0000_0000;
    if m < 0x8000_0000 then m else m - 0x1_0000_0000
  }

  class GenericPair<K(==), V(==)> {
    const key: K
    var value: V

    /** The private constructor: stores both components. */
    constructor (key: K, value: V)
      ensures this.key == key && this.value == value
    {
      this.key := key;
      this.value := value;
    }

    /** The factory, the only way callers create a pair. */
    static method Of(key: K, value: V) returns (p: GenericPair<K, V>)
      ensures fresh(p)
      ensures p.GetKey() == key && p.GetValue() == value
    {
      p := new GenericPair(key, value);
    }

    function GetKey(): K {
      key
    }

    function GetValue(): V
      reads this
    {
      value
    }

    /** Replaces the value and hands back the one it held; the key stays. */
    method SetValue(value: V) returns (oldVal: V)
      modifies this
      ensures oldVal == old(GetValue())
      ensures GetValue() == value
    {
      oldVal := GetValue();
      this.value := value;
    }

    /** A new pair with key and value exchanged; pair itself is not touched. */
    static method Swap(pair: GenericPair<K, V>) returns (p: GenericPair<V, K>)
      ensures fresh(p)
      ensures IsSwapOf(p, pair)
      ensures unchanged(pair)
    {
      p := new GenericPair(pair.GetValue(), pair.GetKey());
    }

    /** Same key and same value; every pair equals itself. */
    function Equals(other: GenericPair<K, V>): (r: bool)
      reads this, other
      ensures other == this ==> r
    {
      GetKey() == other.GetKey() && GetValue() == other.GetValue()
    }

    /** The sum of the two components' hash codes in Java int arithmetic. */
    function HashCode(keyHash: K -> int32, valueHash: V -> int32): (h: int32)
      reads this
      ensures (h - (keyHash(GetKey()) + valueHash(GetValue()))) % 0x1_0000_0000 == 0
      ensures -0x8000_0000 <= keyHash(GetKey()) + valueHash(GetValue()) < 0x8000_0000 ==>
        h == keyHash(GetKey()) + valueHash(GetValue())
    {
      WrapInt32(keyHash(GetKey()) + valueHash(GetValue()))
    }
  }

  /** p holds q's value as its key and q's key as its value. */
  ghost predicate IsSwapOf<K, V>(p: GenericPair<V, K>, q: GenericPair<K, V>)
    reads p, q
  {
    p.GetKey() == q.GetValue() && p.GetValue() == q.GetKey()
  }

  /** Swapping twice gives back a pair equal to the original. */
  lemma SwapInvolution<K, V>(p: GenericPair<K, V>, q: GenericPair<V, K>, r: GenericPair<K, V>)
    requires IsSwapOf(q, p) && IsSwapOf(r, q)
    ensures r.Equals(p) && p.Equals(r)
  {
  }

  /** Equality of pairs is reflexive, symmetric and transitive. */
  lemma EqualsIsEquivalence<K, V>(p: GenericPair<K, V>, q: GenericPair<K, V>, r: GenericPair<K, V>)
    ensures p.Equals(p)
    ensures p.Equals(q) ==> q.Equals(p)
    ensures p.Equals(q) && q.Equals(r) ==> p.Equals(r)
  {
  }

  /** Equal pairs have equal hash codes, whatever the component hashes. */
  lemma EqualsHashConsistent<K, V>(p: GenericPair<K, V>, q: GenericPair<K, V>,
                                           keyHash: K -> int32, valueHash: V -> int32)
    requires p.Equals(q)
    ensures p.HashCode(keyHash, valueHash) == q.HashCode(keyHash, valueHash)
  {
  }

  /** The hash is a plain sum, so it does not see the order of the
      components: a pair and its swap hash alike when both components use
      the same hash function. */
  lemma SwapKeepsHashCode<T>(p: GenericPair<T, T>, q: GenericPair<T, T>, hash: T -> int32)
    requires IsSwapOf(q, p)
    ensures q.HashCode(hash, hash) == p.HashCode(hash, hash)
  {
    assert hash(q.GetKey()) + hash(q.GetValue()) == hash(p.GetKey()) + hash(p.GetValue());
  }

  /** One pass of the minMax loop body on the cells x, y: the two cells are
      ordered into a temporary pair, whose smaller cell may lower the running
      minimum and whose larger cell may raise the running maximum. Each call
      of cmp is counted. */
  method PlayPair<T(==)>(cmp: (T, T) -> int, x: T, y: T, min: T, max: T)
    returns (newMin: T, newMax: T, ghost comparisons: nat)
    ensures (newMin, newMax) == Round(cmp, (min, max), x, y)
    ensures comparisons == 3
  {
    newMin, newMax := min, max;
    var tempMinMax: GenericPair<T, T>;
    comparisons := 1;
    if cmp(x, y) < 0 {
      tempMinMax := GenericPair.Of(x, y);
    } else {
      tempMinMax := GenericPair.Of(y, x);
    }
    comparisons := comparisons + 1;
    if cmp(tempMinMax.GetKey(), min) < 0 {
      newMin := tempMinMax.GetKey();
    }
    comparisons := comparisons + 1;
    if cmp(tempMinMax.GetValue(), max) > 0 {
      newMax := tempMinMax.GetValue();
    }
  }

  /** minMax with the natural order, here that of Integer. Its loop is the
      comparator overload's loop with compareTo in place of cmp.compare, so it
      is that loop run with IntCompare. The input must not be empty: cell 0
      is read unconditionally. */
  method MinMax(a: array<int>) returns (p: GenericPair<int, int>, ghost comparisons: nat)
    requires a.Length > 0
    ensures fresh(p)
    ensures (p.GetKey(), p.GetValue()) == MinMaxOf(IntCompare, a[..])
    ensures p.GetKey() in a[..] && p.GetValue() in a[..]
    ensures forall j | 0 <= j < a.Length :: p.GetKey() <= a[j] <= p.GetValue()
    ensures comparisons == 3 * (a.Length / 2)
  {
    p, comparisons := MinMaxBy(a, IntCompare);
    NaturalMinMax(a[..]);
  }

  /** minMax with a caller-supplied comparator: the same pass, every
      comparison made by cmp. The result is drawn from the input whatever cmp
      is; it is a least and a greatest element when cmp keeps the comparator
      contract. */
  method MinMaxBy<T(!new, ==)>(a: array<T>, cmp: (T, T) -> int) returns (p: GenericPair<T, T>, ghost comparisons: nat)
    requires a.Length > 0
    ensures fresh(p)
    ensures (p.GetKey(), p.GetValue()) == MinMaxOf(cmp, a[..])
    ensures p.GetKey() in a[..] && p.GetValue() in a[..]
    ensures IsComparator(cmp) ==>
      IsLowerBound(cmp, p.GetKey(), a[..]) && IsUpperBound(cmp, p.GetValue(), a[..])
    ensures comparisons == 3 * (a.Length / 2)
  {
    ghost var s := a[..];
    var min, max := a[0], a[0];
    var i := a.Length % 2;
    ghost var pairs := 0;
    comparisons := 0;
    while i < a.Length - 1
      invariant IsScanPosition(a.Length, i) && i == a.Length % 2 + 2 * pairs
      invariant (min, max) == Scan(cmp, s, i)
      invariant comparisons == 3 * pairs
      invariant a[..] == s
    {
      ScanStep(cmp, s, i);
      ghost var c;
      min, max, c := PlayPair(cmp, a[i], a[i + 1], min, max);
      comparisons, pairs := comparisons + c, pairs + 1;
      i := i + 2;
    }
    assert i == a.Length && pairs == a.Length / 2;
    ScanFromInput(cmp, s, i);
    if IsComparator(cmp) {
      MinMaxOfCorrect(cmp, s);
    }
    p := GenericPair.Of(min, max);
  }
}
