/**
 The order of the keys (the comparison function of tsearch.c). The tree model has ints
 for keys, in their natural order. They stand for the ranks of keys of any type, under
 any comparison function that is a total preorder, among all keys of a run.
 */
module KeyOrder {

  /** What callers promise of the comparison function. */
  ghost predicate IsOrder<K(!new)>(compar: (K, K) -> int)
  {
    && (forall a, b :: compar(a, b) < 0 <==> compar(b, a) > 0)
    && (forall a, b, c :: compar(a, b) <= 0 && compar(b, c) <= 0 ==> compar(a, c) <= 0)
  }

  function Smaller<K>(keys: set<K>, compar: (K, K) -> int, key: K): set<K>
  {
    set k | k in keys && compar(k, key) < 0
  }

  /** How many of the keys are smaller. */
  function Rank<K>(keys: set<K>, compar: (K, K) -> int, key: K): nat
  {
    |Smaller(keys, compar, key)|
  }

  /** Comparing keys comes out as comparing their ranks: so an algorithm that only
      compares keys does the same on ranks. */
  lemma RankDecides<K(!new)>(keys: set<K>, compar: (K, K) -> int, a: K, b: K)
    requires IsOrder(compar) && a in keys && b in keys
    ensures compar(a, b) < 0 <==> Rank(keys, compar, a) < Rank(keys, compar, b)
    ensures compar(a, b) == 0 <==> Rank(keys, compar, a) == Rank(keys, compar, b)
    ensures compar(a, b) > 0 <==> Rank(keys, compar, a) > Rank(keys, compar, b)
  {
    if compar(a, b) < 0 {
      SmallerRank(keys, compar, a, b);
    } else if compar(b, a) < 0 {
      SmallerRank(keys, compar, b, a);
    } else {
      assert Smaller(keys, compar, a) == Smaller(keys, compar, b);
    }
  }

  lemma SmallerRank<K(!new)>(keys: set<K>, compar: (K, K) -> int, a: K, b: K)
    requires IsOrder(compar) && a in keys && b in keys && compar(a, b) < 0
    ensures Rank(keys, compar, a) < Rank(keys, compar, b)
  {
    var low, high := Smaller(keys, compar, a), Smaller(keys, compar, b);
    assert forall k :: k in low && compar(b, k) <= 0 ==> compar(b, a) <= 0;
    assert low <= high;
    assert a in high && a !in low;
    SubsetSmaller(low, high);
  }

  lemma SubsetSmaller<K>(s: set<K>, t: set<K>)
    requires s < t
    ensures |s| < |t|
  {
    var rest := t - s;
    assert s + rest == t && s !! rest && rest != {};
  }
}
