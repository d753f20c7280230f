/**
  Body's `sort.Interface` (`Len`, `Less`, `Swap`) and the call
  `sort.Sort(tmx.Body)` that reorders the translation units by key.
 */
module Sorting {
  import opened Schema
  import opened Ordering
  import opened SortPackage

  /** `Body.Len`: the number of units, each copy of a repeated unit counted. */
  function Len(b: Body): (n: nat)
    ensures n == |multiset(b.tus)|
  {
    |b.tus|
  }

  /** Every unit can be keyed. */
  predicate Keyed(b: Body) {
    forall k :: 0 <= k < |b.tus| ==> HasPrimary(b.tus[k])
  }

  /**
    What `sort.Sort` demands of the body: once there are two units every one of
    them is compared, so every one needs a primary variant; a lone unit is never
    compared and may have none.
   */
  predicate Sortable(b: Body) {
    |b.tus| <= 1 || Keyed(b)
  }

  /** Keys are non-decreasing along the body. */
  ghost predicate Sorted(b: Body) {
    SortedBy(b.tus, Key)
  }

  /** `Body.Less`: unit i goes before unit j exactly when its key is lexicographically smaller. */
  function Less(b: Body, i: int, j: int): (r: bool)
    requires 0 <= i < |b.tus| && 0 <= j < |b.tus|
    requires HasPrimary(b.tus[i]) && HasPrimary(b.tus[j])
    ensures r <==> LexLess(Key(b.tus[i]), Key(b.tus[j]))
  {
    LessBy(b.tus, Key, i, j)
  }

  /** `Less` is irreflexive: no unit goes before itself. */
  lemma LessIrreflexive(b: Body, i: int)
    requires 0 <= i < |b.tus| && HasPrimary(b.tus[i])
    ensures !Less(b, i, i)
  {
  }

  /** `Less` is transitive. */
  lemma LessTransitive(b: Body, i: int, j: int, k: int)
    requires 0 <= i < |b.tus| && 0 <= j < |b.tus| && 0 <= k < |b.tus|
    requires HasPrimary(b.tus[i]) && HasPrimary(b.tus[j]) && HasPrimary(b.tus[k])
    requires Less(b, i, j) && Less(b, j, k)
    ensures Less(b, i, k)
  {
    CompareStrictTransitive(Key(b.tus[i]), Key(b.tus[j]), Key(b.tus[k]));
  }

  /** `Body.Swap`: exchanges units i and j and touches nothing else. */
  function Swap(b: Body, i: int, j: int): (r: Body)
    requires 0 <= i < |b.tus| && 0 <= j < |b.tus|
    ensures Len(r) == Len(b)
    ensures r.tus[i] == b.tus[j] && r.tus[j] == b.tus[i]
    ensures forall k :: 0 <= k < |b.tus| && k != i && k != j ==> r.tus[k] == b.tus[k]
    ensures multiset(r.tus) == multiset(b.tus)
  {
    Body(SwapAt(b.tus, i, j))
  }

  /**
    `sort.Sort(tmx.Body)`: the result holds the same units (as a multiset) with
    their keys in non-decreasing order; units with equal keys may end up in
    either order. A body already in order comes back unchanged.
   */
  method Sort(b: Body) returns (r: Body)
    requires Sortable(b)
    ensures Len(r) == Len(b)
    ensures multiset(r.tus) == multiset(b.tus)
    ensures Sorted(r)
    ensures Sorted(b) ==> r == b
  {
    var tus := SortBy(b.tus, Key);
    r := Body(tus);
  }

  /** In a sorted body with two or more units, every unit has a key and the keys ascend pairwise. */
  lemma SortedKeysAscend(b: Body, k: int, l: int)
    requires Sorted(b) && 0 <= k < l < |b.tus|
    ensures HasPrimary(b.tus[k]) && HasPrimary(b.tus[l])
    ensures Compare(Key(b.tus[k]), Key(b.tus[l])) <= 0
  {
    assert Compare(KeysBy(b.tus, Key)[k], KeysBy(b.tus, Key)[l]) <= 0;
  }
}
