/**
  The part of Go's `sort` package that `sort.Sort` runs on short inputs: since
  Go 1.19, a slice of at most 12 elements goes straight to `insertionSort`, which
  only talks to the data through `Less` and `Swap`. Here the data is a sequence
  and `Less(i, j)` compares `key(s[i])` with `key(s[j])` by `strings.Compare`,
  which is the shape of every `Less` in main.go. The key is a parameter, so the
  algorithm is proved once, for any key.
 */
module SortPackage {
  import opened Ordering

  // ---------------------------------------------------------------------------
  // Key sequences in order, and the loop invariants of insertion sort on them.

  /** The strings of ks[..n] are in non-decreasing order, for every pair. */
  ghost predicate InOrder(ks: seq<string>, n: int)
    requires n <= |ks|
  {
    forall k, l {:trigger Compare(ks[k], ks[l])} :: 0 <= k < l < n ==> Compare(ks[k], ks[l]) <= 0
  }

  /** Neighbours in order is enough: by transitivity every pair of ks[..n] is then in order. */
  lemma {:induction false} AdjacentInOrder(ks: seq<string>, n: int)
    requires 0 <= n <= |ks|
    requires forall j :: 0 <= j && j + 1 < n ==> Compare(ks[j], ks[j + 1]) <= 0
    ensures InOrder(ks, n)
  {
    if n >= 2 {
      AdjacentInOrder(ks, n - 1);
      forall k | 0 <= k < n - 1 ensures Compare(ks[k], ks[n - 1]) <= 0 {
        if k < n - 2 {
          CompareTransitive(ks[k], ks[n - 2], ks[n - 1]);
        }
      }
    }
  }

  /** In ks[..i + 1], every pair that avoids position j is in order. */
  ghost predicate InOrderExcept(ks: seq<string>, i: int, j: int)
    requires i < |ks|
  {
    forall k, l {:trigger Compare(ks[k], ks[l])} :: 0 <= k < l <= i && k != j && l != j ==> Compare(ks[k], ks[l]) <= 0
  }

  /** ks[j] is not after anything in ks[j + 1..i + 1]. */
  ghost predicate NotAfterRight(ks: seq<string>, i: int, j: int)
    requires 0 <= j <= i < |ks|
  {
    forall l {:trigger Compare(ks[j], ks[l])} :: j < l <= i ==> Compare(ks[j], ks[l]) <= 0
  }

  /**
    Moving the element at j one place left past a larger neighbour keeps the
    insertion-sort picture: the rest stays in order, and the moved element is
    still not after anything to its right.
   */
  lemma SwapStep(ks: seq<string>, i: int, j: int)
    requires 0 < j <= i < |ks|
    requires InOrderExcept(ks, i, j) && NotAfterRight(ks, i, j)
    requires Compare(ks[j], ks[j - 1]) < 0
    ensures var ks' := ks[j := ks[j - 1]][j - 1 := ks[j]];
      InOrderExcept(ks', i, j - 1) && NotAfterRight(ks', i, j - 1)
  {
    var ks' := ks[j := ks[j - 1]][j - 1 := ks[j]];
    forall k, l | 0 <= k < l <= i && k != j - 1 && l != j - 1
      ensures Compare(ks'[k], ks'[l]) <= 0
    {
      if l == j {
        assert Compare(ks[k], ks[j - 1]) <= 0;
      } else if k == j {
        assert Compare(ks[j - 1], ks[l]) <= 0;
      } else {
        assert Compare(ks[k], ks[l]) <= 0;
      }
    }
    forall l | j - 1 < l <= i
      ensures Compare(ks'[j - 1], ks'[l]) <= 0
    {
      if l > j {
        assert Compare(ks[j], ks[l]) <= 0;
      }
    }
  }

  /**
    One step of insertion sort: in ks[..i + 1], everything but position j is in
    order, ks[j] is not after anything to its right and not before its left
    neighbour. Then all of ks[..i + 1] is in order.
   */
  lemma InsertionStep(ks: seq<string>, i: int, j: int)
    requires 0 <= j <= i < |ks|
    requires InOrderExcept(ks, i, j) && NotAfterRight(ks, i, j)
    requires j == 0 || Compare(ks[j - 1], ks[j]) <= 0
    ensures InOrder(ks, i + 1)
  {
    forall k, l | 0 <= k < l <= i
      ensures Compare(ks[k], ks[l]) <= 0
    {
      if l == j && k < j - 1 {
        assert Compare(ks[k], ks[j - 1]) <= 0;
        CompareTransitive(ks[k], ks[j - 1], ks[j]);
      } else if l == j && k == j - 1 {
      } else if k == j {
        assert Compare(ks[j], ks[l]) <= 0;
      } else {
        assert Compare(ks[k], ks[l]) <= 0;
      }
    }
  }

  // ---------------------------------------------------------------------------
  // Sorting a sequence by key.

  /** Every element can be keyed. */
  ghost predicate KeyedBy<T>(s: seq<T>, key: T --> string) {
    forall k :: 0 <= k < |s| ==> key.requires(s[k])
  }

  /** The keys of the elements, in sequence order. */
  ghost function KeysBy<T>(s: seq<T>, key: T --> string): (ks: seq<string>)
    requires KeyedBy(s, key)
    ensures |ks| == |s|
  {
    seq(|s|, k requires 0 <= k < |s| => key(s[k]))
  }

  /** Keys are non-decreasing along s, for every pair and not only neighbours. */
  ghost predicate SortedBy<T>(s: seq<T>, key: T --> string) {
    |s| <= 1 || (KeyedBy(s, key) && InOrder(KeysBy(s, key), |s|))
  }

  /** `Less(i, j)`: element i goes before element j when its key is strictly smaller. */
  function LessBy<T>(s: seq<T>, key: T --> string, i: int, j: int): (r: bool)
    requires 0 <= i < |s| && 0 <= j < |s|
    requires key.requires(s[i]) && key.requires(s[j])
    ensures r <==> LexLess(key(s[i]), key(s[j]))
  {
    CompareIsLexLess(key(s[i]), key(s[j]));
    Compare(key(s[i]), key(s[j])) < 0
  }

  /** Not `Less` one way means the keys are ordered the other way: ties go either way. */
  lemma NotLessIsReverseOrder<T>(s: seq<T>, key: T --> string, i: int, j: int)
    requires 0 <= i < |s| && 0 <= j < |s|
    requires key.requires(s[i]) && key.requires(s[j])
    ensures !LessBy(s, key, i, j) <==> Compare(key(s[j]), key(s[i])) <= 0
  {
    CompareAntisymmetric(key(s[i]), key(s[j]));
  }

  /** `Swap(i, j)`: exchanges elements i and j and touches nothing else. */
  function SwapAt<T>(s: seq<T>, i: int, j: int): (r: seq<T>)
    requires 0 <= i < |s| && 0 <= j < |s|
    ensures |r| == |s|
    ensures r[i] == s[j] && r[j] == s[i]
    ensures forall k :: 0 <= k < |s| && k != i && k != j ==> r[k] == s[k]
    ensures multiset(r) == multiset(s)
  {
    s[i := s[j]][j := s[i]]
  }

  /** Swapping two elements swaps their keys. */
  lemma KeysBySwap<T>(s: seq<T>, key: T --> string, i: int, j: int)
    requires 0 <= i < |s| && 0 <= j < |s| && KeyedBy(s, key)
    ensures KeyedBy(SwapAt(s, i, j), key)
    ensures KeysBy(SwapAt(s, i, j), key) == KeysBy(s, key)[i := KeysBy(s, key)[j]][j := KeysBy(s, key)[i]]
  {
    var r := SwapAt(s, i, j);
    assert KeyedBy(r, key) by {
      forall k | 0 <= k < |r| ensures key.requires(r[k]) {
        if k != i && k != j {
          assert r[k] == s[k];
        }
      }
    }
  }

  /**
    The inner loop of `insertionSort`: with s[..i] in key order, walk element i
    leftwards by adjacent swaps while it is `Less` than its left neighbour.
    Afterwards s[..i + 1] is in key order, elements right of i are untouched, and
    if element i was not `Less` than its neighbour nothing moves.
   */
  method SiftLeft<T>(s: seq<T>, key: T --> string, i: int) returns (r: seq<T>)
    requires 1 <= i < |s| && KeyedBy(s, key) && InOrder(KeysBy(s, key), i)
    ensures |r| == |s| && KeyedBy(r, key)
    ensures multiset(r) == multiset(s)
    ensures InOrder(KeysBy(r, key), i + 1)
    ensures forall k :: i < k < |s| ==> r[k] == s[k]
    ensures !LessBy(s, key, i, i - 1) ==> r == s
  {
    r := s;
    ghost var ks := KeysBy(s, key);
    var j := i;
    while j > 0 && LessBy(r, key, j, j - 1)
      invariant 0 <= j <= i
      invariant |r| == |s| && KeyedBy(r, key) && ks == KeysBy(r, key)
      invariant multiset(r) == multiset(s)
      invariant forall k :: i < k < |s| ==> r[k] == s[k]
      invariant InOrderExcept(ks, i, j) && NotAfterRight(ks, i, j)
      invariant !LessBy(s, key, i, i - 1) ==> r == s && j == i
    {
      SwapStep(ks, i, j);
      KeysBySwap(r, key, j, j - 1);
      r := SwapAt(r, j, j - 1);
      ks := ks[j := ks[j - 1]][j - 1 := ks[j]];
      j := j - 1;
    }
    if j > 0 {
      NotLessIsReverseOrder(r, key, j, j - 1);
    }
    InsertionStep(ks, i, j);
  }

  /**
    `insertionSort` over the whole sequence: the result holds the same elements
    (as a multiset) with keys in non-decreasing order; elements with equal keys
    may end up in either order. An input already in order comes back unchanged.
    Keys are needed only once there are two elements, because a sequence of
    fewer is never compared.
   */
  method SortBy<T>(s: seq<T>, key: T --> string) returns (r: seq<T>)
    requires |s| <= 1 || KeyedBy(s, key)
    ensures |r| == |s|
    ensures multiset(r) == multiset(s)
    ensures SortedBy(r, key)
    ensures SortedBy(s, key) ==> r == s
  {
    r := s;
    if |s| <= 1 {
      return;
    }
    var i := 1;
    while i < |s|
      invariant 1 <= i <= |s| == |r|
      invariant KeyedBy(r, key)
      invariant multiset(r) == multiset(s)
      invariant InOrder(KeysBy(r, key), i)
      invariant SortedBy(s, key) ==> r == s
    {
      assert SortedBy(s, key) ==> !LessBy(s, key, i, i - 1) by {
        if SortedBy(s, key) {
          NotLessIsReverseOrder(s, key, i, i - 1);
          assert Compare(KeysBy(s, key)[i - 1], KeysBy(s, key)[i]) <= 0;
        }
      }
      r := SiftLeft(r, key, i);
      i := i + 1;
    }
  }

  /** A sequence in key order passes `sort.IsSorted`: nothing is `Less` than its left neighbour. */
  lemma SortedHasNoDescent<T>(s: seq<T>, key: T --> string)
    requires SortedBy(s, key) && KeyedBy(s, key)
    ensures forall i, j :: 0 <= j && i == j + 1 && i < |s| ==> !LessBy(s, key, i, j)
  {
    forall i, j | 0 <= j && i == j + 1 && i < |s|
      ensures !LessBy(s, key, i, j)
    {
      NotLessIsReverseOrder(s, key, i, j);
      assert Compare(KeysBy(s, key)[j], KeysBy(s, key)[i]) <= 0;
    }
  }

  /** ... and conversely: a sequence in which nothing is `Less` than its left neighbour is in key order. */
  lemma NoDescentIsSorted<T>(s: seq<T>, key: T --> string)
    requires KeyedBy(s, key)
    requires forall i, j :: 0 <= j && i == j + 1 && i < |s| ==> !LessBy(s, key, i, j)
    ensures SortedBy(s, key)
  {
    var ks := KeysBy(s, key);
    forall j | 0 <= j && j + 1 < |s| ensures Compare(ks[j], ks[j + 1]) <= 0 {
      NotLessIsReverseOrder(s, key, j + 1, j);
    }
    AdjacentInOrder(ks, |s|);
  }

  /** Three elements listed in another order form the same multiset. */
  lemma MultisetRotate<T>(x: T, y: T, z: T)
    ensures multiset([z, x, y]) == multiset([x, y, z])
  {
  }

  /**
    With distinct keys the sorted order is forced: a sorted arrangement of three
    elements whose keys strictly ascend as x, y, z is exactly [x, y, z].
   */
  lemma SortedByDistinctKeys<T>(s: seq<T>, key: T --> string, x: T, y: T, z: T)
    requires key.requires(x) && key.requires(y) && key.requires(z)
    requires Compare(key(x), key(y)) < 0 && Compare(key(y), key(z)) < 0
    requires multiset(s) == multiset([x, y, z]) && SortedBy(s, key)
    ensures s == [x, y, z]
  {
    assert |s| == |multiset(s)| == 3;
    forall k | 0 <= k < 3 ensures s[k] == x || s[k] == y || s[k] == z {
      assert s[k] in multiset(s);
    }
    CompareStrictTransitive(key(x), key(y), key(z));
    CompareAntisymmetric(key(x), key(y));
    CompareAntisymmetric(key(y), key(z));
    CompareAntisymmetric(key(x), key(z));
    var ks := KeysBy(s, key);
    assert Compare(ks[0], ks[1]) <= 0 && Compare(ks[1], ks[2]) <= 0 && Compare(ks[0], ks[2]) <= 0;
  }
}
