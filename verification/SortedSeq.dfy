/** The abstract meaning of a tree: one sequence of keys, sorted by the caller's
    comparison function, duplicates allowed.  */
module SortedSeq {

  /** What the tree demands of `compare_fun`: a total preorder, told by the sign of the result. */
  ghost predicate TotalPreorder<K(!new)>(cmp: (K, K) -> int) {
    && (forall a, b :: cmp(a, b) < 0 <==> cmp(b, a) > 0)
    && (forall a, b, c :: cmp(a, b) <= 0 && cmp(b, c) <= 0 ==> cmp(a, c) <= 0)
  }

  ghost predicate Sorted<K(!new)>(cmp: (K, K) -> int, s: seq<K>) {
    forall i, j :: 0 <= i < j < |s| ==> cmp(s[i], s[j]) <= 0
  }

  /** Every key of `s` is strictly less than `key`. */
  ghost predicate AllBelow<K(!new)>(cmp: (K, K) -> int, s: seq<K>, key: K) {
    forall i :: 0 <= i < |s| ==> cmp(key, s[i]) > 0
  }

  /** No key of `s` is less than `key`. */
  ghost predicate NoneBelow<K(!new)>(cmp: (K, K) -> int, s: seq<K>, key: K) {
    forall i :: 0 <= i < |s| ==> cmp(key, s[i]) <= 0
  }

  /** Every key of `s` is strictly greater than `key`. */
  ghost predicate AllAbove<K(!new)>(cmp: (K, K) -> int, s: seq<K>, key: K) {
    forall i :: 0 <= i < |s| ==> cmp(key, s[i]) < 0
  }

  /** What one comparison with a key in the middle of a sorted sequence tells about both sides. */
  lemma Pivot<K(!new)>(cmp: (K, K) -> int, a: seq<K>, k: K, b: seq<K>, key: K)
    requires TotalPreorder(cmp) && Sorted(cmp, a + [k] + b)
    ensures cmp(key, k) > 0 ==> AllBelow(cmp, a, key)
    ensures cmp(key, k) <= 0 ==> NoneBelow(cmp, b, key)
    ensures cmp(key, k) < 0 ==> AllAbove(cmp, b, key)
  {
    var s := a + [k] + b;
    forall i | 0 <= i < |a| ensures cmp(a[i], k) <= 0 {
      assert s[i] == a[i] && s[|a|] == k;
    }
    forall i | 0 <= i < |b| ensures cmp(k, b[i]) <= 0 {
      assert s[|a|] == k && s[|a| + 1 + i] == b[i];
    }
    if cmp(key, k) > 0 {
      forall i | 0 <= i < |a| ensures cmp(key, a[i]) > 0 {
        assert cmp(a[i], k) <= 0;
      }
    }
    if cmp(key, k) < 0 {
      forall i | 0 <= i < |b| ensures cmp(key, b[i]) < 0 {
        assert cmp(k, b[i]) <= 0;
      }
    }
  }

  /** Concatenation is associative, in the two shapes a zipper step needs. */
  lemma Regroup<T>(a: seq<T>, b: seq<T>, x: T, c: seq<T>, d: seq<T>)
    ensures a + (b + [x] + c) + d == a + b + ([x] + c + d)
    ensures a + (b + [x] + c) + d == (a + b + [x]) + c + d
    ensures a + (b + [x] + c) + d == (a + b) + [x] + (c + d)
  {
  }

  /** One search step that treats equal keys as lying to the right: the keys known to be
      below `key` and those known not to be grow by what the step leaves behind. */
  lemma Narrow<K(!new)>(cmp: (K, K) -> int, a: seq<K>, l: seq<K>, k: K, r: seq<K>, b: seq<K>, key: K)
    requires TotalPreorder(cmp) && Sorted(cmp, a + (l + [k] + r) + b)
    ensures cmp(key, k) > 0 && AllBelow(cmp, a, key) ==> AllBelow(cmp, a + l + [k], key)
    ensures cmp(key, k) <= 0 && NoneBelow(cmp, b, key) ==> NoneBelow(cmp, [k] + r + b, key)
    ensures cmp(key, k) < 0 && AllAbove(cmp, b, key) ==> AllAbove(cmp, [k] + r + b, key)
  {
    Regroup(a, l, k, r, b);
    Pivot(cmp, a + l, k, r + b, key);
    assert [k] + r + b == [k] + (r + b);
  }

  /** How many leading keys of `s` are less than `key`. */
  function LowerBound<K>(cmp: (K, K) -> int, s: seq<K>, key: K): (n: nat)
    ensures n <= |s|
  {
    if s == [] || cmp(key, s[0]) <= 0 then 0 else 1 + LowerBound(cmp, s[1..], key)
  }

  /** Where the keys below `key` end is its lower bound. */
  lemma {:induction false} LowerBoundAt<K(!new)>(cmp: (K, K) -> int, a: seq<K>, b: seq<K>, key: K)
    requires AllBelow(cmp, a, key) && NoneBelow(cmp, b, key)
    ensures LowerBound(cmp, a + b, key) == |a|
  {
    if a != [] {
      assert (a + b)[1..] == a[1..] + b;
      LowerBoundAt(cmp, a[1..], b, key);
    } else {
      assert a + b == b;
    }
  }

  function InsertAt<K>(s: seq<K>, i: nat, key: K): (r: seq<K>)
    requires i <= |s|
    ensures |r| == |s| + 1
  {
    s[..i] + [key] + s[i..]
  }

  /** The sequence with position `i` filled by `key`, read position by position. */
  lemma InsertAtIndex<K>(s: seq<K>, i: nat, key: K, j: nat)
    requires i <= |s| && j <= |s|
    ensures InsertAt(s, i, key)[j] == if j < i then s[j] else if j == i then key else s[j - 1]
  {
  }

  lemma InsertKeepsOrder<K(!new)>(cmp: (K, K) -> int, s: seq<K>, n: nat, key: K)
    requires TotalPreorder(cmp) && Sorted(cmp, s) && n <= |s|
    requires forall i :: 0 <= i < n ==> cmp(key, s[i]) > 0
    requires forall i :: n <= i < |s| ==> cmp(key, s[i]) <= 0
    ensures Sorted(cmp, InsertAt(s, n, key))
  {
    hide InsertAt;
    var u := InsertAt(s, n, key);
    forall i, j | 0 <= i < j < |s| + 1 ensures cmp(u[i], u[j]) <= 0 {
      InsertAtIndex(s, n, key, i);
      InsertAtIndex(s, n, key, j);
    }
  }

  lemma InsertSorted<K(!new)>(cmp: (K, K) -> int, a: seq<K>, b: seq<K>, key: K)
    requires TotalPreorder(cmp) && Sorted(cmp, a + b) && AllBelow(cmp, a, key) && NoneBelow(cmp, b, key)
    ensures a + [key] + b == InsertAt(a + b, LowerBound(cmp, a + b, key), key)
    ensures Sorted(cmp, a + [key] + b)
  {
    hide TotalPreorder, Sorted, LowerBound;
    LowerBoundAt(cmp, a, b, key);
    var s, n := a + b, |a|;
    assert s[..n] == a && s[n..] == b;
    assert forall i :: 0 <= i < n ==> s[i] == a[i];
    assert forall i :: n <= i < |s| ==> s[i] == b[i - n];
    InsertKeepsOrder(cmp, s, n, key);
  }

  function RemoveAt<K>(s: seq<K>, i: nat): (r: seq<K>)
    requires i < |s|
    ensures |r| == |s| - 1
  {
    s[..i] + s[i + 1..]
  }

  lemma RemoveAtIndex<K>(s: seq<K>, i: nat, j: nat)
    requires i < |s| && j < |s| - 1
    ensures RemoveAt(s, i)[j] == if j < i then s[j] else s[j + 1]
  {
  }

  lemma RemoveSorted<K(!new)>(cmp: (K, K) -> int, s: seq<K>, i: nat)
    requires i < |s| && Sorted(cmp, s)
    ensures Sorted(cmp, RemoveAt(s, i))
  {
    var u := RemoveAt(s, i);
    forall j, k | 0 <= j < k < |u| ensures cmp(u[j], u[k]) <= 0 {
      RemoveAtIndex(s, i, j);
      RemoveAtIndex(s, i, k);
    }
  }

  /** How many leading keys of `s` are not greater than `key`. */
  function UpperBound<K>(cmp: (K, K) -> int, s: seq<K>, key: K): (n: nat)
    ensures n <= |s|
  {
    if s == [] || cmp(key, s[0]) < 0 then 0 else 1 + UpperBound(cmp, s[1..], key)
  }

  /** In a sorted sequence the two bounds cut out the keys equal to `key`. */
  lemma {:induction false} Bounds<K(!new)>(cmp: (K, K) -> int, s: seq<K>, key: K)
    requires TotalPreorder(cmp) && Sorted(cmp, s)
    ensures LowerBound(cmp, s, key) <= UpperBound(cmp, s, key)
    ensures forall i :: 0 <= i < |s| ==> (cmp(key, s[i]) > 0 <==> i < LowerBound(cmp, s, key))
    ensures forall i :: 0 <= i < |s| ==> (cmp(key, s[i]) >= 0 <==> i < UpperBound(cmp, s, key))
  {
    if s == [] {
    } else {
      Bounds(cmp, s[1..], key);
      forall i | 0 <= i < |s|
        ensures cmp(key, s[i]) > 0 <==> i < LowerBound(cmp, s, key)
        ensures cmp(key, s[i]) >= 0 <==> i < UpperBound(cmp, s, key)
      {
        if i > 0 { assert s[i] == s[1..][i - 1] && cmp(s[0], s[i]) <= 0; }
      }
    }
  }

  /** No key of `s` compares equal to `key`. */
  ghost predicate Absent<K(!new)>(cmp: (K, K) -> int, s: seq<K>, key: K) {
    forall i :: 0 <= i < |s| ==> cmp(key, s[i]) != 0
  }
}
