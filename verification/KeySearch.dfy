/** The pure side of searching a sorted tree for a key. */
module KeySearch {
  import opened SortedSeq
  import opened RankedTree

  /** The search for `key` has left only smaller keys to the left of the hole and only
      greater ones to the right. */
  ghost predicate Narrowed<N, K(!new)>(cmp: (K, K) -> int, key: K, s: seq<K>, c: Ctx<N, K>, t: Tree<N, K>) {
    && KeysL(c) + Keys(t) + KeysR(c) == s
    && AllBelow(cmp, KeysL(c), key) && AllAbove(cmp, KeysR(c), key)
  }

  lemma NarrowStep<N, K(!new)>(cmp: (K, K) -> int, key: K, s: seq<K>, c: Ctx<N, K>, t: Tree<N, K>)
    requires TotalPreorder(cmp) && Sorted(cmp, s)
    requires t.Br? && Narrowed(cmp, key, s, c, t)
    ensures cmp(key, t.key) < 0 ==> Narrowed(cmp, key, s, Push(L, t, c), t.left)
    ensures cmp(key, t.key) > 0 ==> Narrowed(cmp, key, s, Push(R, t, c), t.right)
  {
    hide TotalPreorder, Sorted, AllBelow, NoneBelow, AllAbove;
    Regroup(KeysL(c), Keys(t.left), t.key, Keys(t.right), KeysR(c));
    Narrow(cmp, KeysL(c), Keys(t.left), t.key, Keys(t.right), KeysR(c), key);
  }

  lemma NarrowFails<N, K(!new)>(cmp: (K, K) -> int, key: K, s: seq<K>, c: Ctx<N, K>)
    requires Narrowed(cmp, key, s, c, Leaf)
    ensures Absent(cmp, s, key)
  {
    assert KeysL(c) + Keys<N, K>(Leaf) + KeysR(c) == KeysL(c) + KeysR(c);
  }

  /** The position at which the search stopped. */
  function Position<N, K>(c: Ctx<N, K>, t: Tree<N, K>): nat
    requires t.Br?
  {
    |KeysL(c)| + Size(t.left)
  }

  lemma FoundAt<N, K(!new)>(cmp: (K, K) -> int, key: K, s: seq<K>, c: Ctx<N, K>, t: Tree<N, K>)
    requires t.Br? && Narrowed(cmp, key, s, c, t)
    ensures Position(c, t) < |s| && s[Position(c, t)] == t.key
    ensures RemoveAt(s, Position(c, t)) == KeysL(c) + Keys(t.left) + (Keys(t.right) + KeysR(c))
  {
    var a, l, r, b := KeysL(c), Keys(t.left), Keys(t.right), KeysR(c);
    Regroup(a, l, t.key, r, b);
    assert s == (a + l) + [t.key] + (r + b);
  }

  /** A search that ends at an empty hole has found the bounds of `key`. */
  lemma MissBounds<N, K(!new)>(cmp: (K, K) -> int, key: K, s: seq<K>, c: Ctx<N, K>)
    requires Narrowed(cmp, key, s, c, Leaf)
    ensures LowerBound(cmp, s, key) == |KeysL(c)|
    ensures forall i :: 0 <= i < |KeysL(c)| ==> s[i] == KeysL(c)[i]
    ensures |s| == |KeysL(c)| + |KeysR(c)|
    ensures forall i :: 0 <= i < |KeysR(c)| ==> s[|KeysL(c)| + i] == KeysR(c)[i]
  {
    assert s == KeysL(c) + KeysR(c);
    LowerBoundAt(cmp, KeysL(c), KeysR(c), key);
  }

  /** A search that ends at an empty hole has parted the keys. */
  lemma MissParts<N, K(!new)>(cmp: (K, K) -> int, key: K, s: seq<K>, c: Ctx<N, K>)
    requires Narrowed(cmp, key, s, c, Leaf)
    ensures s == KeysL(c) + KeysR(c) && AllBelow(cmp, KeysL(c), key) && AllAbove(cmp, KeysR(c), key)
  {
    assert KeysL(c) + [] == KeysL(c);
  }

  /** A search for `key` starts with everything still to be narrowed down. */
  lemma NarrowStart<N, K(!new)>(cmp: (K, K) -> int, key: K, t: Tree<N, K>)
    ensures Narrowed(cmp, key, Keys(t), Hole, t)
  {
  }
}
