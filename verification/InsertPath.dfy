/** The pure argument behind one-pass insertion: what the way down establishes, and why
    adjusting balances below `s` and rotating once at `s` restores the tree. */
module InsertPath {
  import opened SortedSeq
  import opened RankedTree
  import opened Rotations

  ghost predicate GoesLeft<K>(cmp: (K, K) -> int, key: K, k: K) { cmp(key, k) < 1 }

  /** Every frame was entered on the side the comparison with `key` picks. */
  ghost predicate OnPath<N, K(!new)>(cmp: (K, K) -> int, key: K, c: Ctx<N, K>) {
    c.Under? ==> (c.dir == L <==> GoesLeft(cmp, key, c.key)) && OnPath(cmp, key, c.up)
  }

  /** Every frame is stored as perfectly balanced. */
  ghost predicate Level<N, K>(c: Ctx<N, K>) {
    c.Under? ==> c.bal == 0 && Level(c.up)
  }

  /** The search has parted the keys `s`: those left of the hole are below `key`, those to
      the right are not. */
  ghost predicate Parted<N, K(!new)>(cmp: (K, K) -> int, key: K, s: seq<K>, c: Ctx<N, K>, t: Tree<N, K>) {
    && KeysL(c) + Keys(t) + KeysR(c) == s
    && AllBelow(cmp, KeysL(c), key) && NoneBelow(cmp, KeysR(c), key)
  }

  /** The way down so far: `t` hangs in `c`, and the ranks in `c`, when they were true, already count the new node. */
  ghost predicate Diving<N, K(!new)>(ranked: bool, cmp: (K, K) -> int, key: K, s: seq<K>, c: Ctx<N, K>, t: Tree<N, K>) {
    && Parted(cmp, key, s, c, t)
    && OnPath(cmp, key, c)
    && (ranked ==> CtxRanked(c, Size(t) + 1) && Ranked(t))
    && CtxBalanced(c, Height(t)) && Balanced(t)
  }

  lemma Part<N, K(!new)>(cmp: (K, K) -> int, key: K, s: seq<K>, c: Ctx<N, K>, t: Tree<N, K>)
    requires TotalPreorder(cmp) && Sorted(cmp, s)
    requires t.Br? && Parted(cmp, key, s, c, t)
    ensures GoesLeft(cmp, key, t.key) ==> Parted(cmp, key, s, Push(L, t, c), t.left)
    ensures !GoesLeft(cmp, key, t.key) ==> Parted(cmp, key, s, Push(R, t, c), t.right)
  {
    hide TotalPreorder, Sorted, AllBelow, NoneBelow, AllAbove;
    Regroup(KeysL(c), Keys(t.left), t.key, Keys(t.right), KeysR(c));
    Narrow(cmp, KeysL(c), Keys(t.left), t.key, Keys(t.right), KeysR(c), key);
  }

  lemma DiveLeft<N, K(!new)>(ranked: bool, cmp: (K, K) -> int, key: K, s: seq<K>, c: Ctx<N, K>, t: Tree<N, K>)
    requires TotalPreorder(cmp) && Sorted(cmp, s)
    requires t.Br? && Diving(ranked, cmp, key, s, c, t) && GoesLeft(cmp, key, t.key)
    ensures Diving(ranked, cmp, key, s, Push(L, t.(rank := t.rank + 1), c), t.left)
  {
    hide TotalPreorder, Sorted, Parted;
    BumpParted(cmp, key, s, c, t);
    Part(cmp, key, s, c, t.(rank := t.rank + 1));
  }

  lemma BumpParted<N, K(!new)>(cmp: (K, K) -> int, key: K, s: seq<K>, c: Ctx<N, K>, t: Tree<N, K>)
    requires t.Br? && Parted(cmp, key, s, c, t)
    ensures Parted(cmp, key, s, c, t.(rank := t.rank + 1))
  {
    assert Keys(t.(rank := t.rank + 1)) == Keys(t);
  }

  lemma DiveRight<N, K(!new)>(ranked: bool, cmp: (K, K) -> int, key: K, s: seq<K>, c: Ctx<N, K>, t: Tree<N, K>)
    requires TotalPreorder(cmp) && Sorted(cmp, s)
    requires t.Br? && Diving(ranked, cmp, key, s, c, t) && !GoesLeft(cmp, key, t.key)
    ensures Diving(ranked, cmp, key, s, Push(R, t, c), t.right)
  {
    hide TotalPreorder, Sorted, Parted;
    Part(cmp, key, s, c, t);
  }

  // ------------------------------------------------------- the path below s

  /** `t` has just gained the leaf `q` at the end of the search path for `key`, and was
      level all along that path before. */
  ghost predicate Grown<N, K(!new)>(cmp: (K, K) -> int, key: K, q: N, t: Tree<N, K>) {
    t.Br? &&
    if t.id == q then t.left.Leaf? && t.right.Leaf? && t.bal == 0
    else if GoesLeft(cmp, key, t.key) then
      Grown(cmp, key, q, t.left) && Balanced(t.right) && Height(t.left) == Height(t.right) + 1
    else
      Grown(cmp, key, q, t.right) && Balanced(t.left) && Height(t.right) == Height(t.left) + 1
  }

  /** The second loop of insertion: tilt every balance on the path down to `q`. */
  ghost function Tilt<N, K(!new)>(cmp: (K, K) -> int, key: K, q: N, t: Tree<N, K>): Tree<N, K> {
    if t.Leaf? || t.id == q then t
    else if GoesLeft(cmp, key, t.key) then t.(bal := -1, left := Tilt(cmp, key, q, t.left))
    else t.(bal := 1, right := Tilt(cmp, key, q, t.right))
  }

  lemma {:induction false} TiltBalances<N, K(!new)>(cmp: (K, K) -> int, key: K, q: N, t: Tree<N, K>)
    ensures Height(Tilt(cmp, key, q, t)) == Height(t)
    ensures Rearranged(t, Tilt(cmp, key, q, t))
    ensures Grown(cmp, key, q, t) ==> Balanced(Tilt(cmp, key, q, t))
    ensures Grown(cmp, key, q, t) ==> Tilt(cmp, key, q, t).bal != 0 || t.id == q
  {
    if t.Leaf? || t.id == q {
    } else if GoesLeft(cmp, key, t.key) {
      TiltBalances(cmp, key, q, t.left);
      Within(t, Tilt(cmp, key, q, t.left), t.right, -1);
    } else {
      TiltBalances(cmp, key, q, t.right);
      Within(t, t.left, Tilt(cmp, key, q, t.right), 1);
    }
  }

  lemma GrowOne<N, K(!new)>(cmp: (K, K) -> int, key: K, q: N, seg: Ctx<N, K>, out: Ctx<N, K>, t: Tree<N, K>, h: int)
    requires seg.Under? && CtxBalanced(Append(seg, out), h) && Level(seg) && OnPath(cmp, key, seg)
    requires q !in CtxNodes(seg) && Grown(cmp, key, q, t) && Height(t) == h + 1
    ensures Grown(cmp, key, q, Fill(seg, t)) && Height(Fill(seg, t)) == h + 2
    ensures CtxBalanced(Append(seg.up, out), h + 1) && Level(seg.up) && OnPath(cmp, key, seg.up)
    ensures q !in CtxNodes(seg.up) && CtxHeight(seg, h) == CtxHeight(seg.up, h + 1)
  {
  }

  /** A level part `seg` of the search path passes growth on to its top. */
  lemma {:induction false} Grow<N, K(!new)>(cmp: (K, K) -> int, key: K, q: N, seg: Ctx<N, K>, out: Ctx<N, K>,
      t: Tree<N, K>, h: int)
    requires CtxBalanced(Append(seg, out), h) && Level(seg) && OnPath(cmp, key, seg)
    requires q !in CtxNodes(seg)
    requires Grown(cmp, key, q, t) && Height(t) == h + 1
    ensures Grown(cmp, key, q, Plug(seg, t))
    ensures Height(Plug(seg, t)) == CtxHeight(seg, h) + 1
    ensures CtxBalanced(out, CtxHeight(seg, h))
  {
    if seg.Hole? {
    } else {
      GrowOne(cmp, key, q, seg, out, t, h);
      hide Height, Balanced, Grown;
      Grow(cmp, key, q, seg.up, out, Fill(seg, t), h + 1);
    }
  }

  lemma {:induction false} SplitPath<N, K(!new)>(cmp: (K, K) -> int, key: K, seg: Ctx<N, K>, out: Ctx<N, K>)
    requires OnPath(cmp, key, Append(seg, out))
    ensures OnPath(cmp, key, seg) && OnPath(cmp, key, out)
    ensures CtxNodes(seg) <= CtxNodes(Append(seg, out))
  {
    if seg.Hole? {
    } else {
      SplitPath(cmp, key, seg.up, out);
    }
  }

  // ------------------------------------------------------- the turn at s

  /** What becomes of the subtree `t` at `s`, whose `d` side has just grown a level. */
  ghost function Turn<N, K>(d: Dir, t: Tree<N, K>): Tree<N, K>
    requires t.Br?
  {
    var a := if d == L then -1 else 1;
    if t.bal == 0 then t.(bal := a)
    else if t.bal == -a then t.(bal := 0)
    else if d == L then
      if t.left.Br? && t.left.bal == -1 then SingleR(t, 0, 0)
      else if t.left.Br? && t.left.right.Br? then DoubleR(t) else t
    else
      if t.right.Br? && t.right.bal == 1 then SingleL(t, 0, 0)
      else if t.right.Br? && t.right.left.Br? then DoubleL(t) else t
  }

  /** The `d` side of `t` has grown to height `h + 1` since the balance of `t` was stored. */
  ghost predicate GrownSide<N, K>(d: Dir, h: int, t: Tree<N, K>) {
    && t.Br? && Balanced(t.left) && Balanced(t.right) && -1 <= t.bal <= 1
    && (if d == L
        then Height(t.left) == h + 1 && t.bal == Height(t.right) - h && (h > 0 ==> t.left.bal != 0)
        else Height(t.right) == h + 1 && t.bal == h - Height(t.left) && (h > 0 ==> t.right.bal != 0))
  }

  lemma TurnKeeps<N, K>(d: Dir, t: Tree<N, K>)
    requires t.Br?
    ensures Rearranged(t, Turn(d, t))
  {
    hide Rearranged, SingleR, SingleL, DoubleR, DoubleL;
    Same(t);
    Rebalanced(t, 0);
    Rebalanced(t, -1);
    Rebalanced(t, 1);
    if t.left.Br? {
      SingleRKeeps(t, 0, 0);
      if t.left.right.Br? { DoubleRKeeps(t); }
    }
    if t.right.Br? {
      SingleLKeeps(t, 0, 0);
      if t.right.left.Br? { DoubleLKeeps(t); }
    }
  }


  lemma TurnBalances<N, K>(d: Dir, h: int, t: Tree<N, K>)
    requires GrownSide(d, h, t)
    ensures Balanced(Turn(d, t))
    ensures t.bal != 0 ==> Height(Turn(d, t)) == 1 + Max(h, Height(if d == L then t.right else t.left))
    ensures t.bal == 0 ==> Height(Turn(d, t)) == h + 2 == Height(t)
    ensures t.bal != 0 && t.bal == (if d == L then -1 else 1) ==>
      if d == L then t.left.Br? && (t.left.bal == -1 || (t.left.bal == 1 && t.left.right.Br?))
      else t.right.Br? && (t.right.bal == 1 || (t.right.bal == -1 && t.right.left.Br?))
  {
    hide SingleR, SingleL, DoubleR, DoubleL;
    if t.bal == 0 {
    } else if d == L && t.bal == -1 {
      if t.left.bal == -1 { SingleRBalances(t); } else { DoubleRBalances(t); }
    } else if d == R && t.bal == 1 {
      if t.right.bal == 1 { SingleLBalances(t); } else { DoubleLBalances(t); }
    }
  }

  // ------------------------------------------------------- the whole insertion

  function NewLeaf<N, K>(q: N, key: K): Tree<N, K> { Br(q, key, 1, 0, Leaf, Leaf) }

  /** The subtree at `s` after its path has been tilted. */
  ghost function Tilted<N, K(!new)>(cmp: (K, K) -> int, key: K, q: N, seg: Ctx<N, K>, sfr: Ctx<N, K>): Tree<N, K>
    requires sfr.Under?
  {
    Fill(sfr, Tilt(cmp, key, q, Plug(seg, NewLeaf(q, key))))
  }

  /** The whole tree after the turn at `s`. */
  ghost function Inserted<N, K(!new)>(cmp: (K, K) -> int, key: K, q: N, seg: Ctx<N, K>, sfr: Ctx<N, K>): Tree<N, K>
    requires sfr.Under?
  {
    Plug(sfr.up, Turn(sfr.dir, Tilted(cmp, key, q, seg, sfr)))
  }

  lemma BelowS<N, K(!new)>(ranked: bool, cmp: (K, K) -> int, key: K, s: seq<K>, q: N, seg: Ctx<N, K>, sfr: Ctx<N, K>)
    requires Diving(ranked, cmp, key, s, Append(seg, sfr), Leaf) && Level(seg) && sfr.Under?
    requires q !in CtxNodes(Append(seg, sfr))
    ensures Grown(cmp, key, q, Plug(seg, NewLeaf(q, key)))
    ensures GrownSide(sfr.dir, CtxHeight(seg, 0), Tilted(cmp, key, q, seg, sfr))
    ensures CtxBalanced(sfr, CtxHeight(seg, 0))
    ensures sfr.dir == L <==> GoesLeft(cmp, key, sfr.key)
  {
    SplitPath(cmp, key, seg, sfr);
    Grow(cmp, key, q, seg, sfr, NewLeaf(q, key), 0);
    var r := Plug(seg, NewLeaf(q, key));
    TiltBalances(cmp, key, q, r);
    PlugRoot(seg, NewLeaf(q, key));
  }

  lemma {:induction false} PlugRoot<N, K>(c: Ctx<N, K>, t: Tree<N, K>)
    requires t.Br?
    ensures Plug(c, t).Br? && (c.Under? ==> Plug(c, t).id in CtxNodes(c))
  {
    if c.Hole? {
    } else {
      PlugRoot(c.up, Fill(c, t));
    }
  }

  lemma WholeBalanced<N, K(!new)>(ranked: bool, cmp: (K, K) -> int, key: K, s: seq<K>, q: N, seg: Ctx<N, K>,
      sfr: Ctx<N, K>)
    requires Diving(ranked, cmp, key, s, Append(seg, sfr), Leaf) && Level(seg) && sfr.Under?
    requires q !in CtxNodes(Append(seg, sfr))
    requires sfr.bal == 0 ==> sfr.up.Hole?
    ensures Balanced(Inserted(cmp, key, q, seg, sfr))
    ensures Height(Inserted(cmp, key, q, seg, sfr)) == CtxHeight(Append(seg, sfr), 0) + if sfr.bal == 0 then 1 else 0
  {
    hide Diving, Level, Tilt, Turn, Grown, Plug;
    var t := Tilted(cmp, key, q, seg, sfr);
    var h := CtxHeight(seg, 0);
    BelowS(ranked, cmp, key, s, q, seg, sfr);
    TurnBalances(sfr.dir, h, t);
    AppendHeight(seg, sfr, 0);
    PlugBalanced(sfr.up, Turn(sfr.dir, t));
  }

  lemma WholeRearranged<N, K(!new)>(cmp: (K, K) -> int, key: K, q: N, seg: Ctx<N, K>, sfr: Ctx<N, K>)
    requires sfr.Under?
    ensures Rearranged(Plug(Append(seg, sfr), NewLeaf(q, key)), Inserted(cmp, key, q, seg, sfr))
  {
    hide Rearranged, Tilt, Turn;
    var leaf := NewLeaf(q, key);
    var t := Tilted(cmp, key, q, seg, sfr);
    TiltBalances(cmp, key, q, Plug(seg, leaf));
    RearrangedIn(sfr, Plug(seg, leaf), Tilt(cmp, key, q, Plug(seg, leaf)));
    TurnKeeps(sfr.dir, t);
    RearrangedIn(sfr.up, t, Turn(sfr.dir, t));
    PlugAppend(seg, sfr, leaf);
    RearrangedTrans(Plug(sfr, Plug(seg, leaf)), Plug(sfr.up, t), Inserted(cmp, key, q, seg, sfr));
  }

  lemma WholeOrdered<N, K(!new)>(ranked: bool, cmp: (K, K) -> int, key: K, s: seq<K>, q: N, seg: Ctx<N, K>,
      sfr: Ctx<N, K>)
    requires TotalPreorder(cmp) && Sorted(cmp, s)
    requires Diving(ranked, cmp, key, s, Append(seg, sfr), Leaf) && sfr.Under?
    ensures var u := Inserted(cmp, key, q, seg, sfr);
      (ranked ==> Ranked(u)) && Sorted(cmp, Keys(u)) && Keys(u) == InsertAt(s, LowerBound(cmp, s, key), key)
  {
    hide TotalPreorder, Sorted, AllBelow, NoneBelow, LowerBound, InsertAt, Inserted, Diving, Rearranged, Ranked, Keys,
      Plug, Append, KeysL, KeysR;
    var c := Append(seg, sfr);
    WholeRearranged(cmp, key, q, seg, sfr);
    LeafOrdered(ranked, cmp, key, s, q, c);
    Carries(Plug(c, NewLeaf(q, key)), Inserted(cmp, key, q, seg, sfr));
  }

  lemma Carries<N, K>(t: Tree<N, K>, u: Tree<N, K>)
    requires Rearranged(t, u)
    ensures Keys(u) == Keys(t) && (Ranked(t) ==> Ranked(u))
  {
    hide Keys, Ranked;
  }

  /** The new leaf, before anything is turned: in order, and the ranks on its path already count it. */
  lemma LeafOrdered<N, K(!new)>(ranked: bool, cmp: (K, K) -> int, key: K, s: seq<K>, q: N, c: Ctx<N, K>)
    requires TotalPreorder(cmp) && Sorted(cmp, s) && Diving(ranked, cmp, key, s, c, Leaf)
    ensures var t := Plug(c, NewLeaf(q, key));
      (ranked ==> Ranked(t)) && Sorted(cmp, Keys(t)) && Keys(t) == InsertAt(s, LowerBound(cmp, s, key), key)
  {
    hide TotalPreorder, Sorted, AllBelow, NoneBelow, LowerBound, InsertAt, Keys, Plug, Ranked, KeysL, KeysR;
    PlugKeys(c, NewLeaf(q, key));
    LeafParts<N, K>(q, key);
    Nothing(KeysL(c), KeysR(c));
    InsertSorted(cmp, KeysL(c), KeysR(c), key);
    if ranked { PlugRanked(c, NewLeaf(q, key)); }
  }

  lemma LeafParts<N, K>(q: N, key: K)
    ensures Keys(NewLeaf(q, key)) == [key] && Keys<N, K>(Leaf) == [] && Ranked(NewLeaf(q, key))
    ensures Size(NewLeaf(q, key)) == 1
  {
  }

  lemma Nothing<T>(a: seq<T>, b: seq<T>)
    ensures a + [] + b == a + b
  {
  }
}
