/** The pure argument behind deletion: what the search leaves behind when it misses, how one
    node leaves the tree, and why the climb back restores every balance. */
module DeletePath {
  import opened SortedSeq
  import opened RankedTree
  import opened Rotations
  import opened KeySearch

  // ---------------------------------------------------------------- the search

  /** The context with the rank changes of the way down taken back. */
  function Restored<N, K>(c: Ctx<N, K>): Ctx<N, K> {
    if c.Hole? then Hole else c.(rank := if c.dir == L then c.rank + 1 else c.rank, up := Restored(c.up))
  }

  /** What a search for an absent key leaves: where it ends by going right, the last node's
      rank has been raised. */
  ghost function Missed<N, K(!new)>(cmp: (K, K) -> int, key: K, t: Tree<N, K>): Tree<N, K> {
    if t.Leaf? then t
    else if cmp(key, t.key) < 0 then t.(left := Missed(cmp, key, t.left))
    else if cmp(key, t.key) > 0 then
      if t.right.Leaf? then t.(rank := t.rank + 1) else t.(right := Missed(cmp, key, t.right))
    else t
  }

  /** The search for `key` ends at a node smaller than `key`, which has no right child. */
  ghost predicate EndsRight<N, K(!new)>(cmp: (K, K) -> int, key: K, t: Tree<N, K>) {
    t.Br? &&
    if cmp(key, t.key) < 0 then EndsRight(cmp, key, t.left)
    else if cmp(key, t.key) > 0 then t.right.Leaf? || EndsRight(cmp, key, t.right)
    else false
  }

  /** True ranks around the focus no longer count one of its nodes; its height still fits. */
  ghost predicate Counted<N, K>(t0: Tree<N, K>, c: Ctx<N, K>, t: Tree<N, K>) {
    && (Ranked(t0) ==> CtxRanked(c, Size(t) - 1) && Ranked(t))
    && CtxBalanced(c, Height(t)) && Balanced(t) && CtxHeight(c, Height(t)) == Height(t0)
    && CtxNodes(c) + Nodes(t) == Nodes(t0)
  }

  /** The state of the search: `t0` is the tree it started from. */
  ghost predicate Seeking<N, K(!new)>(cmp: (K, K) -> int, key: K, t0: Tree<N, K>, c: Ctx<N, K>, t: Tree<N, K>) {
    && Narrowed(cmp, key, Keys(t0), c, t)
    && Counted(t0, c, t)
    && Plug(Restored(c), t) == t0
    && Plug(Restored(c), Missed(cmp, key, t)) == Missed(cmp, key, t0)
  }

  lemma SeekStart<N, K(!new)>(cmp: (K, K) -> int, key: K, t: Tree<N, K>)
    requires Balanced(t)
    ensures Seeking(cmp, key, t, Hole, t)
  {
  }

  lemma StepNodes<N, K>(c: Ctx<N, K>, t: Tree<N, K>)
    requires t.Br?
    ensures CtxNodes(Push(L, t.(rank := t.rank - 1), c)) + Nodes(t.left) == CtxNodes(c) + Nodes(t)
    ensures CtxNodes(Push(R, t, c)) + Nodes(t.right) == CtxNodes(c) + Nodes(t)
  {
  }

  lemma CountedLeft<N, K>(t0: Tree<N, K>, c: Ctx<N, K>, t: Tree<N, K>)
    requires t.Br? && Counted(t0, c, t)
    ensures Counted(t0, Push(L, t.(rank := t.rank - 1), c), t.left)
  {
    hide CtxNodes, Nodes;
    StepNodes(c, t);
  }

  lemma CountedRight<N, K>(t0: Tree<N, K>, c: Ctx<N, K>, t: Tree<N, K>)
    requires t.Br? && Counted(t0, c, t)
    ensures Counted(t0, Push(R, t, c), t.right)
  {
    hide CtxNodes, Nodes;
    StepNodes(c, t);
  }

  lemma SeekLeft<N, K(!new)>(cmp: (K, K) -> int, key: K, t0: Tree<N, K>, c: Ctx<N, K>, t: Tree<N, K>)
    requires TotalPreorder(cmp) && Sorted(cmp, Keys(t0))
    requires t.Br? && Seeking(cmp, key, t0, c, t) && cmp(key, t.key) < 0
    ensures Seeking(cmp, key, t0, Push(L, t.(rank := t.rank - 1), c), t.left)
    ensures Narrowed(cmp, key, Keys(t0), Push(L, t.(rank := t.rank - 1), c), t.left)
  {
    hide TotalPreorder, Sorted, AllBelow, AllAbove, Counted;
    NarrowStep(cmp, key, Keys(t0), c, t);
    CountedLeft(t0, c, t);
    assert Keys(t.(rank := t.rank - 1)) == Keys(t);
  }

  lemma SeekRight<N, K(!new)>(cmp: (K, K) -> int, key: K, t0: Tree<N, K>, c: Ctx<N, K>, t: Tree<N, K>)
    requires TotalPreorder(cmp) && Sorted(cmp, Keys(t0))
    requires t.Br? && Seeking(cmp, key, t0, c, t) && cmp(key, t.key) > 0
    ensures t.right.Br? ==> Seeking(cmp, key, t0, Push(R, t, c), t.right)
    ensures Narrowed(cmp, key, Keys(t0), Push(R, t, c), t.right)
  {
    hide TotalPreorder, Sorted, AllBelow, AllAbove, Counted, Narrowed;
    NarrowStep(cmp, key, Keys(t0), c, t);
    CountedRight(t0, c, t);
  }

  lemma SeekScope<N, K(!new)>(cmp: (K, K) -> int, key: K, t0: Tree<N, K>, c: Ctx<N, K>, t: Tree<N, K>)
    requires t.Br? && Seeking(cmp, key, t0, c, t)
    ensures t.id in Nodes(t0) && CtxNodes(c) <= Nodes(t0)
  {
  }

  /** A search that ends by going left: the undo gives back the tree as it was. */
  lemma MissLeft<N, K(!new)>(cmp: (K, K) -> int, key: K, t0: Tree<N, K>, c: Ctx<N, K>, t: Tree<N, K>)
    requires t.Br? && t.left.Leaf? && cmp(key, t.key) < 0
    requires Seeking(cmp, key, t0, c, t) && Narrowed(cmp, key, Keys(t0), Push(L, t.(rank := t.rank - 1), c), Leaf)
    ensures Plug(Restored(c), t) == t0 == Missed(cmp, key, t0) && Absent(cmp, Keys(t0), key)
  {
    hide Narrowed, Counted, Absent;
    assert Missed(cmp, key, t.left) == t.left;
    NarrowFails(cmp, key, Keys(t0), Push(L, t.(rank := t.rank - 1), c));
  }

  /** A search that ends by going right: undoing the left turns alone would give back the tree
      as it was; with one more on the last node it does not. */
  lemma MissRight<N, K(!new)>(cmp: (K, K) -> int, key: K, t0: Tree<N, K>, c: Ctx<N, K>, t: Tree<N, K>)
    requires t.Br? && t.right.Leaf? && cmp(key, t.key) > 0
    requires Seeking(cmp, key, t0, c, t) && Narrowed(cmp, key, Keys(t0), Push(R, t, c), Leaf)
    ensures Plug(Restored(c), t) == t0 != Missed(cmp, key, t0)
    ensures Plug(Restored(c), t.(rank := t.rank + 1)) == Missed(cmp, key, t0) && Absent(cmp, Keys(t0), key)
  {
    hide Narrowed, Counted, Absent;
    NarrowFails(cmp, key, Keys(t0), Push(R, t, c));
    PlugDiffers(Restored(c), t, t.(rank := t.rank + 1));
  }

  lemma {:induction false} PlugDiffers<N, K>(c: Ctx<N, K>, t: Tree<N, K>, u: Tree<N, K>)
    requires t != u
    ensures Plug(c, t) != Plug(c, u)
  {
    if c.Hole? {
    } else {
      PlugDiffers(c.up, Fill(c, t), Fill(c, u));
    }
  }

  /** A missed deletion keeps the ranks true exactly when its search did not end by going
      right; it never changes anything else. */
  lemma {:induction false} MissedRanks<N, K(!new)>(cmp: (K, K) -> int, key: K, t: Tree<N, K>)
    ensures Ranked(t) ==> (Ranked(Missed(cmp, key, t)) <==> !EndsRight(cmp, key, t))
    ensures Missed(cmp, key, t) == t <==> !EndsRight(cmp, key, t)
    ensures Keys(Missed(cmp, key, t)) == Keys(t) && Ids(Missed(cmp, key, t)) == Ids(t)
    ensures Nodes(Missed(cmp, key, t)) == Nodes(t) && Size(Missed(cmp, key, t)) == Size(t)
    ensures Height(Missed(cmp, key, t)) == Height(t)
    ensures Balanced(t) ==> Balanced(Missed(cmp, key, t))
  {
    if t.Leaf? {
    } else {
      if cmp(key, t.key) < 0 { MissedRanks(cmp, key, t.left); }
      else if cmp(key, t.key) > 0 { MissedRanks(cmp, key, t.right); }
    }
  }

  /** Deleting a key greater than every key of a non-empty tree always ends right. */
  lemma {:induction false} GreatestEndsRight<N, K(!new)>(cmp: (K, K) -> int, key: K, t: Tree<N, K>)
    requires t.Br? && AllBelow(cmp, Keys(t), key)
    ensures EndsRight(cmp, key, t)
  {
    assert Keys(t)[Size(t.left)] == t.key;
    if t.right.Leaf? {
    } else {
      assert AllBelow(cmp, Keys(t.right), key) by {
        forall i | 0 <= i < Size(t.right) ensures cmp(key, Keys(t.right)[i]) > 0 {
          assert Keys(t)[Size(t.left) + 1 + i] == Keys(t.right)[i];
        }
      }
      GreatestEndsRight(cmp, key, t.right);
    }
  }

  // ------------------------------------------------------- taking one node out

  ghost predicate OneChild<N, K>(t: Tree<N, K>) {
    t.Br? && (t.left.Leaf? || t.right.Leaf?)
  }

  function OnlyChild<N, K>(t: Tree<N, K>): Tree<N, K>
    requires t.Br?
  {
    if t.left.Br? then t.left else t.right
  }

  /** Without the node in focus, which has at most one child, the keys are `s`. */
  ghost predicate Sparing<N, K>(s: seq<K>, c: Ctx<N, K>, t: Tree<N, K>) {
    OneChild(t) && KeysL(c) + Keys(OnlyChild(t)) + KeysR(c) == s
  }

  lemma LeavingAlone<N, K(!new)>(cmp: (K, K) -> int, key: K, s: seq<K>, c: Ctx<N, K>, t: Tree<N, K>)
    requires OneChild(t) && Narrowed(cmp, key, s, c, t)
    ensures Position(c, t) < |s| && Sparing(RemoveAt(s, Position(c, t)), c, t)
  {
    hide AllBelow, AllAbove, RemoveAt;
    FoundAt(cmp, key, s, c, t);
    var a, l, r, b := KeysL(c), Keys(t.left), Keys(t.right), KeysR(c);
    if t.left.Br? { assert r + b == b; } else { assert a + l + (r + b) == a + r + b; }
  }

  /** Every frame was entered by going right. */
  ghost predicate Rightward<N, K>(c: Ctx<N, K>) {
    c.Under? ==> c.dir == R && Rightward(c.up)
  }

  lemma {:induction false} RightwardRanked<N, K>(seg: Ctx<N, K>, outer: Ctx<N, K>, t: Tree<N, K>)
    requires Rightward(seg) && Ranked(Plug(seg, t)) && CtxRanked(outer, Size(Plug(seg, t)) - 1)
    ensures CtxRanked(Append(seg, outer), Size(t) - 1) && Ranked(t)
  {
    if seg.Hole? {
    } else {
      RightwardRanked(seg.up, outer, Fill(seg, t));
    }
  }

  lemma {:induction false} RightwardKeys<N, K>(seg: Ctx<N, K>)
    requires Rightward(seg)
    ensures KeysR(seg) == []
  {
    if seg.Hole? {
    } else {
      RightwardKeys(seg.up);
    }
  }

  /** The frame of the node `t`, found with two children, once it has taken over the key of
      its predecessor and its left subtree is one node smaller. */
  function Vacated<N, K>(c: Ctx<N, K>, t: Tree<N, K>, key: K): Ctx<N, K>
    requires t.Br?
  {
    Under(L, t.id, key, t.rank - 1, t.bal, t.right, c)
  }

  lemma Shift<K>(a: seq<K>, p: seq<K>, l: seq<K>, k: K, r: seq<K>, b: seq<K>)
    ensures (a + p) + l + ([k] + r + b) == a + (p + (l + [k])) + (r + b)
  {
  }

  lemma LeavingPredecessor<N, K(!new)>(cmp: (K, K) -> int, key: K, s: seq<K>, c: Ctx<N, K>, t: Tree<N, K>,
      seg: Ctx<N, K>, y: Tree<N, K>)
    requires t.Br? && Narrowed(cmp, key, s, c, t)
    requires y.Br? && y.right.Leaf? && Rightward(seg) && Plug(seg, y) == t.left
    ensures Position(c, t) < |s|
    ensures Sparing(RemoveAt(s, Position(c, t)), Append(seg, Vacated(c, t, y.key)), y.(key := t.key))
  {
    hide AllBelow, AllAbove, RemoveAt;
    var v := Vacated(c, t, y.key);
    FoundAt(cmp, key, s, c, t);
    AppendKeys(seg, v);
    RightwardKeys(seg);
    PlugKeys(seg, y);
    var p, l := KeysL(seg), Keys(y.left);
    Shift(KeysL(c), p, l, y.key, Keys(t.right), KeysR(c));
    assert Keys(t.left) == p + (l + [y.key]);
    assert KeysR(seg) + KeysR(v) == KeysR(v);
    assert Keys(OnlyChild(y.(key := t.key))) == l;
  }

  lemma CountedPredecessor<N, K>(t0: Tree<N, K>, c: Ctx<N, K>, t: Tree<N, K>, seg: Ctx<N, K>, y: Tree<N, K>)
    requires t.Br? && Counted(t0, c, t)
    requires y.Br? && Rightward(seg) && Plug(seg, y) == t.left
    ensures Counted(t0, Append(seg, Vacated(c, t, y.key)), y.(key := t.key))
  {
    hide Height, CtxHeight, Size, Nodes, CtxNodes, Plug, Append, Rightward;
    CountedLeft(t0, c, t);
    SameFrame(c, t, y.key, Size(t.left) - 1, Height(t.left));
    var v := Vacated(c, t, y.key);
    if Ranked(t0) { RightwardRanked(seg, v, y); }
    PlugBalanced(seg, y);
    AppendBalanced(seg, v, Height(y));
    AppendHeight(seg, v, Height(y));
    AppendNodes(seg, v);
    PlugNodes(seg, y);
    SameButKey(y, t.key);
  }

  lemma SameButKey<N, K>(t: Tree<N, K>, key: K)
    requires t.Br?
    ensures var u := t.(key := key);
      Height(u) == Height(t) && Size(u) == Size(t) && Nodes(u) == Nodes(t)
      && (Ranked(t) ==> Ranked(u)) && (Balanced(t) ==> Balanced(u))
  {
  }

  lemma SameFrame<N, K>(c: Ctx<N, K>, t: Tree<N, K>, key: K, n: int, h: int)
    requires t.Br?
    ensures var v, w := Vacated(c, t, key), Push(L, t.(rank := t.rank - 1), c);
      && CtxNodes(v) == CtxNodes(w)
      && (CtxRanked(w, n) ==> CtxRanked(v, n))
      && (CtxBalanced(w, h) ==> CtxBalanced(v, h))
      && CtxHeight(v, h) == CtxHeight(w, h)
  {
  }

  // ---------------------------------------------------------- the climb back

  /** The `d` side of `t` has lost a level since the balance of `t` was stored; it now has
      height `h`. */
  ghost predicate LostSide<N, K>(d: Dir, h: int, t: Tree<N, K>) {
    && t.Br? && Balanced(t.left) && Balanced(t.right) && -1 <= t.bal <= 1
    && (if d == L
        then Height(t.left) == h && t.bal == Height(t.right) - (h + 1)
        else Height(t.right) == h && t.bal == h + 1 - Height(t.left))
  }

  function Side(d: Dir): int { if d == L then -1 else 1 }

  /** One round of the climb: the mended subtree, and whether it is shorter than before. */
  ghost function Mend<N, K>(d: Dir, t: Tree<N, K>): (Tree<N, K>, bool)
    requires t.Br?
  {
    if t.bal == 0 then (t.(bal := -Side(d)), false)
    else if t.bal == Side(d) then (t.(bal := 0), true)
    else if d == L then
      if t.right.Leaf? then (t, false)
      else if t.right.bal == 0 then (SingleL(t, 1, -1), false)
      else if t.right.bal == t.bal then (SingleL(t, 0, 0), true)
      else if t.right.left.Br? then (DoubleL(t), true) else (t, false)
    else
      if t.left.Leaf? then (t, false)
      else if t.left.bal == 0 then (SingleR(t, -1, 1), false)
      else if t.left.bal == t.bal then (SingleR(t, 0, 0), true)
      else if t.left.right.Br? then (DoubleR(t), true) else (t, false)
  }

  lemma MendKeeps<N, K>(d: Dir, t: Tree<N, K>)
    requires t.Br?
    ensures Mend(d, t).0.Br? && Rearranged(t, Mend(d, t).0)
  {
    hide Rearranged, SingleR, SingleL, DoubleR, DoubleL;
    Same(t);
    Rebalanced(t, 0);
    Rebalanced(t, -Side(d));
    if d == L && t.right.Br? {
      SingleLKeeps(t, 1, -1);
      SingleLKeeps(t, 0, 0);
      if t.right.left.Br? { DoubleLKeeps(t); }
    }
    if d == R && t.left.Br? {
      SingleRKeeps(t, -1, 1);
      SingleRKeeps(t, 0, 0);
      if t.left.right.Br? { DoubleRKeeps(t); }
    }
    NotEmpty(t, Mend(d, t).0);
  }

  lemma MendBalances<N, K>(d: Dir, h: int, t: Tree<N, K>)
    requires LostSide(d, h, t)
    ensures var (u, shorter) := Mend(d, t);
      && Balanced(u)
      && Height(u) + (if shorter then 1 else 0) == 1 + Max(h + 1, Height(if d == L then t.right else t.left))
    ensures t.bal != 0 && t.bal != Side(d) ==>
      if d == L then t.right.Br? && -1 <= t.right.bal <= 1 && (t.right.bal == -1 ==> t.right.left.Br?)
      else t.left.Br? && -1 <= t.left.bal <= 1 && (t.left.bal == 1 ==> t.left.right.Br?)
  {
    hide SingleR, SingleL, DoubleR, DoubleL;
    if t.bal == 0 || t.bal == Side(d) {
    } else if d == L {
      if t.right.bal >= 0 { SingleLBalances(t); } else { DoubleLBalances(t); }
    } else {
      if t.left.bal <= 0 { SingleRBalances(t); } else { DoubleRBalances(t); }
    }
  }

  ghost function Drop(shorter: bool): int { if shorter then 1 else 0 }

  /** `t` is one level lower than the balances in `c` believe exactly when `shorter`. */
  ghost predicate Lowered<N, K>(height: int, c: Ctx<N, K>, t: Tree<N, K>, shorter: bool) {
    && Balanced(t) && CtxBalanced(c, Height(t) + Drop(shorter))
    && CtxHeight(c, Height(t) + Drop(shorter)) == height
  }

  /** The state of the climb in the tree `whole`, which had the given height at the start. */
  ghost predicate Climbing<N, K>(whole: Tree<N, K>, height: int, c: Ctx<N, K>, t: Tree<N, K>, shorter: bool) {
    && Lowered(height, c, t, shorter)
    && Rearranged(whole, Plug(c, t))
    && CtxNodes(c) + Nodes(t) == Nodes(whole)
  }

  lemma Loses<N, K>(height: int, c: Ctx<N, K>, t: Tree<N, K>)
    requires c.Under? && Lowered(height, c, t, true)
    ensures LostSide(c.dir, Height(t), Fill(c, t))
  {
    hide Height, CtxHeight;
  }

  lemma LoweredStep<N, K>(height: int, c: Ctx<N, K>, t: Tree<N, K>)
    requires c.Under? && Lowered(height, c, t, true)
    ensures LostSide(c.dir, Height(t), Fill(c, t))
    ensures var (u, shorter) := Mend(c.dir, Fill(c, t)); u.Br? && Lowered(height, c.up, u, shorter)
  {
    hide Mend, Rearranged, Plug, Height, Balanced, LostSide;
    Loses(height, c, t);
    MendBalances(c.dir, Height(t), Fill(c, t));
    MendKeeps(c.dir, Fill(c, t));
  }

  lemma ClimbStep<N, K>(whole: Tree<N, K>, height: int, c: Ctx<N, K>, t: Tree<N, K>)
    requires c.Under? && Climbing(whole, height, c, t, true)
    ensures LostSide(c.dir, Height(t), Fill(c, t))
    ensures var (u, shorter) := Mend(c.dir, Fill(c, t)); u.Br? && Climbing(whole, height, c.up, u, shorter)
    ensures CtxNodes(c.up) + Nodes(Fill(c, t)) == Nodes(whole)
  {
    hide Mend, Rearranged, Lowered, LostSide, Height;
    var u := Mend(c.dir, Fill(c, t)).0;
    LoweredStep(height, c, t);
    MendKeeps(c.dir, Fill(c, t));
    SameScope(Fill(c, t), u);
    RearrangedIn(c.up, Fill(c, t), u);
    RearrangedTrans(whole, Plug(c, t), Plug(c.up, u));
  }

  lemma SameScope<N, K>(t: Tree<N, K>, u: Tree<N, K>)
    requires Rearranged(t, u)
    ensures Nodes(t) == Nodes(u)
  {
  }

  lemma ClimbDone<N, K>(whole: Tree<N, K>, height: int, c: Ctx<N, K>, t: Tree<N, K>, shorter: bool)
    requires Climbing(whole, height, c, t, shorter) && (shorter ==> c.Hole?)
    ensures Balanced(Plug(c, t)) && Height(Plug(c, t)) == height - Drop(shorter)
    ensures Rearranged(whole, Plug(c, t))
  {
    PlugBalanced(c, t);
  }

  lemma OneLess<N, K>(t: Tree<N, K>)
    requires OneChild(t)
    ensures Size(OnlyChild(t)) == Size(t) - 1 && Nodes(OnlyChild(t)) <= Nodes(t)
    ensures Ranked(t) ==> Ranked(OnlyChild(t))
    ensures Balanced(t) ==> Balanced(OnlyChild(t)) && Height(OnlyChild(t)) == Height(t) - 1
  {
  }

  lemma ClimbStart<N, K>(t0: Tree<N, K>, s: seq<K>, c: Ctx<N, K>, t: Tree<N, K>)
    requires Counted(t0, c, t) && Sparing(s, c, t)
    ensures var whole := Plug(c, OnlyChild(t));
      Climbing(whole, Height(t0), c, OnlyChild(t), true) && Keys(whole) == s && (Ranked(t0) ==> Ranked(whole))
    ensures Nodes(Plug(c, OnlyChild(t))) <= Nodes(t0)
  {
    hide Rearranged, Plug, CtxRanked, KeysL, KeysR, CtxNodes, Ranked, Balanced, Size, Height, Nodes;
    var u := OnlyChild(t);
    OneLess(t);
    Same(Plug(c, u));
    PlugKeys(c, u);
    PlugRanked(c, u);
    PlugNodes(c, u);
  }
}
