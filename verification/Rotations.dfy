/** Rotations of pure trees, with the rank and balance updates of the C code. */
module Rotations {
  import opened RankedTree

  function RotR<N, K>(t: Tree<N, K>): Tree<N, K>
    requires t.Br? && t.left.Br?
  {
    var l := t.left;
    l.(right := Br(t.id, t.key, t.rank - l.rank, t.bal, l.right, t.right))
  }

  function RotL<N, K>(t: Tree<N, K>): Tree<N, K>
    requires t.Br? && t.right.Br?
  {
    var r := t.right;
    r.(rank := r.rank + t.rank, left := Br(t.id, t.key, t.rank, t.bal, t.left, r.left))
  }

  function SingleR<N, K>(t: Tree<N, K>, balP: int, balQ: int): Tree<N, K>
    requires t.Br? && t.left.Br?
  {
    var u := RotR(t);
    u.(bal := balQ, right := u.right.(bal := balP))
  }

  function SingleL<N, K>(t: Tree<N, K>, balP: int, balQ: int): Tree<N, K>
    requires t.Br? && t.right.Br?
  {
    var u := RotL(t);
    u.(bal := balQ, left := u.left.(bal := balP))
  }

  /** The balances left and right of a node that a double rotation has lifted, given the
      balance it had before. */
  function LeftAfter(bal: int): int { if bal == 1 then -1 else 0 }
  function RightAfter(bal: int): int { if bal == -1 then 1 else 0 }

  function Settle<N, K>(u: Tree<N, K>): Tree<N, K>
    requires u.Br? && u.left.Br? && u.right.Br?
  {
    u.(bal := 0, left := u.left.(bal := LeftAfter(u.bal)), right := u.right.(bal := RightAfter(u.bal)))
  }

  function DoubleR<N, K>(t: Tree<N, K>): Tree<N, K>
    requires t.Br? && t.left.Br? && t.left.right.Br?
  {
    Settle(RotR(t.(left := RotL(t.left))))
  }

  function DoubleL<N, K>(t: Tree<N, K>): Tree<N, K>
    requires t.Br? && t.right.Br? && t.right.left.Br?
  {
    Settle(RotL(t.(right := RotR(t.right))))
  }

  /** `u` holds the nodes of `t` in the same order; distinctness and true ranks carry over. */
  ghost predicate Rearranged<N, K>(t: Tree<N, K>, u: Tree<N, K>) {
    && Size(t) == Size(u) && Keys(t) == Keys(u) && Ids(t) == Ids(u) && Nodes(t) == Nodes(u)
    && (Distinct(t) ==> Distinct(u)) && (Ranked(t) ==> Ranked(u))
  }

  lemma Concat<T>(a: seq<T>, x: T, b: seq<T>, y: T, c: seq<T>)
    ensures (a + [x] + b) + [y] + c == a + [x] + (b + [y] + c)
  {
  }

  lemma RotRKeeps<N, K>(t: Tree<N, K>)
    requires t.Br? && t.left.Br?
    ensures Rearranged(t, RotR(t))
  {
    var l := t.left;
    Concat(Keys(l.left), l.key, Keys(l.right), t.key, Keys(t.right));
    Concat(Ids(l.left), l.id, Ids(l.right), t.id, Ids(t.right));
    assert Distinct(t) ==> Distinct(l);
    assert Ranked(t) ==> Ranked(l);
  }

  lemma RotLKeeps<N, K>(t: Tree<N, K>)
    requires t.Br? && t.right.Br?
    ensures Rearranged(t, RotL(t))
  {
    var r := t.right;
    Concat(Keys(t.left), t.key, Keys(r.left), r.key, Keys(r.right));
    Concat(Ids(t.left), t.id, Ids(r.left), r.id, Ids(r.right));
    assert Distinct(t) ==> Distinct(r);
    assert Ranked(t) ==> Ranked(r);
  }

  /** Changing balances at a node and rearranging below it rearranges the whole. */
  lemma Within<N, K>(t: Tree<N, K>, l: Tree<N, K>, r: Tree<N, K>, bal: int)
    requires t.Br? && Rearranged(t.left, l) && Rearranged(t.right, r)
    ensures Rearranged(t, t.(left := l, right := r, bal := bal))
  {
  }

  lemma Rebalanced<N, K>(t: Tree<N, K>, bal: int)
    ensures t.Br? ==> Rearranged(t, t.(bal := bal))
  {
  }

  lemma Same<N, K>(t: Tree<N, K>)
    ensures Rearranged(t, t)
  {
  }

  lemma NotEmpty<N, K>(t: Tree<N, K>, u: Tree<N, K>)
    requires t.Br? && Rearranged(t, u)
    ensures u.Br?
  {
  }

  lemma RearrangedTrans<N, K>(t: Tree<N, K>, u: Tree<N, K>, v: Tree<N, K>)
    requires Rearranged(t, u) && Rearranged(u, v)
    ensures Rearranged(t, v)
  {
  }

  /** Rearranging a subtree rearranges the whole tree. */
  lemma RearrangedIn<N, K>(c: Ctx<N, K>, t: Tree<N, K>, u: Tree<N, K>)
    requires Rearranged(t, u)
    ensures Rearranged(Plug(c, t), Plug(c, u))
  {
    PlugKeys(c, t);
    PlugKeys(c, u);
    PlugIds(c, t);
    PlugIds(c, u);
    PlugNodes(c, t);
    PlugNodes(c, u);
    PlugRanked(c, t);
    PlugRanked(c, u);
  }

  lemma SingleRKeeps<N, K>(t: Tree<N, K>, balP: int, balQ: int)
    requires t.Br? && t.left.Br?
    ensures Rearranged(t, SingleR(t, balP, balQ))
  {
    var u := RotR(t);
    RotRKeeps(t);
    Rebalanced(u.right, balP);
    Within(u, u.left, u.right.(bal := balP), balQ);
  }

  lemma SingleLKeeps<N, K>(t: Tree<N, K>, balP: int, balQ: int)
    requires t.Br? && t.right.Br?
    ensures Rearranged(t, SingleL(t, balP, balQ))
  {
    var u := RotL(t);
    RotLKeeps(t);
    Rebalanced(u.left, balP);
    Within(u, u.left.(bal := balP), u.right, balQ);
  }

  lemma SettleKeeps<N, K>(u: Tree<N, K>)
    requires u.Br? && u.left.Br? && u.right.Br?
    ensures Rearranged(u, Settle(u))
  {
    Rebalanced(u.left, LeftAfter(u.bal));
    Rebalanced(u.right, RightAfter(u.bal));
    Within(u, u.left.(bal := LeftAfter(u.bal)), u.right.(bal := RightAfter(u.bal)), 0);
  }

  lemma DoubleRKeeps<N, K>(t: Tree<N, K>)
    requires t.Br? && t.left.Br? && t.left.right.Br?
    ensures Rearranged(t, DoubleR(t))
  {
    var l := RotL(t.left);
    RotLKeeps(t.left);
    Within(t, l, t.right, t.bal);
    RotRKeeps(t.(left := l));
    SettleKeeps(RotR(t.(left := l)));
  }

  lemma DoubleLKeeps<N, K>(t: Tree<N, K>)
    requires t.Br? && t.right.Br? && t.right.left.Br?
    ensures Rearranged(t, DoubleL(t))
  {
    var r := RotR(t.right);
    RotRKeeps(t.right);
    Within(t, t.left, r, t.bal);
    RotLKeeps(t.(right := r));
    SettleKeeps(RotL(t.(right := r)));
  }

  // ------------------------------------------------- what rotations do to heights

  /** `t` has balanced subtrees, of which the left one is two levels taller. */
  ghost predicate LeftHeavy<N, K>(t: Tree<N, K>) {
    t.Br? && Balanced(t.left) && Balanced(t.right) && Height(t.left) == Height(t.right) + 2
  }

  ghost predicate RightHeavy<N, K>(t: Tree<N, K>) {
    t.Br? && Balanced(t.left) && Balanced(t.right) && Height(t.right) == Height(t.left) + 2
  }

  lemma SingleRBalances<N, K>(t: Tree<N, K>)
    requires LeftHeavy(t) && t.left.bal <= 0
    ensures t.left.bal == -1 ==> Balanced(SingleR(t, 0, 0)) && Height(SingleR(t, 0, 0)) == Height(t) - 1
    ensures t.left.bal == 0 ==> Balanced(SingleR(t, -1, 1)) && Height(SingleR(t, -1, 1)) == Height(t)
  {
  }

  lemma SingleLBalances<N, K>(t: Tree<N, K>)
    requires RightHeavy(t) && t.right.bal >= 0
    ensures t.right.bal == 1 ==> Balanced(SingleL(t, 0, 0)) && Height(SingleL(t, 0, 0)) == Height(t) - 1
    ensures t.right.bal == 0 ==> Balanced(SingleL(t, 1, -1)) && Height(SingleL(t, 1, -1)) == Height(t)
  {
  }

  lemma DoubleRBalances<N, K>(t: Tree<N, K>)
    requires LeftHeavy(t) && t.left.bal == 1
    ensures t.left.right.Br? && Balanced(DoubleR(t)) && Height(DoubleR(t)) == Height(t) - 1
  {
    var m := t.left.right;
    assert Balanced(t.left) && Balanced(m);
    var u := DoubleR(t);
    assert Balanced(u.left) && Balanced(u.right);
  }

  lemma DoubleLBalances<N, K>(t: Tree<N, K>)
    requires RightHeavy(t) && t.right.bal == -1
    ensures t.right.left.Br? && Balanced(DoubleL(t)) && Height(DoubleL(t)) == Height(t) - 1
  {
    var m := t.right.left;
    assert Balanced(t.right) && Balanced(m);
    var u := DoubleL(t);
    assert Balanced(u.left) && Balanced(u.right);
  }
}
