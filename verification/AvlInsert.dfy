/** Insertion on the linked heap: the way down, the balances below `s`, the rotation at `s`. */
module AvlInsert {
  import opened SortedSeq
  import opened RankedTree
  import opened Rotations
  import opened InsertPath
  import opened AvlNode
  import opened AvlFocus

  /** `s` is the node of the frame `sfr`, `t` the node above it; below it the way is level. */
  ghost predicate Spine<K>(header: Node<K>, t: Node<K>, s: Node<K>, c: Around<K>, seg: Around<K>, sfr: Around<K>) {
    && c == Append(seg, sfr) && Level(seg)
    && sfr.Under? && sfr.id == s && t == Above(sfr.up, header)
    && (sfr.bal == 0 ==> sfr.up.Hole?)
  }

  ghost predicate Spot<K>(header: Node<K>, t: Node<K>, s: Node<K>, c: Around<K>, cur: Shape<K>, seg: Around<K>,
      sfr: Around<K>) {
    && cur.Br?
    && (|| (cur.bal == 0 && Spine(header, t, s, c, seg, sfr))
        || (s == cur.id && t == Above(c, header) && (cur.bal == 0 ==> c.Hole?)))
  }

  lemma DiveStart<K(!new)>(cmp: (K, K) -> int, key: K, header: Node<K>, t: Shape<K>)
    requires t.Br? && Balanced(t)
    ensures Diving(Ranked(t), cmp, key, Keys(t), Hole, t)
    ensures Spot(header, header, t.id, Hole, t, Hole, Hole)
    ensures CtxNodes<Node<K>, K>(Hole) + Nodes(t) == Nodes(t)
  {
    hide Balanced, Ranked, Height, Size;
  }

  lemma DiveStep<K(!new)>(cmp: (K, K) -> int, key: K, t0: Shape<K>,
                          header: Node<K>, t: Node<K>, s: Node<K>, c: Around<K>, cur: Shape<K>,
                          seg: Around<K>, sfr: Around<K>, d: Dir)
    returns (c': Around<K>, cur': Shape<K>, seg': Around<K>, sfr': Around<K>)
    requires TotalPreorder(cmp) && Sorted(cmp, Keys(t0))
    requires Spot(header, t, s, c, cur, seg, sfr)
    requires Diving(Ranked(t0), cmp, key, Keys(t0), c, cur)
    requires d == L <==> GoesLeft(cmp, key, cur.key)
    ensures var n := if d == L then cur.(rank := cur.rank + 1) else cur;
      c' == Push(d, n, c) && cur' == (if d == L then cur.left else cur.right)
    ensures Diving(Ranked(t0), cmp, key, Keys(t0), c', cur')
    ensures Spine(header, t, s, c', seg', sfr')
    ensures CtxNodes(c') + Nodes(cur') == CtxNodes(c) + Nodes(cur)
    ensures CtxHeight(c', Height(cur')) == CtxHeight(c, Height(cur))
    ensures cur'.Leaf? ==> CtxNodes(c') == CtxNodes(c) + Nodes(cur)
  {
    hide Diving, GoesLeft, Keys, TotalPreorder, Sorted;
    var n := if d == L then cur.(rank := cur.rank + 1) else cur;
    if d == L {
      DiveLeft(Ranked(t0), cmp, key, Keys(t0), c, cur);
    } else {
      DiveRight(Ranked(t0), cmp, key, Keys(t0), c, cur);
    }
    c', cur' := Push(d, n, c), if d == L then cur.left else cur.right;
    if cur.bal == 0 && Spine(header, t, s, c, seg, sfr) {
      seg', sfr' := Push(d, n, seg), sfr;
    } else {
      seg', sfr' := Hole, c';
    }
  }

  method Dive<K(!new)>(cmp: (K, K) -> int, key: K, header: Node<K>, ghost t0: Shape<K>)
    returns (t: Node<K>, s: Node<K>, q: Node<K>, ghost c: Around<K>, ghost seg: Around<K>, ghost sfr: Around<K>)
    requires TotalPreorder(cmp) && Sorted(cmp, Keys(t0)) && Balanced(t0)
    requires t0.Br? && Rooted(header, t0)
    modifies Nodes(t0)
    ensures fresh(q) && q !in CtxNodes(c) && Focused(header, c, Br(q, key, 1, 0, Leaf, Leaf))
    ensures CtxNodes(c) == Nodes(t0)
    ensures Diving(Ranked(t0), cmp, key, Keys(t0), c, Leaf)
    ensures CtxHeight(c, 0) == Height(t0)
    ensures Spine(header, t, s, c, seg, sfr)
  {
    hide Focused, Linked, CtxLinked, Diving, Spine, TotalPreorder, Sorted, Balanced, Ranked, Keys, Nodes,
      CtxNodes, GetBalance;
    DiveStart(cmp, key, header, t0);
    t := header;
    assert t.right == t0.id by { Top(header, t0); }
    s := t.right;
    var p := s;
    ghost var cur := t0;
    c, seg, sfr := Hole, Hole, Hole;
    while true
      invariant cur.Br? && p == cur.id && Focused(header, c, cur)
      invariant Diving(Ranked(t0), cmp, key, Keys(t0), c, cur)
      invariant CtxNodes(c) + Nodes(cur) == Nodes(t0)
      invariant CtxHeight(c, Height(cur)) == Height(t0)
      invariant Spot(header, t, s, c, cur, seg, sfr)
      decreases cur
    {
      Enter(header, c, cur);
      assert p in Nodes(t0) by { Here(c, cur); }
      var d := if cmp(key, p.key.value) < 1 then L else R;
      if d == L {
        Bump(p, 1, header, c, cur);
      }
      Enter(header, c, if d == L then cur.(rank := cur.rank + 1) else cur);
      c, cur, seg, sfr := DiveStep(cmp, key, t0, header, t, s, c, cur, seg, sfr, d);
      var below := if d == L then p.left else p.right;
      if below == null {
        assert allocated(CtxNodes(c));
        q := Graft(key, p, d, header, c);
        return;
      }
      Enter(header, c, cur);
      if GetBalance(below.word) != 0 {
        t := p;
        s := below;
      }
      p := below;
    }
  }

  /** The second loop: every node between `s` and the new leaf `q` gets its balance. */
  method TiltPath<K(!new)>(cmp: (K, K) -> int, key: K, r: Node<K>, q: Node<K>, ghost header: Node<K>,
      ghost out: Around<K>, ghost t0: Shape<K>)
    requires Grown(cmp, key, q, t0) && r == t0.id && Focused(header, out, t0)
    modifies Nodes(t0)
    ensures Focused(header, out, Tilt(cmp, key, q, t0))
  {
    hide Focused, Balanced, Height, CtxNodes;
    var p := r;
    ghost var seg, cur: Shape<K> := Hole, t0;
    while p != q
      invariant Grown(cmp, key, q, cur) && p == cur.id
      invariant Focused(header, Append(seg, out), cur)
      invariant Nodes(cur) <= Nodes(t0)
      invariant Plug(seg, Tilt(cmp, key, q, cur)) == Tilt(cmp, key, q, t0)
      decreases cur
    {
      Enter(header, Append(seg, out), cur);
      if cmp(key, p.key.value) < 1 {
        Weigh(p, -1, header, Append(seg, out), cur);
        cur := cur.(bal := -1);
        Enter(header, Append(seg, out), cur);
        p := p.left;
        seg, cur := Push(L, cur, seg), cur.left;
      } else {
        Weigh(p, 1, header, Append(seg, out), cur);
        cur := cur.(bal := 1);
        Enter(header, Append(seg, out), cur);
        p := p.right;
        seg, cur := Push(R, cur, seg), cur.right;
      }
    }
    Refocus(header, seg, out, cur);
  }

  /** The turn at `s`: set its balance, or rotate and relink it below `above`. */
  method TurnAt<K>(d: Dir, s: Node<K>, above: Node<K>, ghost header: Node<K>, ghost c: Around<K>,
      ghost t: Shape<K>, ghost h: int)
    returns (grew: bool)
    requires Focused(header, c, t) && t.Br? && s == t.id && above == Above(c, header)
    requires GrownSide(d, h, t)
    modifies Nodes(t), above
    ensures Focused(header, c, Turn(d, t))
    ensures grew <==> t.bal == 0
  {
    hide Focused, Hung, Balanced, Height, Distinct, DoubleR, DoubleL, SingleR, SingleL, Pack, GetBalance;
    var a := if d == L then -1 else 1;
    Enter(header, c, t);
    TurnBalances(d, h, t);
    var q := s;
    if GetBalance(s.word) == 0 {
      Weigh(s, a, header, c, t);
      return true;
    } else if GetBalance(s.word) == -a {
      Weigh(s, 0, header, c, t);
      return false;
    }
    if d == L {
      Enter(header, Push(L, t, c), t.left);
      if GetBalance(s.left.word) == a {
        q := SpinRight(s, 0, 0, header, c, t);
      } else {
        q := SpinDoubleRight(s, header, c, t);
      }
    } else {
      Enter(header, Push(R, t, c), t.right);
      if GetBalance(s.right.word) == a {
        q := SpinLeft(s, 0, 0, header, c, t);
      } else {
        q := SpinDoubleLeft(s, header, c, t);
      }
    }
    Hook(above, s, q, header, c, Turn(d, t));
    return false;
  }

  /** Which nodes the second half of an insertion can reach. */
  lemma Scope<K(!new)>(cmp: (K, K) -> int, key: K, q: Node<K>, header: Node<K>, seg: Around<K>, sfr: Around<K>)
    requires sfr.Under?
    ensures var c, r := Append(seg, sfr), Plug(seg, NewLeaf(q, key));
      && Nodes(r) <= CtxNodes(c) + {q}
      && Nodes(Tilted(cmp, key, q, seg, sfr)) <= CtxNodes(c) + {q}
      && Nodes(Inserted(cmp, key, q, seg, sfr)) == CtxNodes(c) + {q}
      && Above(sfr.up, header) in CtxNodes(c) + {header}
  {
    var c, leaf := Append(seg, sfr), NewLeaf(q, key);
    var r := Plug(seg, leaf);
    WholeRearranged(cmp, key, q, seg, sfr);
    TiltBalances(cmp, key, q, r);
    PlugNodes(c, leaf);
    PlugNodes(seg, leaf);
    PlugNodes(sfr, r);
    PlugAppend(seg, sfr, leaf);
  }

  /** Insertion into a tree that is not empty. */
  method InsertBelow<K(!new)>(cmp: (K, K) -> int, key: K, header: Node<K>,
      ghost t0: Shape<K>) returns (grew: bool, ghost t1: Shape<K>)
    requires TotalPreorder(cmp) && Sorted(cmp, Keys(t0)) && Balanced(t0)
    requires t0.Br? && Rooted(header, t0)
    modifies header, Nodes(t0)
    ensures Rooted(header, t1) && fresh(Nodes(t1) - Nodes(t0))
    ensures Balanced(t1) && (Ranked(t0) ==> Ranked(t1)) && Sorted(cmp, Keys(t1))
    ensures Keys(t1) == InsertAt(Keys(t0), LowerBound(cmp, Keys(t0), key), key)
    ensures Height(t1) == Height(t0) + if grew then 1 else 0
  {
    hide Focused, Diving, Level, TotalPreorder, Sorted, Balanced, Ranked, Keys, Height, CtxHeight, InsertAt, LowerBound,
      Tilt, Turn, Grown, GrownSide, Linked, CtxLinked, Nodes, CtxNodes, Append, Plug;
    var t, s, q;
    ghost var c, seg, sfr;
    t, s, q, c, seg, sfr := Dive(cmp, key, header, t0);
    ghost var r1 := Plug(seg, NewLeaf(q, key));
    BelowS(Ranked(t0), cmp, key, Keys(t0), q, seg, sfr);
    WholeBalanced(Ranked(t0), cmp, key, Keys(t0), q, seg, sfr);
    WholeOrdered(Ranked(t0), cmp, key, Keys(t0), q, seg, sfr);
    Scope(cmp, key, q, header, seg, sfr);
    Refocus(header, seg, sfr, NewLeaf(q, key));
    Lift(header, sfr, r1);
    Enter(header, sfr.up, Fill(sfr, r1));
    var r := if cmp(key, s.key.value) < 1 then s.left else s.right;
    TiltPath(cmp, key, r, q, header, sfr, r1);
    ghost var s2 := Tilted(cmp, key, q, seg, sfr);
    Lift(header, sfr, Tilt(cmp, key, q, r1));
    Enter(header, sfr.up, s2);
    var d := if cmp(key, s.key.value) < 1 then L else R;
    grew := TurnAt(d, s, t, header, sfr.up, s2, CtxHeight(seg, 0));
    t1 := Inserted(cmp, key, q, seg, sfr);
    LiftAll(header, sfr.up, Turn(d, s2));
  }
}
