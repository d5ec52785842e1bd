/** Zippers over the heap: one subtree in focus, the rest of the header's tree around it. */
module AvlFocus {
  import opened Options
  import opened RankedTree
  import opened Rotations
  import opened AvlNode

  /** The header's tree, seen from the subtree `t` in the context `c`; the link into the
      subtree points at `child`. */
  ghost predicate Hung<K>(header: Node<K>, c: Around<K>, child: Node?<K>, t: Shape<K>)
    reads header, CtxNodes(c), Nodes(t)
  {
    && header !in CtxNodes(c) && header !in Nodes(t)
    && Distinct(t) && CtxDistinct(c) && CtxNodes(c) !! Nodes(t)
    && header.parent == null && header.left == null && header.key == None
    && header.right == Outer(c, child)
    && CtxLinked(c, child, header) && Linked(t, Above(c, header))
  }

  ghost predicate Focused<K>(header: Node<K>, c: Around<K>, t: Shape<K>)
    reads header, CtxNodes(c), Nodes(t)
  {
    Hung(header, c, Root(t), t)
  }

  /** The whole of the header's tree is `t`. */
  ghost predicate Rooted<K>(header: Node<K>, t: Shape<K>)
    reads header, Nodes(t)
  {
    Focused(header, Hole, t)
  }

  /** Moving the focus up over the part `seg` of the context. */
  lemma Refocus<K>(header: Node<K>, seg: Around<K>, out: Around<K>, t: Shape<K>)
    requires Focused(header, Append(seg, out), t)
    ensures Focused(header, out, Plug(seg, t))
  {
    AppendLinked(seg, out, Root(t), header);
    Climb(seg, t, Above(out, header));
    PlugNodes(Append(seg, out), t);
    PlugAppend(seg, out, t);
    PlugNodes(out, Plug(seg, t));
  }

  /** The focus with its context cut in two. */
  ghost predicate Pieces<K>(header: Node<K>, seg: Around<K>, out: Around<K>, t: Shape<K>)
    reads header, CtxNodes(seg), CtxNodes(out), Nodes(t)
  {
    && header !in CtxNodes(seg) && header !in CtxNodes(out) && header !in Nodes(t)
    && Distinct(t) && CtxDistinct(seg) && CtxDistinct(out)
    && CtxNodes(seg) !! CtxNodes(out) && CtxNodes(seg) !! Nodes(t) && CtxNodes(out) !! Nodes(t)
    && header.parent == null && header.left == null && header.key == None
    && header.right == Outer(out, Outer(seg, Root(t)))
    && CtxLinked(seg, Root(t), Above(out, header))
    && CtxLinked(out, Outer(seg, Root(t)), header)
    && Linked(t, Above(seg, Above(out, header)))
  }

  lemma Cut<K>(header: Node<K>, seg: Around<K>, out: Around<K>, t: Shape<K>)
    ensures Focused(header, Append(seg, out), t) <==> Pieces(header, seg, out, t)
  {
    hide Linked, CtxLinked, Distinct, CtxDistinct;
    AppendLinked(seg, out, Root(t), header);
    AppendNodes(seg, out);
  }

  /** Moving the focus up one node, and up to the top. */
  lemma Lift<K>(header: Node<K>, c: Around<K>, t: Shape<K>)
    requires Focused(header, c, t) && c.Under?
    ensures Focused(header, c.up, Fill(c, t))
  {
    Refocus(header, c.(up := Hole), c.up, t);
  }

  lemma LiftAll<K>(header: Node<K>, c: Around<K>, t: Shape<K>)
    requires Focused(header, c, t)
    ensures Rooted(header, Plug(c, t))
  {
    AppendHole(c);
    Refocus(header, c, Hole, t);
  }

  /** What reading the fields of the node in focus yields, and moving the focus to a child. */
  lemma Enter<K>(header: Node<K>, c: Around<K>, t: Shape<K>)
    requires Focused(header, c, t) && t.Br?
    ensures t.id.key == Some(t.key) && t.id.parent == Above(c, header)
    ensures t.id.left == Root(t.left) && t.id.right == Root(t.right)
    ensures GetBalance(t.id.word) == t.bal && GetRank(t.id.word) == t.rank % RANKS
    ensures Focused(header, Push(L, t, c), t.left) && Focused(header, Push(R, t, c), t.right)
  {
    hide GetBalance, GetRank, Pack;
    PackSet(t.rank, t.bal, 0, 0);
  }

  /** Every way of taking the header's tree apart can be read off the heap. */
  lemma {:induction false} Unplug<K>(header: Node<K>, c: Around<K>, t: Shape<K>)
    requires Rooted(header, Plug(c, t))
    ensures Focused(header, c, t)
  {
    if c.Hole? {
    } else {
      hide Focused;
      Unplug(header, c.up, Fill(c, t));
      Enter(header, c.up, Fill(c, t));
    }
  }

  /** What the links around the node in focus say about the context. */
  lemma Parent<K>(header: Node<K>, c: Around<K>, t: Shape<K>)
    requires Focused(header, c, t) && t.Br?
    ensures t.id.parent == Above(c, header)
    ensures c.Hole? <==> t.id == header.right
    ensures Above(c, header).left == t.id <==> c.Under? && c.dir == L
    ensures Above(c, header).parent == null <==> c.Hole?
  {
    if c.Under? { OuterIn(c, t.id); }
  }

  lemma AtTop<K>(header: Node<K>, c: Around<K>, t: Shape<K>)
    requires Focused(header, c, t)
    ensures Above(c, header).parent == null <==> c.Hole?
  {
  }

  lemma {:induction false} OuterIn<K>(c: Around<K>, child: Node<K>)
    requires c.Under?
    ensures Outer(c, child) != null && Outer(c, child) in CtxNodes(c)
  {
    if c.up.Hole? {
    } else {
      OuterIn(c.up, c.id);
    }
  }

  lemma Top<K>(header: Node<K>, t: Shape<K>)
    requires Rooted(header, t)
    ensures header.right == Root(t)
  {
  }

  lemma Here<K>(c: Around<K>, t: Shape<K>)
    requires t.Br?
    ensures t.id in CtxNodes(c) + Nodes(t)
  {
  }

  method Bump<K>(p: Node<K>, d: int, ghost header: Node<K>, ghost c: Around<K>, ghost t: Shape<K>)
    requires Focused(header, c, t) && t.Br? && p == t.id
    modifies p
    ensures Focused(header, c, t.(rank := t.rank + d))
  {
    hide Pack, SetRank, GetRank;
    BumpRank(p.word, t.rank, t.bal, d);
    p.word := SetRank(p.word, GetRank(p.word) + d);
  }

  /** `AVL_SET_BALANCE` at the node in focus. */
  method Weigh<K>(p: Node<K>, b: int, ghost header: Node<K>, ghost c: Around<K>, ghost t: Shape<K>)
    requires Focused(header, c, t) && t.Br? && p == t.id && -1 <= b <= 1
    modifies p
    ensures Focused(header, c, t.(bal := b))
  {
    hide Pack, SetBalance;
    PackSet(t.rank, t.bal, 0, b);
    p.word := SetBalance(p.word, b);
  }

  method Graft<K>(key: K, p: Node<K>, d: Dir, ghost header: Node<K>, ghost c: Around<K>) returns (q: Node<K>)
    requires Focused(header, c, Leaf) && c.Under? && p == c.id && d == c.dir
    modifies p
    ensures fresh(q) && Focused(header, c, Br(q, key, 1, 0, Leaf, Leaf))
  {
    hide Pack;
    assert allocated(CtxNodes(c)) && Linked(c.sib, p) && CtxLinked(c.up, p, header);
    q := new Node(Some(key), p);
    if d == L { p.left := q; } else { p.right := q; }
    assert q !in CtxNodes(c) && header.right == Outer(c, q);
    assert Linked(c.sib, p) && CtxLinked(c.up, p, header);
    assert CtxLinked(c, q, header);
    assert Linked(Br(q, key, 1, 0, Leaf, Leaf), p);
  }

  /** A rotation has made `q` the root of the subtree that hung at `s`: tell the node above. */
  method Hook<K>(above: Node<K>, s: Node<K>, q: Node<K>, ghost header: Node<K>, ghost c: Around<K>, ghost t: Shape<K>)
    requires Hung(header, c, s, t) && t.Br? && q == t.id && s in Nodes(t) && above == Above(c, header)
    modifies above
    ensures Focused(header, c, t)
  {
    hide Pack;
    if s == above.right {
      above.right := q;
    } else {
      above.left := q;
    }
  }

  /** The same, asking about the left link first. */
  method HookLeft<K>(top: Node<K>, p: Node<K>, q: Node<K>, ghost header: Node<K>, ghost c: Around<K>, ghost t: Shape<K>)
    requires Hung(header, c, p, t) && t.Br? && q == t.id && p in Nodes(t) && top == Above(c, header)
    modifies top
    ensures Focused(header, c, t)
  {
    hide Pack;
    if top.left == p {
      top.left := q;
    } else {
      top.right := q;
    }
  }

  lemma AboveIn<K>(c: Around<K>, header: Node<K>)
    ensures Above(c, header) in CtxNodes(c) + {header}
  {
  }

  // Rotating the subtree in focus; the node above is not told yet.

  method SpinRight<K>(p: Node<K>, balP: int, balQ: int, ghost header: Node<K>, ghost c: Around<K>,
      ghost t: Shape<K>) returns (q: Node<K>)
    requires Focused(header, c, t) && t.Br? && p == t.id && t.left.Br?
    requires -1 <= balP <= 1 && -1 <= balQ <= 1
    modifies Nodes(t)
    ensures q == t.left.id == SingleR(t, balP, balQ).id && p in Nodes(SingleR(t, balP, balQ))
    ensures Hung(header, c, p, SingleR(t, balP, balQ))
  {
    hide Pack, Linked, CtxLinked, Rearranged;
    assert allocated(CtxNodes(c));
    SingleRKeeps(t, balP, balQ);
    q := SingleRight(p, balP, balQ, t, Above(c, header));
  }

  method SpinDoubleRight<K>(p: Node<K>, ghost header: Node<K>, ghost c: Around<K>,
      ghost t: Shape<K>) returns (q: Node<K>)
    requires Focused(header, c, t) && t.Br? && p == t.id && t.left.Br? && t.left.right.Br?
    modifies Nodes(t)
    ensures q == t.left.right.id == DoubleR(t).id && p in Nodes(DoubleR(t))
    ensures Hung(header, c, p, DoubleR(t))
  {
    hide Pack, Linked, CtxLinked;
    assert allocated(CtxNodes(c));
    DoubleRKeeps(t);
    q := DoubleRight(p, t, Above(c, header));
  }

  method SpinLeft<K>(p: Node<K>, balP: int, balQ: int, ghost header: Node<K>, ghost c: Around<K>,
      ghost t: Shape<K>) returns (q: Node<K>)
    requires Focused(header, c, t) && t.Br? && p == t.id && t.right.Br?
    requires -1 <= balP <= 1 && -1 <= balQ <= 1
    modifies Nodes(t)
    ensures q == t.right.id == SingleL(t, balP, balQ).id && p in Nodes(SingleL(t, balP, balQ))
    ensures Hung(header, c, p, SingleL(t, balP, balQ))
  {
    hide Pack, Linked, CtxLinked, Rearranged;
    assert allocated(CtxNodes(c));
    SingleLKeeps(t, balP, balQ);
    q := SingleLeft(p, balP, balQ, t, Above(c, header));
  }

  method SpinDoubleLeft<K>(p: Node<K>, ghost header: Node<K>, ghost c: Around<K>,
      ghost t: Shape<K>) returns (q: Node<K>)
    requires Focused(header, c, t) && t.Br? && p == t.id && t.right.Br? && t.right.left.Br?
    modifies Nodes(t)
    ensures q == t.right.left.id == DoubleL(t).id && p in Nodes(DoubleL(t))
    ensures Hung(header, c, p, DoubleL(t))
  {
    hide Pack, Linked, CtxLinked;
    assert allocated(CtxNodes(c));
    DoubleLKeeps(t);
    q := DoubleLeft(p, t, Above(c, header));
  }
}
