/** Tree nodes in the heap, and what it means for them to spell out a pure tree. */
module AvlNode {
  import opened Options
  import opened RankedTree
  import opened Rotations

  // A 32-bit word: the low 2 bits hold the balance plus one, the other 30 the rank.
  const RANKS: int := 0x4000_0000
  const WORDS: int := 0x1_0000_0000

  function GetBalance(w: int): int { w % 4 - 1 }

  function GetRank(w: int): int { w / 4 }

  function SetBalance(w: int, b: int): int { w - w % 4 + (b + 1) }

  function SetRank(w: int, r: int): int { w % 4 + (r * 4) % WORDS }

  function Pack(rank: int, bal: int): int { rank % RANKS * 4 + (bal + 1) }

  lemma Mod(x: int, k: int)
    ensures (x + k * RANKS) % RANKS == x % RANKS
    ensures (x * 4) % WORDS == x % RANKS * 4
  {
    var q, m := x / RANKS, x % RANKS;
    assert x == q * RANKS + m;
    var q', m' := (x + k * RANKS) / RANKS, (x + k * RANKS) % RANKS;
    assert (q + k - q') * RANKS + m == m';
    assert x * 4 == q * WORDS + m * 4;
  }

  /** Storing one half of a packed word leaves the other half as it was. */
  lemma PackSet(rank: int, bal: int, r: int, b: int)
    requires -1 <= bal <= 1 && -1 <= b <= 1
    ensures GetBalance(Pack(rank, bal)) == bal
    ensures GetRank(Pack(rank, bal)) == rank % 0x4000_0000
    ensures SetBalance(Pack(rank, bal), b) == Pack(rank, b)
    ensures SetRank(Pack(rank, bal), r) == Pack(r, bal)
  {
    Mod(r, 0);
  }

  lemma PackSame(r: int, s: int, k: int, bal: int)
    requires r == s + k * RANKS
    ensures Pack(r, bal) == Pack(s, bal)
  {
    Mod(s, k);
  }

  /** Ranks are added and subtracted modulo 2^30, so packed arithmetic follows exact arithmetic. */
  lemma AddRank(w: int, v: int, rank: int, bal: int, r: int, b: int)
    requires -1 <= bal <= 1 && -1 <= b <= 1 && w == Pack(rank, bal) && v == Pack(r, b)
    ensures SetRank(w, GetRank(w) + GetRank(v)) == Pack(rank + r, bal)
  {
    hide SetRank, Pack, GetRank;
    var s := GetRank(w) + GetRank(v);
    PackSet(rank, bal, s, 0);
    PackSet(r, b, 0, 0);
    PackSame(rank + r, s, rank / RANKS + r / RANKS, bal);
  }

  lemma SubRank(w: int, v: int, rank: int, bal: int, r: int, b: int)
    requires -1 <= bal <= 1 && -1 <= b <= 1 && w == Pack(rank, bal) && v == Pack(r, b)
    ensures SetRank(w, GetRank(w) - GetRank(v)) == Pack(rank - r, bal)
  {
    hide SetRank, Pack, GetRank;
    var s := GetRank(w) - GetRank(v);
    PackSet(rank, bal, s, 0);
    PackSet(r, b, 0, 0);
    PackSame(rank - r, s, rank / RANKS - r / RANKS, bal);
  }

  lemma BumpRank(w: int, rank: int, bal: int, d: int)
    requires -1 <= bal <= 1 && w == Pack(rank, bal)
    ensures SetRank(w, GetRank(w) + d) == Pack(rank + d, bal)
  {
    hide SetRank, Pack, GetRank;
    PackSet(rank, bal, GetRank(w) + d, 0);
    PackSame(rank + d, GetRank(w) + d, rank / RANKS, bal);
  }

  class Node<K> {
    var key: Option<K>
    var left: Node?<K>
    var right: Node?<K>
    var parent: Node?<K>
    var word: int

    constructor (key: Option<K>, parent: Node?<K>)
      ensures this.key == key && this.parent == parent && left == null && right == null
      ensures word == Pack(1, 0)
    {
      this.key := key;
      this.left, this.right, this.parent := null, null, parent;
      this.word := SetRank(SetBalance(0, 0), 1);
    }
  }

  type Shape<K> = Tree<Node<K>, K>
  type Around<K> = Ctx<Node<K>, K>

  function Root<K>(t: Shape<K>): Node?<K> {
    if t.Leaf? then null else t.id
  }

  function Above<K>(c: Around<K>, top: Node<K>): Node<K> {
    if c.Hole? then top else c.id
  }

  /** The topmost node of the context, or `child` when there is none. */
  function Outer<K>(c: Around<K>, child: Node?<K>): Node?<K> {
    if c.Hole? then child else Outer(c.up, c.id)
  }

  /** The heap nodes of `t` hold exactly what `t` says, hanging below `parent`. */
  ghost predicate Linked<K>(t: Shape<K>, parent: Node<K>)
    reads Nodes(t)
  {
    t.Br? ==>
      && t.id.key == Some(t.key)
      && t.id.word == Pack(t.rank, t.bal) && -1 <= t.bal <= 1
      && t.id.left == Root(t.left) && t.id.right == Root(t.right)
      && t.id.parent == parent
      && Linked(t.left, t.id) && Linked(t.right, t.id)
  }

  /** The same for a context between the node `top` above it and the node `child` in its hole. */
  ghost predicate CtxLinked<K>(c: Around<K>, child: Node?<K>, top: Node<K>)
    reads CtxNodes(c)
  {
    c.Under? ==>
      && c.id.key == Some(c.key)
      && c.id.word == Pack(c.rank, c.bal) && -1 <= c.bal <= 1
      && c.id.left == (if c.dir == L then child else Root(c.sib))
      && c.id.right == (if c.dir == L then Root(c.sib) else child)
      && c.id.parent == Above(c.up, top)
      && Linked(c.sib, c.id)
      && CtxLinked(c.up, c.id, top)
  }

  /** Climbing: the hole and the inner part `c` of a context become one subtree. */
  lemma {:induction false} Climb<K>(c: Around<K>, t: Shape<K>, top: Node<K>)
    requires CtxLinked(c, Root(t), top) && Linked(t, Above(c, top))
    ensures Linked(Plug(c, t), top)
    ensures Root(Plug(c, t)) == Outer(c, Root(t))
  {
    if c.Hole? {
    } else {
      Climb(c.up, Fill(c, t), top);
    }
  }

  lemma {:induction false} AppendLinked<K>(c: Around<K>, outer: Around<K>, child: Node?<K>, top: Node<K>)
    ensures Above(Append(c, outer), top) == Above(c, Above(outer, top))
    ensures CtxLinked(Append(c, outer), child, top)
         <==> CtxLinked(c, child, Above(outer, top)) && CtxLinked(outer, Outer(c, child), top)
    ensures Outer(Append(c, outer), child) == Outer(outer, Outer(c, child))
  {
    if c.Hole? {
    } else {
      AppendLinked(c.up, outer, c.id, top);
    }
  }

  /** `child`, the root of `t`, is told its new parent. */
  method Adopt<K>(child: Node?<K>, parent: Node<K>, ghost t: Shape<K>, ghost was: Node<K>)
    requires child == Root(t) && Linked(t, was) && Distinct(t)
    modifies Nodes(t)
    ensures Linked(t, parent)
  {
    if child != null {
      child.parent := parent;
    }
  }

  /** `AVL_SET_BALANCE` at the root of a linked tree. */
  method StoreBalance<K>(n: Node<K>, b: int, ghost t: Shape<K>, ghost top: Node<K>)
    requires t.Br? && n == t.id && Linked(t, top) && Distinct(t) && -1 <= b <= 1
    modifies n
    ensures n.left == old(n.left) && n.right == old(n.right)
    ensures Linked(t.(bal := b), top)
  {
    hide Pack, SetBalance;
    PackSet(t.rank, t.bal, 0, b);
    n.word := SetBalance(n.word, b);
  }

  /** Single right rotation at `p`: its left child takes its place below `p.parent`. */
  method RotateRight<K>(p: Node<K>, ghost t: Shape<K>, ghost top: Node<K>) returns (q: Node<K>)
    requires t.Br? && t.left.Br? && p == t.id && Linked(t, top) && Distinct(t)
    modifies Nodes(t)
    ensures q == t.left.id && Linked(RotR(t), top)
  {
    hide Pack, GetRank, SetRank;
    ghost var l := t.left;
    assert Linked(l, p) && Linked(t.right, p) && Distinct(l);
    assert allocated(Nodes(t));
    q := p.left;
    q.parent := p.parent;
    p.left := q.right;
    Adopt(q.right, p, l.right, q);
    q.right := p;
    p.parent := q;
    SubRank(p.word, q.word, t.rank, t.bal, l.rank, l.bal);
    p.word := SetRank(p.word, GetRank(p.word) - GetRank(q.word));
    assert Linked(RotR(t).right, q);
  }

  /** Single left rotation at `p`. */
  method RotateLeft<K>(p: Node<K>, ghost t: Shape<K>, ghost top: Node<K>) returns (q: Node<K>)
    requires t.Br? && t.right.Br? && p == t.id && Linked(t, top) && Distinct(t)
    modifies Nodes(t)
    ensures q == t.right.id && Linked(RotL(t), top)
  {
    hide Pack, GetRank, SetRank;
    ghost var r := t.right;
    assert Linked(r, p) && Linked(t.left, p) && Distinct(r);
    assert allocated(Nodes(t));
    q := p.right;
    q.parent := p.parent;
    p.right := q.left;
    Adopt(q.left, p, r.left, q);
    q.left := p;
    p.parent := q;
    AddRank(q.word, p.word, r.rank, r.bal, t.rank, t.bal);
    q.word := SetRank(q.word, GetRank(q.word) + GetRank(p.word));
    assert Linked(RotL(t).left, q);
  }

  method SingleRight<K>(p: Node<K>, balP: int, balQ: int, ghost t: Shape<K>, ghost top: Node<K>) returns (q: Node<K>)
    requires t.Br? && t.left.Br? && p == t.id && Linked(t, top) && Distinct(t)
    requires -1 <= balP <= 1 && -1 <= balQ <= 1
    modifies Nodes(t)
    ensures q == t.left.id && Linked(SingleR(t, balP, balQ), top)
  {
    hide Pack;
    q := RotateRight(p, t, top);
    RotRKeeps(t);
    ghost var u := RotR(t);
    assert allocated(Nodes(u)) && Distinct(u);
    StoreBalance(q, balQ, u, top);
    assert Linked(u.(bal := balQ), top) && Linked(u.left, q);
    StoreBalance(p, balP, u.right, q);
  }

  method SingleLeft<K>(p: Node<K>, balP: int, balQ: int, ghost t: Shape<K>, ghost top: Node<K>) returns (q: Node<K>)
    requires t.Br? && t.right.Br? && p == t.id && Linked(t, top) && Distinct(t)
    requires -1 <= balP <= 1 && -1 <= balQ <= 1
    modifies Nodes(t)
    ensures q == t.right.id && Linked(SingleL(t, balP, balQ), top)
  {
    hide Pack;
    q := RotateLeft(p, t, top);
    RotLKeeps(t);
    ghost var u := RotL(t);
    assert allocated(Nodes(u)) && Distinct(u);
    StoreBalance(q, balQ, u, top);
    assert Linked(u.(bal := balQ), top) && Linked(u.right, q);
    StoreBalance(p, balP, u.left, q);
  }

  /** The balances after a double rotation, read off the balance of the lifted node. */
  method SettleBalances<K>(m: Node<K>, ghost u: Shape<K>, ghost top: Node<K>)
    requires u.Br? && u.left.Br? && u.right.Br? && m == u.id && Linked(u, top) && Distinct(u)
    modifies Nodes(u)
    ensures Linked(Settle(u), top)
  {
    hide Pack, GetBalance;
    assert Linked(u.left, m) && Linked(u.right, m) && allocated(Nodes(u));
    PackSet(u.rank, u.bal, 0, 0);
    StoreBalance(m.left, LeftAfter(GetBalance(m.word)), u.left, m);
    assert Linked(u.right, m);
    StoreBalance(m.right, RightAfter(GetBalance(m.word)), u.right, m);
    assert Linked(u.left.(bal := LeftAfter(u.bal)), m);
    ghost var w := u.(left := u.left.(bal := LeftAfter(u.bal)), right := u.right.(bal := RightAfter(u.bal)));
    StoreBalance(m, 0, w, top);
  }

  /** Double right rotation at `p`: its left child's right child takes its place. */
  method DoubleRight<K>(p: Node<K>, ghost t: Shape<K>, ghost top: Node<K>) returns (m: Node<K>)
    requires t.Br? && t.left.Br? && t.left.right.Br? && p == t.id && Linked(t, top) && Distinct(t)
    modifies Nodes(t)
    ensures m == t.left.right.id && Linked(DoubleR(t), top)
  {
    hide Pack, Settle;
    assert Linked(t.left, p) && Distinct(t.left) && allocated(Nodes(t));
    m := RotateLeft(p.left, t.left, p);
    p.left := m;
    ghost var v := t.(left := RotL(t.left));
    assert Linked(v, top) && Rearranged(t, v) by {
      RotLKeeps(t.left);
      Within(t, v.left, v.right, t.bal);
    }
    m := RotateRight(p, v, top);
    RotRKeeps(v);
    SettleBalances(m, RotR(v), top);
  }

  /** Double left rotation at `p`: its right child's left child takes its place. */
  method DoubleLeft<K>(p: Node<K>, ghost t: Shape<K>, ghost top: Node<K>) returns (m: Node<K>)
    requires t.Br? && t.right.Br? && t.right.left.Br? && p == t.id && Linked(t, top) && Distinct(t)
    modifies Nodes(t)
    ensures m == t.right.left.id && Linked(DoubleL(t), top)
  {
    hide Pack, Settle;
    assert Linked(t.right, p) && Distinct(t.right) && allocated(Nodes(t));
    m := RotateRight(p.right, t.right, p);
    p.right := m;
    ghost var v := t.(right := RotR(t.right));
    assert Linked(v, top) && Rearranged(t, v) by {
      RotRKeeps(t.right);
      Within(t, v.left, v.right, t.bal);
    }
    m := RotateLeft(p, v, top);
    RotLKeeps(v);
    SettleBalances(m, RotL(v), top);
  }
}
