/** Deletion on the linked heap: the search, the removal of one node, the climb back. */
module AvlDelete {
  import opened Options
  import opened SortedSeq
  import opened RankedTree
  import opened KeySearch
  import opened Rotations
  import opened DeletePath
  import opened AvlNode
  import opened AvlFocus

  /** Undoing the rank changes all the way up the tree, from a node that needs none. */
  method Undo<K>(last: Node<K>, header: Node<K>, ghost c0: Around<K>, ghost t0: Shape<K>)
    requires Focused(header, c0, t0) && t0.Br? && last == t0.id
    modifies CtxNodes(c0)
    ensures Rooted(header, Plug(Restored(c0), t0))
  {
    hide Focused, Linked, CtxLinked, Nodes;
    var x := last;
    ghost var c, t := c0, t0;
    Parent(header, c, t);
    while x != header.right
      invariant Focused(header, c, t) && t.Br? && x == t.id && (x == header.right ==> c.Hole?)
      invariant CtxNodes(c) <= CtxNodes(c0)
      invariant Plug(Restored(c), t) == Plug(Restored(c0), t0)
      decreases c
    {
      Parent(header, c, t);
      Lift(header, c, t);
      t, c := Fill(c, t), c.up;
      var up := x.parent;
      if up.left == x {
        Bump(up, 1, header, c, t);
        t := t.(rank := t.rank + 1);
      }
      x := up;
      Parent(header, c, t);
    }
  }

  /** The first loop. On a miss the rank changes are undone, as far as the code undoes them. */
  method Seek<K(!new)>(cmp: (K, K) -> int, key: K, header: Node<K>, ghost t0: Shape<K>)
    returns (found: bool, x: Node<K>, ghost c: Around<K>, ghost t: Shape<K>)
    requires TotalPreorder(cmp) && Sorted(cmp, Keys(t0)) && Balanced(t0)
    requires t0.Br? && Rooted(header, t0)
    modifies Nodes(t0)
    ensures found ==> Focused(header, c, t) && t.Br? && x == t.id
    ensures found ==> Seeking(cmp, key, t0, c, t) && cmp(key, t.key) == 0
    ensures !found ==> Rooted(header, Missed(cmp, key, t0)) && Absent(cmp, Keys(t0), key)
  {
    hide Focused, Linked, CtxLinked, Seeking, Narrowed, TotalPreorder, Sorted, Balanced, Ranked, Keys, Absent,
      GetBalance, Restored, Plug;
    Top(header, t0);
    SeekStart(cmp, key, t0);
    x := header.right;
    c, t := Hole, t0;
    while true
      invariant t.Br? && x == t.id && Focused(header, c, t)
      invariant Seeking(cmp, key, t0, c, t)
      decreases t
    {
      SeekScope(cmp, key, t0, c, t);
      Enter(header, c, t);
      var compared := cmp(key, x.key.value);
      if compared < 0 {
        SeekLeft(cmp, key, t0, c, t);
        Bump(x, -1, header, c, t);
        ghost var u := t.(rank := t.rank - 1);
        Enter(header, c, u);
        if x.left != null {
          x := x.left;
          c, t := Push(L, u, c), t.left;
        } else {
          Bump(x, 1, header, c, u);
          Undo(x, header, c, t);
          MissLeft(cmp, key, t0, c, t);
          return false, x, c, t;
        }
      } else if compared > 0 {
        SeekRight(cmp, key, t0, c, t);
        if x.right != null {
          x := x.right;
          c, t := Push(R, t, c), t.right;
        } else {
          Bump(x, 1, header, c, t);
          Undo(x, header, c, t.(rank := t.rank + 1));
          MissRight(cmp, key, t0, c, t);
          return false, x, c, t;
        }
      } else {
        return true, x, c, t;
      }
    }
  }

  /** The immediate predecessor of a node with a left child. */
  method Predecessor<K>(x: Node<K>, header: Node<K>, ghost c: Around<K>, ghost t: Shape<K>)
    returns (y: Node<K>, ghost seg: Around<K>, ghost u: Shape<K>)
    requires Focused(header, c, t) && t.Br? && t.left.Br? && x == t.id
    ensures Focused(header, Append(seg, Push(L, t, c)), u) && u.Br? && y == u.id && u.right.Leaf?
    ensures Rightward(seg) && Plug(seg, u) == t.left
  {
    hide Focused;
    ghost var out := Push(L, t, c);
    Enter(header, c, t);
    y := x.left;
    seg, u := Hole, t.left;
    Enter(header, out, u);
    while y.right != null
      invariant Focused(header, Append(seg, out), u) && u.Br? && y == u.id
      invariant y.right == Root(u.right)
      invariant Rightward(seg) && Plug(seg, u) == t.left
      decreases u
    {
      Enter(header, Append(seg, out), u);
      y := y.right;
      seg, u := Push(R, u, seg), u.right;
      Enter(header, Append(seg, out), u);
    }
  }

  /** `x`, the innermost node of `out`, and `y`, the root of `u`, exchange their keys. */
  method SwapKeys<K>(x: Node<K>, y: Node<K>, ghost header: Node<K>, ghost seg: Around<K>, ghost out: Around<K>,
      ghost u: Shape<K>)
    requires out.Under? && x == out.id && u.Br? && y == u.id
    requires Pieces(header, seg, out, u)
    modifies x, y
    ensures Pieces(header, seg, out.(key := u.key), u.(key := out.key))
  {
    hide Pack;
    var tempKey := x.key;
    x.key := y.key;
    y.key := tempKey;
    assert CtxLinked(seg, y, x);
    assert Linked(u.(key := out.key), Above(seg, x));
  }

  method LowerRank<K>(x: Node<K>, ghost header: Node<K>, ghost seg: Around<K>, ghost out: Around<K>, ghost u: Shape<K>)
    requires out.Under? && x == out.id && Pieces(header, seg, out, u)
    modifies x
    ensures Pieces(header, seg, out.(rank := out.rank - 1), u)
  {
    hide Pack, SetRank, GetRank;
    BumpRank(x.word, out.rank, out.bal, -1);
    x.word := SetRank(x.word, GetRank(x.word) - 1);
  }

  /** `x` leaves the tree: its only child, if any, takes its place. */
  method Unlink<K>(x: Node<K>, ghost header: Node<K>, ghost c: Around<K>, ghost t: Shape<K>) returns (d: Dir,
      p: Node<K>)
    requires Focused(header, c, t) && OneChild(t) && x == t.id
    modifies Nodes(t), Above(c, header)
    ensures Focused(header, c, OnlyChild(t))
    ensures p == Above(c, header) && (c.Under? ==> d == c.dir) && (c.Hole? ==> d == R)
  {
    hide Pack;
    assert allocated(CtxNodes(c)) && allocated(Nodes(t));
    assert c.Under? ==> Linked(c.sib, c.id) && CtxLinked(c.up, c.id, header);
    p := x.parent;
    var xChild: Node?<K> := null;
    if x.left != null {
      xChild := x.left;
      Adopt(xChild, x.parent, t.left, x);
    } else if x.right != null {
      xChild := x.right;
      Adopt(xChild, x.parent, t.right, x);
    }
    if x == x.parent.left {
      x.parent.left := xChild;
      d := L;
    } else {
      x.parent.right := xChild;
      d := R;
    }
    assert Linked(OnlyChild(t), p);
    assert c.Under? ==> Linked(c.sib, c.id) && CtxLinked(c.up, c.id, header);
    assert CtxLinked(c, xChild, header);
  }

  /** One round of the climb, at `p`, whose `d` side has become shorter. */
  method Round<K>(p: Node<K>, d: Dir, ghost header: Node<K>, ghost c: Around<K>, ghost t: Shape<K>, ghost h: int)
    returns (shorter: bool, q: Node<K>)
    requires Focused(header, c, t) && t.Br? && p == t.id && LostSide(d, h, t)
    modifies Nodes(t), Above(c, header)
    ensures Mend(d, t).0.Br? && q == Mend(d, t).0.id
    ensures Focused(header, c, Mend(d, t).0) && shorter == Mend(d, t).1
  {
    hide Focused, Hung, Balanced, Height, Distinct, DoubleR, DoubleL, SingleR, SingleL, GetBalance;
    Enter(header, c, t);
    MendBalances(d, h, t);
    if GetBalance(p.word) == 0 {
      Weigh(p, -Side(d), header, c, t);
      return false, p;
    } else if GetBalance(p.word) == Side(d) {
      Weigh(p, 0, header, c, t);
      return true, p;
    }
    ghost var v := Mend(d, t).0;
    var top := p.parent;
    if d == L {
      Enter(header, Push(R, t, c), t.right);
      if GetBalance(p.right.word) == 0 {
        q := SpinLeft(p, 1, -1, header, c, t);
        shorter := false;
      } else if GetBalance(p.right.word) == GetBalance(p.word) {
        q := SpinLeft(p, 0, 0, header, c, t);
        shorter := true;
      } else {
        q := SpinDoubleLeft(p, header, c, t);
        shorter := true;
      }
    } else {
      Enter(header, Push(L, t, c), t.left);
      if GetBalance(p.left.word) == 0 {
        q := SpinRight(p, -1, 1, header, c, t);
        shorter := false;
      } else if GetBalance(p.left.word) == GetBalance(p.word) {
        q := SpinRight(p, 0, 0, header, c, t);
        shorter := true;
      } else {
        q := SpinDoubleRight(p, header, c, t);
        shorter := true;
      }
    }
    HookLeft(top, p, q, header, c, v);
  }

  /** The climb back up the tree while the subtree just left has become shorter. */
  method ClimbBack<K>(start: Node<K>, side: Dir, ghost header: Node<K>, ghost c0: Around<K>,
      ghost t0: Shape<K>, ghost whole: Shape<K>, ghost height: int)
    returns (shorter: bool, ghost t1: Shape<K>)
    requires Focused(header, c0, t0) && start == Above(c0, header) && (c0.Under? ==> side == c0.dir)
    requires Climbing(whole, height, c0, t0, true)
    modifies header, Nodes(whole)
    ensures Rooted(header, t1) && Balanced(t1) && Rearranged(whole, t1)
    ensures Height(t1) == height - Drop(shorter)
  {
    hide Focused, Climbing, Balanced, Height, Rearranged, Mend, LostSide, Nodes, CtxNodes, Drop;
    var p, d := start, side;
    shorter := true;
    ghost var c, t := c0, t0;
    AtTop(header, c, t);
    while shorter && p.parent != null
      invariant Focused(header, c, t) && p == Above(c, header) && (c.Under? ==> d == c.dir)
      invariant p.parent == null <==> c.Hole?
      invariant Climbing(whole, height, c, t, shorter)
      decreases c
    {
      Lift(header, c, t);
      ClimbStep(whole, height, c, t);
      ghost var u := Mend(d, Fill(c, t)).0;
      AboveIn(c.up, header);
      var x;
      shorter, x := Round(p, d, header, c.up, Fill(c, t), Height(t));
      t, c := u, c.up;
      Parent(header, c, t);
      p := x.parent;
      d := if x == p.left then L else R;
    }
    ClimbDone(whole, height, c, t, shorter);
    t1 := Plug(c, t);
    LiftAll(header, c, t);
  }

  /** A node with two children exchanges its key with its predecessor, which leaves instead. */
  method YieldToPredecessor<K(!new)>(x: Node<K>, ghost cmp: (K, K) -> int, ghost key: K, header: Node<K>,
      ghost t0: Shape<K>, ghost c: Around<K>, ghost t: Shape<K>)
    returns (y: Node<K>, ghost c1: Around<K>, ghost t1: Shape<K>)
    requires Focused(header, c, t) && t.Br? && x == t.id && t.left.Br?
    requires Seeking(cmp, key, t0, c, t)
    modifies Nodes(t)
    ensures Focused(header, c1, t1) && OneChild(t1) && y == t1.id && t1.key == t.key
    ensures Counted(t0, c1, t1)
    ensures Position(c, t) < Size(t0) && Sparing(RemoveAt(Keys(t0), Position(c, t)), c1, t1)
  {
    hide Focused, Counted, Sparing, Narrowed, Position, RemoveAt, Pieces, Append, Missed, Rightward, CtxNodes;
    ghost var seg, u;
    y, seg, u := Predecessor(x, header, c, t);
    PlugNodes(seg, u);
    Cut(header, seg, Push(L, t, c), u);
    SwapKeys(x, y, header, seg, Push(L, t, c), u);
    LowerRank(x, header, seg, Push(L, t, c).(key := u.key), u.(key := t.key));
    c1, t1 := Append(seg, Vacated(c, t, u.key)), u.(key := t.key);
    Cut(header, seg, Vacated(c, t, u.key), t1);
    CountedPredecessor(t0, c, t, seg, u);
    LeavingPredecessor(cmp, key, Keys(t0), c, t, seg, u);
  }

  /** Takes the node found by the search out of the tree; `freed` is the key that goes. */
  method TakeOut<K(!new)>(found: Node<K>, ghost cmp: (K, K) -> int, ghost key: K, header: Node<K>,
      ghost t0: Shape<K>, ghost c: Around<K>, ghost t: Shape<K>)
    returns (freed: K, d: Dir, p: Node<K>, ghost c1: Around<K>, ghost t1: Shape<K>)
    requires Focused(header, c, t) && t.Br? && found == t.id
    requires Seeking(cmp, key, t0, c, t)
    modifies header, Nodes(t0)
    ensures Position(c, t) < Size(t0) && freed == t.key == Keys(t0)[Position(c, t)]
    ensures OneChild(t1) && Focused(header, c1, OnlyChild(t1))
    ensures p == Above(c1, header) && (c1.Under? ==> d == c1.dir)
    ensures Counted(t0, c1, t1) && Sparing(RemoveAt(Keys(t0), Position(c, t)), c1, t1)
  {
    hide Focused, Sparing, Narrowed, Position, RemoveAt, Ranked, CtxRanked, Balanced, CtxBalanced, Height,
      CtxHeight, CtxNodes, Nodes, Keys, Missed, Plug;
    var x := found;
    c1, t1 := c, t;
    FoundAt(cmp, key, Keys(t0), c, t);
    Enter(header, c, t);
    SeekScope(cmp, key, t0, c, t);
    if x.left != null && x.right != null {
      x, c1, t1 := YieldToPredecessor(x, cmp, key, header, t0, c, t);
    } else {
      LeavingAlone(cmp, key, Keys(t0), c, t);
    }
    Enter(header, c1, t1);
    AboveIn(c1, header);
    freed := x.key.value;
    d, p := Unlink(x, header, c1, t1);
  }

  /** Deletion from a tree that is not empty. */
  method DeleteBelow<K(!new)>(cmp: (K, K) -> int, key: K, header: Node<K>, ghost t0: Shape<K>)
    returns (found: bool, freed: Option<K>, ghost at: nat, ghost t1: Shape<K>, ghost lower: bool)
    requires TotalPreorder(cmp) && Sorted(cmp, Keys(t0)) && Balanced(t0)
    requires t0.Br? && Rooted(header, t0)
    modifies header, Nodes(t0)
    ensures Rooted(header, t1) && Nodes(t1) <= Nodes(t0)
    ensures found <==> !Absent(cmp, Keys(t0), key)
    ensures !found ==> t1 == Missed(cmp, key, t0)
    ensures found ==> Balanced(t1) && (Ranked(t0) ==> Ranked(t1))
    ensures found ==> at < |Keys(t0)| && cmp(key, Keys(t0)[at]) == 0 && freed == Some(Keys(t0)[at])
    ensures found ==> Keys(t1) == RemoveAt(Keys(t0), at)
    ensures Height(t1) == Height(t0) - if lower then 1 else 0
  {
    hide Focused, Rooted, Linked, CtxLinked, Seeking, TotalPreorder, Sorted, Balanced, Ranked, Keys, Restored, Plug,
      Counted, Sparing, Position, RemoveAt, Climbing, Missed, Nodes, CtxNodes, Height;
    var x, d, p, gone, shorter;
    ghost var c, t, c1, gone1;
    at, freed, lower := 0, None, false;
    found, x, c, t := Seek(cmp, key, header, t0);
    if !found {
      t1 := Missed(cmp, key, t0);
      MissedRanks(cmp, key, t0);
      return;
    }
    gone, d, p, c1, gone1 := TakeOut(x, cmp, key, header, t0, c, t);
    at, freed := Position(c, t), Some(gone);
    ghost var whole := Plug(c1, OnlyChild(gone1));
    ClimbStart(t0, RemoveAt(Keys(t0), at), c1, gone1);
    shorter, t1 := ClimbBack(p, d, header, c1, OnlyChild(gone1), whole, Height(t0));
    lower := shorter;
    SameScope(whole, t1);
  }
}
