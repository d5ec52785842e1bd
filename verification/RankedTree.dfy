/** Pure ranked trees and their zippers. A tree node carries an identity `id` (in the heap
    model, the node object), its key, its rank and its stored balance. */
module RankedTree {
  import opened SortedSeq

  datatype Tree<N, K> = Leaf | Br(id: N, key: K, rank: int, bal: int, left: Tree<N, K>, right: Tree<N, K>)

  datatype Dir = L | R

  /** What surrounds a subtree, innermost node first: `Under(d, ...)` says that the hole is
      the `d` child of node `id`, whose other child is `sib`. */
  datatype Ctx<N, K> = Hole | Under(dir: Dir, id: N, key: K, rank: int, bal: int, sib: Tree<N, K>, up: Ctx<N, K>)

  function Max(a: int, b: int): int { if a < b then b else a }

  function Height<N, K>(t: Tree<N, K>): nat {
    if t.Leaf? then 0 else 1 + Max(Height(t.left), Height(t.right))
  }

  function Size<N, K>(t: Tree<N, K>): nat {
    if t.Leaf? then 0 else Size(t.left) + 1 + Size(t.right)
  }

  function Keys<N, K>(t: Tree<N, K>): (s: seq<K>)
    ensures |s| == Size(t)
  {
    if t.Leaf? then [] else Keys(t.left) + [t.key] + Keys(t.right)
  }

  function Ids<N, K>(t: Tree<N, K>): (s: seq<N>)
    ensures |s| == Size(t)
  {
    if t.Leaf? then [] else Ids(t.left) + [t.id] + Ids(t.right)
  }

  ghost function Nodes<N, K>(t: Tree<N, K>): set<N> {
    if t.Leaf? then {} else Nodes(t.left) + {t.id} + Nodes(t.right)
  }

  /** Stored balances are true, and every node is balanced. */
  ghost predicate Balanced<N, K>(t: Tree<N, K>) {
    t.Br? ==>
      && t.bal == Height(t.right) - Height(t.left)
      && -1 <= t.bal <= 1
      && Balanced(t.left) && Balanced(t.right)
  }

  /** Every rank is the size of the left subtree plus one. */
  ghost predicate Ranked<N, K>(t: Tree<N, K>) {
    t.Br? ==> t.rank == Size(t.left) + 1 && Ranked(t.left) && Ranked(t.right)
  }

  /** No identity occurs twice. */
  ghost predicate Distinct<N, K>(t: Tree<N, K>) {
    t.Br? ==>
      && t.id !in Nodes(t.left) && t.id !in Nodes(t.right)
      && Nodes(t.left) !! Nodes(t.right)
      && Distinct(t.left) && Distinct(t.right)
  }

  // ---------------------------------------------------------------- contexts

  function Push<N, K>(d: Dir, t: Tree<N, K>, up: Ctx<N, K>): Ctx<N, K>
    requires t.Br?
  {
    Under(d, t.id, t.key, t.rank, t.bal, if d == L then t.right else t.left, up)
  }

  function Fill<N, K>(c: Ctx<N, K>, t: Tree<N, K>): Tree<N, K>
    requires c.Under?
  {
    if c.dir == L then Br(c.id, c.key, c.rank, c.bal, t, c.sib) else Br(c.id, c.key, c.rank, c.bal, c.sib, t)
  }

  function Plug<N, K>(c: Ctx<N, K>, t: Tree<N, K>): Tree<N, K> {
    if c.Hole? then t else Plug(c.up, Fill(c, t))
  }

  function Append<N, K>(c: Ctx<N, K>, outer: Ctx<N, K>): Ctx<N, K> {
    if c.Hole? then outer else c.(up := Append(c.up, outer))
  }

  function KeysL<N, K>(c: Ctx<N, K>): seq<K> {
    if c.Hole? then [] else if c.dir == L then KeysL(c.up) else KeysL(c.up) + Keys(c.sib) + [c.key]
  }

  function KeysR<N, K>(c: Ctx<N, K>): seq<K> {
    if c.Hole? then [] else if c.dir == R then KeysR(c.up) else [c.key] + Keys(c.sib) + KeysR(c.up)
  }

  function IdsL<N, K>(c: Ctx<N, K>): (s: seq<N>)
    ensures |s| == |KeysL(c)|
  {
    if c.Hole? then [] else if c.dir == L then IdsL(c.up) else IdsL(c.up) + Ids(c.sib) + [c.id]
  }

  function IdsR<N, K>(c: Ctx<N, K>): (s: seq<N>)
    ensures |s| == |KeysR(c)|
  {
    if c.Hole? then [] else if c.dir == R then IdsR(c.up) else [c.id] + Ids(c.sib) + IdsR(c.up)
  }

  ghost function CtxNodes<N, K>(c: Ctx<N, K>): set<N> {
    if c.Hole? then {} else {c.id} + Nodes(c.sib) + CtxNodes(c.up)
  }

  ghost predicate CtxDistinct<N, K>(c: Ctx<N, K>) {
    c.Under? ==>
      && c.id !in Nodes(c.sib) && c.id !in CtxNodes(c.up)
      && Nodes(c.sib) !! CtxNodes(c.up)
      && Distinct(c.sib) && CtxDistinct(c.up)
  }

  /** The context is balanced around a subtree of height `h`. */
  ghost predicate CtxBalanced<N, K>(c: Ctx<N, K>, h: int) {
    c.Under? ==>
      && c.bal == (if c.dir == L then Height(c.sib) - h else h - Height(c.sib))
      && -1 <= c.bal <= 1
      && Balanced(c.sib)
      && CtxBalanced(c.up, 1 + Max(h, Height(c.sib)))
  }

  /** The context is ranked around a subtree of `n` nodes. */
  ghost predicate CtxRanked<N, K>(c: Ctx<N, K>, n: int) {
    c.Under? ==>
      && c.rank == (if c.dir == L then n else Size(c.sib)) + 1
      && Ranked(c.sib)
      && CtxRanked(c.up, n + 1 + Size(c.sib))
  }

  function CtxHeight<N, K>(c: Ctx<N, K>, h: int): int {
    if c.Hole? then h else CtxHeight(c.up, 1 + Max(h, Height(c.sib)))
  }

  lemma {:induction false} PlugKeys<N, K>(c: Ctx<N, K>, t: Tree<N, K>)
    ensures Keys(Plug(c, t)) == KeysL(c) + Keys(t) + KeysR(c)
  {
    if c.Hole? {
    } else {
      PlugKeys(c.up, Fill(c, t));
      var l, r := Fill(c, t).left, Fill(c, t).right;
      Regroup(KeysL(c.up), Keys(l), c.key, Keys(r), KeysR(c.up));
    }
  }

  lemma {:induction false} PlugIds<N, K>(c: Ctx<N, K>, t: Tree<N, K>)
    ensures Ids(Plug(c, t)) == IdsL(c) + Ids(t) + IdsR(c)
  {
    if c.Hole? {
    } else {
      PlugIds(c.up, Fill(c, t));
      var l, r := Fill(c, t).left, Fill(c, t).right;
      Regroup(IdsL(c.up), Ids(l), c.id, Ids(r), IdsR(c.up));
    }
  }

  lemma {:induction false} PlugNodes<N, K>(c: Ctx<N, K>, t: Tree<N, K>)
    ensures Nodes(Plug(c, t)) == CtxNodes(c) + Nodes(t)
    ensures Distinct(Plug(c, t)) <==> Distinct(t) && CtxDistinct(c) && CtxNodes(c) !! Nodes(t)
  {
    if c.Hole? {
    } else {
      PlugNodes(c.up, Fill(c, t));
    }
  }

  lemma FillBalanced<N, K>(c: Ctx<N, K>, t: Tree<N, K>)
    requires c.Under?
    ensures Height(Fill(c, t)) == 1 + Max(Height(t), Height(c.sib))
    ensures Balanced(Fill(c, t)) && CtxBalanced(c.up, Height(Fill(c, t))) <==> Balanced(t) && CtxBalanced(c, Height(t))
  {
  }

  lemma {:induction false} PlugBalanced<N, K>(c: Ctx<N, K>, t: Tree<N, K>)
    ensures Balanced(Plug(c, t)) <==> Balanced(t) && CtxBalanced(c, Height(t))
    ensures Height(Plug(c, t)) == CtxHeight(c, Height(t))
  {
    hide Balanced, Height, Max, Fill;
    if c.Hole? {
    } else {
      FillBalanced(c, t);
      PlugBalanced(c.up, Fill(c, t));
    }
  }

  lemma {:induction false} PlugRanked<N, K>(c: Ctx<N, K>, t: Tree<N, K>)
    ensures Ranked(Plug(c, t)) <==> Ranked(t) && CtxRanked(c, Size(t))
  {
    if c.Hole? {
    } else {
      PlugRanked(c.up, Fill(c, t));
    }
  }

  lemma {:induction false} PlugAppend<N, K>(c: Ctx<N, K>, outer: Ctx<N, K>, t: Tree<N, K>)
    ensures Plug(Append(c, outer), t) == Plug(outer, Plug(c, t))
  {
    if c.Hole? {
    } else {
      PlugAppend(c.up, outer, Fill(c, t));
    }
  }

  lemma {:induction false} AppendHeight<N, K>(c: Ctx<N, K>, outer: Ctx<N, K>, h: int)
    ensures CtxHeight(Append(c, outer), h) == CtxHeight(outer, CtxHeight(c, h))
  {
    if c.Hole? {
    } else {
      AppendHeight(c.up, outer, 1 + Max(h, Height(c.sib)));
    }
  }

  lemma {:induction false} AppendHole<N, K>(c: Ctx<N, K>)
    ensures Append(c, Hole) == c
  {
    if c.Hole? {
    } else {
      AppendHole(c.up);
    }
  }

  lemma {:induction false} AppendBalanced<N, K>(c: Ctx<N, K>, outer: Ctx<N, K>, h: int)
    ensures CtxBalanced(Append(c, outer), h) <==> CtxBalanced(c, h) && CtxBalanced(outer, CtxHeight(c, h))
  {
    if c.Hole? {
    } else {
      AppendBalanced(c.up, outer, 1 + Max(h, Height(c.sib)));
    }
  }

  lemma Slide<T>(a: seq<T>, b: seq<T>, c: seq<T>, d: seq<T>)
    ensures a + b + c + d == a + (b + c + d)
    ensures a + b + (c + d) == a + b + c + d
  {
  }

  lemma {:induction false} AppendKeys<N, K>(c: Ctx<N, K>, outer: Ctx<N, K>)
    ensures KeysL(Append(c, outer)) == KeysL(outer) + KeysL(c)
    ensures KeysR(Append(c, outer)) == KeysR(c) + KeysR(outer)
  {
    hide Keys;
    if c.Hole? {
      assert KeysL(outer) + [] == KeysL(outer) && [] + KeysR(outer) == KeysR(outer);
    } else {
      AppendKeys(c.up, outer);
      Slide(KeysL(outer), KeysL(c.up), Keys(c.sib), [c.key]);
      Slide([c.key], Keys(c.sib), KeysR(c.up), KeysR(outer));
    }
  }

  lemma {:induction false} AppendNodes<N, K>(c: Ctx<N, K>, outer: Ctx<N, K>)
    ensures CtxNodes(Append(c, outer)) == CtxNodes(c) + CtxNodes(outer)
    ensures CtxDistinct(Append(c, outer)) <==> CtxDistinct(c) && CtxDistinct(outer) && CtxNodes(c) !! CtxNodes(outer)
  {
    if c.Hole? {
    } else {
      AppendNodes(c.up, outer);
    }
  }

  /** The root of `t` sits at its rank in the sequences of the whole tree. */
  lemma InOrder<N, K>(c: Ctx<N, K>, t: Tree<N, K>)
    requires t.Br?
    ensures var i, w := |KeysL(c)| + Size(t.left), Plug(c, t);
      i < Size(w) && Keys(w)[i] == t.key && Ids(w)[i] == t.id
  {
    PlugKeys(c, t);
    PlugIds(c, t);
    Regroup(KeysL(c), Keys(t.left), t.key, Keys(t.right), KeysR(c));
    Regroup(IdsL(c), Ids(t.left), t.id, Ids(t.right), IdsR(c));
  }

  lemma PlugSize<N, K>(c: Ctx<N, K>, t: Tree<N, K>)
    ensures Size(Plug(c, t)) == |KeysL(c)| + Size(t) + |KeysR(c)|
  {
    PlugKeys(c, t);
  }

  /** The place of the `i`-th node of a tree. */
  lemma {:induction false} Locate<N, K>(w: Tree<N, K>, outer: Ctx<N, K>, i: nat) returns (c: Ctx<N, K>, t: Tree<N, K>)
    requires i < Size(w)
    ensures t.Br? && Plug(c, t) == Plug(outer, w) && |KeysL(c)| + Size(t.left) == |KeysL(outer)| + i
    decreases w
  {
    if i < Size(w.left) {
      c, t := Locate(w.left, Push(L, w, outer), i);
    } else if i == Size(w.left) {
      c, t := outer, w;
    } else {
      c, t := Locate(w.right, Push(R, w, outer), i - Size(w.left) - 1);
    }
  }
}
