/** The tree object: its header, its counters and its comparison function. */
module AvlTree {
  import opened Options
  import opened SortedSeq
  import opened RankedTree
  import opened KeySearch
  import opened AvlNode
  import opened AvlFocus
  import opened DeletePath
  import opened AvlInsert
  import opened AvlDelete

  // Indices are 64-bit.
  const LONGS: int := 0x1_0000_0000_0000_0000

  /** The node counter is a 32-bit word. */
  lemma Counted32(n: int)
    ensures (n % WORDS + 1) % WORDS == (n + 1) % WORDS
    ensures (n % WORDS - 1) % WORDS == (n - 1) % WORDS
  {
  }

  lemma Nothing<K>(t: Shape<K>)
    ensures t.Leaf? ==> Height(t) == 0 && Keys(t) == []
  {
  }

  lemma EmptyMiss<K(!new)>(cmp: (K, K) -> int, t: Shape<K>, key: K)
    ensures t.Leaf? ==> Absent(cmp, Keys(t), key) && Missed(cmp, key, t) == t && !EndsRight(cmp, key, t)
  {
  }

  /** The calls made on the keys `s`, last key first, up to the first that asks to stop. */
  function Visits<K>(f: (int, K) -> int, s: seq<K>): seq<(int, K)> {
    if s == [] then []
    else
      var k := |s| - 1;
      [(k, s[k])] + if f(k, s[k]) != 0 then [] else Visits(f, s[..k])
  }

  /** Some call asks to stop. */
  ghost predicate Stops<K>(f: (int, K) -> int, s: seq<K>) {
    exists k :: 0 <= k < |s| && f(k, s[k]) != 0
  }

  lemma VisitOne<K>(f: (int, K) -> int, s: seq<K>)
    requires s != []
    ensures var k := |s| - 1;
      && Visits(f, s) == [(k, s[k])] + (if f(k, s[k]) != 0 then [] else Visits(f, s[..k]))
      && (f(k, s[k]) != 0 ==> Stops(f, s))
      && (f(k, s[k]) == 0 ==> (Stops(f, s) <==> Stops(f, s[..k])))
  {
    var k := |s| - 1;
    if f(k, s[k]) == 0 && Stops(f, s) {
      var j :| 0 <= j < |s| && f(j, s[j]) != 0;
      assert s[..k][j] == s[j];
    }
    if Stops(f, s[..k]) {
      var j :| 0 <= j < k && f(j, s[..k][j]) != 0;
      assert s[j] == s[..k][j];
    }
  }

  lemma VisitLast<K>(f: (int, K) -> int, s: seq<K>, k: nat)
    requires k < |s|
    ensures Visits(f, s[..k + 1]) == [(k, s[k])] + if f(k, s[k]) != 0 then [] else Visits(f, s[..k])
    ensures Stops(f, s[..k + 1]) <==> f(k, s[k]) != 0 || Stops(f, s[..k])
  {
    hide Visits, Stops;
    VisitOne(f, s[..k + 1]);
    assert s[..k + 1][..k] == s[..k];
  }

  lemma VisitNone<K>(f: (int, K) -> int, s: seq<K>)
    requires s == []
    ensures Visits(f, s) == [] && !Stops(f, s)
  {
  }

  /** Every key with its position, the last one first. */
  function Countdown<K>(s: seq<K>): seq<(int, K)> {
    seq(|s|, j requires 0 <= j < |s| => (|s| - 1 - j, s[|s| - 1 - j]))
  }

  lemma CountdownFirst<K>(s: seq<K>)
    ensures Countdown(s) == if s == [] then [] else [(|s| - 1, s[|s| - 1])] + Countdown(s[..|s| - 1])
  {
  }

  /** When no call asks to stop, every key is visited once, in descending order. */
  lemma {:induction false} VisitsAll<K>(f: (int, K) -> int, s: seq<K>)
    requires !Stops(f, s)
    ensures Visits(f, s) == Countdown(s)
  {
    hide Visits, Stops, Countdown;
    if s == [] {
      VisitNone(f, s);
      CountdownFirst(s);
    } else {
      var k := |s| - 1;
      VisitLast(f, s, k);
      assert s[..k + 1] == s;
      CountdownFirst(s);
      VisitsAll(f, s[..k]);
    }
  }

  /** When the call on position k is the first that asks to stop, it is the last one made. */
  lemma {:induction false} VisitsUpTo<K>(f: (int, K) -> int, s: seq<K>, k: nat)
    requires k < |s| && f(k, s[k]) != 0 && forall j :: k < j < |s| ==> f(j, s[j]) == 0
    ensures Visits(f, s) == Countdown(s)[..|s| - k] && Stops(f, s)
    decreases |s|
  {
    hide Visits, Stops, Countdown;
    var last := |s| - 1;
    VisitLast(f, s, last);
    assert s[..last + 1] == s;
    CountdownFirst(s);
    CountdownSize(s);
    CountdownSize(s[..last]);
    if k < last { VisitsUpTo(f, s[..last], k); }
  }

  lemma CountdownSize<K>(s: seq<K>)
    ensures |Countdown(s)| == |s|
  {
  }

  function LastOf<K>(s: seq<K>): Option<K> { if s == [] then None else Some(s[|s| - 1]) }

  function FirstOf<K>(s: seq<K>): Option<K> { if s == [] then None else Some(s[0]) }

  ghost predicate GreatestAtMost<K(!new)>(cmp: (K, K) -> int, s: seq<K>, key: K, at: nat)
    requires at < |s|
  {
    cmp(key, s[at]) >= 0 && forall i :: 0 <= i < |s| && cmp(key, s[i]) >= 0 ==> cmp(s[i], s[at]) <= 0
  }

  ghost predicate LeastAtLeast<K(!new)>(cmp: (K, K) -> int, s: seq<K>, key: K, at: nat)
    requires at < |s|
  {
    cmp(key, s[at]) <= 0 && forall i :: 0 <= i < |s| && cmp(key, s[i]) <= 0 ==> cmp(s[at], s[i]) <= 0
  }

  /** A sorted sequence parted at `key`: its neighbours are where the parts meet. */
  lemma NearestParts<K(!new)>(cmp: (K, K) -> int, a: seq<K>, b: seq<K>, key: K)
    requires TotalPreorder(cmp) && Sorted(cmp, a + b) && AllBelow(cmp, a, key) && AllAbove(cmp, b, key)
    ensures a == [] <==> AllAbove(cmp, a + b, key)
    ensures a != [] ==> (a + b)[|a| - 1] == a[|a| - 1] && GreatestAtMost(cmp, a + b, key, |a| - 1)
    ensures b == [] <==> AllBelow(cmp, a + b, key)
    ensures b != [] ==> (a + b)[|a|] == b[0] && LeastAtLeast(cmp, a + b, key, |a|)
  {
    NearestBelow(cmp, a, b, key);
    NearestAbove(cmp, a, b, key);
  }

  lemma NearestBelow<K(!new)>(cmp: (K, K) -> int, a: seq<K>, b: seq<K>, key: K)
    requires TotalPreorder(cmp) && Sorted(cmp, a + b) && AllBelow(cmp, a, key) && AllAbove(cmp, b, key)
    ensures a == [] <==> AllAbove(cmp, a + b, key)
    ensures a != [] ==> (a + b)[|a| - 1] == a[|a| - 1] && GreatestAtMost(cmp, a + b, key, |a| - 1)
  {
    var s, n := a + b, |a|;
    assert forall i :: 0 <= i < n ==> s[i] == a[i];
    assert forall i :: n <= i < |s| ==> s[i] == b[i - n];
    if n > 0 { assert cmp(key, s[n - 1]) > 0; }
  }

  lemma NearestAbove<K(!new)>(cmp: (K, K) -> int, a: seq<K>, b: seq<K>, key: K)
    requires TotalPreorder(cmp) && Sorted(cmp, a + b) && AllBelow(cmp, a, key) && AllAbove(cmp, b, key)
    ensures b == [] <==> AllBelow(cmp, a + b, key)
    ensures b != [] ==> (a + b)[|a|] == b[0] && LeastAtLeast(cmp, a + b, key, |a|)
  {
  }

  class Avl<K(!new)> {
    const root: Node<K>
    var height: int
    var length: int
    const compare: (K, K) -> int
    ghost var shape: Shape<K>

    /** Everything `Valid` asks for except that the ranks be true. */
    ghost predicate Sound()
      reads this, root, Nodes(shape)
    {
      && TotalPreorder(compare)
      && Rooted(root, shape)
      && Balanced(shape) && Sorted(compare, Keys(shape))
      && length == Size(shape) % WORDS && 0 <= height < WORDS
    }

    ghost predicate Valid()
      reads this, root, Nodes(shape)
    {
      Sound() && Ranked(shape)
    }

    ghost function Contents(): seq<K>
      reads this
    {
      Keys(shape)
    }

    constructor (compare: (K, K) -> int)
      requires TotalPreorder(compare)
      ensures Valid() && Contents() == [] && this.compare == compare && fresh(root)
      ensures height == 0 && shape == Leaf
    {
      this.compare := compare;
      root := new Node(None, null);
      height, length := 0, 0;
      shape := Leaf;
    }

    method Insert(key: K) returns (r: int)
      requires Sound()
      modifies this, root, Nodes(shape)
      ensures Sound() && (old(Valid()) ==> Valid())
      ensures forall n <- Nodes(shape) :: n in old(Nodes(shape)) || fresh(n)
      ensures r == 0
      ensures Contents() == InsertAt(old(Contents()), LowerBound(compare, old(Contents()), key), key)
      ensures height
        == (old(height) + if old(shape).Br? && Height(shape) > Height(old(shape)) then 1 else 0) % 0x1_0000_0000
      ensures Height(old(shape)) <= Height(shape) <= Height(old(shape)) + 1
    {
      hide Rooted, TotalPreorder, Sorted, Balanced, Ranked, InsertAt, LowerBound, Height, Size, Keys;
      Counted32(Size(shape));
      Nothing(shape);
      Top(root, shape);
      if root.right == null {
        InsertFirst(key);
        return 0;
      }
      var grew;
      ghost var t1;
      grew, t1 := InsertBelow(compare, key, root, shape);
      length := (length + 1) % WORDS;
      if grew { height := (height + 1) % WORDS; }
      shape := t1;
      return 0;
    }

    method InsertFirst(key: K)
      requires Sound() && shape.Leaf?
      modifies this, root
      ensures Valid() && fresh(Nodes(shape))
      ensures Contents() == InsertAt([], LowerBound(compare, [], key), key)
      ensures height == old(height) && Height(shape) == 1
    {
      hide TotalPreorder;
      var node := new Node(Some(key), root);
      root.right := node;
      length := (length + 1) % WORDS;
      shape := Br(node, key, 1, 0, Leaf, Leaf);
      assert Linked(shape, root);
      assert Sorted(compare, Keys(shape)) && Ranked(shape) && Balanced(shape);
    }

    /** Returns the key handed to the caller's free function, the position it had, and whether
        the tree has become lower, which the stored height does not follow. */
    method Delete(key: K) returns (r: int, freed: Option<K>, ghost at: nat, ghost lower: bool)
      requires Sound()
      modifies this, root, Nodes(shape)
      ensures Sound() && Nodes(shape) <= old(Nodes(shape)) && height == old(height)
      ensures Height(shape) == Height(old(shape)) - (if lower then 1 else 0) && (r == -1 ==> !lower)
      ensures r == (if Absent(compare, old(Contents()), key) then -1 else 0)
      ensures r == 0 ==>
        && (old(Valid()) ==> Valid())
        && at < |old(Contents())| && compare(key, old(Contents())[at]) == 0
        && freed == Some(old(Contents())[at])
        && Contents() == RemoveAt(old(Contents()), at)
      ensures r == -1 ==>
        && freed == None
        && shape == Missed(compare, key, old(shape))
        && (old(Valid()) ==> (Valid() <==> !EndsRight(compare, key, old(shape))))
    {
      hide Rooted, TotalPreorder, Sorted, Balanced, Ranked, Height, Nodes, Size, Keys, Absent, Missed,
        EndsRight, RemoveAt;
      Counted32(Size(shape));
      EmptyMiss(compare, shape, key);
      at, lower := 0, false;
      Top(root, shape);
      if root.right == null {
        return -1, None, 0, false;
      }
      var found;
      ghost var t1;
      found, freed, at, t1, lower := DeleteBelow(compare, key, root, shape);
      shape := t1;
      if !found {
        MissedRanks(compare, key, old(shape));
        return -1, None, 0, false;
      }
      length := (length - 1) % WORDS;
      RemoveSorted(compare, old(Contents()), at);
      return 0, freed, at, lower;
    }

    // ------------------------------------------------------------------ queries

    /** Few enough nodes that every rank fits its 30 bits. */
    ghost predicate Fits()
      reads this
    {
      Size(shape) < 0x4000_0000
    }

    /** The search stands at node `n`: `t` is its subtree and `c` what surrounds it. */
    ghost predicate At(n: Node?<K>, c: Around<K>, t: Shape<K>)
      reads this, root, CtxNodes(c), Nodes(t)
    {
      n == Root(t) && Plug(c, t) == shape && Focused(root, c, t)
    }

    lemma Ordered()
      requires Sound()
      ensures TotalPreorder(compare) && Sorted(compare, Keys(shape))
      ensures length == Size(shape) % WORDS && (Fits() ==> length == Size(shape))
    {
    }

    lemma Start()
      requires Sound()
      ensures At(root.right, Hole, shape)
    {
      Top(root, shape);
    }

    /** A null link marks an empty subtree. */
    lemma Reach(n: Node?<K>, c: Around<K>, t: Shape<K>)
      requires At(n, c, t)
      ensures n == null <==> t.Leaf?
      ensures Size(t) == 0 <==> t.Leaf?
      ensures KeysL<Node<K>, K>(Hole) == []
    {
    }

    /** What a query reads at a node, and where the reading leads. */
    lemma Look(n: Node<K>, c: Around<K>, t: Shape<K>)
      requires At(n, c, t)
      ensures t.Br? && n == t.id && n.key == Some(t.key)
      ensures n.left == Root(t.left) && n.right == Root(t.right)
      ensures At(n.left, Push(L, t, c), t.left) && At(n.right, Push(R, t, c), t.right)
      ensures GetRank(n.word) == t.rank % RANKS
      ensures Height(t) >= 1 + Height(t.left) && Height(t) >= 1 + Height(t.right)
      ensures Size(t) == Size(t.left) + 1 + Size(t.right)
      ensures (n.left == null <==> Size(t.left) == 0) && (n.right == null <==> Size(t.right) == 0)
      ensures KeysL(Push(L, t, c)) == KeysL(c) && |KeysL(Push(R, t, c))| == |KeysL(c)| + Size(t.left) + 1
      ensures |KeysL(c)| + Size(t.left) < Size(shape)
      ensures Keys(shape)[|KeysL(c)| + Size(t.left)] == t.key
      ensures Ids(shape)[|KeysL(c)| + Size(t.left)] == n
    {
      hide Focused, GetRank;
      Enter(root, c, t);
      InOrder(c, t);
    }

    /** Stored ranks are exact as long as they fit. */
    lemma ExactRank(n: Node<K>, c: Around<K>, t: Shape<K>)
      requires Valid() && Fits() && At(n, c, t)
      ensures t.Br? && GetRank(n.word) == Size(t.left) + 1
    {
      hide Focused, Rooted, TotalPreorder, Sorted, GetRank;
      Look(n, c, t);
      PlugRanked(c, t);
      PlugSize(c, t);
    }

    method GetByIndex(index: nat) returns (r: int, value: Option<K>, ghost steps: nat)
      requires Valid() && Fits() && index < 0x1_0000_0000_0000_0000
      ensures r == (if index < |Contents()| then 0 else -1)
      ensures r == 0 ==> value == Some(Contents()[index])
      ensures r == -1 ==> value == None
      ensures steps <= Height(shape)
    {
      hide At, Sound, Ranked, GetRank, Size, KeysL, Ids;
      Start();
      var p := root.right;
      var m := (index + 1) % LONGS;
      ghost var c, t := Hole, shape;
      Reach(p, c, t);
      steps := 0;
      while true
        invariant Valid() && At(p, c, t) && p == Root(t)
        invariant if index + 1 < LONGS then m == index + 1 - |KeysL(c)| else m == 0
        invariant index < Size(shape) ==> 1 <= m <= Size(t)
        invariant steps + Height(t) <= Height(shape)
        decreases t
      {
        Reach(p, c, t);
        if p == null {
          return -1, None, steps;
        }
        Look(p, c, t);
        ExactRank(p, c, t);
        steps := steps + 1;
        if m < GetRank(p.word) {
          p := p.left;
          c, t := Push(L, t, c), t.left;
        } else if m > GetRank(p.word) {
          m := m - GetRank(p.word);
          p := p.right;
          c, t := Push(R, t, c), t.right;
        } else {
          return 0, p.key, steps;
        }
      }
    }

    /** The search for `key` stands at `n`. */
    ghost predicate Searching(key: K, n: Node?<K>, c: Around<K>, t: Shape<K>)
      reads this, root, CtxNodes(c), Nodes(t)
    {
      At(n, c, t) && Narrowed(compare, key, Keys(shape), c, t)
    }

    lemma StartSearch(key: K)
      requires Sound()
      ensures Searching(key, root.right, Hole, shape)
      ensures root.right == null ==> Absent(compare, Contents(), key) && shape.Leaf?
    {
      Start();
      NarrowStart(compare, key, shape);
      Reach(root.right, Hole, shape);
    }

    /** What one comparison tells about the whole tree. */
    lemma Probe(key: K, n: Node<K>, c: Around<K>, t: Shape<K>)
      requires Sound() && Searching(key, n, c, t)
      ensures t.Br? && n.key == Some(t.key)
      ensures compare(key, t.key) < 0 ==> Searching(key, n.left, Push(L, t, c), t.left)
      ensures compare(key, t.key) > 0 ==> Searching(key, n.right, Push(R, t, c), t.right)
      ensures Position(c, t) < Size(shape) && Keys(shape)[Position(c, t)] == t.key && Ids(shape)[Position(c, t)] == n
      ensures Height(t) >= 1 + Height(t.left) && Height(t) >= 1 + Height(t.right)
      ensures compare(key, t.key) == 0 ==> !Absent(compare, Contents(), key)
    {
      hide At, Rooted, Narrowed, TotalPreorder, Sorted, Balanced, Size;
      Look(n, c, t);
      NarrowStep(compare, key, Keys(shape), c, t);
    }

    /** A search that runs into a null link has failed. */
    lemma Fail(key: K, c: Around<K>, t: Shape<K>)
      requires Searching(key, null, c, t)
      ensures Absent(compare, Contents(), key)
    {
      hide Narrowed;
      Reach(null, c, t);
      NarrowFails(compare, key, Keys(shape), c);
    }

    method GetByKey(key: K) returns (r: int, value: Option<K>, ghost at: nat, ghost steps: nat)
      requires Sound()
      ensures r == (if Absent(compare, Contents(), key) then -1 else 0)
      ensures r == 0 ==> at < |Contents()| && compare(key, Contents()[at]) == 0 && value == Some(Contents()[at])
      ensures r == -1 ==> value == None
      ensures steps <= Height(shape)
    {
      hide Searching, At, Sound, Absent, Height, Position;
      at, steps := 0, 0;
      StartSearch(key);
      var x := root.right;
      if x == null {
        return -1, None, 0, 0;
      }
      ghost var c, t := Hole, shape;
      while true
        invariant Sound() && x != null && Searching(key, x, c, t)
        invariant steps + Height(t) <= Height(shape)
        decreases t
      {
        Probe(key, x, c, t);
        steps := steps + 1;
        var compared := compare(key, x.key.value);
        if compared < 0 {
          c, t := Push(L, t, c), t.left;
          if x.left != null {
            x := x.left;
          } else {
            Fail(key, c, t);
            return -1, None, 0, steps;
          }
        } else if compared > 0 {
          c, t := Push(R, t, c), t.right;
          if x.right != null {
            x := x.right;
          } else {
            Fail(key, c, t);
            return -1, None, 0, steps;
          }
        } else {
          return 0, x.key, Position(c, t), steps;
        }
      }
    }

    // ----------------------------------------------------- stepping from node to node

    /** The leftmost node of a subtree. */
    method Leftmost(start: Node<K>, ghost c0: Around<K>, ghost t0: Shape<K>) returns (node: Node<K>)
      requires Sound() && At(start, c0, t0)
      ensures Sound() && |KeysL(c0)| < Size(shape) && node == Ids(shape)[|KeysL(c0)|]
    {
      hide At, Sound, GetRank, Size, KeysL, Ids;
      node := start;
      ghost var c, t := c0, t0;
      Look(node, c, t);
      while node.left != null
        invariant Sound() && At(node, c, t) && t.Br? && node == t.id && node.left == Root(t.left)
        invariant KeysL(c) == KeysL(c0)
        decreases t
      {
        Look(node, c, t);
        node := node.left;
        c, t := Push(L, t, c), t.left;
        Look(node, c, t);
      }
      Look(node, c, t);
    }

    /** The rightmost node of a subtree. */
    method Rightmost(start: Node<K>, ghost c0: Around<K>, ghost t0: Shape<K>) returns (node: Node<K>)
      requires Sound() && At(start, c0, t0)
      ensures Sound() && |KeysL(c0)| + Size(t0) <= Size(shape) && 0 < Size(t0)
      ensures node == Ids(shape)[|KeysL(c0)| + Size(t0) - 1]
    {
      hide At, Sound, GetRank, Size, KeysL, Ids;
      node := start;
      ghost var c, t := c0, t0;
      Look(node, c, t);
      while node.right != null
        invariant Sound() && At(node, c, t) && t.Br? && node == t.id && node.right == Root(t.right)
        invariant |KeysL(c)| + Size(t) == |KeysL(c0)| + Size(t0)
        decreases t
      {
        Look(node, c, t);
        node := node.right;
        c, t := Push(R, t, c), t.right;
        Look(node, c, t);
      }
      Look(node, c, t);
    }

    method First() returns (node: Node?<K>)
      requires Sound()
      ensures node == if Size(shape) == 0 then null else Ids(shape)[0]
    {
      hide At, Sound, GetRank, Size, KeysL, Ids;
      Start();
      node := root.right;
      if node != null {
        Look(node, Hole, shape);
      }
      Reach(node, Hole, shape);
      if node == null || node.key == None {
        return null;
      }
      node := Leftmost(node, Hole, shape);
    }

    /** The context of the node at position `i`. */
    lemma Stand(node: Node<K>, i: nat) returns (c: Around<K>, t: Shape<K>)
      requires Sound() && i < Size(shape) && Ids(shape)[i] == node
      ensures At(node, c, t) && |KeysL(c)| + Size(t.left) == i
    {
      hide Focused, Rooted;
      c, t := Locate(shape, Hole, i);
      Unplug(root, c, t);
      InOrder(c, t);
    }

    /** What a step to the parent reads and where it leads. */
    lemma Rise(n: Node<K>, c: Around<K>, t: Shape<K>)
      requires At(n, c, t)
      ensures t.Br? && n.parent == Above(c, root)
      ensures c.Hole? ==> root.key == None && t == shape && KeysL(c) == []
      ensures c.Under? ==>
        && c.id.key != None && At(c.id, c.up, Fill(c, t))
        && (c.id.left == n <==> c.dir == L) && (c.id.right == n <==> c.dir == R)
        && var next := |KeysL(c)| + (if c.dir == L then Size(t) else -1);
           0 <= next < Size(shape) && Ids(shape)[next] == c.id
      ensures c.Under? && c.dir == L ==> KeysL(c.up) == KeysL(c)
      ensures c.Under? && c.dir == R ==> |KeysL(c.up)| + Size(Fill(c, t)) == |KeysL(c)| + Size(t)
    {
      if c.Under? {
        Lift(root, c, t);
        InOrder(c.up, Fill(c, t));
      }
    }

    method Next(node: Node<K>, ghost i: nat) returns (next: Node?<K>)
      requires Sound() && i < Size(shape) && Ids(shape)[i] == node
      ensures Sound() && next == if i + 1 < Size(shape) then Ids(shape)[i + 1] else null
    {
      hide At, Sound, GetRank, Size, KeysL, Ids;
      ghost var c, t := Stand(node, i);
      Look(node, c, t);
      if node.right != null {
        next := Leftmost(node.right, Push(R, t, c), t.right);
        return;
      }
      var n: Node<K>, child := node, node;
      Rise(n, c, t);
      while n.parent != null && n.parent.key != None
        invariant Sound() && At(n, c, t) && t.Br? && child == n && n.parent == Above(c, root)
        invariant c.Hole? ==> root.key == None
        invariant c.Under? ==> n.parent.key != None
        invariant |KeysL(c)| + Size(t) == i + 1
        decreases c
      {
        Rise(n, c, t);
        n := n.parent;
        if child == n.left {
          return n;
        }
        child := n;
        t, c := Fill(c, t), c.up;
        Rise(n, c, t);
      }
      Rise(n, c, t);
      return null;
    }

    method Prev(node: Node<K>, ghost i: nat) returns (prev: Node?<K>)
      requires Sound() && i < Size(shape) && Ids(shape)[i] == node
      ensures Sound() && prev == if i > 0 then Ids(shape)[i - 1] else null
    {
      hide At, Sound, GetRank, Size, KeysL, Ids;
      ghost var c, t := Stand(node, i);
      Look(node, c, t);
      if node.left != null {
        prev := Rightmost(node.left, Push(L, t, c), t.left);
        return;
      }
      var n: Node<K>, child := node, node;
      Rise(n, c, t);
      while n.parent != null && n.parent.key != None
        invariant Sound() && At(n, c, t) && t.Br? && child == n && n.parent == Above(c, root)
        invariant c.Hole? ==> root.key == None
        invariant c.Under? ==> n.parent.key != None
        invariant |KeysL(c)| == i
        decreases c
      {
        Rise(n, c, t);
        n := n.parent;
        if child == n.right {
          return n;
        }
        child := n;
        t, c := Fill(c, t), c.up;
        Rise(n, c, t);
      }
      Rise(n, c, t);
      return null;
    }

    // ------------------------------------------------------------------ ranges

    /** Calls `iterFun` on the keys of the positions below `high`, last one first, down to
        `low`, until a call asks to stop; `calls` records what was called. */
    method IterateIndexRange(iterFun: (int, K) -> int, low: nat, high: nat) returns (r: int, calls: seq<(int, K)>)
      requires Valid() && Fits()
      requires high <= |Contents()| ==> low <= high && 0 < high
      ensures high > |Contents()| ==> r == -1 && calls == []
      ensures high <= |Contents()| ==>
        && calls == Visits(iterFun, Contents()[low..high])
        && r == if Stops(iterFun, Contents()[low..high]) then -1 else 0
    {
      hide At, Sound, Ranked, Ids, Visits, Stops;
      Ordered();
      calls := [];
      if high > length {
        return -1, [];
      }
      var numLeft := high - low;
      var node: Node?<K> := SelectBelow(high);
      ghost var s := Keys(shape)[low..high];
      assert s[..numLeft] == s;
      while numLeft > 0
        invariant 0 <= numLeft <= high - low && Sound()
        invariant numLeft > 0 ==> node != null && node == Ids(shape)[low + numLeft - 1]
        invariant Visits(iterFun, s) == calls + Visits(iterFun, s[..numLeft])
        invariant Stops(iterFun, s) == Stops(iterFun, s[..numLeft])
      {
        numLeft := numLeft - 1;
        KeyOf(node, low + numLeft);
        VisitLast(iterFun, s, numLeft);
        calls := calls + [(numLeft, node.key.value)];
        if iterFun(numLeft, node.key.value) != 0 {
          return -1, calls;
        }
        node := Prev(node, low + numLeft);
      }
      VisitNone(iterFun, s[..0]);
      return 0, calls;
    }

    /** The node just below position `high`. */
    method SelectBelow(high: nat) returns (node: Node<K>)
      requires Valid() && Fits() && 0 < high <= Size(shape)
      ensures Valid() && node == Ids(shape)[high - 1]
    {
      hide At, Sound, Ranked, GetRank, Size, KeysL, Ids;
      var m := high;
      Start();
      ghost var c, t := Hole, shape;
      Reach(root.right, c, t);
      node := root.right;
      while true
        invariant Valid() && At(node, c, t)
        invariant m == high - |KeysL(c)| && 1 <= m <= Size(t)
        decreases t
      {
        Look(node, c, t);
        ExactRank(node, c, t);
        if m < GetRank(node.word) {
          node := node.left;
          c, t := Push(L, t, c), t.left;
        } else if m > GetRank(node.word) {
          m := m - GetRank(node.word);
          node := node.right;
          c, t := Push(R, t, c), t.right;
        } else {
          return;
        }
      }
    }

    /** The key stored in the node at position `i`. */
    lemma KeyOf(node: Node<K>, i: nat)
      requires Sound() && i < Size(shape) && Ids(shape)[i] == node
      ensures node.key == Some(Keys(shape)[i])
    {
      hide At, Sound;
      var c, t := Stand(node, i);
      Look(node, c, t);
    }

    // ------------------------------------------------------------------ ranks of keys

    /** The node of a key equal to `key` and its position; for an absent key the position
        before the one it would take, which wraps around below zero. In an empty tree the
        caller's index variable stays as it was. */
    method GetIndexByKey(key: K, was: int) returns (x: Node?<K>, index: int)
      requires Valid() && Fits()
      ensures Valid()
      ensures x == null <==> Absent(compare, Contents(), key)
      ensures x == null ==>
        index == if shape.Leaf? then was else (LowerBound(compare, Contents(), key) - 1) % 0x1_0000_0000_0000_0000
      ensures x != null ==>
        0 <= index < |Contents()| && compare(key, Contents()[index]) == 0 && Ids(shape)[index] == x
    {
      hide Searching, At, Sound, Ranked, Absent, Position, GetRank, LowerBound, Size, KeysL, Ids;
      StartSearch(key);
      x := root.right;
      if x == null {
        return null, was;
      }
      ghost var c, t := Hole, shape;
      FirstRank(x);
      var m := GetRank(x.word);
      while true
        invariant Valid() && x != null && Searching(key, x, c, t)
        invariant t.Br? && m == Position(c, t) + 1
        decreases t
      {
        Probe(key, x, c, t);
        RankSteps(key, x, c, t);
        var compared := compare(key, x.key.value);
        if compared < 0 {
          if x.left != null {
            m := m - GetRank(x.word);
            x := x.left;
            m := m + GetRank(x.word);
            c, t := Push(L, t, c), t.left;
          } else {
            FailLeft(key, x, c, t);
            return null, (m - 2) % LONGS;
          }
        } else if compared > 0 {
          if x.right != null {
            x := x.right;
            m := m + GetRank(x.word);
            c, t := Push(R, t, c), t.right;
          } else {
            FailRight(key, x, c, t);
            return null, (m - 1) % LONGS;
          }
        } else {
          index := m - 1;
          return;
        }
      }
    }

    lemma FirstRank(x: Node?<K>)
      requires Valid() && Fits() && x != null && x == root.right
      ensures shape.Br? && GetRank(x.word) == Position(Hole, shape) + 1
    {
      hide At, GetRank;
      Start();
      Reach(x, Hole, shape);
      ExactRank(x, Hole, shape);
    }

    /** How the running rank of the node in focus changes on a step. */
    lemma RankSteps(key: K, x: Node<K>, c: Around<K>, t: Shape<K>)
      requires Valid() && Fits() && Searching(key, x, c, t) && t.Br?
      ensures x.left != null ==>
        t.left.Br? && Position(Push(L, t, c), t.left) == Position(c, t) - GetRank(x.word) + GetRank(x.left.word)
      ensures x.right != null ==>
        t.right.Br? && Position(Push(R, t, c), t.right) == Position(c, t) + GetRank(x.right.word)
    {
      hide At, GetRank, Sound, Ranked, Narrowed, Rooted;
      Look(x, c, t);
      ExactRank(x, c, t);
      if x.left != null { ExactRank(x.left, Push(L, t, c), t.left); }
      if x.right != null { ExactRank(x.right, Push(R, t, c), t.right); }
    }

    lemma FailLeft(key: K, x: Node<K>, c: Around<K>, t: Shape<K>)
      requires Sound() && Searching(key, x, c, t) && t.Br? && x.left == null && compare(key, t.key) < 0
      ensures Absent(compare, Contents(), key) && LowerBound(compare, Contents(), key) == Position(c, t)
    {
      hide At, Sound, Narrowed, Absent, LowerBound;
      Probe(key, x, c, t);
      Fail(key, Push(L, t, c), t.left);
      Look(x, c, t);
      Reach(null, Push(L, t, c), t.left);
      MissBounds(compare, key, Keys(shape), Push(L, t, c));
    }

    lemma FailRight(key: K, x: Node<K>, c: Around<K>, t: Shape<K>)
      requires Sound() && Searching(key, x, c, t) && t.Br? && x.right == null && compare(key, t.key) > 0
      ensures Absent(compare, Contents(), key) && LowerBound(compare, Contents(), key) == Position(c, t) + 1
    {
      hide At, Sound, Narrowed, Absent, LowerBound;
      Probe(key, x, c, t);
      Fail(key, Push(R, t, c), t.right);
      Look(x, c, t);
      Reach(null, Push(R, t, c), t.right);
      MissBounds(compare, key, Keys(shape), Push(R, t, c));
    }

    /** Where the keys equal to `key` lie. */
    lemma EqualSpan(key: K, i: nat)
      requires Sound() && i < Size(shape)
      ensures compare(key, Keys(shape)[i]) == 0
        <==> LowerBound(compare, Contents(), key) <= i < UpperBound(compare, Contents(), key)
      ensures compare(key, Keys(shape)[i]) >= 0 <==> i < UpperBound(compare, Contents(), key)
    {
      hide Rooted, LowerBound, UpperBound, Sorted, TotalPreorder;
      Bounds(compare, Keys(shape), key);
    }

    /** From the node at position `m`, steps back over the keys equal to `key`. */
    method SpanLeft(key: K, node: Node<K>, m: nat) returns (i: nat)
      requires Sound() && m < |Contents()| && Ids(shape)[m] == node && compare(key, Contents()[m]) == 0
      ensures Sound() && i == LowerBound(compare, Contents(), key)
    {
      hide Sound, Ids, LowerBound, UpperBound, Keys, Size;
      EqualSpan(key, m);
      var left := Prev(node, m);
      i := m;
      if i > 0 { KeyOf(left, i - 1); EqualSpan(key, i - 1); }
      while left != null && i > 0 && compare(key, left.key.value) == 0
        invariant Sound() && i <= m && LowerBound(compare, Contents(), key) <= i < UpperBound(compare, Contents(), key)
        invariant left == if i > 0 then Ids(shape)[i - 1] else null
        invariant i > 0 ==> left.key == Some(Keys(shape)[i - 1])
        invariant i > 0 ==> (compare(key, Keys(shape)[i - 1]) == 0 <==> LowerBound(compare, Contents(), key) <= i - 1)
        decreases i
      {
        left := Prev(left, i - 1);
        i := i - 1;
        if i > 0 { KeyOf(left, i - 1); EqualSpan(key, i - 1); }
      }
    }

    /** From the node at position `m`, steps forward to the last key equal to `key`. */
    method SpanRight(key: K, node: Node<K>, m: nat) returns (j: nat)
      requires Sound() && Fits() && m < |Contents()| && Ids(shape)[m] == node && compare(key, Contents()[m]) == 0
      ensures Sound() && j == UpperBound(compare, Contents(), key) - 1
    {
      hide Sound, Ids, LowerBound, UpperBound, Keys, Size, TotalPreorder, Sorted;
      EqualSpan(key, m);
      Ordered();
      var right := Next(node, m);
      j := m;
      ghost var n := Size(shape);
      if j + 1 < n { KeyOf(right, j + 1); EqualSpan(key, j + 1); }
      while right != null && j <= length && compare(key, right.key.value) == 0
        invariant Sound() && j < n && j < UpperBound(compare, Contents(), key)
        invariant right == if j + 1 < n then Ids(shape)[j + 1] else null
        invariant j + 1 < n ==> right.key == Some(Keys(shape)[j + 1])
        invariant j + 1 < n ==>
          (compare(key, Keys(shape)[j + 1]) == 0 <==> j + 1 < UpperBound(compare, Contents(), key))
        decreases n - j
      {
        right := Next(right, j + 1);
        j := j + 1;
        if j + 1 < n { KeyOf(right, j + 1); EqualSpan(key, j + 1); }
      }
    }

    /** The half-open range of positions whose keys equal `key`; for an absent key both ends
        are the position before the one it would take. */
    method GetSpanByKey(key: K) returns (r: int, low: int, high: int)
      requires Valid() && Fits() && shape.Br?
      ensures r == 0
      ensures !Absent(compare, Contents(), key) ==>
        low == LowerBound(compare, Contents(), key) && high == UpperBound(compare, Contents(), key)
      ensures Absent(compare, Contents(), key) ==>
        low == high == (LowerBound(compare, Contents(), key) - 1) % 0x1_0000_0000_0000_0000
    {
      hide Sound, Ranked, Absent, LowerBound, UpperBound, Ids;
      var node, m := GetIndexByKey(key, 0);
      if node != null {
        low := SpanLeft(key, node, m);
        high := SpanRight(key, node, m);
        high := high + 1;
        return 0, low, high;
      }
      return 0, m, m;
    }

    /** `low` is where the smaller key's span begins; `high` is where the larger key would go,
        or the last position equal to it. */
    method GetSpanByTwoKeys(lowKey: K, highKey: K) returns (r: int, low: int, high: int)
      requires Valid() && Fits() && shape.Br?
      ensures r == 0
      ensures var (a, b) := if compare(lowKey, highKey) > 0 then (highKey, lowKey) else (lowKey, highKey);
        && low == LowerBound(compare, Contents(), a)
        && high == if Absent(compare, Contents(), b) then LowerBound(compare, Contents(), b)
                   else UpperBound(compare, Contents(), b) - 1
    {
      hide Sound, Ranked, Absent, LowerBound, UpperBound, Ids, Keys, Size, Height;
      var a, b := lowKey, highKey;
      if compare(lowKey, highKey) > 0 {
        a, b := highKey, lowKey;
      }
      var lowNode, highNode, i, j;
      lowNode, i := GetIndexByKey(a, 0);
      highNode, j := GetIndexByKey(b, 0);
      if lowNode != null {
        i := SpanLeft(a, lowNode, i);
      } else {
        i := (i + 1) % LONGS;
      }
      if highNode != null {
        j := SpanRight(b, highNode, j);
      } else {
        j := (j + 1) % LONGS;
      }
      return 0, i, j;
    }

    // ------------------------------------------------------------------ nearest keys

    /** A greatest key that is not greater than `key`. */
    method GetItemByKeyMost(key: K) returns (r: int, value: Option<K>, ghost at: nat)
      requires Sound()
      ensures r == (if AllAbove(compare, Contents(), key) then -1 else 0)
      ensures r == 0 ==>
        at < |Contents()| && value == Some(Contents()[at]) && GreatestAtMost(compare, Contents(), key, at)
    {
      hide Searching, At, Sound, Absent, Position, KeysL, Keys, AllAbove, GreatestAtMost;
      StartSearch(key);
      NothingSaved(key);
      var x := root.right;
      value, at := None, 0;
      if x == null {
        return -1, None, 0;
      }
      ghost var c, t := Hole, shape;
      while true
        invariant Sound() && x != null && Searching(key, x, c, t)
        invariant value == LastOf(KeysL(c))
        decreases t
      {
        Probe(key, x, c, t);
        Saved(key, x, c, t);
        var compared := compare(key, x.key.value);
        if compared == 0 {
          HitNearest(key, x, c, t);
          return 0, x.key, Position(c, t);
        } else if compared < 0 {
          c, t := Push(L, t, c), t.left;
          if x.left != null {
            x := x.left;
          } else {
            at := MissMost(key, c, t);
            return if value != None then 0 else -1, value, at;
          }
        } else {
          value := x.key;
          c, t := Push(R, t, c), t.right;
          if x.right != null {
            x := x.right;
          } else {
            at := MissMost(key, c, t);
            return if value != None then 0 else -1, value, at;
          }
        }
      }
    }

    /** A smallest key that is not less than `key`. */
    method GetItemByKeyLeast(key: K) returns (r: int, value: Option<K>, ghost at: nat)
      requires Sound()
      ensures r == (if AllBelow(compare, Contents(), key) then -1 else 0)
      ensures r == 0 ==>
        at < |Contents()| && value == Some(Contents()[at]) && LeastAtLeast(compare, Contents(), key, at)
    {
      hide Searching, At, Sound, Absent, Position, KeysR, Keys, AllBelow, LeastAtLeast;
      StartSearch(key);
      NothingSaved(key);
      var x := root.right;
      value, at := None, 0;
      if x == null {
        return -1, None, 0;
      }
      ghost var c, t := Hole, shape;
      while true
        invariant Sound() && x != null && Searching(key, x, c, t)
        invariant value == FirstOf(KeysR(c))
        decreases t
      {
        Probe(key, x, c, t);
        Saved(key, x, c, t);
        var compared := compare(key, x.key.value);
        if compared == 0 {
          HitNearest(key, x, c, t);
          return 0, x.key, Position(c, t);
        } else if compared < 0 {
          value := x.key;
          c, t := Push(L, t, c), t.left;
          if x.left != null {
            x := x.left;
          } else {
            at := MissLeast(key, c, t);
            return if value != None then 0 else -1, value, at;
          }
        } else {
          c, t := Push(R, t, c), t.right;
          if x.right != null {
            x := x.right;
          } else {
            at := MissLeast(key, c, t);
            return if value != None then 0 else -1, value, at;
          }
        }
      }
    }

    lemma NothingSaved(key: K)
      ensures LastOf(KeysL<Node<K>, K>(Hole)) == None && FirstOf(KeysR<Node<K>, K>(Hole)) == None
      ensures shape.Leaf? ==> AllAbove(compare, Contents(), key) && AllBelow(compare, Contents(), key)
    {
    }

    /** The saved candidate is the key next to the hole. */
    lemma Saved(key: K, x: Node<K>, c: Around<K>, t: Shape<K>)
      requires Sound() && Searching(key, x, c, t) && t.Br?
      ensures KeysL(Push(L, t, c)) == KeysL(c) && LastOf(KeysL(Push(R, t, c))) == Some(t.key)
      ensures KeysR(Push(R, t, c)) == KeysR(c) && FirstOf(KeysR(Push(L, t, c))) == Some(t.key)
    {
    }

    lemma HitNearest(key: K, x: Node<K>, c: Around<K>, t: Shape<K>)
      requires Sound() && Searching(key, x, c, t) && t.Br? && compare(key, t.key) == 0
      ensures Position(c, t) < |Contents()| && Contents()[Position(c, t)] == t.key
      ensures GreatestAtMost(compare, Contents(), key, Position(c, t)) && !AllAbove(compare, Contents(), key)
      ensures LeastAtLeast(compare, Contents(), key, Position(c, t)) && !AllBelow(compare, Contents(), key)
    {
      hide Searching, Rooted, Sorted;
      Probe(key, x, c, t);
    }

    lemma MissMost(key: K, c: Around<K>, t: Shape<K>) returns (at: nat)
      requires Sound() && Searching(key, null, c, t)
      ensures LastOf(KeysL(c)) == None <==> AllAbove(compare, Contents(), key)
      ensures LastOf(KeysL(c)) != None ==>
        at < |Contents()| && LastOf(KeysL(c)) == Some(Contents()[at]) && GreatestAtMost(compare, Contents(), key, at)
    {
      hide At, Rooted, Narrowed, Balanced, AllAbove, GreatestAtMost, KeysL, KeysR;
      Reach(null, c, t);
      MissParts(compare, key, Keys(shape), c);
      NearestParts(compare, KeysL(c), KeysR(c), key);
      at := if |KeysL(c)| == 0 then 0 else |KeysL(c)| - 1;
    }

    lemma MissLeast(key: K, c: Around<K>, t: Shape<K>) returns (at: nat)
      requires Sound() && Searching(key, null, c, t)
      ensures FirstOf(KeysR(c)) == None <==> AllBelow(compare, Contents(), key)
      ensures FirstOf(KeysR(c)) != None ==>
        at < |Contents()| && FirstOf(KeysR(c)) == Some(Contents()[at]) && LeastAtLeast(compare, Contents(), key, at)
    {
      hide At, Rooted, Narrowed, Balanced, AllBelow, LeastAtLeast, KeysL, KeysR;
      Reach(null, c, t);
      MissParts(compare, key, Keys(shape), c);
      NearestParts(compare, KeysL(c), KeysR(c), key);
      at := |KeysL(c)|;
    }
  }
}
