/** Laws about whole trees and runs that follow from the invariant. */
module AvlLaws {
  import opened SortedSeq
  import opened RankedTree
  import opened KeySearch
  import opened DeletePath
  import opened AvlNode
  import opened AvlFocus
  import opened AvlTree

  // ---------------------------------------------------------------- the height bound

  function Fib(n: nat): nat {
    if n < 2 then n else Fib(n - 1) + Fib(n - 2)
  }

  lemma {:induction false} FibGrows(m: nat, n: nat)
    requires m <= n
    ensures Fib(m) <= Fib(n)
    decreases n
  {
    if m == n {
    } else {
      FibGrows(m, n - 1);
      if n >= 2 { assert Fib(n) >= Fib(n - 1); }
    }
  }

  lemma FibStep(n: nat)
    ensures Fib(n + 2) == Fib(n + 1) + Fib(n)
  {
  }

  /** A balanced tree of height h has at least Fib(h + 2) - 1 nodes. */
  lemma {:induction false} FewestNodes<N, K>(t: Tree<N, K>)
    requires Balanced(t)
    ensures Fib(Height(t) + 2) <= Size(t) + 1
  {
    if t.Leaf? {
      assert Fib(2) == 1;
    } else {
      hide Fib;
      FewestNodes(t.left);
      FewestNodes(t.right);
      var h := Height(t);
      FibStep(h);
      FibGrows(h, Height(t.left) + 2);
      FibGrows(h, Height(t.right) + 2);
    }
  }

  /** Five places on from two neighbours. */
  lemma FibJump(k: nat, a: nat, b: nat)
    requires Fib(k) == a && Fib(k + 1) == b
    ensures Fib(k + 5) == 3 * a + 5 * b && Fib(k + 6) == 5 * a + 8 * b
  {
    hide Fib;
    FibStep(k);
    FibStep(k + 1);
    FibStep(k + 2);
    FibStep(k + 3);
    FibStep(k + 4);
  }

  lemma Fib45()
    ensures Fib(45) == 1134903170
  {
    FibJump(0, 0, 1);
    hide Fib;
    FibJump(5, 5, 8);
    FibJump(10, 55, 89);
    FibJump(15, 610, 987);
    FibJump(20, 6765, 10946);
    FibJump(25, 75025, 121393);
    FibJump(30, 832040, 1346269);
    FibJump(35, 9227465, 14930352);
    FibJump(40, 102334155, 165580141);
  }

  /** Fewer than 2^30 nodes, as many as the 30 bits of a rank can count, are at most 42 high. */
  lemma HeightLimit<N, K>(t: Tree<N, K>)
    requires Balanced(t) && Size(t) < 0x4000_0000
    ensures Height(t) <= 42
  {
    hide Fib, Height, Balanced, Size;
    FewestNodes(t);
    Fib45();
    if Height(t) > 42 { FibGrows(45, Height(t) + 2); }
  }

  // ------------------------------------------------------------------ insert-only runs

  /** The keys inserted one after the other into a sequence. */
  function InsertAll<K>(cmp: (K, K) -> int, keys: seq<K>): seq<K> {
    if keys == [] then []
    else
      var s, key := InsertAll(cmp, keys[..|keys| - 1]), keys[|keys| - 1];
      InsertAt(s, LowerBound(cmp, s, key), key)
  }

  /** Inserting sorts: nothing is lost or invented, and the result is in order. */
  lemma {:induction false} InsertAllSorts<K(!new)>(cmp: (K, K) -> int, keys: seq<K>)
    requires TotalPreorder(cmp)
    ensures Sorted(cmp, InsertAll(cmp, keys)) && multiset(InsertAll(cmp, keys)) == multiset(keys)
  {
    hide TotalPreorder, LowerBound, AllBelow, NoneBelow, Sorted, InsertAt;
    if keys == [] {
      EmptySorted(cmp);
    } else {
      var s, key := InsertAll(cmp, keys[..|keys| - 1]), keys[|keys| - 1];
      InsertAllSorts(cmp, keys[..|keys| - 1]);
      var n := LowerBound(cmp, s, key);
      BoundParts(cmp, s, key);
      assert s == s[..n] + s[n..];
      InsertSorted(cmp, s[..n], s[n..], key);
      InsertAdds(s, n, key);
      assert keys == keys[..|keys| - 1] + [key];
    }
  }

  lemma InsertAdds<K>(s: seq<K>, n: nat, key: K)
    requires n <= |s|
    ensures multiset(InsertAt(s, n, key)) == multiset(s) + multiset{key}
  {
    assert s == s[..n] + s[n..];
  }

  lemma EmptySorted<K(!new)>(cmp: (K, K) -> int)
    ensures Sorted(cmp, [])
  {
  }

  lemma BoundParts<K(!new)>(cmp: (K, K) -> int, s: seq<K>, key: K)
    requires TotalPreorder(cmp) && Sorted(cmp, s)
    ensures var n := LowerBound(cmp, s, key); AllBelow(cmp, s[..n], key) && NoneBelow(cmp, s[n..], key)
  {
    hide TotalPreorder, Sorted, LowerBound;
    Bounds(cmp, s, key);
  }

  /** A tree grown by insertions alone: its stored height is one less than its true height. */
  method InsertRun<K(!new)>(cmp: (K, K) -> int, keys: seq<K>) returns (tree: Avl<K>)
    requires TotalPreorder(cmp)
    ensures fresh(tree) && tree.Valid() && tree.Contents() == InsertAll(cmp, keys)
    ensures keys != [] ==> tree.height == (Height(tree.shape) - 1) % 0x1_0000_0000
    ensures keys == [] ==> tree.height == 0 && tree.shape == Leaf
  {
    hide TotalPreorder, Sorted, Balanced, LowerBound, InsertAt, Rooted, Ranked, Height, Keys, InsertAll;
    tree := new Avl(cmp);
    InsertAllNone(cmp);
    EmptyTree(tree.shape);
    for i := 0 to |keys|
      invariant fresh(tree) && fresh(tree.root) && forall n <- Nodes(tree.shape) :: fresh(n)
      invariant tree.Valid() && tree.compare == cmp
      invariant tree.Contents() == InsertAll(cmp, keys[..i])
      invariant i == 0 <==> tree.shape == Leaf
      invariant tree.height == Meant(Height(tree.shape)) % WORDS && (i == 0 ==> tree.height == 0)
    {
      InsertAllOne(cmp, keys, i);
      ghost var m := Meant(Height(tree.shape));
      HeightZero(tree.shape);
      ModStep(m, 0, 0);
      ModStep(m, 0, 1);
      var _ := tree.Insert(keys[i]);
      HeightZero(tree.shape);
    }
    assert keys[..|keys|] == keys;
    HeightZero(tree.shape);
  }

  lemma InsertAllNone<K>(cmp: (K, K) -> int)
    ensures InsertAll(cmp, []) == []
  {
  }

  lemma InsertAllOne<K>(cmp: (K, K) -> int, keys: seq<K>, i: nat)
    requires i < |keys|
    ensures var s := InsertAll(cmp, keys[..i]);
      InsertAll(cmp, keys[..i + 1]) == InsertAt(s, LowerBound(cmp, s, keys[i]), keys[i])
  {
    assert keys[..i + 1][..i] == keys[..i];
  }

  lemma EmptyTree<K>(t: Shape<K>)
    ensures t.Leaf? ==> Keys(t) == [] && Height(t) == 0
  {
  }

  // ------------------------------------------------------------------ any runs

  datatype TreeOp<K> = Put(key: K) | Drop(key: K)

  /** What one operation may do to the sequence of keys. */
  ghost predicate Step<K(!new)>(cmp: (K, K) -> int, s: seq<K>, op: TreeOp<K>, s': seq<K>) {
    match op
    case Put(key) => s' == InsertAt(s, LowerBound(cmp, s, key), key)
    case Drop(key) =>
      if Absent(cmp, s, key) then s' == s
      else exists at :: 0 <= at < |s| && cmp(key, s[at]) == 0 && s' == RemoveAt(s, at)
  }

  /** The shapes a tree goes through in a run. */
  ghost predicate Steps<K(!new)>(cmp: (K, K) -> int, shapes: seq<Shape<K>>, ops: seq<TreeOp<K>>) {
    && |shapes| == |ops| + 1 && shapes[0] == Leaf
    && forall i, j :: 0 <= i < |ops| && j == i + 1 ==> Step(cmp, Keys(shapes[i]), ops[i], Keys(shapes[j]))
  }

  /** The operation deletes a key that is not there. */
  ghost predicate Misses<K(!new)>(cmp: (K, K) -> int, s: seq<K>, op: TreeOp<K>) {
    op.Drop? && Absent(cmp, s, op.key)
  }

  lemma StepsMore<K(!new)>(cmp: (K, K) -> int, shapes: seq<Shape<K>>, ops: seq<TreeOp<K>>, op: TreeOp<K>, t: Shape<K>)
    requires Steps(cmp, shapes, ops) && Step(cmp, Keys(shapes[|ops|]), op, Keys(t))
    ensures Steps(cmp, shapes + [t], ops + [op])
  {
    hide Step, Keys;
  }

  lemma StepsNone<K(!new)>(cmp: (K, K) -> int)
    ensures Steps<K>(cmp, [Leaf], []) && Lowerings<K>([Leaf]) == 0
  {
  }

  /** What the stored height is meant to be: one less than the true one, and 0 for none. */
  function Meant(h: nat): nat { if h == 0 then 0 else h - 1 }

  /** One step of a run made a tree of at least two levels lower. */
  ghost predicate Lowers<K>(t: Shape<K>, u: Shape<K>) {
    Height(t) >= 2 && Height(u) < Height(t)
  }

  /** How often that happened. */
  ghost function Lowerings<K>(shapes: seq<Shape<K>>): nat {
    if |shapes| < 2 then 0
    else
      var n := |shapes| - 1;
      Lowerings(shapes[..n]) + if Lowers(shapes[n - 1], shapes[n]) then 1 else 0
  }

  lemma LoweringsMore<K>(shapes: seq<Shape<K>>, t: Shape<K>)
    requires shapes != []
    ensures Lowerings(shapes + [t]) == Lowerings(shapes) + if Lowers(shapes[|shapes| - 1], t) then 1 else 0
  {
    hide Lowers;
    assert (shapes + [t])[..|shapes|] == shapes;
  }

  lemma {:induction false} LoweringsNone<K>(shapes: seq<Shape<K>>)
    requires shapes != []
    ensures Lowerings(shapes) < |shapes|
    ensures Lowerings(shapes) == 0
      <==> forall i, j :: 0 <= i < |shapes| - 1 && j == i + 1 ==> !Lowers(shapes[i], shapes[j])
  {
    hide Lowers;
    if |shapes| < 2 {
    } else {
      var n := |shapes| - 1;
      var front := shapes[..n];
      LoweringsNone(front);
      assert forall i :: 0 <= i < n ==> front[i] == shapes[i];
      assert Lowers(shapes[n - 1], shapes[n]) ==>
        exists i, j :: 0 <= i < n && j == i + 1 && Lowers(shapes[i], shapes[j]);
    }
  }

  lemma HeightZero<K>(t: Shape<K>)
    ensures Height(t) == 0 <==> t.Leaf?
  {
  }

  lemma ModStep(m: nat, k: nat, i: nat)
    ensures ((m + k) % WORDS + i) % WORDS == (m + k + i) % WORDS
  {
  }

  /** One operation; `extra` is by how much the stored height exceeds what it is meant to be. */
  method Apply<K(!new)>(tree: Avl<K>, op: TreeOp<K>, ghost extra: nat)
    requires tree.Sound() && tree.height == (Meant(Height(tree.shape)) + extra) % WORDS
    modifies tree, tree.root, Nodes(tree.shape)
    ensures tree.Sound() && Step(tree.compare, old(tree.Contents()), op, tree.Contents())
    ensures !Misses(tree.compare, old(tree.Contents()), op) && old(tree.Valid()) ==> tree.Valid()
    ensures forall n <- Nodes(tree.shape) :: n in old(Nodes(tree.shape)) || fresh(n)
    ensures var more := if Lowers(old(tree.shape), tree.shape) then 1 else 0;
      tree.height == (Meant(Height(tree.shape)) + extra + more) % WORDS
  {
    hide TotalPreorder, Sorted, Balanced, LowerBound, InsertAt, RemoveAt, Rooted, Absent, Missed, EndsRight,
      Keys, Nodes, Ranked, Height;
    ghost var t := tree.shape;
    HeightZero(t);
    if op.Put? {
      ModStep(Meant(Height(t)), extra, 1);
      ModStep(Meant(Height(t)), extra, 0);
      var _ := tree.Insert(op.key);
    } else {
      var r, _, at, lower := tree.Delete(op.key);
      if r == -1 { MissedRanks(tree.compare, op.key, old(tree.shape)); }
    }
  }

  /** Any run of insertions and deletions, of keys present or absent: the links and balances of
      the tree stay sound, its keys go through the states of a sorted sequence, its ranks stay
      true as long as no deletion misses, and its stored height is what it is meant to be plus
      one for every deletion that lowered a tree of at least two levels. */
  method TreeRun<K(!new)>(cmp: (K, K) -> int, ops: seq<TreeOp<K>>) returns (tree: Avl<K>, ghost shapes: seq<Shape<K>>)
    requires TotalPreorder(cmp)
    ensures tree.Sound() && Steps(cmp, shapes, ops) && tree.shape == shapes[|ops|]
    ensures (forall i :: 0 <= i < |ops| ==> !Misses(cmp, Keys(shapes[i]), ops[i])) ==> tree.Valid()
    ensures Size(tree.shape) < 0x4000_0000 ==> Height(tree.shape) <= 42
    ensures tree.height == (Meant(Height(tree.shape)) + Lowerings(shapes)) % 0x1_0000_0000
  {
    hide TotalPreorder, Sorted, Balanced, Rooted, Step, Misses, Steps, Height, Ranked, Lowers, Lowerings, Keys;
    tree := new Avl(cmp);
    shapes := [tree.shape];
    StepsNone(cmp);
    HeightZero(tree.shape);
    assert ops[..0] == [];
    for i := 0 to |ops|
      invariant fresh(tree) && fresh(tree.root) && forall n <- Nodes(tree.shape) :: fresh(n)
      invariant tree.Sound() && tree.compare == cmp
      invariant |shapes| == i + 1 && Steps(cmp, shapes, ops[..i]) && tree.shape == shapes[i]
      invariant (forall j :: 0 <= j < i ==> !Misses(cmp, Keys(shapes[j]), ops[j])) ==> tree.Valid()
      invariant tree.height == (Meant(Height(tree.shape)) + Lowerings(shapes)) % WORDS
    {
      ghost var before := shapes;
      Apply(tree, ops[i], Lowerings(shapes));
      StepsMore(cmp, shapes, ops[..i], ops[i], tree.shape);
      LoweringsMore(shapes, tree.shape);
      assert ops[..i + 1] == ops[..i] + [ops[i]];
      shapes := shapes + [tree.shape];
      assert forall j :: 0 <= j <= i ==> shapes[j] == before[j];
    }
    assert ops[..|ops|] == ops;
    if Size(tree.shape) < 0x4000_0000 { HeightLimit(tree.shape); }
  }

  /** After fewer than 2^32 operations the stored height is as meant if and only if no step
      ever lowered a tree of at least two levels. */
  lemma HeightRight<K>(shapes: seq<Shape<K>>, height: int)
    requires 0 < |shapes| <= 0x1_0000_0000
    requires height == (Meant(Height(shapes[|shapes| - 1])) + Lowerings(shapes)) % 0x1_0000_0000
    ensures height == Meant(Height(shapes[|shapes| - 1])) % 0x1_0000_0000
      <==> forall i, j :: 0 <= i < |shapes| - 1 && j == i + 1 ==> !Lowers(shapes[i], shapes[j])
  {
    hide Lowers, Lowerings, Height;
    LoweringsNone(shapes);
    ModShift(Meant(Height(shapes[|shapes| - 1])), Lowerings(shapes));
  }

  lemma ModShift(m: nat, k: nat)
    requires k < WORDS
    ensures (m + k) % WORDS == m % WORDS <==> k == 0
  {
  }

  /** Inserting 1 and 2 and deleting 2 leaves one node under a stored height of 1. */
  method StaleHeight() returns (tree: Avl<int>)
    ensures tree.Sound() && tree.Contents() == [1] && Height(tree.shape) == 1 && tree.height == 1
    ensures tree.height != Meant(Height(tree.shape))
  {
    hide Steps, Misses, Lowerings, CompareInts, TotalPreorder, Sorted, Balanced, Rooted;
    IntsAreOrdered();
    ghost var shapes;
    tree, shapes := TreeRun(CompareInts, [Put(1), Put(2), Drop(2)]);
    StaleRun(shapes);
  }

  lemma StaleRun(shapes: seq<Shape<int>>)
    requires Steps(CompareInts, shapes, [Put(1), Put(2), Drop(2)])
    ensures Keys(shapes[3]) == [1] && Height(shapes[3]) == 1 && Lowerings(shapes) == 1
  {
    hide Height, Keys, Lowerings, Absent;
    var ops := [Put(1), Put(2), Drop(2)];
    assert shapes[0] == Leaf && Keys(shapes[0]) == [] by { HeightZero(shapes[0]); }
    assert Step(CompareInts, Keys(shapes[0]), ops[0], Keys(shapes[1]));
    assert Step(CompareInts, Keys(shapes[1]), ops[1], Keys(shapes[2]));
    assert Step(CompareInts, Keys(shapes[2]), ops[2], Keys(shapes[3]));
    InsertTwo();
    assert Keys(shapes[1]) == [1] && Keys(shapes[2]) == [1, 2];
    DropTwo(Keys(shapes[3]));
    OneLevel(shapes[1]);
    TwoLevels(shapes[2]);
    OneLevel(shapes[3]);
    HeightZero(shapes[0]);
    LoweringsOfFour(shapes);
  }

  lemma LoweringsOfFour<K>(shapes: seq<Shape<K>>)
    requires |shapes| == 4
    ensures !Lowers(shapes[0], shapes[1]) && !Lowers(shapes[1], shapes[2]) && Lowers(shapes[2], shapes[3])
      ==> Lowerings(shapes) == 1
  {
    hide Lowers;
    var three, two := shapes[..3], shapes[..2];
    assert three[..2] == two && |two[..1]| == 1;
    assert Lowerings(two[..1]) == 0;
    assert Lowerings(two) == Lowerings(two[..1]) + if Lowers(two[0], two[1]) then 1 else 0;
    assert Lowerings(three) == Lowerings(two) + if Lowers(three[1], three[2]) then 1 else 0;
  }

  lemma InsertTwo()
    ensures InsertAt([], LowerBound(CompareInts, [], 1), 1) == [1]
    ensures InsertAt([1], LowerBound(CompareInts, [1], 2), 2) == [1, 2]
  {
    assert LowerBound(CompareInts, [1], 2) == 1 + LowerBound(CompareInts, [], 2);
  }

  lemma DropTwo(s: seq<int>)
    requires Step(CompareInts, [1, 2], Drop(2), s)
    ensures s == [1]
  {
    assert CompareInts(2, [1, 2][1]) == 0;
    assert RemoveAt([1, 2], 1) == [1];
  }

  lemma IntsAreOrdered()
    ensures TotalPreorder(CompareInts)
  {
  }

  lemma OneLevel<N, K>(t: Tree<N, K>)
    requires Size(t) == 1
    ensures Height(t) == 1
  {
    assert t.Br? && t.left.Leaf? && t.right.Leaf?;
  }

  lemma TwoLevels<N, K>(t: Tree<N, K>)
    requires Size(t) == 2
    ensures Height(t) == 2
  {
    if t.left.Br? { OneLevel(t.left); } else { OneLevel(t.right); }
  }

  // --------------------------------------------------------------- the packed word

  /** The accessor macros, written with masks and shifts, are the arithmetic of the model. */
  lemma WordBits(w: bv32, r: bv32, b: bv32)
    requires b < 3
    ensures w & 3 == w % 4
    ensures w >> 2 == w / 4
    ensures (w & 0xFFFF_FFFC) | b == w - w % 4 + b
    ensures (w & 3) | (r << 2) == w % 4 + r * 4
  {
  }

  // -------------------------------------------------- the undo that goes one too far

  function CompareInts(a: int, b: int): int { if a > b then 1 else if b > a then -1 else 0 }

  /** A node without children, whose key is less than `key`, is where the search for `key`
      ends by going right. */
  lemma LoneMiss<N, K(!new)>(cmp: (K, K) -> int, key: K, t: Tree<N, K>)
    requires t.Br? && t.left.Leaf? && t.right.Leaf? && cmp(key, t.key) > 0
    ensures Missed(cmp, key, t) == t.(rank := t.rank + 1)
    ensures Absent(cmp, Keys(t), key)
    ensures (Ranked(t) <==> t.rank == 1) && (Balanced(t) <==> t.bal == 0)
  {
  }

  /** Deleting the absent key 7 from a tree that holds only 5 leaves the rank 2 where 1 is true. */
  lemma MissSpoilsRank()
    ensures var t := Br(0, 5, 1, 0, Leaf, Leaf);
      && Ranked(t) && Balanced(t) && Absent(CompareInts, Keys(t), 7)
      && Missed(CompareInts, 7, t) == t.(rank := 2) && !Ranked(Missed(CompareInts, 7, t))
  {
    hide Ranked, Balanced, Absent, Missed, Keys;
    LoneMiss(CompareInts, 7, Br(0, 5, 1, 0, Leaf, Leaf));
    LoneMiss(CompareInts, 7, Br(0, 5, 2, 0, Leaf, Leaf));
  }

  // ------------------------------------------------------------- spans of two keys

  /** The end of a two-key span, as the code computes it. */
  ghost function SpanEnd<K(!new)>(cmp: (K, K) -> int, s: seq<K>, key: K): int {
    if Absent(cmp, s, key) then LowerBound(cmp, s, key) else UpperBound(cmp, s, key) - 1
  }

  /** Position `i` holds a key from `a` on and before `b`. */
  ghost predicate Between<K(!new)>(cmp: (K, K) -> int, s: seq<K>, a: K, b: K, i: nat)
    requires i < |s|
  {
    cmp(a, s[i]) <= 0 && cmp(b, s[i]) > 0
  }

  lemma NoneEqual<K(!new)>(cmp: (K, K) -> int, s: seq<K>, key: K)
    requires TotalPreorder(cmp) && Sorted(cmp, s)
    ensures Absent(cmp, s, key) <==> LowerBound(cmp, s, key) == UpperBound(cmp, s, key)
  {
    Bounds(cmp, s, key);
    var l := LowerBound(cmp, s, key);
    if l < UpperBound(cmp, s, key) { assert cmp(key, s[l]) == 0; }
  }

  /** The range of a two-key span is exactly the keys from the smaller up to but not
      including the larger if and only if the larger occurs at most once. */
  lemma SpanIsBetween<K(!new)>(cmp: (K, K) -> int, s: seq<K>, a: K, b: K)
    requires TotalPreorder(cmp) && Sorted(cmp, s) && cmp(a, b) <= 0
    ensures (forall i :: 0 <= i < |s| ==>
        (LowerBound(cmp, s, a) <= i < SpanEnd(cmp, s, b) <==> Between(cmp, s, a, b, i)))
      <==> UpperBound(cmp, s, b) <= LowerBound(cmp, s, b) + 1
  {
    Bounds(cmp, s, a);
    Bounds(cmp, s, b);
    NoneEqual(cmp, s, b);
    var l := LowerBound(cmp, s, b);
    if l + 1 < UpperBound(cmp, s, b) {
      assert cmp(b, s[l]) == 0 && cmp(a, s[l]) <= 0;
      assert !Between(cmp, s, a, b, l);
    }
  }

  /** In 5, 5 the span from 5 to 5 is position 0, which does not hold a key below 5. */
  lemma FivesSpan()
    ensures LowerBound(CompareInts, [5, 5], 5) == 0 < SpanEnd(CompareInts, [5, 5], 5)
    ensures !Between(CompareInts, [5, 5], 5, 5, 0)
  {
    IntsAreOrdered();
    assert CompareInts(5, [5, 5][0]) == 0 && CompareInts(5, [5, 5][1]) == 0;
    Bounds(CompareInts, [5, 5], 5);
  }
}
