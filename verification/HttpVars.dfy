/** Variable tables: an ordered tree of names, each with a growing array of values. */
module HttpVars {
  import opened Options
  import opened Bytes
  import opened SortedSeq
  import opened RankedTree
  import opened DeletePath
  import opened AvlNode
  import opened AvlFocus
  import opened AvlTree

  // ------------------------------------------------------------------- names

  /** The sign of `strcmp`: the end of a string compares below every byte. */
  function Strcmp(a: bytes, b: bytes): int {
    if a == [] then (if b == [] then 0 else -1)
    else if b == [] then 1
    else if a[0] != b[0] then a[0] - b[0]
    else Strcmp(a[1..], b[1..])
  }

  lemma {:induction false} StrcmpFlips(a: bytes, b: bytes)
    ensures Strcmp(a, b) < 0 <==> Strcmp(b, a) > 0
    ensures Strcmp(a, b) == 0 <==> a == b
  {
    if a == [] || b == [] {
    } else {
      StrcmpFlips(a[1..], b[1..]);
      assert a == [a[0]] + a[1..] && b == [b[0]] + b[1..];
    }
  }

  /** A name comes before another if its byte is less where they first differ, or if the other goes
      on where it ends. */
  lemma {:induction false} StrcmpDiffers(a: bytes, b: bytes)
    ensures Strcmp(a, b) < 0 <==>
      || (|a| < |b| && a == b[..|a|])
      || exists i :: 0 <= i < |a| && i < |b| && a[..i] == b[..i] && a[i] < b[i]
  {
    if a == [] || b == [] {
    } else if a[0] != b[0] {
      assert a[..0] == b[..0];
      forall i | 0 < i <= |a| && i <= |b| ensures a[..i] != b[..i] {
        assert a[..i][0] != b[..i][0];
      }
    } else {
      var s, t := a[1..], b[1..];
      StrcmpDiffers(s, t);
      assert a == [a[0]] + s && b == [b[0]] + t;
      if |a| <= |b| { assert b[..|a|] == [a[0]] + t[..|s|]; }
      forall i | 0 < i <= |a| && i <= |b| ensures a[..i] == b[..i] <==> s[..i - 1] == t[..i - 1] {
        assert a[..i] == [a[0]] + s[..i - 1] && b[..i] == [a[0]] + t[..i - 1];
        assert a[..i][1..] == s[..i - 1] && b[..i][1..] == t[..i - 1];
      }
      if i :| 0 <= i < |s| && i < |t| && s[..i] == t[..i] && s[i] < t[i] {
        assert a[..i + 1] == b[..i + 1] && a[i + 1] < b[i + 1];
      }
      if i :| 0 <= i < |a| && i < |b| && a[..i] == b[..i] && a[i] < b[i] {
        assert i > 0 && s[..i - 1] == t[..i - 1] && s[i - 1] < t[i - 1];
      }
    }
  }

  lemma {:induction false} StrcmpChains(a: bytes, b: bytes, c: bytes)
    requires Strcmp(a, b) <= 0 && Strcmp(b, c) <= 0
    ensures Strcmp(a, c) <= 0
  {
    if a == [] || b == [] || c == [] || !(a[0] == b[0] == c[0]) {
    } else {
      StrcmpChains(a[1..], b[1..], c[1..]);
    }
  }

  /** What the tree holds for a variable: its name, which never changes while it is there,
      and the address of its record, where its values are. */
  datatype Var = Var(name: bytes, addr: nat)

  function CompareVars(a: Var, b: Var): int { Strcmp(a.name, b.name) }

  /** The comparison function is one the tree accepts. */
  lemma NamesAreOrdered()
    ensures TotalPreorder(CompareVars)
  {
    hide Strcmp;
    forall a: Var, b: Var ensures CompareVars(a, b) < 0 <==> CompareVars(b, a) > 0 {
      StrcmpFlips(a.name, b.name);
    }
    forall a: Var, b: Var, c: Var | CompareVars(a, b) <= 0 && CompareVars(b, c) <= 0 ensures CompareVars(a, c) <= 0 {
      StrcmpChains(a.name, b.name, c.name);
    }
  }

  // ------------------------------------------------------------ what a table means

  type Dict = map<bytes, seq<bytes>>

  /** Strictly ascending names: no name occurs twice. */
  ghost predicate Ascending(names: seq<bytes>) {
    forall i, j :: 0 <= i < j < |names| ==> Strcmp(names[i], names[j]) < 0
  }

  function NamesOf(s: seq<Var>): (names: seq<bytes>)
    ensures |names| == |s| && forall i :: 0 <= i < |s| ==> names[i] == s[i].name
  {
    seq(|s|, i requires 0 <= i < |s| => s[i].name)
  }

  /** No two variables share a record. */
  ghost predicate Separate(s: seq<Var>) {
    forall i, j :: 0 <= i < j < |s| ==> s[i].addr != s[j].addr
  }

  /** The variables `s`, with their records in `store`, are the dictionary `d`. */
  ghost predicate Represents(s: seq<Var>, store: map<nat, seq<bytes>>, d: Dict) {
    && (forall i :: 0 <= i < |s| ==> s[i].addr in store && s[i].name in d && d[s[i].name] == store[s[i].addr])
    && (forall n :: n in d ==> exists i :: 0 <= i < |s| && s[i].name == n)
    && (forall n :: n in d ==> d[n] != [])
  }

  ghost predicate Table(s: seq<Var>, store: map<nat, seq<bytes>>, d: Dict) {
    Ascending(NamesOf(s)) && Separate(s) && Represents(s, store, d)
  }

  lemma TableEmpty(store: map<nat, seq<bytes>>)
    ensures Table([], store, map[])
  {
  }

  /** The tree's search and the dictionary's agree. */
  lemma TableSearch(s: seq<Var>, store: map<nat, seq<bytes>>, d: Dict, key: Var)
    requires Table(s, store, d)
    ensures Absent(CompareVars, s, key) <==> key.name !in d
    ensures forall i :: 0 <= i < |s| && CompareVars(key, s[i]) == 0 ==> s[i].name == key.name
  {
    hide Strcmp;
    forall i | 0 <= i < |s| ensures CompareVars(key, s[i]) == 0 <==> s[i].name == key.name {
      StrcmpFlips(key.name, s[i].name);
    }
  }

  lemma AscendingAt(s: seq<Var>, i: nat, j: nat)
    requires Ascending(NamesOf(s)) && i < j < |s|
    ensures Strcmp(s[i].name, s[j].name) < 0
  {
    hide Strcmp;
    assert NamesOf(s)[i] == s[i].name && NamesOf(s)[j] == s[j].name;
  }

  lemma AscendingInsert(s: seq<Var>, i: nat, v: Var)
    requires Ascending(NamesOf(s)) && i <= |s|
    requires forall k :: 0 <= k < |s| ==> Strcmp(v.name, s[k].name) != 0
    requires forall k :: 0 <= k < |s| ==> (Strcmp(v.name, s[k].name) > 0 <==> k < i)
    ensures Ascending(NamesOf(InsertAt(s, i, v)))
  {
    hide Strcmp, InsertAt, NamesOf;
    var u := InsertAt(s, i, v);
    forall j, k | 0 <= j < k < |u| ensures Strcmp(u[j].name, u[k].name) < 0 {
      InsertAtIndex(s, i, v, j);
      InsertAtIndex(s, i, v, k);
      var j', k' := if j < i then j else j - 1, if k < i then k else k - 1;
      if j != i { StrcmpFlips(s[j'].name, v.name); }
      if j != i && k != i { AscendingAt(s, j', k'); }
    }
  }

  lemma SeparateInsert(s: seq<Var>, i: nat, v: Var)
    requires Separate(s) && i <= |s|
    requires forall k :: 0 <= k < |s| ==> s[k].addr != v.addr
    ensures Separate(InsertAt(s, i, v))
  {
    hide InsertAt;
    var u := InsertAt(s, i, v);
    forall j, k | 0 <= j < k < |u| ensures u[j].addr != u[k].addr {
      InsertAtIndex(s, i, v, j);
      InsertAtIndex(s, i, v, k);
    }
  }

  lemma RepresentsInsert(s: seq<Var>, store: map<nat, seq<bytes>>, d: Dict, i: nat, v: Var, values: seq<bytes>)
    requires Represents(s, store, d) && i <= |s| && v.name !in d && values != []
    requires forall k :: 0 <= k < |s| ==> s[k].addr != v.addr
    ensures Represents(InsertAt(s, i, v), store[v.addr := values], d[v.name := values])
  {
    hide InsertAt;
    var u, e := InsertAt(s, i, v), d[v.name := values];
    forall j | 0 <= j < |u|
      ensures u[j].addr in store[v.addr := values] && u[j].name in e
      ensures e[u[j].name] == store[v.addr := values][u[j].addr]
    {
      InsertAtIndex(s, i, v, j);
    }
    forall n | n in e ensures exists j :: 0 <= j < |u| && u[j].name == n {
      InsertAtIndex(s, i, v, i);
      if n != v.name {
        var k :| 0 <= k < |s| && s[k].name == n;
        InsertAtIndex(s, i, v, if k < i then k else k + 1);
      }
    }
  }

  lemma TableInsert(s: seq<Var>, store: map<nat, seq<bytes>>, d: Dict, v: Var, values: seq<bytes>)
    requires TotalPreorder(CompareVars) && Sorted(CompareVars, s)
    requires Table(s, store, d) && v.name !in d && values != []
    requires forall k :: 0 <= k < |s| ==> s[k].addr != v.addr
    ensures Table(InsertAt(s, LowerBound(CompareVars, s, v), v), store[v.addr := values], d[v.name := values])
  {
    hide Strcmp, InsertAt, LowerBound, Ascending, Separate, TotalPreorder, Sorted;
    var i := LowerBound(CompareVars, s, v);
    Bounds(CompareVars, s, v);
    TableSearch(s, store, d, v);
    AscendingInsert(s, i, v);
    SeparateInsert(s, i, v);
    RepresentsInsert(s, store, d, i, v, values);
  }

  lemma AscendingRemove(s: seq<Var>, at: nat)
    requires Ascending(NamesOf(s)) && at < |s|
    ensures Ascending(NamesOf(RemoveAt(s, at)))
  {
    hide Strcmp, RemoveAt, NamesOf;
    var u := RemoveAt(s, at);
    forall j, k | 0 <= j < k < |u| ensures Strcmp(u[j].name, u[k].name) < 0 {
      RemoveAtIndex(s, at, j);
      RemoveAtIndex(s, at, k);
      AscendingAt(s, if j < at then j else j + 1, if k < at then k else k + 1);
    }
  }

  lemma SeparateRemove(s: seq<Var>, at: nat)
    requires Separate(s) && at < |s|
    ensures Separate(RemoveAt(s, at))
  {
    hide RemoveAt;
    var u := RemoveAt(s, at);
    forall j, k | 0 <= j < k < |u| ensures u[j].addr != u[k].addr {
      RemoveAtIndex(s, at, j);
      RemoveAtIndex(s, at, k);
    }
  }

  lemma RepresentsRemove(s: seq<Var>, store: map<nat, seq<bytes>>, d: Dict, at: nat)
    requires Ascending(NamesOf(s)) && Separate(s) && Represents(s, store, d) && at < |s|
    ensures Represents(RemoveAt(s, at), store - {s[at].addr}, d - {s[at].name})
  {
    hide Strcmp, RemoveAt, Ascending, NamesOf;
    var u, e, kept := RemoveAt(s, at), d - {s[at].name}, store - {s[at].addr};
    forall j | 0 <= j < |u| ensures u[j].addr in kept && u[j].name in e && e[u[j].name] == kept[u[j].addr] {
      RemoveAtIndex(s, at, j);
      OneName(s, at, if j < at then j else j + 1);
    }
    forall n | n in e ensures exists j :: 0 <= j < |u| && u[j].name == n {
      var k :| 0 <= k < |s| && s[k].name == n;
      RemoveAtIndex(s, at, if k < at then k else k - 1);
    }
  }

  lemma TableRemove(s: seq<Var>, store: map<nat, seq<bytes>>, d: Dict, at: nat)
    requires Table(s, store, d) && at < |s|
    ensures Table(RemoveAt(s, at), store - {s[at].addr}, d - {s[at].name})
  {
    hide RemoveAt, Ascending, Separate, Represents, NamesOf;
    AscendingRemove(s, at);
    SeparateRemove(s, at);
    RepresentsRemove(s, store, d, at);
  }

  /** A name occurs at one position only. */
  lemma OneName(s: seq<Var>, i: nat, j: nat)
    requires Ascending(NamesOf(s)) && i < |s| && j < |s|
    ensures s[i].name == s[j].name ==> i == j
  {
    hide Strcmp, Ascending, NamesOf;
    StrcmpFlips(s[i].name, s[j].name);
    if i < j { AscendingAt(s, i, j); }
    if j < i { AscendingAt(s, j, i); }
  }

  lemma TableUpdate(s: seq<Var>, store: map<nat, seq<bytes>>, d: Dict, at: nat, values: seq<bytes>)
    requires Table(s, store, d) && at < |s| && values != []
    ensures Table(s, store[s[at].addr := values], d[s[at].name := values])
  {
    hide Strcmp;
    forall i | 0 <= i < |s| ensures s[i].name == s[at].name <==> i == at {
      OneName(s, at, i);
    }
  }

  /** A record that no variable uses is not part of the meaning. */
  lemma TableAlloc(s: seq<Var>, store: map<nat, seq<bytes>>, d: Dict, addr: nat, values: seq<bytes>)
    requires Table(s, store, d) && forall i :: 0 <= i < |s| ==> s[i].addr != addr
    ensures Table(s, store[addr := values], d)
  {
    hide Ascending, NamesOf;
  }

  /** The dictionary with one more value for `name`. */
  function Added(d: Dict, name: bytes, value: bytes): Dict {
    d[name := (if name in d then d[name] else []) + [value]]
  }

  lemma AddedNew(d: Dict, name: bytes, value: bytes)
    ensures name !in d ==> Added(d, name, value) == d[name := [value]]
  {
    assert [] + [value] == [value];
  }

  lemma Rebound(d: Dict, name: bytes, values: seq<bytes>)
    ensures (d - {name})[name := values] == d[name := values]
  {
  }

  // ------------------------------------------------------------------ tables

  class Vars {
    const tree: Avl<Var>
    var store: map<nat, seq<bytes>>
    var next: nat
    ghost var dict: Dict

    ghost predicate Valid()
      reads this, tree, tree.root, Nodes(tree.shape)
    {
      && tree.Sound() && tree.compare == CompareVars
      && Table(tree.Contents(), store, dict)
      && forall i :: 0 <= i < |tree.Contents()| ==> tree.Contents()[i].addr < next
    }

    /** The record at `addr` belongs to no variable of the table. */
    ghost predicate Unused(addr: nat)
      reads this, tree
    {
      forall i :: 0 <= i < |tree.Contents()| ==> tree.Contents()[i].addr != addr
    }

    constructor ()
      ensures Valid() && dict == map[] && fresh(tree) && fresh(tree.root) && Nodes(tree.shape) == {}
    {
      NamesAreOrdered();
      tree := new Avl(CompareVars);
      store, next, dict := map[], 0, map[];
      new;
      TableEmpty(store);
    }

    /** The address of the variable's record. */
    method Find(name: bytes) returns (r: Option<nat>)
      requires Valid()
      ensures Valid()
      ensures r.Some? <==> name in dict
      ensures r.Some? ==> exists i :: 0 <= i < |tree.Contents()| && tree.Contents()[i] == Var(name, r.value)
    {
      hide TotalPreorder, Strcmp, Ascending, Separate, Represents, Absent;
      TableSearch(tree.Contents(), store, dict, Var(name, 0));
      assert allocated(Nodes(tree.shape));
      var found, v, at, _ := tree.GetByKey(Var(name, 0));
      if found != 0 {
        return None;
      }
      assert tree.Contents()[at] == Var(name, v.value.addr);
      return Some(v.value.addr);
    }

    method GetVar(name: bytes) returns (value: Option<bytes>)
      requires Valid()
      ensures value == if name in dict then Some(dict[name][0]) else None
    {
      hide Strcmp, Ascending, Separate;
      var addr := Find(name);
      if addr.None? {
        return None;
      }
      if store[addr.value] == [] {
        return None;
      }
      return Some(store[addr.value][0]);
    }

    /** Adds a value to the record of a variable of the table. */
    method Grow(name: bytes, addr: nat, value: bytes)
      requires Valid()
      requires exists i :: 0 <= i < |tree.Contents()| && tree.Contents()[i] == Var(name, addr)
      modifies this
      ensures Valid() && dict == Added(old(dict), name, value)
    {
      hide TotalPreorder, Ascending, Separate, Balanced, Sorted, Keys, NamesOf;
      assert allocated(Nodes(tree.shape));
      ghost var s := tree.Contents();
      ghost var i :| 0 <= i < |s| && s[i] == Var(name, addr);
      TableUpdate(s, store, dict, i, store[addr] + [value]);
      store := store[addr := store[addr] + [value]];
      dict := Added(dict, name, value);
    }

    /** Inserts a variable whose record is in place. */
    method Hang(v: Var)
      requires Valid() && v.name !in dict && v.addr < next && v.addr in store && store[v.addr] != []
      requires Unused(v.addr)
      modifies this, tree, tree.root, Nodes(tree.shape)
      ensures Valid()
      ensures forall n <- Nodes(tree.shape) :: n in old(Nodes(tree.shape)) || fresh(n)
      ensures store == old(store) && dict == old(dict)[v.name := old(store)[v.addr]]
    {
      hide TotalPreorder, Sorted, Strcmp, Table, LowerBound, InsertAt, Balanced, Rooted;
      ghost var s := tree.Contents();
      TableInsert(s, store, dict, v, store[v.addr]);
      assert store[v.addr := store[v.addr]] == store;
      var _ := tree.Insert(v);
      assert allocated(Nodes(tree.shape));
      dict := dict[v.name := store[v.addr]];
      forall i | 0 <= i < |s| + 1 ensures tree.Contents()[i].addr < next {
        InsertAtIndex(s, LowerBound(CompareVars, s, v), v, i);
      }
    }

    /** Deletes the variable and frees its record; a name the table does not hold changes
        nothing that matters here, whatever becomes of the tree's ranks. */
    method Remove(v: Var)
      requires Valid()
      modifies this, tree, tree.root, Nodes(tree.shape)
      ensures Valid()
      ensures forall n <- Nodes(tree.shape) :: n in old(Nodes(tree.shape)) || fresh(n)
      ensures dict == old(dict) - {v.name} && next == old(next)
      ensures Nodes(tree.shape) <= old(Nodes(tree.shape))
      ensures old(Unused(v.addr)) ==> Unused(v.addr)
      ensures old(Unused(v.addr) && v.addr in store) ==> v.addr in store && store[v.addr] == old(store)[v.addr]
    {
      hide TotalPreorder, Sorted, Strcmp, Ascending, Separate, Represents, RemoveAt, Balanced, Rooted, Absent,
        Missed, NamesOf;
      ghost var s := tree.Contents();
      TableSearch(s, store, dict, v);
      var r, freed, at, _ := tree.Delete(v);
      if r == 0 {
        TableRemove(s, store, dict, at);
        store := store - {freed.value.addr};
        dict := dict - {v.name};
        forall i | 0 <= i < |s| - 1 ensures tree.Contents()[i] in s {
          RemoveAtIndex(s, at, i);
        }
      } else {
        MissedRanks(CompareVars, v, old(tree.shape));
        assert dict - {v.name} == dict;
      }
    }

    /** A new record. */
    method Alloc(values: seq<bytes>) returns (addr: nat)
      requires Valid()
      modifies this
      ensures Valid() && dict == old(dict) && Unused(addr)
      ensures addr < next && addr in store && store[addr] == values
    {
      hide TotalPreorder, Table;
      TableAlloc(tree.Contents(), store, dict, next, values);
      addr := next;
      store, next := store[addr := values], next + 1;
    }

    method SetVar(name: bytes, value: bytes)
      requires Valid()
      modifies this, tree, tree.root, Nodes(tree.shape)
      ensures Valid()
      ensures forall n <- Nodes(tree.shape) :: n in old(Nodes(tree.shape)) || fresh(n)
      ensures dict == old(dict)[name := [value]]
    {
      hide Valid, Unused;
      assert allocated(Nodes(tree.shape));
      var addr := Alloc([value]);
      assert allocated(Nodes(tree.shape));
      var present := GetVar(name);
      if present == None {
        Hang(Var(name, addr));
      } else {
        Remove(Var(name, addr));
        Hang(Var(name, addr));
        Rebound(old(dict), name, [value]);
      }
    }

    method DeleteVar(name: bytes)
      requires Valid()
      modifies this, tree, tree.root, Nodes(tree.shape)
      ensures Valid()
      ensures forall n <- Nodes(tree.shape) :: n in old(Nodes(tree.shape)) || fresh(n)
      ensures dict == old(dict) - {name}
    {
      Remove(Var(name, 0));
    }

    /** A NULL value changes nothing; otherwise the value replaces the variable's values or is
        added after them. */
    method SetParam(name: bytes, value: Option<bytes>, replace: bool)
      requires Valid()
      modifies this, tree, tree.root, Nodes(tree.shape)
      ensures Valid()
      ensures forall n <- Nodes(tree.shape) :: n in old(Nodes(tree.shape)) || fresh(n)
      ensures dict ==
        if value.None? then old(dict)
        else if replace then old(dict)[name := [value.value]]
        else Added(old(dict), name, value.value)
    {
      hide Valid, Unused;
      if value.None? {
        return;
      }
      assert allocated(Nodes(tree.shape));
      var found := Find(name);
      if replace || found.None? {
        var addr := Alloc([value.value]);
        if replace && found.Some? {
          Remove(Var(name, addr));
        }
        Hang(Var(name, addr));
        Rebound(old(dict), name, [value.value]);
        AddedNew(old(dict), name, value.value);
      } else {
        Grow(name, found.value, value.value);
      }
    }
  }

  // -------------------------------------------------------------------- runs

  datatype VarOp = Set(name: bytes, value: bytes) | Delete(name: bytes)

  function RunOps(d: Dict, ops: seq<VarOp>): Dict {
    if ops == [] then d
    else
      var before := RunOps(d, ops[..|ops| - 1]);
      match ops[|ops| - 1]
      case Set(name, value) => before[name := [value]]
      case Delete(name) => before - {name}
  }

  /** The last operation on a name, if there was one. */
  function LastOn(ops: seq<VarOp>, name: bytes): Option<VarOp> {
    if ops == [] then None
    else if ops[|ops| - 1].name == name then Some(ops[|ops| - 1])
    else LastOn(ops[..|ops| - 1], name)
  }

  /** After a run a name has the value it was last set to, unless it was deleted since. */
  lemma {:induction false} RunIsLast(d: Dict, ops: seq<VarOp>, name: bytes)
    ensures match LastOn(ops, name)
      case None => (name in RunOps(d, ops) <==> name in d) && (name in d ==> RunOps(d, ops)[name] == d[name])
      case Some(Set(_, value)) => name in RunOps(d, ops) && RunOps(d, ops)[name] == [value]
      case Some(Delete(_)) => name !in RunOps(d, ops)
  {
    if ops == [] {
    } else {
      RunIsLast(d, ops[..|ops| - 1], name);
    }
  }

  /** Any run of assignments and deletions, of names present or absent, keeps the table what a
      plain map would be. */
  method RunVars(vars: Vars, ops: seq<VarOp>)
    requires vars.Valid()
    modifies vars, vars.tree, vars.tree.root, Nodes(vars.tree.shape)
    ensures vars.Valid() && vars.dict == RunOps(old(vars.dict), ops)
  {
    hide RunOps;
    ghost var d := vars.dict;
    RunNone(d);
    for i := 0 to |ops|
      invariant vars.Valid()
      invariant vars.dict == RunOps(d, ops[..i])
      invariant forall n <- Nodes(vars.tree.shape) :: n in old(Nodes(vars.tree.shape)) || fresh(n)
    {
      RunOne(d, ops, i);
      match ops[i] {
        case Set(name, value) => vars.SetVar(name, value);
        case Delete(name) => vars.DeleteVar(name);
      }
    }
    assert ops[..|ops|] == ops;
  }

  lemma RunNone(d: Dict)
    ensures RunOps(d, []) == d
  {
  }

  lemma RunOne(d: Dict, ops: seq<VarOp>, i: nat)
    requires i < |ops|
    ensures RunOps(d, ops[..i + 1]) == match ops[i]
      case Set(name, value) => RunOps(d, ops[..i])[name := [value]]
      case Delete(name) => RunOps(d, ops[..i]) - {name}
  {
    assert ops[..i + 1][..i] == ops[..i];
  }
}
