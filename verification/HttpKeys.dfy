/** Listing and reading variables by namespace. */
module HttpKeys {
  import opened Options
  import opened Bytes
  import opened RankedTree
  import opened AvlNode
  import opened AvlTree
  import opened HttpVars

  datatype Namespace = VAR | HEADER | QUERY_STRING | POST_BODY

  const UNDERSCORE: byte := 95

  /** Names of variables the parser makes itself begin with two underscores. */
  predicate Reserved(name: bytes) {
    |name| >= 2 && name[0] == UNDERSCORE && name[1] == UNDERSCORE
  }

  predicate Shows(ns: Namespace, name: bytes) {
    (ns == VAR ==> Reserved(name)) && (ns == HEADER ==> !Reserved(name))
  }

  /** The names a namespace shows, in their order. */
  function Listed(ns: Namespace, names: seq<bytes>): seq<bytes> {
    if names == [] then []
    else (if Shows(ns, names[0]) then [names[0]] else []) + Listed(ns, names[1..])
  }

  function Somes(names: seq<bytes>): seq<Option<bytes>> {
    seq(|names|, i requires 0 <= i < |names| => Some(names[i]))
  }

  lemma {:induction false} ListedMembers(ns: Namespace, names: seq<bytes>)
    ensures forall n :: n in Listed(ns, names) <==> n in names && Shows(ns, n)
  {
    if names == [] {
    } else {
      ListedMembers(ns, names[1..]);
      assert names == [names[0]] + names[1..];
    }
  }

  lemma {:induction false} ListedAscends(ns: Namespace, names: seq<bytes>)
    requires Ascending(names)
    ensures Ascending(Listed(ns, names))
  {
    hide Strcmp, Shows;
    if names == [] {
    } else {
      var rest := Listed(ns, names[1..]);
      ListedAscends(ns, names[1..]);
      ListedMembers(ns, names[1..]);
      forall i | 0 <= i < |rest| ensures Strcmp(names[0], rest[i]) < 0 {
        assert rest[i] in names[1..];
      }
    }
  }

  lemma {:induction false} ListedSplits(names: seq<bytes>)
    ensures |Listed(VAR, names)| + |Listed(HEADER, names)| == |names|
  {
    if names == [] {
    } else {
      ListedSplits(names[1..]);
    }
  }

  /** The namespaces of the parameters show every name. */
  lemma {:induction false} ListedWhole(ns: Namespace, names: seq<bytes>)
    requires ns == QUERY_STRING || ns == POST_BODY
    ensures Listed(ns, names) == names
  {
    if names == [] {
    } else {
      ListedWhole(ns, names[1..]);
    }
  }

  lemma NamesInDict(s: seq<Var>, store: map<nat, seq<bytes>>, d: Dict)
    requires Table(s, store, d)
    ensures forall n :: n in NamesOf(s) <==> n in d
  {
    hide Ascending, Separate;
    forall n | n in d ensures n in NamesOf(s) {
      var i :| 0 <= i < |s| && s[i].name == n;
      assert NamesOf(s)[i] == n;
    }
  }

  /** The two listings of the request's variables are strictly ascending and share its names
      out between them. */
  lemma KeysPartition(s: seq<Var>, store: map<nat, seq<bytes>>, d: Dict)
    requires Table(s, store, d)
    ensures var v, h := Listed(VAR, NamesOf(s)), Listed(HEADER, NamesOf(s));
      && Ascending(v) && Ascending(h)
      && (forall n :: n in d <==> n in v || n in h)
      && (forall n :: !(n in v && n in h))
      && |v| + |h| == |s|
  {
    hide Ascending, Separate, Represents, Listed, NamesOf, Reserved;
    var names := NamesOf(s);
    ListedAscends(VAR, names);
    ListedAscends(HEADER, names);
    ListedMembers(VAR, names);
    ListedMembers(HEADER, names);
    ListedSplits(names);
    NamesInDict(s, store, d);
  }

  /** What a namespace lists of a table, in strictly ascending order: for VAR the names that begin
      with two underscores, for HEADER the others, and for the parameters all. */
  lemma ListedExact(ns: Namespace, s: seq<Var>, store: map<nat, seq<bytes>>, d: Dict)
    requires Table(s, store, d)
    ensures Ascending(Listed(ns, NamesOf(s)))
    ensures forall n :: n in Listed(ns, NamesOf(s)) <==>
      && n in d
      && (ns == VAR ==> |n| >= 2 && n[0] == 95 && n[1] == 95)
      && (ns == HEADER ==> !(|n| >= 2 && n[0] == 95 && n[1] == 95))
  {
    hide Ascending, Separate, Represents, Listed, NamesOf;
    ListedAscends(ns, NamesOf(s));
    ListedMembers(ns, NamesOf(s));
    NamesInDict(s, store, d);
  }

  /** The array made longer by eight empty places. */
  method Lengthen(ret: array<Option<bytes>>) returns (longer: array<Option<bytes>>)
    ensures fresh(longer) && longer.Length == ret.Length + 8
    ensures longer[..ret.Length] == ret[..] && forall k :: ret.Length <= k < longer.Length ==> longer[k] == None
  {
    longer := new Option<bytes>[ret.Length + 8](_ => None);
    var i := 0;
    while i < ret.Length
      invariant i <= ret.Length && longer[..i] == ret[..i]
      invariant forall k :: i <= k < longer.Length ==> longer[k] == None
    {
      longer[i] := ret[i];
      i := i + 1;
    }
    assert ret[..i] == ret[..];
  }

  /** `ret` holds the names `acc` and then only empty places, at least one: eight places are
      added whenever the next name would take the last one. */
  ghost predicate Holds(ret: array<Option<bytes>>, acc: seq<bytes>)
    reads ret
  {
    && ret.Length == 8 * (|acc| / 8 + 1) && ret[..|acc|] == Somes(acc)
    && forall k :: |acc| <= k < ret.Length ==> ret[k] == None
  }

  method Append(ret: array<Option<bytes>>, ghost acc: seq<bytes>, pos: nat,
      name: bytes) returns (after: array<Option<bytes>>)
    requires Holds(ret, acc) && pos == |acc|
    modifies ret
    ensures Holds(after, acc + [name]) && (after == ret || fresh(after))
  {
    after := ret;
    if pos == ret.Length - 1 {
      after := Lengthen(ret);
      assert after[..pos] == ret[..pos];
    }
    after[pos] := Some(name);
    assert after[..pos + 1] == after[..pos] + [Some(name)];
  }

  lemma ListedStep(ns: Namespace, names: seq<bytes>, i: nat, acc: seq<bytes>)
    requires i < |names|
    ensures acc + Listed(ns, names[i..])
      == (if Shows(ns, names[i]) then acc + [names[i]] else acc) + Listed(ns, names[i + 1..])
  {
    hide Shows;
    assert names[i..][1..] == names[i + 1..];
  }

  method Empty() returns (ret: array<Option<bytes>>)
    ensures fresh(ret) && Holds(ret, [])
  {
    ret := new Option<bytes>[8](_ => None);
  }

  /** The names of a namespace, in ascending order, as an array closed by an empty place: VAR has
      those that begin with two underscores, HEADER the others. */
  method GetAnyKey(vars: Vars, ns: Namespace) returns (ret: array<Option<bytes>>, ghost names: seq<bytes>)
    requires vars.Valid()
    ensures fresh(ret) && names == Listed(ns, NamesOf(vars.tree.Contents())) && Ascending(names)
    ensures forall n :: n in names <==>
      && n in vars.dict
      && (ns == VAR ==> |n| >= 2 && n[0] == 95 && n[1] == 95)
      && (ns == HEADER ==> !(|n| >= 2 && n[0] == 95 && n[1] == 95))
    ensures ret.Length == 8 * (|names| / 8 + 1)
    ensures forall k :: 0 <= k < ret.Length ==> ret[k] == if k < |names| then Some(names[k]) else None
  {
    hide Ascending, Separate, Represents, Holds, NamesOf, Keys, Shows, Listed, Ids, Size;
    assert vars.tree.Sound() && allocated(Nodes(vars.tree.shape));
    ret := Empty();
    ghost var all, i: nat := NamesOf(vars.tree.Contents()), 0;
    names := [];
    assert [] + Listed(ns, all[0..]) == Listed(ns, all) by { assert all[0..] == all; }
    var pos := 0;
    var node := vars.tree.First();
    while node != null
      invariant fresh(ret) && vars.tree.Sound()
      invariant i <= |all| && node == if i < Size(vars.tree.shape) then Ids(vars.tree.shape)[i] else null
      invariant Holds(ret, names) && pos == |names|
      invariant Listed(ns, all) == names + Listed(ns, all[i..])
      decreases |all| - i
    {
      assert allocated(Nodes(vars.tree.shape));
      vars.tree.KeyOf(node, i);
      var name := node.key.value.name;
      ListedStep(ns, all, i, names);
      if Shows(ns, name) {
        ret := Append(ret, names, pos, name);
        names, pos := names + [name], pos + 1;
      }
      node := vars.tree.Next(node, i);
      i := i + 1;
    }
    ListedNone(ns, all[i..]);
    assert names + [] == names;
    ListedExact(ns, vars.tree.Contents(), vars.store, vars.dict);
    HoldsNames(ret, names);
  }

  lemma HoldsNames(ret: array<Option<bytes>>, names: seq<bytes>)
    requires Holds(ret, names)
    ensures ret.Length == 8 * (|names| / 8 + 1)
    ensures forall k :: 0 <= k < ret.Length ==> ret[k] == if k < |names| then Some(names[k]) else None
  {
    forall k | 0 <= k < |names| ensures ret[k] == Some(names[k]) {
      assert ret[k] == ret[..|names|][k] == Somes(names)[k];
    }
  }

  lemma ListedNone(ns: Namespace, names: seq<bytes>)
    ensures names == [] ==> Listed(ns, names) == []
  {
  }

  /** All the values of a variable, if the namespace shows it. */
  method GetAnyVar(vars: Vars, ns: Namespace, name: bytes) returns (values: Option<seq<bytes>>)
    requires vars.Valid()
    ensures var shown :=
        && (ns == VAR ==> |name| >= 2 && name[0] == 95 && name[1] == 95)
        && (ns == HEADER ==> !(|name| >= 2 && name[0] == 95 && name[1] == 95));
      values == if shown && name in vars.dict then Some(vars.dict[name]) else None
  {
    hide Ascending, Separate;
    if !Shows(ns, name) {
      return None;
    }
    var addr := vars.Find(name);
    return if addr.None? then None else Some(vars.store[addr.value]);
  }
}
