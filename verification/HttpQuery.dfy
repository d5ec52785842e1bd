/** Query strings: the splitter, the percent decoder and what they put into a table. */
module HttpQuery {
  import opened Options
  import opened Bytes
  import opened RankedTree
  import opened AvlTree
  import opened HttpVars

  const HASH: byte := 35
  const AMPERSAND: byte := 38

  predicate NoneOf(s: bytes, c: byte) {
    forall i :: 0 <= i < |s| ==> s[i] != c
  }

  lemma {:induction false} CStringStops(s: bytes, t: bytes)
    ensures CString(s + [0] + t) == CString(s)
  {
    var u := s + [0] + t;
    if s == [] {
      assert u[0] == 0;
    } else {
      assert u[1..] == s[1..] + [0] + t;
      CStringStops(s[1..], t);
    }
  }

  // ----------------------------------------------------------------- decoding

  function Before(a: bytes, r: Option<bytes>): Option<bytes> {
    if r.None? then None else Some(a + r.value)
  }

  /** `%` and two digits give a byte, `+` a space, `#` ends the text; a NUL, or a `%` without its
      two digits, makes it undecodable. */
  function Unescape(s: bytes): Option<bytes> {
    if s == [] || s[0] == HASH then Some([])
    else if s[0] == PERCENT then
      if |s| > 2 && IsHex(s[1]) && IsHex(s[2]) then Before([HexValue(s[1]) * 16 + HexValue(s[2])], Unescape(s[3..]))
      else None
    else if s[0] == PLUS then Before([SPACE], Unescape(s[1..]))
    else if s[0] == 0 then None
    else Before([s[0]], Unescape(s[1..]))
  }

  /** The value of a hexadecimal digit, -1 for any other byte. */
  method Hex(c: byte) returns (v: int)
    ensures 48 <= c <= 57 ==> v == c - 48
    ensures 65 <= c <= 70 ==> v == c - 55
    ensures 97 <= c <= 102 ==> v == c - 87
    ensures c < 48 || 57 < c < 65 || 70 < c < 97 || 102 < c ==> v == -1
    ensures v == (if IsHex(c) then HexValue(c) else -1) && v < 16
  {
    if 48 <= c <= 57 {
      return c - 48;
    } else if 65 <= c <= 70 {
      return c - 65 + 10;
    } else if 97 <= c <= 102 {
      return c - 97 + 10;
    } else {
      return -1;
    }
  }

  lemma BeforeMore(a: bytes, b: bytes, r: Option<bytes>)
    ensures Before(a, Before(b, r)) == Before(a + b, r)
    ensures Before([], r) == r
    ensures Before(a, Some([])) == Some(a) && Before(a, None) == None
  {
    assert a + [] == a;
    if r.Some? { assert a + (b + r.value) == a + b + r.value && [] + r.value == r.value; }
  }

  method UrlUnescape(src: bytes) returns (r: Option<bytes>)
    ensures Unescape(src).None? <==> r.None?
    ensures r.Some? ==> r.value == CString(Unescape(src).value)
  {
    hide IsHex, HexValue, Before, CString;
    var decoded := new byte[|src| + 1](_ => 0);
    var i, dst := 0, 0;
    assert src[0..] == src && decoded[..0] == [];
    BeforeMore([], [], Unescape(src));
    while i < |src|
      invariant 0 <= dst <= i <= |src|
      invariant Unescape(src) == Before(decoded[..dst], Unescape(src[i..]))
    {
      ghost var done, rest := decoded[..dst], src[i..];
      assert rest[0] == src[i] && rest[1..] == src[i + 1..];
      BeforeMore(done, [], None);
      if src[i] == PERCENT {
        if i + 2 >= |src| {
          return None;
        }
        var hi := Hex(src[i + 1]);
        var lo := Hex(src[i + 2]);
        if hi == -1 || lo == -1 {
          return None;
        }
        assert rest[3..] == src[i + 3..];
        decoded[dst] := hi * 16 + lo;
        dst, i := dst + 1, i + 2;
      } else if src[i] == PLUS {
        decoded[dst] := SPACE;
        dst := dst + 1;
      } else if src[i] == HASH {
        break;
      } else if src[i] == 0 {
        return None;
      } else {
        decoded[dst] := src[i];
        dst := dst + 1;
      }
      i := i + 1;
      assert decoded[..dst] == done + [decoded[dst - 1]];
      BeforeMore(done, [decoded[dst - 1]], Unescape(src[i..]));
    }
    BeforeMore(decoded[..dst], [], None);
    decoded[dst] := 0;
    assert decoded[..] == decoded[..dst] + [0] + decoded[dst + 1..];
    CStringStops(decoded[..dst], decoded[dst + 1..]);
    return Some(CString(decoded[..]));
  }

  // ---------------------------------------------------------------- splitting

  /** Where the first `&` is, or the end. */
  function FirstAmp(s: bytes): (n: nat)
    ensures n <= |s|
  {
    if s == [] || s[0] == AMPERSAND then 0 else 1 + FirstAmp(s[1..])
  }

  function Elements(q: bytes): seq<bytes>
    decreases |q|
  {
    var n := FirstAmp(q);
    if n == |q| then [q] else [q[..n]] + Elements(q[n + 1..])
  }

  /** Where the last `=` is, -1 if there is none. */
  function LastEquals(e: bytes): (n: int)
    ensures -1 <= n < |e|
  {
    if e == [] then -1 else if e[|e| - 1] == EQUALS then |e| - 1 else LastEquals(e[..|e| - 1])
  }

  /** The name and the value an element gives, if it gives any. */
  function Meaning(e: bytes): Option<(bytes, bytes)> {
    var mid := LastEquals(e);
    if mid <= 0 || mid + 1 == |e| || Unescape(e[mid + 1..]).None? then None
    else Some((CString(e[..mid]), CString(Unescape(e[mid + 1..]).value)))
  }

  function AddMeaning(d: Dict, m: Option<(bytes, bytes)>): Dict {
    if m.None? then d else Added(d, m.value.0, m.value.1)
  }

  function AddAll(d: Dict, elements: seq<bytes>): Dict
    decreases elements
  {
    if elements == [] then d else AddAll(AddMeaning(d, Meaning(elements[0])), elements[1..])
  }

  /** What a query string adds to a table. */
  function Query(d: Dict, q: bytes): Dict {
    if q == [] || q[0] == 0 then d else AddAll(d, Elements(q))
  }

  // ------------------------------------------------------------ the splitter

  method ParseQueryElement(vars: Vars, query: bytes, start: nat, mid: int, end: nat)
    requires vars.Valid() && start <= end <= |query|
    requires mid == -1 || start <= mid < end
    requires mid == (var m := LastEquals(query[start..end]); if m == -1 then -1 else start + m)
    modifies vars, vars.tree, vars.tree.root, Nodes(vars.tree.shape)
    ensures vars.Valid() && vars.dict == AddMeaning(old(vars.dict), Meaning(query[start..end]))
    ensures forall n <- Nodes(vars.tree.shape) :: n in old(Nodes(vars.tree.shape)) || fresh(n)
  {
    hide Unescape, CString, LastEquals;
    ghost var e := query[start..end];
    if start >= end {
      return;
    }
    if mid == -1 {
      return;
    }
    var keyLen, valueLen := mid - start, end - mid - 1;
    if keyLen == 0 || valueLen == 0 {
      return;
    }
    assert e[..keyLen] == query[start..mid] && e[keyLen + 1..] == query[mid + 1..end];
    assert allocated(Nodes(vars.tree.shape));
    var value := UrlUnescape(query[mid + 1..end]);
    vars.SetParam(CString(query[start..mid]), value, false);
  }

  lemma {:induction false} FirstAmpAt(s: bytes, n: nat)
    requires n <= |s| && NoneOf(s[..n], AMPERSAND) && (n == |s| || s[n] == AMPERSAND)
    ensures FirstAmp(s) == n
  {
    if n == 0 {
    } else {
      assert s[0] == s[..n][0] && s[1..][..n - 1] == s[..n][1..];
      FirstAmpAt(s[1..], n - 1);
    }
  }

  lemma ElementsAt(query: bytes, start: nat, i: nat)
    requires start <= i <= |query| && NoneOf(query[start..i], AMPERSAND)
    requires i == |query| || query[i] == AMPERSAND
    ensures Elements(query[start..])
      == if i == |query| then [query[start..i]] else [query[start..i]] + Elements(query[i + 1..])
  {
    hide FirstAmp;
    var s, n := query[start..], i - start;
    assert s[..n] == query[start..i];
    FirstAmpAt(s, n);
    if i < |query| { assert s[n + 1..] == query[i + 1..]; } else { assert s == query[start..i]; }
  }

  /** The marks after one more character of an element. */
  lemma MarkOn(query: bytes, start: nat, i: nat)
    requires start <= i < |query| && query[i] != AMPERSAND && NoneOf(query[start..i], AMPERSAND)
    ensures NoneOf(query[start..i + 1], AMPERSAND)
    ensures LastEquals(query[start..i + 1]) == if query[i] == EQUALS then i - start else LastEquals(query[start..i])
  {
    var e := query[start..i + 1];
    assert e[..|e| - 1] == query[start..i] && e[|e| - 1] == query[i];
  }

  lemma AddOne(d: Dict, e: bytes, rest: seq<bytes>)
    ensures AddAll(d, [e] + rest) == AddAll(AddMeaning(d, Meaning(e)), rest)
    ensures AddAll(d, [e]) == AddMeaning(d, Meaning(e))
  {
    assert ([e] + rest)[1..] == rest && [e][1..] == [];
  }

  method ParseQuery(vars: Vars, query: bytes)
    requires vars.Valid()
    modifies vars, vars.tree, vars.tree.root, Nodes(vars.tree.shape)
    ensures vars.Valid() && vars.dict == Query(old(vars.dict), query)
  {
    hide Elements, AddAll, AddMeaning, Meaning, LastEquals, NoneOf;
    if query == [] || query[0] == 0 {
      return;
    }
    var start, mid, i := 0, -1, 0;
    ghost var goal := Query(vars.dict, query);
    assert query[0..] == query;
    NoMarks(query, 0);
    while i < |query|
      invariant start <= i <= |query|
      invariant NoneOf(query[start..i], AMPERSAND)
      invariant mid == (var m := LastEquals(query[start..i]); if m == -1 then -1 else start + m)
      invariant vars.Valid() && AddAll(vars.dict, Elements(query[start..])) == goal
      invariant forall n <- Nodes(vars.tree.shape) :: n in old(Nodes(vars.tree.shape)) || fresh(n)
    {
      if query[i] == AMPERSAND {
        ElementsAt(query, start, i);
        AddOne(vars.dict, query[start..i], Elements(query[i + 1..]));
        ParseQueryElement(vars, query, start, mid, i);
        start, mid := i + 1, -1;
        NoMarks(query, i + 1);
      } else {
        MarkOn(query, start, i);
        if query[i] == EQUALS {
          mid := i;
        }
      }
      i := i + 1;
    }
    ElementsAt(query, start, i);
    AddOne(vars.dict, query[start..i], []);
    ParseQueryElement(vars, query, start, mid, i);
  }

  lemma NoMarks(query: bytes, i: nat)
    requires i <= |query|
    ensures NoneOf(query[i..i], AMPERSAND) && LastEquals(query[i..i]) == -1
  {
  }
}
