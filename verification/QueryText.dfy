/** The inverse of the query parser, in every way RFC 3986, section 2.1, lets a sender write it. */
module QueryText {
  import opened Options
  import opened Bytes
  import opened HttpVars
  import opened HttpQuery

  /** How the sender writes one byte. */
  datatype Style = Literal | Plus | Hex(upperHigh: bool, upperLow: bool)

  function HexChar(n: nat, upper: bool): (c: byte)
    requires n < 16
    ensures IsHex(c) && HexValue(c) == n && c != 0 && c != AMPERSAND && c != EQUALS
  {
    if upper && n >= 10 then 55 + n else HexDigit(n)
  }

  /** The bytes that may stand for themselves. */
  predicate Stays(c: byte) {
    c != 0 && c != PERCENT && c != PLUS && c != HASH && c != AMPERSAND && c != EQUALS
  }

  predicate Suits(c: byte, style: Style) {
    match style
    case Literal => Stays(c)
    case Plus => c == SPACE
    case Hex(_, _) => true
  }

  function EncodeByte(c: byte, style: Style): (t: bytes)
    requires Suits(c, style)
    ensures t != []
  {
    match style
    case Literal => [c]
    case Plus => [PLUS]
    case Hex(high, low) => [PERCENT, HexChar(c / 16, high), HexChar(c % 16, low)]
  }

  predicate AllSuit(v: bytes, styles: seq<Style>) {
    |styles| == |v| && forall i :: 0 <= i < |v| ==> Suits(v[i], styles[i])
  }

  function Encode(v: bytes, styles: seq<Style>): bytes
    requires AllSuit(v, styles)
  {
    if v == [] then [] else EncodeByte(v[0], styles[0]) + Encode(v[1..], styles[1..])
  }

  lemma DecodesByte(c: byte, style: Style, rest: bytes)
    requires Suits(c, style)
    ensures Unescape(EncodeByte(c, style) + rest) == Before([c], Unescape(rest))
  {
    var s := EncodeByte(c, style) + rest;
    match style
    case Hex(_, _) => assert s[3..] == rest;
    case _ => assert s[1..] == rest;
  }

  lemma DecodesNothing()
    ensures Unescape([]) == Some([])
  {
  }

  /** Decoding inverts encoding, whichever way each byte was written. */
  lemma {:induction false} UnescapeEncode(v: bytes, styles: seq<Style>)
    requires AllSuit(v, styles)
    ensures Unescape(Encode(v, styles)) == Some(v)
  {
    hide Unescape, EncodeByte, Suits;
    if v == [] {
      DecodesNothing();
    } else {
      UnescapeEncode(v[1..], styles[1..]);
      DecodesByte(v[0], styles[0], Encode(v[1..], styles[1..]));
      assert [v[0]] + v[1..] == v;
    }
  }

  /** Encoded text holds neither of the marks the splitter looks for. */
  lemma {:induction false} EncodeUnmarked(v: bytes, styles: seq<Style>)
    requires AllSuit(v, styles)
    ensures NoneOf(Encode(v, styles), AMPERSAND) && NoneOf(Encode(v, styles), EQUALS)
    ensures v != [] ==> Encode(v, styles) != []
  {
    hide HexChar;
    if v == [] {
    } else {
      EncodeUnmarked(v[1..], styles[1..]);
    }
  }

  // ------------------------------------------------------------ what is decoded

  /** `#` ends the text. */
  lemma {:induction false} HashEnds(v: bytes, more: bytes)
    requires NoneOf(v, 35)
    ensures Unescape(v + [35] + more) == Unescape(v)
  {
    hide IsHex, HexValue;
    var s := v + [35] + more;
    assert !IsHex(35) by { HashIsNoDigit(); }
    if v == [] {
    } else {
      assert s[1..] == v[1..] + [35] + more;
      HashEnds(v[1..], more);
      if |v| > 2 {
        assert s[3..] == v[3..] + [35] + more;
        HashEnds(v[3..], more);
      }
    }
  }

  lemma HashIsNoDigit()
    ensures !IsHex(35) && !IsHex(0) && !IsHex(37)
  {
  }

  /** `+` stands for a space, and any byte but NUL, `#` and `%` for itself. */
  lemma StandsFor(c: byte, s: bytes)
    requires c != 0 && c != 35 && c != 37
    ensures Unescape([c] + s) == Before([if c == 43 then 32 else c], Unescape(s))
  {
    assert ([c] + s)[1..] == s;
  }

  /** A NUL at `i`, or a `%` without two digits behind it. */
  predicate Breaks(v: bytes, i: nat)
    requires i < |v|
  {
    v[i] == 0 || (v[i] == 37 && !(i + 2 < |v| && IsHex(v[i + 1]) && IsHex(v[i + 2])))
  }

  /** One of these comes before any `#`. */
  predicate Undecodable(v: bytes) {
    exists i :: 0 <= i < |v| && Breaks(v, i) && NoneOf(v[..i], 35)
  }

  /** Exactly such text cannot be decoded. */
  lemma {:induction false} DecodingFails(v: bytes)
    ensures Unescape(v).None? <==> Undecodable(v)
    decreases |v|
  {
    hide Breaks, IsHex;
    if v == [] {
    } else if Breaks(v, 0) {
      assert NoneOf(v[..0], 35);
      BreaksAtOnce(v);
    } else {
      var n := if v[0] == 37 then 3 else 1;
      TokenDecodes(v);
      if v[0] == 35 {
        forall i | 0 < i < |v| ensures !NoneOf(v[..i], 35) {
          assert v[..i][0] == 35;
        }
      } else {
        DecodingFails(v[n..]);
        BreaksLater(v, n);
      }
    }
  }

  lemma BreaksAtOnce(v: bytes)
    requires v != [] && Breaks(v, 0)
    ensures Unescape(v).None?
  {
  }

  lemma TokenDecodes(v: bytes)
    requires v != [] && !Breaks(v, 0)
    ensures v[0] == 37 ==> |v| > 2 && (Unescape(v).None? <==> Unescape(v[3..]).None?)
    ensures v[0] == 37 ==> !Breaks(v, 1) && !Breaks(v, 2) && v[1] != 35 && v[2] != 35
    ensures v[0] != 37 && v[0] != 35 ==> (Unescape(v).None? <==> Unescape(v[1..]).None?)
    ensures v[0] == 35 ==> Unescape(v) == Some([])
  {
  }

  /** Behind a first `n` bytes that do not break. */
  lemma BreaksLater(v: bytes, n: nat)
    requires n <= |v| && NoneOf(v[..n], 35) && forall i :: 0 <= i < n ==> !Breaks(v, i)
    ensures Undecodable(v) <==> Undecodable(v[n..])
  {
    hide IsHex;
    var w := v[n..];
    forall i | n <= i < |v| ensures Breaks(v, i) == Breaks(w, i - n) && NoneOf(v[..i], 35) == NoneOf(w[..i - n], 35) {
      assert v[..i] == v[..n] + w[..i - n];
    }
    if Undecodable(w) {
      var i :| 0 <= i < |w| && Breaks(w, i) && NoneOf(w[..i], 35);
      assert Breaks(v, i + n) && NoneOf(v[..i + n], 35);
    }
    if Undecodable(v) {
      var i :| 0 <= i < |v| && Breaks(v, i) && NoneOf(v[..i], 35);
      assert i >= n && Breaks(w, i - n) && NoneOf(w[..i - n], 35);
    }
  }

  // ---------------------------------------------------------------- elements

  /** Elements put together again. */
  function WithAmps(elements: seq<bytes>): bytes
    requires elements != []
  {
    if |elements| == 1 then elements[0] else elements[0] + [38] + WithAmps(elements[1..])
  }

  lemma {:induction false} FirstAmpSplits(q: bytes)
    ensures NoneOf(q[..FirstAmp(q)], 38) && (FirstAmp(q) < |q| ==> q[FirstAmp(q)] == 38)
  {
    if q == [] || q[0] == 38 {
    } else {
      FirstAmpSplits(q[1..]);
      var n := FirstAmp(q);
      assert q[..n] == [q[0]] + q[1..][..n - 1];
    }
  }

  /** The elements are what lies between the `&`. */
  lemma {:induction false} ElementsApart(q: bytes)
    ensures Elements(q) != [] && WithAmps(Elements(q)) == q
    ensures forall i :: 0 <= i < |Elements(q)| ==> NoneOf(Elements(q)[i], 38)
    decreases |q|
  {
    hide FirstAmp, NoneOf;
    var n := FirstAmp(q);
    FirstAmpSplits(q);
    assert q[..|q|] == q;
    if n == |q| {
    } else {
      var rest := Elements(q[n + 1..]);
      ElementsApart(q[n + 1..]);
      assert ([q[..n]] + rest)[1..] == rest;
      assert q[..n] + [38] + q[n + 1..] == q;
    }
  }

  lemma OneElement(q: bytes)
    requires NoneOf(q, 38)
    ensures Elements(q) == [q]
  {
    hide FirstAmp;
    assert q[..|q|] == q;
    FirstAmpAt(q, |q|);
  }

  lemma AddedDiffers(d: Dict, name: bytes, value: bytes)
    ensures Added(d, name, value) != d
  {
    var e := Added(d, name, value);
    if name in d { assert |e[name]| == |d[name]| + 1; } else { assert name in e; }
  }

  lemma {:induction false} NoEquals(e: bytes)
    requires NoneOf(e, 61)
    ensures LastEquals(e) == -1
  {
    if e == [] {
    } else {
      NoEquals(e[..|e| - 1]);
    }
  }

  /** An element without `=` gives nothing. */
  lemma MeansNothing(d: Dict, e: bytes)
    requires NoneOf(e, 61)
    ensures AddMeaning(d, Meaning(e)) == d
    ensures NoneOf(e, 38) ==> Query(d, e) == d
  {
    hide Elements, LastEquals;
    NoEquals(e);
    if NoneOf(e, 38) {
      OneElement(e);
      AddOne(d, e, []);
    }
  }

  /** What comes before and behind the last `=` of an element: it gives the name one more value,
      the decoded text, unless one of the two is missing or the text cannot be decoded. */
  lemma ElementMeans(d: Dict, name: bytes, text: bytes)
    requires NoneOf(text, 61)
    ensures var d' := AddMeaning(d, Meaning(name + [61] + text));
      if name == [] || text == [] || Undecodable(text) then d' == d
      else
        && Unescape(text).Some?
        && var (n, v) := (CString(name), CString(Unescape(text).value));
        d' != d && d' == d[n := (if n in d then d[n] else []) + [v]]
  {
    hide Unescape, LastEquals, CString, Undecodable;
    var e := name + [61] + text;
    LastEqualsAt(name, text);
    DecodingFails(text);
    assert e[..|name|] == name && e[|name| + 1..] == text;
    if name != [] && text != [] && !Undecodable(text) {
      AddedDiffers(d, CString(name), CString(Unescape(text).value));
    }
  }

  /** A query of one element adds nothing if and only if it is empty or begins with a NUL, has no
      `=`, has nothing before or nothing behind its last `=`, or cannot be decoded behind it. */
  lemma ElementDropped(d: Dict, e: bytes)
    requires NoneOf(e, 38)
    ensures Query(d, e) == d <==>
      || e == [] || e[0] == 0 || NoneOf(e, 61)
      || exists m :: 0 <= m < |e| && e[m] == 61 && NoneOf(e[m + 1..], 61)
           && (m == 0 || m + 1 == |e| || Undecodable(e[m + 1..]))
  {
    hide Elements, Meaning, AddMeaning, Undecodable;
    if e == [] || e[0] == 0 {
    } else if NoneOf(e, 61) {
      MeansNothing(d, e);
    } else {
      var m := LastMark(e);
      OneElement(e);
      AddOne(d, e, []);
      ElementMeans(d, e[..m], e[m + 1..]);
      assert e == e[..m] + [61] + e[m + 1..];
      forall k | 0 <= k < |e| && e[k] == 61 ensures k < m ==> !NoneOf(e[k + 1..], 61) {
        LaterMark(e, k, m);
      }
      forall k | m < k < |e| ensures e[k] != 61 {
        assert e[k] == e[m + 1..][k - m - 1];
      }
    }
  }

  lemma LaterMark(e: bytes, k: nat, m: nat)
    requires k < |e| && m < |e| && e[m] == 61
    ensures k < m ==> !NoneOf(e[k + 1..], 61)
  {
    if k < m { assert e[k + 1..][m - k - 1] == 61; }
  }

  lemma {:induction false} LastMark(e: bytes) returns (m: nat)
    requires !NoneOf(e, 61)
    ensures m < |e| && e[m] == 61 && NoneOf(e[m + 1..], 61)
    decreases |e|
  {
    if e[|e| - 1] == 61 {
      m := |e| - 1;
    } else {
      var front := e[..|e| - 1];
      assert e == front + [e[|e| - 1]];
      m := LastMark(front);
      assert e[m + 1..] == front[m + 1..] + [e[|e| - 1]];
    }
  }

  // ------------------------------------------------------------ whole queries

  /** A parameter and how its value is written. Names are written as they are. */
  datatype Param = Param(name: bytes, value: bytes, styles: seq<Style>)

  predicate Sendable(p: Param) {
    && p.name != [] && NoneOf(p.name, AMPERSAND) && NoneOf(p.name, 0)
    && p.value != [] && NoneOf(p.value, 0)
    && AllSuit(p.value, p.styles)
  }

  function PrintParam(p: Param): bytes
    requires Sendable(p)
  {
    p.name + [EQUALS] + Encode(p.value, p.styles)
  }

  /** What stands between two `&`: a parameter, or text that is none. */
  datatype Item = Sent(p: Param) | Noise(e: bytes)

  /** Text that is not a parameter: without `=`, with nothing before or behind its last `=`, or
      with something that cannot be decoded behind it. */
  predicate IsNoise(e: bytes) {
    && NoneOf(e, 38)
    && (NoneOf(e, 61)
        || exists m :: 0 <= m < |e| && e[m] == 61 && NoneOf(e[m + 1..], 61)
             && (m == 0 || m + 1 == |e| || Undecodable(e[m + 1..])))
  }

  predicate AllProper(items: seq<Item>) {
    forall i :: 0 <= i < |items| ==> if items[i].Sent? then Sendable(items[i].p) else IsNoise(items[i].e)
  }

  function PrintItem(item: Item): bytes
    requires item.Sent? ==> Sendable(item.p)
  {
    if item.Sent? then PrintParam(item.p) else item.e
  }

  function PrintItems(items: seq<Item>): bytes
    requires items != [] && AllProper(items)
  {
    if |items| == 1 then PrintItem(items[0])
    else PrintItem(items[0]) + [AMPERSAND] + PrintItems(items[1..])
  }

  /** The parameters among them. */
  function Params(items: seq<Item>): seq<Param> {
    if items == [] then []
    else (if items[0].Sent? then [items[0].p] else []) + Params(items[1..])
  }

  function AddParams(d: Dict, params: seq<Param>): Dict
    decreases params
  {
    if params == [] then d else AddParams(Added(d, params[0].name, params[0].value), params[1..])
  }

  lemma {:induction false} LastEqualsAt(a: bytes, b: bytes)
    requires NoneOf(b, EQUALS)
    ensures LastEquals(a + [EQUALS] + b) == |a|
    decreases |b|
  {
    var e := a + [EQUALS] + b;
    if b == [] {
      assert e[|e| - 1] == EQUALS;
    } else {
      assert e[|e| - 1] == b[|b| - 1];
      assert e[..|e| - 1] == a + [EQUALS] + b[..|b| - 1];
      LastEqualsAt(a, b[..|b| - 1]);
    }
  }

  lemma MeaningOfParam(p: Param)
    requires Sendable(p)
    ensures Meaning(PrintParam(p)) == Some((p.name, p.value)) && NoneOf(PrintParam(p), AMPERSAND)
  {
    hide Unescape, LastEquals, CString, Encode;
    var raw, e := Encode(p.value, p.styles), PrintParam(p);
    UnescapeEncode(p.value, p.styles);
    EncodeUnmarked(p.value, p.styles);
    LastEqualsAt(p.name, raw);
    assert e[..|p.name|] == p.name && e[|p.name| + 1..] == raw;
    CStringWhole(p.name);
    CStringWhole(p.value);
  }

  lemma NoiseMeans(d: Dict, e: bytes)
    requires IsNoise(e)
    ensures AddMeaning(d, Meaning(e)) == d
  {
    hide Meaning, AddMeaning, Undecodable;
    if NoneOf(e, 61) {
      MeansNothing(d, e);
    } else {
      var m :| 0 <= m < |e| && e[m] == 61 && NoneOf(e[m + 1..], 61)
        && (m == 0 || m + 1 == |e| || Undecodable(e[m + 1..]));
      ElementMeans(d, e[..m], e[m + 1..]);
      assert e == e[..m] + [61] + e[m + 1..];
    }
  }

  lemma ItemMeans(d: Dict, item: Item)
    requires if item.Sent? then Sendable(item.p) else IsNoise(item.e)
    ensures AddMeaning(d, Meaning(PrintItem(item)))
      == if item.Sent? then Added(d, item.p.name, item.p.value) else d
    ensures NoneOf(PrintItem(item), 38)
  {
    hide Meaning, Sendable, PrintParam;
    if item.Sent? { MeaningOfParam(item.p); } else { NoiseMeans(d, item.e) by { hide AddMeaning; } }
  }

  lemma ParamsFirst(d: Dict, item: Item, rest: seq<Param>)
    ensures AddParams(d, (if item.Sent? then [item.p] else []) + rest)
      == AddParams(if item.Sent? then Added(d, item.p.name, item.p.value) else d, rest)
  {
    if item.Sent? { assert ([item.p] + rest)[1..] == rest; } else { assert [] + rest == rest; }
  }

  lemma {:induction false} ItemsFold(d: Dict, items: seq<Item>)
    requires items != [] && AllProper(items)
    ensures AddAll(d, Elements(PrintItems(items))) == AddParams(d, Params(items))
    decreases items
  {
    hide Sendable, IsNoise, PrintItem, Meaning, AddMeaning, FirstAmp, AddParams;
    var e, q := PrintItem(items[0]), PrintItems(items);
    ItemMeans(d, items[0]);
    var d' := AddMeaning(d, Meaning(e));
    ParamsFirst(d, items[0], Params(items[1..]));
    if |items| == 1 {
      FirstAmpAt(q, |q|) by { assert q[..|q|] == q; }
      assert q[..|q|] == q;
      AddOne(d, e, []);
      assert items[1..] == [];
      NoParams(d');
    } else {
      ItemsFold(d', items[1..]);
      assert q[..|e|] == e && q[|e| + 1..] == PrintItems(items[1..]);
      FirstAmpAt(q, |e|);
      AddOne(d, e, Elements(PrintItems(items[1..])));
    }
  }

  lemma NoParams(d: Dict)
    ensures AddParams(d, []) == d && Params([]) == []
  {
  }

  lemma PrintStarts(p: Param)
    requires Sendable(p)
    ensures PrintParam(p) != [] && PrintParam(p)[0] == p.name[0] != 0
  {
    assert p.name[0] != 0;
  }

  /** Parsing what was printed adds exactly the parameters that were sent, in their order, whatever
      stands between them that is none. */
  lemma QueryRoundTrip(d: Dict, items: seq<Item>)
    requires items != [] && AllProper(items)
    requires items[0].Noise? && items[0].e != [] ==> items[0].e[0] != 0
    ensures Query(d, PrintItems(items)) == AddParams(d, Params(items))
  {
    hide AddAll, Elements, Sendable, IsNoise, PrintParam, AddParams, Params;
    ItemsFold(d, items);
    if items[0].Sent? { PrintStarts(items[0].p); }
    if PrintItems(items) == [] {
      OneElement([]);
      MeansNothing(d, []);
      AddOne(d, [], []);
    }
  }

  // ------------------------------------------------------- values of one name

  function ValuesOf(d: Dict, name: bytes): seq<bytes> { if name in d then d[name] else [] }

  /** The decoded values that the elements give `name`, in order of appearance. */
  function Given(elements: seq<bytes>, name: bytes): seq<bytes> {
    if elements == [] then []
    else
      OneValue(elements[0], name) + Given(elements[1..], name)
  }

  function OneValue(e: bytes, name: bytes): seq<bytes> {
    var m := Meaning(e);
    if m.Some? && m.value.0 == name then [m.value.1] else []
  }

  lemma OneGives(d: Dict, e: bytes, name: bytes)
    ensures ValuesOf(AddMeaning(d, Meaning(e)), name) == ValuesOf(d, name) + OneValue(e, name)
    ensures name in AddMeaning(d, Meaning(e)) <==> name in d || OneValue(e, name) != []
  {
    hide Meaning;
    assert ValuesOf(d, name) + [] == ValuesOf(d, name);
  }

  /** A name's values are its earlier ones followed by those given it, in order. */
  lemma {:induction false} AddAllGives(d: Dict, elements: seq<bytes>, name: bytes)
    ensures ValuesOf(AddAll(d, elements), name) == ValuesOf(d, name) + Given(elements, name)
    ensures name in AddAll(d, elements) <==> name in d || Given(elements, name) != []
    decreases elements
  {
    hide Meaning, OneValue, AddMeaning, ValuesOf;
    if elements != [] {
      var d' := AddMeaning(d, Meaning(elements[0]));
      AddAllGives(d', elements[1..], name);
      OneGives(d, elements[0], name);
      Joined(ValuesOf(d, name), OneValue(elements[0], name), Given(elements[1..], name));
    } else {
      assert ValuesOf(d, name) + [] == ValuesOf(d, name);
    }
  }
}
