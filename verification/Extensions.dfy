/** Chunk extensions: how the code reads and writes lists of `;key="value"`. */
module Extensions {
  import opened Options
  import opened Bytes

  /** A key and a value, either of which may be missing. */
  datatype Meta = Meta(key: Option<bytes>, value: Option<bytes>)

  // ------------------------------------------------------------------- reading

  /** Where the first `=` is, or the length when there is none. */
  function KeyLength(s: bytes): (n: nat)
    ensures n <= |s|
  {
    if s == [] || s[0] == EQUALS then 0 else 1 + KeyLength(s[1..])
  }

  /** How far a value reaches: to the next `;` outside quotes or past the first closing quote. */
  function ValueLength(s: bytes, quote: int): (n: nat)
    ensures n <= |s|
    decreases s
  {
    if s == [] then 0
    else if quote != 0 then
      var q := if s[0] == BACKSLASH then 2 else if s[0] == QUOTE then quote - 1 else quote;
      if q != 0 then 1 + ValueLength(s[1..], q) else 1
    else if s[0] == QUOTE then 1 + ValueLength(s[1..], 1)
    else if s[0] == SEMICOLON then 0
    else 1 + ValueLength(s[1..], 0)
  }

  /** The value spelled by `s`. Outside quotes, the code looks for `;` not at the byte it
      copies but `|s|` bytes after the end of the value: `after` is what memory holds there, in
      the buffer and behind it. */
  function ValueOf(s: bytes, after: bytes, quote: int): bytes
    decreases s
  {
    if s == [] then []
    else if quote != 0 then
      if s[0] == BACKSLASH then ValueOf(s[1..], after, 2)
      else if s[0] == QUOTE then
        if quote - 1 != 0 then [QUOTE] + ValueOf(s[1..], after, quote - 1) else []
      else [s[0]] + ValueOf(s[1..], after, quote)
    else if s[0] == QUOTE then ValueOf(s[1..], after, 1)
    else if |s| < |after| && after[|s|] == SEMICOLON then []
    else [s[0]] + ValueOf(s[1..], after, 0)
  }

  /** The first extension of `s`, which begins with `;`, and how many bytes it takes up;
      `after` follows `s` in memory. */
  function FirstMeta(s: bytes, after: bytes): (r: (Meta, nat))
    requires s != []
    ensures 0 < r.1 <= |s|
  {
    var n := 1 + KeyLength(s[1..]);
    var key := Some(s[1..n]);
    if |s| <= n + 1 then (Meta(key, None), |s|)
    else
      var v := s[n + 1..];
      var m := ValueLength(v, 0);
      (Meta(key, Some(ValueOf(v[..m], v[m..] + after, 0))), n + 1 + m)
  }

  /** The list read from the text `s`, which `after` follows in memory. */
  function ParseList(s: bytes, after: bytes): seq<Meta>
    decreases |s|
  {
    if s == [] || s[0] != SEMICOLON then []
    else
      var (m, n) := FirstMeta(s, after);
      [m] + ParseList(s[n..], after)
  }

  // ------------------------------------------------------------------- writing

  /** The value with a backslash before every quote. */
  function Escape(v: bytes): (s: bytes)
    ensures |s| >= |v|
  {
    if v == [] then []
    else (if v[0] == QUOTE then [BACKSLASH, QUOTE] else [v[0]]) + Escape(v[1..])
  }

  function PrintValue(m: Meta): bytes {
    if m.value.None? || m.value.value == [] then [] else [EQUALS, QUOTE] + Escape(m.value.value) + [QUOTE]
  }

  /** Entries without a key are skipped. */
  function PrintMeta(m: Meta): bytes {
    if m.key.None? then [] else [SEMICOLON] + m.key.value + PrintValue(m)
  }

  function PrintList(ms: seq<Meta>): bytes {
    if ms == [] then [] else PrintMeta(ms[0]) + PrintList(ms[1..])
  }

  // ---------------------------------------------------------------- round trip

  /** An entry that survives: a key without `=`, and a value that is not empty and has no
      backslash. */
  predicate Survives(m: Meta) {
    && m.key.Some? && EQUALS !in m.key.value
    && m.value.Some? && m.value.value != [] && BACKSLASH !in m.value.value
  }

  /** Every entry survives, except that the last may have no value at all. */
  predicate Clean(ms: seq<Meta>) {
    ms == [] ||
    if |ms| == 1 then Survives(ms[0]) || (ms[0].key.Some? && EQUALS !in ms[0].key.value && ms[0].value.None?)
    else Survives(ms[0]) && Clean(ms[1..])
  }

  lemma {:induction false} KeyEnds(key: bytes, more: bytes)
    requires EQUALS !in key && (more == [] || more[0] == EQUALS)
    ensures KeyLength(key + more) == |key|
  {
    if key == [] {
      assert key + more == more;
    } else {
      assert (key + more)[1..] == key[1..] + more;
      KeyEnds(key[1..], more);
    }
  }

  lemma OpenPlain(c: byte, s: bytes, after: bytes)
    requires c != BACKSLASH && c != QUOTE
    ensures ValueLength([c] + s, 1) == 1 + ValueLength(s, 1)
    ensures ValueOf([c] + s, after, 1) == [c] + ValueOf(s, after, 1)
  {
    assert ([c] + s)[1..] == s;
  }

  lemma OpenEscaped(s: bytes, after: bytes)
    ensures ValueLength([BACKSLASH, QUOTE] + s, 1) == 2 + ValueLength(s, 1)
    ensures ValueOf([BACKSLASH, QUOTE] + s, after, 1) == [QUOTE] + ValueOf(s, after, 1)
  {
    var t := [BACKSLASH, QUOTE] + s;
    assert t[1..] == [QUOTE] + s;
    assert t[1..][1..] == s;
    assert ValueLength(t[1..], 2) == 1 + ValueLength(s, 1);
  }

  lemma OpenClosed(s: bytes, after: bytes)
    ensures ValueLength([QUOTE] + s, 1) == 1 && ValueOf([QUOTE] + s, after, 1) == []
  {
  }

  /** An escaped value is read to its closing quote, and yields the value again. */
  lemma EscapeNone(close: bytes)
    ensures Escape([]) == [] && Escape([]) + close == close
  {
  }

  lemma EscapeFirst(v: bytes, close: bytes)
    requires v != []
    ensures v[0] == QUOTE ==>
      Escape(v) + close == [BACKSLASH, QUOTE] + (Escape(v[1..]) + close) && |Escape(v)| == 2 + |Escape(v[1..])|
    ensures v[0] != QUOTE ==>
      Escape(v) + close == [v[0]] + (Escape(v[1..]) + close) && |Escape(v)| == 1 + |Escape(v[1..])|
  {
    var e := if v[0] == QUOTE then [BACKSLASH, QUOTE] else [v[0]];
    assert Escape(v) == e + Escape(v[1..]);
    hide Escape;
    Joined(e, Escape(v[1..]), close);
  }

  lemma {:induction false} Unescape(v: bytes, more: bytes, after: bytes)
    requires BACKSLASH !in v
    ensures ValueLength(Escape(v) + ([QUOTE] + more), 1) == |Escape(v)| + 1
    ensures ValueOf(Escape(v) + ([QUOTE] + more), after, 1) == v
  {
    hide ValueLength, ValueOf, Escape;
    var close := [QUOTE] + more;
    if v == [] {
      OpenClosed(more, after);
      EscapeNone(close);
    } else {
      Unescape(v[1..], more, after);
      var s := Escape(v[1..]) + close;
      EscapeFirst(v, close);
      if v[0] == QUOTE {
        OpenEscaped(s, after);
      } else {
        OpenPlain(v[0], s, after);
      }
      assert v == [v[0]] + v[1..];
    }
  }

  /** Inside quotes a backslash is never copied. */
  lemma {:induction false} NoBackslash(s: bytes, after: bytes, quote: int)
    requires quote == 1 || quote == 2
    ensures BACKSLASH !in ValueOf(s, after, quote)
    decreases s
  {
    if s == [] {
    } else {
      NoBackslash(s[1..], after, 2);
      NoBackslash(s[1..], after, quote);
      NoBackslash(s[1..], after, 1);
    }
  }

  /** A quoted value, read from its opening quote. */
  lemma Quoted(v: bytes, more: bytes, after: bytes)
    requires BACKSLASH !in v
    ensures var s := [QUOTE] + (Escape(v) + ([QUOTE] + more));
      var n := |Escape(v)| + 2;
      ValueLength(s, 0) == n && ValueOf(s[..n], after, 0) == v && s[n..] == more
  {
    var e := Escape(v);
    var s := [QUOTE] + (e + ([QUOTE] + more));
    var n := |e| + 2;
    Unescape(v, more, after);
    Unescape(v, [], after);
    assert s[1..] == e + ([QUOTE] + more);
    assert s[..n] == [QUOTE] + (e + ([QUOTE] + []));
    assert s[..n][1..] == e + ([QUOTE] + []);
  }

  /** The text of an entry with a value, cut where the reader cuts it. */
  lemma MetaText(m: Meta, more: bytes)
    requires m.key.Some? && m.value.Some? && m.value.value != []
    ensures var s := PrintMeta(m) + more;
      var n := |m.key.value| + 1;
      && n + 1 < |s| && s[0] == SEMICOLON
      && s[1..] == m.key.value + ([EQUALS, QUOTE] + Escape(m.value.value) + [QUOTE] + more)
      && s[1..n] == m.key.value
      && s[n + 1..] == [QUOTE] + (Escape(m.value.value) + ([QUOTE] + more))
  {
    hide Escape;
    var key, e := m.key.value, Escape(m.value.value);
    var value := [EQUALS, QUOTE] + e + [QUOTE];
    Joined([SEMICOLON] + key, value, more);
    Joined([SEMICOLON], key, value + more);
    ValueTail(e, more);
    KeyPart(key, value + more);
  }

  lemma ValueTail(e: bytes, more: bytes)
    ensures ([EQUALS, QUOTE] + e + [QUOTE] + more)[1..] == [QUOTE] + (e + ([QUOTE] + more))
  {
    Joined([EQUALS, QUOTE] + e, [QUOTE], more);
    Joined([EQUALS, QUOTE], e, [QUOTE] + more);
  }

  lemma KeyPart(key: bytes, tail: bytes)
    requires |tail| > 1
    ensures var (s, n) := ([SEMICOLON] + (key + tail), |key| + 1);
      n + 1 < |s| && s[0] == SEMICOLON && s[1..] == key + tail && s[1..n] == key && s[n + 1..] == tail[1..]
  {
  }

  /** A surviving entry is read back, whatever follows it. */
  lemma FirstSurvives(m: Meta, more: bytes, after: bytes)
    requires Survives(m)
    ensures PrintMeta(m) + more != []
    ensures FirstMeta(PrintMeta(m) + more, after) == (m, |PrintMeta(m)|)
  {
    hide ValueLength, ValueOf, KeyLength, Escape;
    var key, v := m.key.value, m.value.value;
    MetaText(m, more);
    KeyEnds(key, [EQUALS, QUOTE] + Escape(v) + [QUOTE] + more);
    Quoted(v, more, more + after);
  }

  lemma {:induction false} KeyCut(key: bytes, more: bytes)
    ensures EQUALS in key ==> KeyLength(key + more) < |key|
    ensures EQUALS !in key && more != [] && more[0] != EQUALS ==> KeyLength(key + more) > |key|
  {
    if key == [] {
      assert key + more == more;
    } else {
      assert (key + more)[1..] == key[1..] + more;
      KeyCut(key[1..], more);
    }
  }

  /** An entry that does not survive is read back as something else, unless it is the last
      one and only lacks a value. */
  lemma FirstChanges(m: Meta, more: bytes, after: bytes)
    requires m.key.Some? && !Survives(m) && (more == [] || more[0] == SEMICOLON)
    requires !(more == [] && m.value.None? && EQUALS !in m.key.value)
    ensures PrintMeta(m) + more != []
    ensures FirstMeta(PrintMeta(m) + more, after).0 != m
  {
    hide ValueLength, KeyLength, Escape, ValueOf, PrintMeta;
    var key := m.key.value;
    var s := PrintMeta(m) + more;
    MetaRest(m, more);
    if EQUALS in key {
      KeyCut(key, PrintValue(m) + more);
    } else if m.value.None? || m.value.value == [] {
      BareKeyChanges(m, more, after);
    } else {
      MetaText(m, more);
      KeyEnds(key, PrintValue(m) + more);
      BackslashLost(s[|key| + 2..], after);
    }
  }

  lemma MetaRest(m: Meta, more: bytes)
    requires m.key.Some?
    ensures var s := PrintMeta(m) + more; |s| > |m.key.value| && s[1..] == m.key.value + (PrintValue(m) + more)
  {
    hide PrintValue;
    Joined([SEMICOLON] + m.key.value, PrintValue(m), more);
    Joined([SEMICOLON], m.key.value, PrintValue(m) + more);
  }

  /** A key without a value runs on over the entry behind it; an empty value is read as none. */
  lemma BareKeyChanges(m: Meta, more: bytes, after: bytes)
    requires m.key.Some? && EQUALS !in m.key.value && (m.value.None? || m.value.value == [])
    requires (more == [] || more[0] == SEMICOLON) && !(more == [] && m.value.None?)
    ensures PrintMeta(m) + more != []
    ensures FirstMeta(PrintMeta(m) + more, after).0 != m
  {
    hide ValueLength, KeyLength, ValueOf, PrintMeta;
    var key := m.key.value;
    MetaRest(m, more);
    assert PrintValue(m) + more == more;
    KeyCut(key, more);
    KeyEnds(key, []);
    assert key + [] == key;
  }

  lemma BackslashLost(v: bytes, after: bytes)
    requires v != [] && v[0] == QUOTE
    ensures var m := ValueLength(v, 0); BACKSLASH !in ValueOf(v[..m], v[m..] + after, 0)
  {
    var m := ValueLength(v, 0);
    NoBackslash(v[..m][1..], v[m..] + after, 1);
  }

  lemma PrintStart(ms: seq<Meta>)
    requires forall i :: 0 <= i < |ms| ==> ms[i].key.Some?
    ensures PrintList(ms) == [] <==> ms == []
    ensures ms != [] ==> PrintList(ms)[0] == SEMICOLON
  {
  }

  lemma ParseNone(after: bytes)
    ensures ParseList([], after) == []
  {
  }

  /** Reading a list is reading its first entry and then the rest. */
  lemma ParseStep(s: bytes, after: bytes)
    requires s != [] && s[0] == SEMICOLON
    ensures var (m, n) := FirstMeta(s, after); ParseList(s, after) == [m] + ParseList(s[n..], after)
  {
    hide FirstMeta;
  }

  lemma SameRest<T>(s: seq<T>, t: seq<T>)
    requires s != []
    ensures [s[0]] + t == s <==> t == s[1..]
  {
    assert ([s[0]] + t)[1..] == t;
    assert s == [s[0]] + s[1..];
  }

  /** A printed list is read back as it was if and only if it is clean. */
  lemma {:induction false} RoundTrip(ms: seq<Meta>, after: bytes)
    requires forall i :: 0 <= i < |ms| ==> ms[i].key.Some?
    ensures ParseList(PrintList(ms), after) == ms <==> Clean(ms)
  {
    hide FirstMeta, PrintMeta, Survives, ParseList;
    if ms == [] {
      ParseNone(after);
    } else {
      var m, rest := ms[0], ms[1..];
      var more := PrintList(rest);
      var s := PrintMeta(m) + more;
      PrintStart(ms);
      PrintStart(rest);
      ParseStep(s, after);
      if Survives(m) {
        FirstSurvives(m, more, after);
        assert s[|PrintMeta(m)|..] == more;
        RoundTrip(rest, after);
        SameRest(ms, ParseList(more, after));
      } else if rest == [] && m.value.None? && EQUALS !in m.key.value {
        LastBare(m, after);
        assert s == PrintMeta(m) && ms == [m];
      } else {
        FirstChanges(m, more, after);
      }
    }
  }

  lemma AloneClean(m: Meta)
    requires Survives(m)
    ensures Clean([m])
  {
  }

  /** `;a;b="c"`, printed from a key `a` without a value and `b="c"`, is read as the one key `a;b`. */
  lemma KeyRunsOver()
    ensures var ms := [Meta(Some([97]), None), Meta(Some([98]), Some([99]))];
      && PrintList(ms) == [59, 97, 59, 98, 61, 34, 99, 34]
      && forall after :: ParseList(PrintList(ms), after) == [Meta(Some([97, 59, 98]), Some([99]))]
  {
    hide ParseList, Clean;
    var b := Meta(Some([98]), Some([99]));
    var ms := [Meta(Some([97]), None), b];
    var merged := Meta(Some([97, 59, 98]), Some([99]));
    assert ms[1..] == [b] && [b][1..] == [] && Escape([99]) == [99];
    assert PrintList([b]) == PrintMeta(b) + [] == [59, 98, 61, 34, 99, 34];
    assert PrintList(ms) == [59, 97] + PrintList([b]) == PrintMeta(merged) == PrintMeta(merged) + [];
    assert [merged][1..] == [] && PrintList([merged]) == PrintMeta(merged) + [];
    assert Clean([merged]) by { AloneClean(merged); }
    forall after ensures ParseList(PrintList(ms), after) == [merged] {
      RoundTrip([merged], after);
    }
  }

  lemma LastBare(m: Meta, after: bytes)
    requires m.key.Some? && EQUALS !in m.key.value && m.value.None?
    ensures ParseList(PrintMeta(m), after) == [m]
  {
    var s := PrintMeta(m);
    assert s[1..] == m.key.value;
    KeyEnds(m.key.value, []);
    assert m.key.value + [] == m.key.value;
    assert s[|s|..] == [];
  }

  // --------------------------------------------------------------- any values

  /** A text without its backslashes. */
  function Unslashed(t: bytes): bytes {
    if t == [] then [] else (if t[0] == 92 then [] else [t[0]]) + Unslashed(t[1..])
  }

  /** One byte inside quotes. */
  lemma QuotedByte(c: byte, s: bytes, after: bytes, quote: int)
    requires quote == 1 || quote == 2
    ensures c == 92 ==>
      && ValueLength([c] + s, quote) == 1 + ValueLength(s, 2)
      && ValueOf([c] + s, after, quote) == ValueOf(s, after, 2)
    ensures c != 92 && c != 34 ==>
      && ValueLength([c] + s, quote) == 1 + ValueLength(s, quote)
      && ValueOf([c] + s, after, quote) == [c] + ValueOf(s, after, quote)
    ensures c == 34 ==>
      && ValueLength([c] + s, quote) == 1 + (if quote == 2 then ValueLength(s, 1) else 0)
      && ValueOf([c] + s, after, quote) == if quote == 2 then [c] + ValueOf(s, after, 1) else []
  {
    assert ([c] + s)[1..] == s;
  }

  lemma NoneQuoted(after: bytes, quote: int)
    ensures ValueLength([], quote) == 0 && ValueOf([], after, quote) == []
  {
  }

  /** Inside quotes, up to the next quote: backslashes are dropped, wherever they stand. The quote
      closes the value, unless a backslash has come since the last one; then it is part of it. */
  lemma {:induction false} QuotedRun(t: bytes, more: bytes, after: bytes, quote: int)
    requires 34 !in t && (quote == 1 || quote == 2)
    ensures ValueLength(t, quote) == |t| && ValueOf(t, after, quote) == Unslashed(t)
    ensures var (s, open) := (t + [34] + more, quote == 2 || 92 in t);
      && ValueLength(s, quote) == |t| + 1 + (if open then ValueLength(more, 1) else 0)
      && ValueOf(s, after, quote) == Unslashed(t) + if open then [34] + ValueOf(more, after, 1) else []
    decreases t
  {
    hide ValueLength, ValueOf, Unslashed;
    UnslashFirst(t);
    if t == [] {
      assert t + [34] + more == [34] + more && 92 !in t;
      NoneQuoted(after, quote);
      QuotedByte(34, more, after, quote);
      AfterNothing(if quote == 2 then [34] + ValueOf(more, after, 1) else []);
    } else {
      var rest, open := t[1..], quote == 2 || 92 in t;
      Joined([t[0]], rest, [34]);
      Joined([t[0]], rest + [34], more);
      assert t == [t[0]] + rest;
      QuotedByte(t[0], rest + [34] + more, after, quote);
      QuotedByte(t[0], rest, after, quote);
      QuotedRun(rest, more, after, if t[0] == 92 then 2 else quote);
      Joined([t[0]], Unslashed(rest), if open then [34] + ValueOf(more, after, 1) else []);
    }
  }

  lemma AfterNothing(t: bytes)
    ensures [] + t == t
  {
  }

  lemma UnslashFirst(t: bytes)
    ensures t == [] ==> Unslashed(t) == []
    ensures t != [] ==> Unslashed(t) == if t[0] == 92 then Unslashed(t[1..]) else [t[0]] + Unslashed(t[1..])
  {
  }

  /** Outside quotes a value reaches to the first `;`, or through the quotes that come first. */
  lemma {:induction false} OpenLength(p: bytes, more: bytes)
    requires 34 !in p && 59 !in p
    ensures ValueLength(p + more, 0) == |p| + ValueLength(more, 0)
    ensures more == [] || more[0] == 59 ==> ValueLength(more, 0) == 0
    ensures more != [] && more[0] == 34 ==> ValueLength(more, 0) == 1 + ValueLength(more[1..], 1)
  {
    if p == [] {
      assert p + more == more;
    } else {
      assert (p + more)[1..] == p[1..] + more;
      OpenLength(p[1..], more);
    }
  }

  /** Outside quotes bytes are copied as they are, unless the code comes upon a `;` as far behind the
      value as there are bytes left of it. */
  lemma {:induction false} OpenCopied(p: bytes, more: bytes, after: bytes)
    requires 34 !in p && forall j :: |more| < j <= |p| + |more| && j < |after| ==> after[j] != 59
    ensures ValueOf(p + more, after, 0) == p + ValueOf(more, after, 0)
    ensures more != [] && more[0] == 34 ==> ValueOf(more, after, 0) == ValueOf(more[1..], after, 1)
    ensures more != [] && more[0] != 34 && |more| < |after| && after[|more|] == 59 ==> ValueOf(more, after, 0) == []
  {
    if p == [] {
      assert p + more == more;
    } else {
      assert (p + more)[1..] == p[1..] + more;
      OpenCopied(p[1..], more, after);
      assert p == [p[0]] + p[1..];
    }
  }

  /** One entry: its key up to the first `=`, and the value behind it, if there is anything. */
  lemma FirstParts(key: bytes, v: bytes, after: bytes)
    requires 61 !in key
    ensures FirstMeta([59] + key, after) == (Meta(Some(key), None), |key| + 1)
    ensures var (s, m) := ([59] + key + [61] + v, ValueLength(v, 0));
      FirstMeta(s, after)
        == if v == [] then (Meta(Some(key), None), |s|)
           else (Meta(Some(key), Some(ValueOf(v[..m], v[m..] + after, 0))), |key| + 2 + m)
  {
    hide ValueLength, ValueOf, KeyLength;
    var s, t := [59] + key + [61] + v, [59] + key;
    assert s[1..] == key + ([61] + v) && t[1..] == key == key + [];
    KeyEnds(key, [61] + v);
    KeyEnds(key, []);
    assert s[1..|key| + 1] == key && t[1..|key| + 1] == key;
    if v != [] { assert s[|key| + 2..] == v; }
  }

  /** A value in quotes ends at the closing one, and what stands between it and the next `;` ends
      the list. */
  lemma QuotesEnd(key: bytes, t: bytes, tail: bytes, after: bytes)
    requires 61 !in key && 34 !in t && 92 !in t && (tail == [] || tail[0] != 59)
    ensures ParseList([59] + key + [61] + ([34] + (t + [34] + tail)), after) == [Meta(Some(key), Some(t))]
  {
    hide ValueLength, ValueOf, FirstMeta, Unslashed;
    var v, m := [34] + (t + [34] + tail), |t| + 2;
    var s := [59] + key + [61] + v;
    assert v == [] + v && v[1..] == t + [34] + tail;
    OpenLength([], v);
    QuotedRun(t, tail, [], 1);
    var w := v[..m];
    assert w == [34] + (t + [34] + []) && w[1..] == t + [34] + [] && w == [] + w;
    OpenCopied([], w, v[m..] + after);
    QuotedRun(t, [], v[m..] + after, 1);
    Unslash(t);
    assert 92 !in t && ValueLength(v, 0) == m;
    assert ValueOf(w, v[m..] + after, 0) == [] + ValueOf(w, v[m..] + after, 0);
    assert ValueOf(w, v[m..] + after, 0) == t + [] == t;
    FirstParts(key, v, after);
    ParseStep(s, after);
    assert s[|key| + 2 + m..] == tail;
    TailEnds(tail, after);
  }

  lemma TailEnds(tail: bytes, after: bytes)
    requires tail == [] || tail[0] != 59
    ensures ParseList(tail, after) == []
  {
  }

  lemma {:induction false} Unslash(t: bytes)
    requires 92 !in t
    ensures Unslashed(t) == t
  {
    if t == [] {
    } else {
      Unslash(t[1..]);
    }
  }

  /** In `;a="b"c;d=e` the entry `d` is never read. */
  lemma TailLost(after: bytes)
    ensures ParseList([59, 97, 61, 34, 98, 34, 99, 59, 100, 61, 101], after) == [Meta(Some([97]), Some([98]))]
  {
    var s := [59] + [97] + [61] + ([34] + ([98] + [34] + [99, 59, 100, 61, 101]));
    assert s == [59, 97, 61, 34, 98, 34, 99, 59, 100, 61, 101];
    QuotesEnd([97], [98], [99, 59, 100, 61, 101], after);
  }

  // ------------------------------------------------------------ unquoted values

  /** No `;` lies where the code looks for one while it copies `n` unquoted bytes. */
  predicate Undisturbed(n: nat, after: bytes) {
    forall j :: 1 <= j <= n && j < |after| ==> after[j] != SEMICOLON
  }

  /** A value without quotes is copied whole if and only if no `;` lies among the bytes 1 to
      |v| behind it; otherwise its end is lost. */
  lemma {:induction false} UnquotedValue(v: bytes, after: bytes)
    requires QUOTE !in v
    ensures ValueOf(v, after, 0) <= v
    ensures ValueOf(v, after, 0) == v <==> Undisturbed(|v|, after)
  {
    if v == [] {
    } else {
      UnquotedValue(v[1..], after);
      assert v == [v[0]] + v[1..];
    }
  }

  lemma {:induction false} UnquotedLength(v: bytes, more: bytes)
    requires QUOTE !in v && SEMICOLON !in v && (more == [] || more[0] == SEMICOLON)
    ensures ValueLength(v + more, 0) == |v|
  {
    if v == [] {
      assert v + more == more;
    } else {
      assert (v + more)[1..] == v[1..] + more;
      UnquotedLength(v[1..], more);
    }
  }

  /** An entry whose value needs no quotes, and is given none. */
  predicate Bare(m: Meta) {
    && m.key.Some? && EQUALS !in m.key.value
    && m.value.Some? && m.value.value != [] && QUOTE !in m.value.value && SEMICOLON !in m.value.value
  }

  function BareText(m: Meta): bytes
    requires Bare(m)
  {
    [SEMICOLON] + m.key.value + [EQUALS] + m.value.value
  }

  lemma BareParts(m: Meta, more: bytes)
    requires Bare(m)
    ensures var (s, n) := (BareText(m) + more, |m.key.value| + 1);
      && s[0] == SEMICOLON && n + 1 < |s| && s[1..n] == m.key.value
      && s[1..] == m.key.value + ([EQUALS] + (m.value.value + more)) && s[n + 1..] == m.value.value + more
  {
    var key, v := m.key.value, m.value.value;
    Joined([SEMICOLON] + key, [EQUALS], v);
    Joined([SEMICOLON] + key, [EQUALS] + v, more);
    Joined([EQUALS], v, more);
    Joined([SEMICOLON], key, [EQUALS] + (v + more));
    assert BareText(m) + more == [SEMICOLON] + (key + ([EQUALS] + (v + more)));
  }

  /** An unquoted entry is read back if and only if what follows it does not disturb it. */
  lemma BareFirst(m: Meta, more: bytes, after: bytes)
    requires Bare(m) && (more == [] || more[0] == SEMICOLON)
    ensures BareText(m) + more != []
    ensures var (first, used) := FirstMeta(BareText(m) + more, after);
      && used == |BareText(m)| && first == Meta(m.key, Some(ValueOf(m.value.value, more + after, 0)))
      && first.value.value <= m.value.value
      && (first == m <==> Undisturbed(|m.value.value|, more + after))
  {
    hide ValueLength, ValueOf, KeyLength, BareText, Undisturbed;
    var key, v := m.key.value, m.value.value;
    BareParts(m, more);
    KeyEnds(key, [EQUALS] + (v + more));
    UnquotedLength(v, more);
    assert (v + more)[..|v|] == v && (v + more)[|v|..] == more;
    UnquotedValue(v, more + after);
    assert |BareText(m)| == 2 + |key| + |v| by { BareSize(m); }
  }

  lemma BareSize(m: Meta)
    requires Bare(m)
    ensures |BareText(m)| == 2 + |m.key.value| + |m.value.value| && BareText(m)[0] == SEMICOLON
  {
  }

  predicate AllBare(ms: seq<Meta>) {
    forall i :: 0 <= i < |ms| ==> Bare(ms[i])
  }

  function BareList(ms: seq<Meta>): bytes
    requires AllBare(ms)
  {
    if ms == [] then [] else BareText(ms[0]) + BareList(ms[1..])
  }

  /** No entry of the list is disturbed by the text of the entries and the memory behind it. */
  predicate Peaceful(ms: seq<Meta>, after: bytes)
    requires AllBare(ms)
  {
    ms == [] || (Undisturbed(|ms[0].value.value|, BareList(ms[1..]) + after) && Peaceful(ms[1..], after))
  }

  /** A list of unquoted entries is read back as it was if and only if none is disturbed. */
  lemma {:induction false} BareRoundTrip(ms: seq<Meta>, after: bytes)
    requires AllBare(ms)
    ensures ParseList(BareList(ms), after) == ms <==> Peaceful(ms, after)
  {
    hide FirstMeta, BareText, Bare, Undisturbed, ParseList;
    if ms == [] {
      ParseNone(after);
    } else {
      var m, rest := ms[0], ms[1..];
      var more := BareList(rest);
      if rest != [] { BareSize(rest[0]); }
      BareSize(m);
      BareFirst(m, more, after);
      ParseStep(BareText(m) + more, after);
      assert (BareText(m) + more)[|BareText(m)|..] == more;
      BareRoundTrip(rest, after);
      SameRest(ms, ParseList(more, after));
    }
  }

  /** In `;a=bcde;x=1;y=2` the value of `a` is lost: while its first byte is copied, the code
      looks four bytes behind the value and finds the `;` before `y`. */
  lemma ValueLost()
    ensures FirstMeta([59, 97, 61, 98, 99, 100, 101, 59, 120, 61, 49, 59, 121, 61, 50], [CR, LF]).0
      == Meta(Some([97]), Some([]))
  {
    hide FirstMeta, ValueOf, Undisturbed;
    var m, more: bytes := Meta(Some([97]), Some([98, 99, 100, 101])), [59, 120, 61, 49, 59, 121, 61, 50];
    assert BareText(m) + more == [59, 97, 61, 98, 99, 100, 101, 59, 120, 61, 49, 59, 121, 61, 50];
    BareFirst(m, more, [CR, LF]);
    StopsAtOnce(m.value.value, more + [CR, LF]);
  }

  lemma StopsAtOnce(v: bytes, after: bytes)
    requires v != [] && v[0] != QUOTE && |v| < |after| && after[|v|] == SEMICOLON
    ensures ValueOf(v, after, 0) == []
  {
  }
}
