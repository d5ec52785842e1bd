/** The text of one chunk as the writer produces it, and how the header scan reads it. */
module ChunkText {
  import opened Options
  import opened Bytes
  import opened ChunkedStream
  import opened Extensions
  import opened StreamContents

  /** A byte that means nothing to the header scan once extensions have begun. */
  predicate IsPlain(c: byte) { c != QUOTE && c != CR && c != LF }

  /** An entry whose text the header scan passes over: its key keeps clear of quotes and line
      ends, its value of backslashes. Line ends inside the value do not matter. */
  predicate IsTame(m: Meta) {
    && m.key.Some? && (forall j :: 0 <= j < |m.key.value| ==> IsPlain(m.key.value[j]))
    && (m.value.Some? ==> BACKSLASH !in m.value.value)
  }

  predicate AllTame(ms: seq<Meta>) {
    forall i :: 0 <= i < |ms| ==> IsTame(ms[i])
  }

  /** `t` lies in `s` at position `i`. */
  predicate Lies(t: bytes, s: bytes, i: nat) {
    i + |t| <= |s| && s[i..i + |t|] == t
  }

  lemma LiesSplit(a: bytes, b: bytes, s: bytes, i: nat)
    requires Lies(a + b, s, i)
    ensures Lies(a, s, i) && Lies(b, s, i + |a|)
  {
    assert s[i..i + |a|] == (a + b)[..|a|] == a;
    assert s[i + |a|..i + |a| + |b|] == (a + b)[|a|..] == b;
  }

  lemma {:induction false} ScanPlain(t: bytes, s: bytes, i: nat, sc: Scanner)
    requires Lies(t, s, i) && sc.quote == 0
    requires forall j :: 0 <= j < |t| ==> IsPlain(t[j]) && (t[j] == SEMICOLON ==> sc.ext != -1)
    ensures ScanFrom(s, i, sc) == ScanFrom(s, i + |t|, sc)
  {
    if t == [] {
    } else {
      assert t == [t[0]] + t[1..];
      LiesSplit([t[0]], t[1..], s, i);
      assert s[i] == s[i..i + 1][0] == t[0];
      ScanPlain(t[1..], s, i + 1, sc);
    }
  }

  lemma {:induction false} ScanEscaped(v: bytes, s: bytes, i: nat, sc: Scanner)
    requires Lies(Escape(v), s, i) && sc.quote == 1 && BACKSLASH !in v
    ensures ScanFrom(s, i, sc) == ScanFrom(s, i + |Escape(v)|, sc)
  {
    if v == [] {
    } else {
      var e := Escape(v[1..]);
      if v[0] == QUOTE {
        LiesSplit([BACKSLASH, QUOTE], e, s, i);
        assert s[i] == s[i..i + 2][0] == BACKSLASH && s[i + 1] == s[i..i + 2][1] == QUOTE;
        ScanEscaped(v[1..], s, i + 2, sc);
        assert ScanFrom(s, i + 1, sc.(quote := 2)) == ScanFrom(s, i + 2, sc);
      } else {
        LiesSplit([v[0]], e, s, i);
        assert s[i] == s[i..i + 1][0] == v[0];
        ScanEscaped(v[1..], s, i + 1, sc);
      }
    }
  }

  /** Inside quotes the scan passes over everything up to the next quote, line ends included. The
      quote closes, unless a backslash has come since the last one. */
  lemma {:induction false} ScanQuoted(t: bytes, s: bytes, i: nat, sc: Scanner)
    requires 34 !in t && (sc.quote == 1 || sc.quote == 2) && Lies(t + [34], s, i)
    ensures ScanFrom(s, i, sc)
      == ScanFrom(s, i + |t| + 1, sc.(quote := if sc.quote == 2 || 92 in t then 1 else 0))
    decreases |t|
  {
    assert s[i] == s[i..i + |t| + 1][0] == (t + [34])[0];
    if t == [] {
    } else {
      LiesSplit([t[0]], t[1..] + [34], s, i) by { assert [t[0]] + (t[1..] + [34]) == t + [34]; }
      assert t == [t[0]] + t[1..];
      ScanQuoted(t[1..], s, i + 1, if t[0] == 92 then sc.(quote := 2) else sc);
    }
  }

  lemma LiesAt(t: bytes, s: bytes, i: nat, j: nat)
    requires Lies(t, s, i) && j < |t|
    ensures s[i + j] == t[j]
  {
    assert s[i..i + |t|][j] == t[j];
  }

  /** One step of the scan. */
  lemma ScanStep(s: bytes, i: nat, sc: Scanner)
    requires i < |s| && !Ends(sc, s[i], i)
    ensures ScanFrom(s, i, sc) == ScanFrom(s, i + 1, Advance(sc, s[i], i))
  {
  }

  /** The `="` that opens a value. */
  lemma ScanOpen(s: bytes, i: nat, sc: Scanner)
    requires Lies([EQUALS, QUOTE], s, i) && sc.quote == 0
    ensures ScanFrom(s, i, sc) == ScanFrom(s, i + 2, sc.(quote := 1))
  {
    hide ScanFrom, Lies;
    LiesFits([EQUALS, QUOTE], s, i);
    LiesAt([EQUALS, QUOTE], s, i, 0);
    LiesAt([EQUALS, QUOTE], s, i, 1);
    ScanStep(s, i, sc);
    ScanStep(s, i + 1, sc);
  }

  lemma LiesFits(t: bytes, s: bytes, i: nat)
    requires Lies(t, s, i)
    ensures i + |t| <= |s|
  {
  }

  lemma ScanValue(m: Meta, s: bytes, i: nat, sc: Scanner)
    requires IsTame(m) && Lies(PrintValue(m), s, i) && sc.quote == 0
    ensures ScanFrom(s, i, sc) == ScanFrom(s, i + |PrintValue(m)|, sc)
  {
    hide ScanFrom, Lies, Escape;
    if PrintValue(m) != [] {
      var v := m.value.value;
      var n := |Escape(v)|;
      LiesSplit([EQUALS, QUOTE] + Escape(v), [QUOTE], s, i);
      LiesSplit([EQUALS, QUOTE], Escape(v), s, i);
      ScanOpen(s, i, sc);
      ScanEscaped(v, s, i + 2, sc.(quote := 1));
      LiesFits([QUOTE], s, i + 2 + n);
      LiesAt([QUOTE], s, i + 2 + n, 0);
      ScanStep(s, i + 2 + n, sc.(quote := 1));
    }
  }

  lemma ScanMeta(m: Meta, s: bytes, i: nat, sc: Scanner)
    requires IsTame(m) && Lies(PrintMeta(m), s, i) && sc.quote == 0
    ensures ScanFrom(s, i, sc) == ScanFrom(s, i + |PrintMeta(m)|, sc.(ext := if sc.ext == -1 then i else sc.ext))
  {
    hide Escape, ScanFrom, Lies, PrintValue;
    var key := m.key.value;
    var sc' := sc.(ext := if sc.ext == -1 then i else sc.ext);
    LiesSplit([SEMICOLON] + key, PrintValue(m), s, i);
    LiesSplit([SEMICOLON], key, s, i);
    LiesFits([SEMICOLON], s, i);
    LiesAt([SEMICOLON], s, i, 0);
    ScanStep(s, i, sc);
    hide IsTame, IsPlain;
    TameKey(m);
    ScanPlain(key, s, i + 1, sc');
    ScanValue(m, s, i + 1 + |key|, sc');
  }

  lemma TameKey(m: Meta)
    requires IsTame(m)
    ensures forall j :: 0 <= j < |m.key.value| ==> IsPlain(m.key.value[j])
  {
  }

  lemma {:induction false} ScanList(ms: seq<Meta>, s: bytes, i: nat, sc: Scanner)
    requires AllTame(ms) && Lies(PrintList(ms), s, i) && sc.quote == 0
    ensures ScanFrom(s, i, sc)
      == ScanFrom(s, i + |PrintList(ms)|, sc.(ext := if sc.ext == -1 && ms != [] then i else sc.ext))
  {
    hide PrintMeta, IsTame;
    if ms == [] {
    } else {
      LiesSplit(PrintMeta(ms[0]), PrintList(ms[1..]), s, i);
      ScanMeta(ms[0], s, i, sc);
      ScanList(ms[1..], s, i + |PrintMeta(ms[0])|, sc.(ext := if sc.ext == -1 then i else sc.ext));
    }
  }

  /** The header the writer puts before a body of `n` bytes. */
  function HeadText(n: nat, ms: seq<Meta>): bytes {
    PrintHex(n) + PrintList(ms) + [CR, LF]
  }

  /** The scan finds the end of a printed header and where its extensions begin, even when
      values contain line ends. */
  lemma ScanHead(n: nat, ms: seq<Meta>, rest: bytes)
    requires AllTame(ms)
    ensures var (h, e) := (|PrintHex(n)|, |PrintList(ms)|);
      Scan(HeadText(n, ms) + rest) == Some(Header(if ms == [] then -1 else h, h + e, h + e + 1))
  {
    hide PrintList, AllTame, PrintHex;
    var hex, text := PrintHex(n), PrintList(ms);
    var s := HeadText(n, ms) + rest;
    assert Lies(hex + text + [CR, LF], s, 0);
    LiesSplit(hex + text, [CR, LF], s, 0);
    LiesSplit(hex, text, s, 0);
    var i := |hex| + |text|;
    assert s[i] == s[i..i + 2][0] == CR && s[i + 1] == s[i..i + 2][1] == LF;
    ScanPlain(hex, s, 0, FRESH);
    ScanList(ms, s, |hex|, FRESH);
    var sc := FRESH.(ext := if ms != [] then |hex| else -1);
    assert ScanFrom(s, i, sc) == ScanFrom(s, i + 1, sc.(cr := i));
  }

  // ------------------------------------------------------------ chunks and streams

  /** A chunk as it was written: `closing` if the call had no buffer. */
  datatype Chunk = Chunk(body: bytes, metas: seq<Meta>, closing: bool)

  /** Behind a closing chunk the writer puts one CR LF more than the grammar asks for. */
  function Surplus(c: Chunk): bytes { if c.closing then [CR, LF] else [] }

  function ChunkBytes(c: Chunk): bytes {
    HeadText(|c.body|, c.metas) + c.body + [CR, LF] + Surplus(c)
  }

  function Concat(cs: seq<Chunk>): bytes {
    if cs == [] then [] else ChunkBytes(cs[0]) + Concat(cs[1..])
  }

  function Bodies(cs: seq<Chunk>): bytes {
    if cs == [] then [] else cs[0].body + Bodies(cs[1..])
  }

  function MetasOf(cs: seq<Chunk>): seq<Meta> {
    if cs == [] then [] else cs[0].metas + MetasOf(cs[1..])
  }

  /** Some chunk has no body, and so ends the stream. */
  predicate Closed(cs: seq<Chunk>) {
    exists i :: 0 <= i < |cs| && cs[i].body == []
  }

  /** The bodies before the first chunk without one. */
  function Delivered(cs: seq<Chunk>): bytes {
    if cs == [] || cs[0].body == [] then [] else cs[0].body + Delivered(cs[1..])
  }

  /** The meta data up to the first chunk without a body. */
  function Announced(cs: seq<Chunk>): seq<Meta> {
    if cs == [] then []
    else if cs[0].body == [] then cs[0].metas
    else cs[0].metas + Announced(cs[1..])
  }

  /** The text up to the end of the first chunk without a body. */
  function Through(cs: seq<Chunk>): bytes {
    if cs == [] then []
    else if cs[0].body == [] then LastText(cs[0].metas)
    else ChunkBytes(cs[0]) + Through(cs[1..])
  }

  /** The last chunk as the grammar asks for it. */
  function LastText(metas: seq<Meta>): bytes { HeadText(0, metas) + [CR, LF] }

  /** What has been written behind the first chunk without a body. */
  function Behind(cs: seq<Chunk>): bytes {
    if cs == [] then []
    else if cs[0].body == [] then Surplus(cs[0]) + Concat(cs[1..])
    else Behind(cs[1..])
  }

  /** No body comes after a chunk without one. */
  predicate NoneLate(cs: seq<Chunk>) {
    forall i, j :: 0 <= i < j < |cs| && cs[i].body == [] ==> cs[j].body == []
  }

  lemma {:induction false} NoBodies(cs: seq<Chunk>)
    ensures Bodies(cs) == [] <==> forall i :: 0 <= i < |cs| ==> cs[i].body == []
  {
    if cs == [] {
    } else {
      NoBodies(cs[1..]);
      assert forall i :: 1 <= i < |cs| ==> cs[i] == cs[1..][i - 1];
      assert forall i :: 0 <= i < |cs[1..]| ==> cs[1..][i] == cs[i + 1];
    }
  }

  /** The bodies before the first chunk without one are the first of all bodies, and are all of
      them if and only if none comes later. */
  lemma {:induction false} DeliversAll(cs: seq<Chunk>)
    ensures Delivered(cs) <= Bodies(cs)
    ensures Delivered(cs) == Bodies(cs) <==> NoneLate(cs)
  {
    if cs == [] {
    } else {
      var rest := cs[1..];
      DeliversAll(rest);
      NoBodies(rest);
      LateFirst(cs);
      if cs[0].body != [] {
        assert cs[0].body + Delivered(rest) == cs[0].body + Bodies(rest) <==> Delivered(rest) == Bodies(rest) by {
          SameTail(cs[0].body, Delivered(rest), Bodies(rest));
        }
      }
    }
  }

  lemma SameTail<T>(a: seq<T>, s: seq<T>, t: seq<T>)
    ensures a + s == a + t <==> s == t
  {
    assert (a + s)[|a|..] == s && (a + t)[|a|..] == t;
  }

  lemma LateFirst(cs: seq<Chunk>)
    requires cs != []
    ensures cs[0].body == [] ==> (NoneLate(cs) <==> forall i :: 0 <= i < |cs[1..]| ==> cs[1..][i].body == [])
    ensures cs[0].body != [] ==> (NoneLate(cs) <==> NoneLate(cs[1..]))
  {
    var rest := cs[1..];
    assert forall i :: 1 <= i < |cs| ==> cs[i] == rest[i - 1];
    assert forall i :: 0 <= i < |rest| ==> rest[i] == cs[i + 1];
  }

  /** A printed header announces its size and ends where the body begins. */
  lemma HeadDecodes(n: nat, ms: seq<Meta>, rest: bytes)
    requires AllTame(ms) && n + 2 < WORD
    ensures var s := HeadText(n, ms) + rest;
      StartsWithHeader(s) && HeadSize(s) == n && AfterHead(s) == rest
  {
    hide Scan, AllTame, PrintList;
    var s := HeadText(n, ms) + rest;
    var hex, text := PrintHex(n), PrintList(ms);
    ScanHead(n, ms, rest);
    HexNatPrints(n);
    assert hex <= hex + (text + [CR, LF] + rest) == s;
    PrintedEmpty(ms);
    assert s[..|hex|] == hex;
    assert s[|hex| + |text| + 2..] == rest;
  }

  lemma PrintedEmpty(ms: seq<Meta>)
    ensures ms == [] ==> PrintList(ms) == []
  {
  }

  lemma ChunkDecodes(c: Chunk, rest: bytes)
    requires AllTame(c.metas) && c.body != [] && !c.closing && |c.body| + 2 < WORD && WellFormed(0, rest)
    ensures WellFormed(0, ChunkBytes(c) + rest)
    ensures Body(0, ChunkBytes(c) + rest) == c.body + Body(0, rest)
  {
    hide WellFormed, Body, StartsWithHeader, HeadSize, AfterHead, HeadText;
    var n := |c.body|;
    var t := c.body + [CR, LF] + rest;
    var s := HeadText(n, c.metas) + t;
    assert s == ChunkBytes(c) + rest;
    HeadDecodes(n, c.metas, t);
    WellFormedHead(s);
    WellFormedBody(n + 2, t);
    assert t[n + 2..] == rest && t[..n] == c.body;
  }

  /** The last chunk decodes to nothing, whatever lies behind it. */
  lemma LastDecodes(metas: seq<Meta>, tail: bytes)
    requires AllTame(metas)
    ensures WellFormed(0, LastText(metas) + tail) && Body(0, LastText(metas) + tail) == []
  {
    hide WellFormed, Body, StartsWithHeader, HeadSize, AfterHead, HeadText;
    var t := [CR, LF] + tail;
    var s := HeadText(0, metas) + t;
    assert s == LastText(metas) + tail;
    HeadDecodes(0, metas, t);
    WellFormedHead(s);
  }

  /** Chunks as calls make them: tame, of a length that can be counted, and a closing one has no
      body. */
  predicate Regular(cs: seq<Chunk>) {
    forall i :: 0 <= i < |cs| ==>
      AllTame(cs[i].metas) && |cs[i].body| + 2 < WORD && (cs[i].closing ==> cs[i].body == [])
  }

  lemma ClosedLess(cs: seq<Chunk>)
    requires Closed(cs)
    ensures cs != [] && (cs[0].body != [] ==> Closed(cs[1..]))
  {
    var i :| 0 <= i < |cs| && cs[i].body == [];
    if cs[0].body != [] { assert cs[1..][i - 1] == cs[i]; }
  }

  lemma RegularLess(cs: seq<Chunk>)
    requires Regular(cs) && cs != []
    ensures AllTame(cs[0].metas) && |cs[0].body| + 2 < WORD && (cs[0].closing ==> cs[0].body == []) && Regular(cs[1..])
  {
    hide AllTame;
  }

  /** The text of chunks, one of them without a body, decodes up to the end of that one to the
      bodies before it, in order, whatever lies behind. */
  lemma {:induction false} StreamDecodes(cs: seq<Chunk>, tail: bytes)
    requires Regular(cs) && Closed(cs)
    ensures WellFormed(0, Through(cs) + tail) && Body(0, Through(cs) + tail) == Delivered(cs)
    decreases |cs|
  {
    hide WellFormed, Body, AllTame, ChunkBytes, LastText, Regular, Closed;
    ClosedLess(cs);
    RegularLess(cs);
    if cs[0].body == [] {
      LastDecodes(cs[0].metas, tail);
    } else {
      StreamDecodes(cs[1..], tail);
      ChunkDecodes(cs[0], Through(cs[1..]) + tail);
      Joined(ChunkBytes(cs[0]), Through(cs[1..]), tail);
    }
  }

  /** All the text is that up to the end and that behind it. */
  lemma {:induction false} TextParts(cs: seq<Chunk>)
    requires Closed(cs)
    ensures Concat(cs) == Through(cs) + Behind(cs)
    decreases |cs|
  {
    hide ChunkBytes, LastText, Closed;
    ClosedLess(cs);
    if cs[0].body == [] {
      LastParts(cs[0]);
      Joined(LastText(cs[0].metas), Surplus(cs[0]), Concat(cs[1..]));
    } else {
      TextParts(cs[1..]);
      Joined(ChunkBytes(cs[0]), Through(cs[1..]), Behind(cs[1..]));
    }
  }

  lemma LastParts(c: Chunk)
    requires c.body == []
    ensures ChunkBytes(c) == LastText(c.metas) + Surplus(c)
  {
    hide HeadText;
    assert HeadText(0, c.metas) + [] == HeadText(0, c.metas);
  }

  // ------------------------------------------------------ what written streams carry

  /** The extensions of a printed header are the printed list. */
  lemma HeadListPrinted(n: nat, ms: seq<Meta>, rest: bytes)
    requires AllTame(ms) && n + 2 < WORD
    ensures StartsWithHeader(HeadText(n, ms) + rest) && HeadList(HeadText(n, ms) + rest) == PrintList(ms)
  {
    hide Scan, AllTame, PrintList, StartsWithHeader, PrintHex;
    HeadDecodes(n, ms, rest);
    ScanHead(n, ms, rest);
    PrintedEmpty(ms);
    var hex, text := PrintHex(n), PrintList(ms);
    Joined(hex, text, [CR, LF]);
    Joined(hex, text + [CR, LF], rest);
    Joined(text, [CR, LF], rest);
    assert (hex + (text + ([CR, LF] + rest)))[|hex|..|hex| + |text|] == text;
  }

  /** A clean printed list is read back whatever lies behind it. */
  lemma CleanSettled(ms: seq<Meta>)
    requires AllTame(ms) && Clean(ms)
    ensures Settled(PrintList(ms)) && ParseList(PrintList(ms), []) == ms
  {
    hide ParseList, PrintList, Clean;
    RoundTrip(ms, []);
    forall after: bytes ensures ParseList(PrintList(ms), after) == ParseList(PrintList(ms), []) {
      RoundTrip(ms, after);
    }
  }

  lemma LastCarries(metas: seq<Meta>, tail: bytes)
    requires AllTame(metas)
    ensures WellFormed(0, LastText(metas) + tail) && Carried(0, LastText(metas) + tail).behind == tail
    ensures Clean(metas) ==>
      Steady(0, LastText(metas) + tail) && Carried(0, LastText(metas) + tail).metas == metas
  {
    hide WellFormed, Body, StartsWithHeader, HeadSize, AfterHead, HeadText, HeadList, Carried, Steady, Settled,
      ParseList, AllTame, Clean;
    var t := [CR, LF] + tail;
    var s := HeadText(0, metas) + t;
    assert s == LastText(metas) + tail;
    LastDecodes(metas, tail);
    HeadDecodes(0, metas, t);
    HeadListPrinted(0, metas, t);
    CarriedHead(s);
    assert t[2..] == tail;
    if Clean(metas) { CleanSettled(metas); }
  }

  lemma ChunkCarries(c: Chunk, rest: bytes)
    requires AllTame(c.metas) && c.body != [] && !c.closing && |c.body| + 2 < WORD && WellFormed(0, rest)
    ensures WellFormed(0, ChunkBytes(c) + rest)
    ensures Carried(0, ChunkBytes(c) + rest).behind == Carried(0, rest).behind
    ensures Clean(c.metas) && Steady(0, rest) ==>
      && Steady(0, ChunkBytes(c) + rest)
      && Carried(0, ChunkBytes(c) + rest).metas == c.metas + Carried(0, rest).metas
  {
    hide WellFormed, Body, StartsWithHeader, HeadSize, AfterHead, HeadText, HeadList, Carried, Steady, Settled,
      ParseList, AllTame, Clean;
    var n := |c.body|;
    var t := c.body + [CR, LF] + rest;
    var s := HeadText(n, c.metas) + t;
    assert s == ChunkBytes(c) + rest;
    ChunkDecodes(c, rest);
    HeadDecodes(n, c.metas, t);
    HeadListPrinted(n, c.metas, t);
    CarriedHead(s);
    CarriedBody(n + 2, t);
    assert t[n + 2..] == rest;
    if Clean(c.metas) { CleanSettled(c.metas); }
  }

  predicate AllClean(cs: seq<Chunk>) {
    forall i :: 0 <= i < |cs| ==> Clean(cs[i].metas)
  }

  lemma CleanLess(cs: seq<Chunk>)
    requires cs != [] && AllClean(cs)
    ensures Clean(cs[0].metas) && AllClean(cs[1..])
  {
    hide Clean;
  }

  /** Such a stream has its end there, and carries, where they are clean, the extensions of the
      chunks up to it in order. */
  lemma {:induction false} StreamCarries(cs: seq<Chunk>, tail: bytes)
    requires Regular(cs) && Closed(cs)
    ensures WellFormed(0, Through(cs) + tail) && Carried(0, Through(cs) + tail).behind == tail
    ensures AllClean(cs) ==>
      Steady(0, Through(cs) + tail) && Carried(0, Through(cs) + tail).metas == Announced(cs)
    decreases |cs|
  {
    hide WellFormed, Carried, Steady, AllTame, Clean, AllClean, ChunkBytes, LastText, Regular, Closed;
    ClosedLess(cs);
    RegularLess(cs);
    if AllClean(cs) { CleanLess(cs); }
    if cs[0].body == [] {
      LastCarries(cs[0].metas, tail);
    } else {
      StreamCarries(cs[1..], tail);
      ChunkCarries(cs[0], Through(cs[1..]) + tail);
      Joined(ChunkBytes(cs[0]), Through(cs[1..]), tail);
    }
  }
}
