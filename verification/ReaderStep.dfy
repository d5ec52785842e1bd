/** One round of the chunked reader on values, and what it conserves. */
module ReaderStep {
  import opened Options
  import opened Bytes
  import opened ChunkedStream
  import opened Extensions

  /** The reader's buffers and counters: raw input not digested yet, decoded bytes not
      delivered yet, the bytes until the next header, and those until the end of the stream
      (-1 before the last chunk has been seen). */
  datatype Reader = Reader(raw: bytes, off: nat, decoded: bytes, decodedOff: nat, tillHeader: nat, tillEof: int,
                           meta: seq<Meta>)
  {
    ghost predicate Valid() {
      && off <= |raw| && decodedOff <= |decoded|
      && (tillHeader > 2 ==> raw == [])
      && (tillEof == -1 || ((tillEof == 0 || tillEof == 2) && (tillHeader == 0 || tillHeader == 2)))
    }

    function Unread(): bytes requires off <= |raw| { raw[off..] }

    function Pending(): bytes requires decodedOff <= |decoded| { decoded[decodedOff..] }
  }

  const EMPTY := Reader([], 0, [], 0, 0, -1, [])

  /** What a complete header does to a reader whose input has been skipped up to it. The counter
      to the next header has 64 bits. */
  function TakeHeader(r: Reader, lf: nat, size: nat): Reader
    requires r.off <= lf < |r.raw|
  {
    var off := lf + 1;
    var r' := if size == 0 then r.(tillEof := 2) else r;
    if off == |r.raw| then r'.(raw := [], off := 0, tillHeader := (size + 2) % WORD)
    else if |r.raw| - off <= size then
      r'.(raw := [], off := 0, decoded := r.raw, decodedOff := off, tillHeader := (size + 2 - (|r.raw| - off)) % WORD)
    else TakeChunk(r'.(off := off), size)
  }

  /** The whole body of a chunk is at hand, and at least one byte more. */
  function TakeChunk(r: Reader, size: nat): Reader
    requires r.off + size < |r.raw|
  {
    var d := r.(decoded := r.raw[r.off..r.off + size], decodedOff := 0);
    var next := r.off + size;
    if |r.raw| - next < 2 then d.(off := next, tillHeader := 2)
    else
      var e := if r.tillEof != -1 then 0 else r.tillEof;
      if |r.raw| - next == 2 then d.(raw := [], off := 0, tillHeader := 0, tillEof := e)
      else d.(off := next + 2, tillHeader := 0, tillEof := e)
  }

  /** The reader looks for a header in its input, and digests it if it is complete. */
  function Digest(r: Reader, mem: bytes): (Reader, int)
    requires r.off <= |r.raw|
  {
    var found := ScanFrom(r.raw, r.off, FRESH);
    if found.None? then (r, 0)
    else
      var h := found.value;
      if !(r.off <= SizeEnd(h) <= h.lf < |r.raw|) then (r, -1)
      else
        var meta := if 0 <= h.ext <= h.cr <= |r.raw| then ParseList(r.raw[h.ext..h.cr], r.raw[h.cr..] + mem) else [];
        var size := ParseHex(r.raw[r.off..SizeEnd(h)]);
        var r' := r.(raw := r.raw[SizeEnd(h) := 0], meta := r.meta + meta);
        if size.None? then (r', -1) else (TakeHeader(r', h.lf, size.value), 0)
  }

  /** What the reader does with a raw buffer that has just grown. */
  function Settle(r: Reader, mem: bytes): (Reader, int)
    requires r.off <= |r.raw|
  {
    var n := |r.raw| - r.off;
    if n == r.tillHeader then (r.(raw := [], off := 0, tillHeader := 0), 0)
    else
      var r' := if n > r.tillHeader then r.(off := r.off + r.tillHeader, tillHeader := 0) else r;
      if r'.tillEof != -1 && r'.tillHeader == 0 then (r'.(tillEof := 0), 0)
      else if r'.tillEof == 0 then (r', 0)
      else Digest(r', mem)
  }

  /** The reader receives `got` into its raw buffer. */
  function Receive(r: Reader, got: bytes, mem: bytes): (Reader, int)
    requires r.off <= |r.raw|
  {
    Settle(r.(raw := r.raw + got), mem)
  }

  /** A header is complete at `off`, and its size cannot be read. */
  predicate Garbled(raw: bytes, off: nat)
    requires off <= |raw|
  {
    var found := ScanFrom(raw, off, FRESH);
    && found.Some?
    && !(off <= SizeEnd(found.value) <= found.value.lf < |raw| && ParseHex(raw[off..SizeEnd(found.value)]).Some?)
  }

  /** With `got` in its raw buffer the reader comes upon such a header, once the CR LF before it
      has been skipped. */
  predicate BadHeader(r: Reader, got: bytes)
    requires r.off <= |r.raw|
  {
    var (raw, n) := (r.raw + got, |r.Unread()| + |got|);
    && got != [] && r.tillHeader <= 2
    && ((n < r.tillHeader && Garbled(raw, r.off))
        || (n > r.tillHeader && r.tillEof == -1 && Garbled(raw, r.off + r.tillHeader)))
  }

  /** A round answers -1 if and only if it comes upon such a header, and 0 otherwise. With -1 the
      decoded bytes, the counters and the input stay, the CR LF skipped; extensions are added. */
  lemma ReceiveAnswers(r: Reader, got: bytes, mem: bytes)
    requires r.Valid() && r.tillHeader <= 2 && r.tillEof != 0 && got != []
    ensures Receive(r, got, mem).1 == 0 || Receive(r, got, mem).1 == -1
    ensures Receive(r, got, mem).1 == -1 <==> BadHeader(r, got)
    ensures Receive(r, got, mem).1 == -1 ==>
      var (r', skip) := (Receive(r, got, mem).0, if |r.Unread()| + |got| > r.tillHeader then r.tillHeader else 0);
      && r'.decoded == r.decoded && r'.decodedOff == r.decodedOff && r'.tillEof == r.tillEof
      && |r'.raw| == |r.raw| + |got| && r'.off == r.off + skip && r'.tillHeader == r.tillHeader - skip
      && r.meta <= r'.meta
  {
    hide ScanFrom, ParseHex, ParseList, TakeHeader;
  }

  lemma DigestValid(r: Reader, mem: bytes)
    requires r.Valid() && r.tillHeader == 0 && r.tillEof == -1
    ensures Digest(r, mem).0.Valid()
  {
    hide ScanFrom, ParseHex, ParseList;
  }

  /** Whatever arrives, the counters and offsets stay in order. */
  lemma ReceiveValid(r: Reader, got: bytes, mem: bytes)
    requires r.Valid() && r.tillHeader <= 2 && r.tillEof != 0
    ensures Receive(r, got, mem).0.Valid()
  {
    hide Digest;
    var s := r.(raw := r.raw + got);
    var n := |s.raw| - s.off;
    if n > s.tillHeader && r.tillEof == -1 {
      DigestValid(s.(off := s.off + s.tillHeader, tillHeader := 0), mem);
    } else if n == 1 && s.tillHeader == 2 {
      HalfDigest(s, mem);
    } else if n == 0 && s.tillHeader > 0 {
      NoDigest(s, mem);
    }
  }

  lemma NoDigest(r: Reader, mem: bytes)
    requires r.off == |r.raw|
    ensures Digest(r, mem) == (r, 0)
  {
  }

  /** A single byte holds no header that could be digested. */
  lemma HalfDigest(r: Reader, mem: bytes)
    requires r.off + 1 == |r.raw|
    ensures Digest(r, mem).0 == r
  {
    hide ParseHex, ParseList, TakeHeader;
    LoneByte(r.raw, r.off);
  }

  lemma LoneByte(raw: bytes, off: nat)
    requires off + 1 == |raw|
    ensures ScanFrom(raw, off, FRESH).Some? ==> SizeEnd(ScanFrom(raw, off, FRESH).value) == -1
  {
    assert ScanFrom(raw, off + 1, Advance(FRESH, raw[off], off)).None?;
  }

  // ------------------------------------------------------------- conservation

  /** `rest` completes what the reader has taken in to a well-formed stream. */
  ghost predicate Flows(r: Reader, rest: bytes) {
    && r.Valid()
    && if r.tillEof == -1 then WellFormed(r.tillHeader, r.Unread() + rest)
       else r.tillHeader == 2 ==> CrLfAt(r.Unread() + rest, 0)
  }

  /** The counter to the next header has not come to stand between CR and LF. */
  lemma FlowsCounter(r: Reader, rest: bytes)
    requires Flows(r, rest)
    ensures r.tillHeader == 0 || r.tillHeader >= 2
  {
  }

  /** The body bytes that are still to be decoded. */
  ghost function Ahead(r: Reader, rest: bytes): bytes
    requires Flows(r, rest)
  {
    if r.tillEof == -1 then Body(r.tillHeader, r.Unread() + rest) else []
  }

  /** Nothing is lost or invented: what is pending and what is ahead stay `body`. */
  ghost predicate Conserves(r: Reader, rest: bytes, body: bytes) {
    Flows(r, rest) && r.Pending() + Ahead(r, rest) == body
  }

  lemma CutUnread(raw: bytes, off: nat, size: nat, rest: bytes)
    requires off + size <= |raw|
    ensures (raw[off..] + rest)[size..] == raw[off + size..] + rest
    ensures (raw[off..] + rest)[..size] == raw[off..off + size]
  {
  }

  lemma ChunkKeeps(r: Reader, size: nat, rest: bytes)
    requires r.Valid() && r.off + size < |r.raw| && r.tillEof == -1
    requires WellFormed(size + 2, r.Unread() + rest)
    ensures Conserves(TakeChunk(r, size), rest, Body(size + 2, r.Unread() + rest))
  {
    hide WellFormed, Body;
    var w, u := r.Unread() + rest, r.raw[r.off + size..] + rest;
    var r' := TakeChunk(r, size);
    WellFormedBody(size + 2, w);
    CutUnread(r.raw, r.off, size, rest);
    if r'.tillHeader == 2 {
      WellFormedBody(2, u);
      CutTwice(w, size);
      assert r'.Unread() + rest == u && u[..0] == [];
    } else {
      CutUnread(r.raw, r.off, size + 2, rest);
    }
  }

  lemma CutTwice(w: bytes, n: nat)
    requires n + 2 <= |w|
    ensures w[n..][2..] == w[n + 2..]
  {
  }

  lemma HeaderKeeps(r: Reader, lf: nat, size: nat, rest: bytes)
    requires r.Valid() && r.off <= lf < |r.raw| && r.tillEof == -1 && r.tillHeader == 0 && r.Pending() == []
    requires size + 2 < WORD
    requires if size == 0 then CrLfAt(r.raw[lf + 1..] + rest, 0) else WellFormed(size + 2, r.raw[lf + 1..] + rest)
    ensures Conserves(TakeHeader(r, lf, size), rest, if size == 0 then [] else Body(size + 2, r.raw[lf + 1..] + rest))
  {
    hide WellFormed, Body;
    var t := r.raw[lf + 1..];
    var r' := TakeHeader(r, lf, size);
    if t == [] {
      assert r'.Unread() + rest == t + rest;
    } else if |t| <= size {
      TakeBody(size + 2, t + rest, |t|);
      assert r'.Unread() + rest == (t + rest)[|t|..];
    } else if size > 0 {
      ChunkKeeps(r.(off := lf + 1), size, rest);
    }
  }

  /** A header found in the raw buffer is a header of the input from there on. */
  lemma FoundInRaw(raw: bytes, off: nat)
    requires off <= |raw| && (off < |raw| ==> raw[off] != LF)
    requires ScanFrom(raw, off, FRESH).Some?
    ensures Scan(raw[off..]).Some?
    ensures var (h, g) := (ScanFrom(raw, off, FRESH).value, Scan(raw[off..]).value);
      && -1 <= g.ext <= g.cr == g.lf - 1 && 0 <= g.cr && g.lf < |raw| - off
      && h == Header(if g.ext == -1 then -1 else g.ext + off, g.cr + off, g.lf + off)
  {
    hide ScanFrom;
    var front, s := raw[..off], raw[off..];
    assert front + s == raw;
    ScanShifts(front, s, 0, FRESH);
    NotAtOnce(s);
  }

  /** A header found in the beginning of a stream is the first header of the stream. */
  lemma FoundInStream(s: bytes, rest: bytes)
    requires StartsWithHeader(s + rest) && Scan(s).Some?
    ensures var (g, w) := (Scan(s).value, s + rest);
      && 0 < SizeEnd(g) <= g.lf < |w| && g.lf < |s|
      && ParseHex(s[..SizeEnd(g)]) == Some(HeadSize(w)) && AfterHead(w) == s[g.lf + 1..] + rest
  {
    var w := s + rest;
    ScanExtends(s, rest, 0, FRESH);
    ScanRange(s, 0, FRESH);
    var n := SizeEnd(Scan(s).value);
    assert s[..n] == w[..n];
    ParseDigits(w[..n]);
  }

  lemma FirstIsHex(w: bytes)
    requires StartsWithHeader(w)
    ensures w != [] && IsHex(w[0])
  {
    hide ScanFrom;
  }

  /** A header found in the raw buffer is the first header of the stream. */
  lemma FoundHeader(raw: bytes, off: nat, rest: bytes)
    requires off <= |raw|
    requires StartsWithHeader(raw[off..] + rest)
    requires ScanFrom(raw, off, FRESH).Some?
    ensures var (h, w) := (ScanFrom(raw, off, FRESH).value, raw[off..] + rest);
      && off <= SizeEnd(h) <= h.lf < |raw|
      && ParseHex(raw[off..SizeEnd(h)]) == Some(HeadSize(w))
      && AfterHead(w) == raw[h.lf + 1..] + rest
  {
    hide ParseHex, HexNat, ScanFrom, StartsWithHeader, HeadSize, AfterHead;
    var s := raw[off..];
    var w := s + rest;
    FirstIsHex(w);
    if off < |raw| { assert w[0] == raw[off]; }
    FoundInRaw(raw, off);
    FoundInStream(s, rest);
    var g := Scan(s).value;
    assert raw[off..SizeEnd(g) + off] == s[..SizeEnd(g)];
    assert raw[g.lf + off + 1..] == s[g.lf + 1..];
  }

  lemma DigestKeeps(r: Reader, rest: bytes, mem: bytes)
    requires Flows(r, rest) && r.tillEof == -1 && r.tillHeader == 0 && r.Pending() == []
    ensures var (r', ret) := Digest(r, mem); ret == 0 && Conserves(r', rest, Ahead(r, rest))
  {
    hide StartsWithHeader, HeadSize, AfterHead, ParseHex, ScanFrom, TakeHeader, ParseList, WellFormed, Body;
    var w := r.Unread() + rest;
    WellFormedHead(w);
    if ScanFrom(r.raw, r.off, FRESH).Some? {
      FoundHeader(r.raw, r.off, rest);
      var h := ScanFrom(r.raw, r.off, FRESH).value;
      var meta := if 0 <= h.ext <= h.cr <= |r.raw| then ParseList(r.raw[h.ext..h.cr], r.raw[h.cr..] + mem) else [];
      var r' := r.(raw := r.raw[SizeEnd(h) := 0], meta := r.meta + meta);
      assert r'.raw[h.lf + 1..] == r.raw[h.lf + 1..];
      HeaderKeeps(r', h.lf, HeadSize(w), rest);
    }
  }

  /** One byte of the CR LF between chunks is no header. */
  lemma HalfSeparator(r: Reader, mem: bytes)
    requires r.off + 1 == |r.raw| && r.raw[r.off] == CR
    ensures Digest(r, mem) == (r, 0)
  {
    assert ScanFrom(r.raw, r.off + 1, Advance(FRESH, CR, r.off)).None?;
  }

  lemma ReceiveKeeps(r: Reader, got: bytes, rest: bytes, mem: bytes)
    requires Flows(r, got + rest) && got != [] && r.tillHeader <= 2 && r.tillEof != 0 && r.Pending() == []
    ensures var (r', ret) := Receive(r, got, mem); ret == 0 && Conserves(r', rest, Ahead(r, got + rest))
  {
    FlowsCounter(r, got + rest);
    hide WellFormed, Body, Digest;
    var r1 := r.(raw := r.raw + got);
    var w := r.Unread() + (got + rest);
    assert r1.Unread() + rest == w;
    if r.tillHeader == 2 {
      if r.tillEof == -1 { WellFormedBody(2, w); }
      assert w[..0] == [];
      var n := |r1.Unread()|;
      if n == 1 {
        assert r1.raw[r.off] == w[0];
        HalfSeparator(r1, mem);
      } else if n == 2 {
        assert w[2..] == rest && ([] + rest) == rest;
      } else {
        var r2 := r1.(off := r1.off + 2, tillHeader := 0);
        assert r2.Unread() + rest == w[2..];
        if r.tillEof == -1 { DigestKeeps(r2, rest, mem); }
      }
    } else if r.tillEof == -1 {
      DigestKeeps(r1, rest, mem);
    }
  }

  /** The stream has no such header. */
  lemma NoBadHeader(r: Reader, got: bytes, rest: bytes)
    requires Flows(r, got + rest)
    requires got != [] && r.tillHeader <= 2 ==> r.tillEof != 0
    ensures !BadHeader(r, got)
  {
    hide Flows, Garbled;
    if got != [] && r.tillHeader <= 2 {
      var r' := r.(decoded := [], decodedOff := 0);
      FlowsEmptied(r, got + rest);
      ReceiveKeeps(r', got, rest, []);
      ReceiveAnswers(r', got, []);
    }
  }

  lemma FlowsEmptied(r: Reader, rest: bytes)
    requires Flows(r, rest)
    ensures var r' := r.(decoded := [], decodedOff := 0); r'.Valid() && Flows(r', rest) && r'.Pending() == []
  {
    hide WellFormed;
    assert r.(decoded := [], decodedOff := 0).Unread() == r.Unread();
  }

  /** Body bytes that go straight from the source to the caller. */
  lemma DirectKeeps(r: Reader, got: bytes, rest: bytes)
    requires Flows(r, got + rest) && r.tillHeader > 2 && |got| <= r.tillHeader - 2
    ensures var r' := r.(tillHeader := r.tillHeader - |got|);
      Flows(r', rest) && Ahead(r, got + rest) == got + Ahead(r', rest)
  {
    hide WellFormed, Body;
    var w := got + rest;
    assert r.Unread() + w == w && r.Unread() + rest == rest;
    TakeBody(r.tillHeader, w, |got|);
  }

  /** Everything the reader will still deliver from what it holds and what its source holds. */
  ghost function Due(r: Reader, rest: bytes): bytes
    requires Flows(r, rest)
  {
    r.Pending() + Ahead(r, rest)
  }

  /** When buffers and source are empty, the stream has been read to its last chunk and
      nothing is due any more. */
  lemma NothingDue(r: Reader)
    requires Flows(r, []) && r.Unread() == [] && r.Pending() == []
    ensures r.tillEof != -1 && Due(r, []) == []
  {
    if r.tillEof == -1 {
      WellFormedHead([]);
      if r.tillHeader != 0 { WellFormedBody(r.tillHeader, []); }
    }
  }
}
