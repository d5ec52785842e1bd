/** What one round of the reader does to the extensions it has read and to its sight of the end
    of the stream. */
module ReaderEnd {
  import opened Options
  import opened Bytes
  import opened ChunkedStream
  import opened Extensions
  import opened StreamContents
  import opened ReaderStep

  /** How the reader stands to a stream that carries the extensions `metas` in all and has
      `behind` behind its end, while `rest` has not arrived yet. Before the last chunk has been
      seen, both are still ahead. Then the closing CR LF and what is behind it are left; the end
      has been noticed, or all that has arrived of them is less than the counter asks for. */
  ghost predicate Stands(r: Reader, rest: bytes, steady: bool, metas: seq<Meta>, behind: bytes)
    requires Flows(r, rest)
  {
    if r.tillEof == -1 then
      var (k, w) := (r.tillHeader, r.Unread() + rest);
      && Carried(k, w).behind == behind
      && (steady ==> Steady(k, w) && r.meta + Carried(k, w).metas == metas)
    else
      && (steady ==> r.meta == metas)
      && (r.tillEof == 2 ==> |r.Unread()| <= r.tillHeader && |r.Unread()| + |rest| == r.tillHeader + |behind|)
      && (r.tillEof == 0 ==> |rest| <= |behind|)
  }

  /** The extensions of a header found in the raw buffer are those of the stream's first header. */
  lemma FoundList(raw: bytes, off: nat, rest: bytes)
    requires off <= |raw|
    requires StartsWithHeader(raw[off..] + rest)
    requires ScanFrom(raw, off, FRESH).Some?
    ensures var h := ScanFrom(raw, off, FRESH).value;
      (if 0 <= h.ext <= h.cr <= |raw| then raw[h.ext..h.cr] else []) == HeadList(raw[off..] + rest)
  {
    hide ScanFrom, AllHex;
    var s := raw[off..];
    var w := s + rest;
    if off < |raw| { FirstIsHex(w); }
    FoundInRaw(raw, off);
    ScanExtends(s, rest, 0, FRESH);
    var g := Scan(s).value;
    if g.ext != -1 { CutShifted(raw, off, rest, g.ext, g.cr); }
  }

  lemma CutShifted(raw: bytes, off: nat, rest: bytes, i: nat, j: nat)
    requires off <= |raw| && i <= j <= |raw| - off
    ensures raw[i + off..j + off] == (raw[off..] + rest)[i..j]
  {
  }

  lemma ChunkStands(r: Reader, size: nat, rest: bytes, steady: bool, metas: seq<Meta>, behind: bytes)
    requires r.Valid() && r.off + size < |r.raw| && r.tillEof == -1
    requires WellFormed(size + 2, r.Unread() + rest)
    requires Carried(size + 2, r.Unread() + rest).behind == behind
    requires steady ==>
      Steady(size + 2, r.Unread() + rest) && r.meta + Carried(size + 2, r.Unread() + rest).metas == metas
    ensures var r' := TakeChunk(r, size); Flows(r', rest) && Stands(r', rest, steady, metas, behind)
  {
    hide WellFormed, Body, Carried, Steady;
    var w, u := r.Unread() + rest, r.raw[r.off + size..] + rest;
    var r' := TakeChunk(r, size);
    ChunkKeeps(r, size, rest);
    WellFormedBody(size + 2, w);
    CarriedBody(size + 2, w);
    CutUnread(r.raw, r.off, size, rest);
    if r'.tillHeader == 2 {
      CutTwice(w, size);
      assert r'.Unread() + rest == u;
      CarriedBody(2, u);
    } else {
      CutUnread(r.raw, r.off, size + 2, rest);
    }
  }

  /** The last chunk's header: `t` behind it in the buffer, the closing CR LF first. */
  lemma LastStands(r: Reader, lf: nat, rest: bytes, steady: bool, metas: seq<Meta>, behind: bytes)
    requires r.Valid() && r.off <= lf < |r.raw| && r.tillEof == -1 && r.tillHeader == 0 && r.Pending() == []
    requires var t := r.raw[lf + 1..] + rest; CrLfAt(t, 0) && t[2..] == behind
    requires steady ==> r.meta == metas
    ensures var r' := TakeHeader(r, lf, 0);
      && Flows(r', rest) && Stands(r', rest, steady, metas, behind)
      && (r'.tillEof == 0 || r'.tillEof == 2)
      && (r'.tillEof == 0 <==> |rest| <= |behind|)
  {
    hide WellFormed, Body, Carried, Steady;
    HeaderKeeps(r, lf, 0, rest);
  }

  lemma HeaderStands(r: Reader, lf: nat, size: nat, rest: bytes, steady: bool, metas: seq<Meta>, behind: bytes)
    requires r.Valid() && r.off <= lf < |r.raw| && r.tillEof == -1 && r.tillHeader == 0 && r.Pending() == []
    requires 0 < size && size + 2 < WORD && WellFormed(size + 2, r.raw[lf + 1..] + rest)
    requires Carried(size + 2, r.raw[lf + 1..] + rest).behind == behind
    requires steady ==>
      Steady(size + 2, r.raw[lf + 1..] + rest) && r.meta + Carried(size + 2, r.raw[lf + 1..] + rest).metas == metas
    ensures var r' := TakeHeader(r, lf, size); Flows(r', rest) && Stands(r', rest, steady, metas, behind)
    ensures TakeHeader(r, lf, size).tillEof == -1
  {
    hide WellFormed, Body, Carried, Steady;
    HeaderKeeps(r, lf, size, rest);
    var t := r.raw[lf + 1..];
    var r' := TakeHeader(r, lf, size);
    if t == [] {
      assert r'.Unread() + rest == t + rest;
    } else if |t| <= size {
      TakeCarried(size + 2, t + rest, |t|);
      assert r'.Unread() + rest == (t + rest)[|t|..];
    } else {
      ChunkStands(r.(off := lf + 1), size, rest, steady, metas, behind);
    }
  }

  /** The last header is digested in this round, and the end noticed with it exactly if the
      closing CR LF has arrived too: no more is missing than what is behind the end. */
  ghost predicate EndsAtOnce(r: Reader, r': Reader, rest: bytes, behind: bytes) {
    r.tillEof == -1 && r'.tillEof != -1 ==>
      (r'.tillEof == 0 || r'.tillEof == 2) && (r'.tillEof == 0 <==> |rest| <= |behind|)
  }

  /** A header of the stream `w` has been found, its extensions added to `before`. */
  lemma TakeStands(r: Reader, lf: nat, w: bytes, rest: bytes, before: seq<Meta>, steady: bool, metas: seq<Meta>,
                   behind: bytes)
    requires r.Valid() && r.off <= lf < |r.raw| && r.tillEof == -1 && r.tillHeader == 0 && r.Pending() == []
    requires WellFormed(0, w) && StartsWithHeader(w) && AfterHead(w) == r.raw[lf + 1..] + rest
    requires Carried(0, w).behind == behind
    requires steady ==>
      && Steady(0, w) && before + Carried(0, w).metas == metas
      && r.meta == before + ParseList(HeadList(w), [])
    ensures var r' := TakeHeader(r, lf, HeadSize(w));
      Flows(r', rest) && Stands(r', rest, steady, metas, behind) && EndsAtOnce(r, r', rest, behind)
  {
    hide StartsWithHeader, HeadSize, AfterHead, HeadList, TakeHeader, ParseList, WellFormed, Body, Carried, Steady,
      Flows, Stands, Settled;
    CarriedHead(w);
    var n, list := HeadSize(w), ParseList(HeadList(w), []);
    if n == 0 {
      LastStands(r, lf, rest, steady, metas, behind);
    } else {
      Joined(before, list, Carried(n + 2, AfterHead(w)).metas);
      HeaderStands(r, lf, n, rest, steady, metas, behind);
    }
  }

  lemma DigestStands(r: Reader, rest: bytes, steady: bool, metas: seq<Meta>, behind: bytes, mem: bytes)
    requires Flows(r, rest) && r.tillEof == -1 && r.tillHeader == 0 && r.Pending() == []
    requires Stands(r, rest, steady, metas, behind)
    ensures var r' := Digest(r, mem).0;
      Flows(r', rest) && Stands(r', rest, steady, metas, behind) && EndsAtOnce(r, r', rest, behind)
  {
    hide StartsWithHeader, HeadSize, AfterHead, HeadList, ParseHex, ScanFrom, TakeHeader, ParseList, WellFormed, Body,
      Carried, Steady, EndsAtOnce;
    var w := r.Unread() + rest;
    CarriedHead(w);
    if ScanFrom(r.raw, r.off, FRESH).None? {
      SameEnd(r, r, rest, behind);
    } else {
      FoundHeader(r.raw, r.off, rest);
      FoundList(r.raw, r.off, rest);
      var h := ScanFrom(r.raw, r.off, FRESH).value;
      var meta := if 0 <= h.ext <= h.cr <= |r.raw| then ParseList(r.raw[h.ext..h.cr], r.raw[h.cr..] + mem) else [];
      if steady { SettledList(r, rest, h, meta, mem); }
      var r1 := r.(raw := r.raw[SizeEnd(h) := 0], meta := r.meta + meta);
      assert r1.raw[h.lf + 1..] == r.raw[h.lf + 1..];
      TakeStands(r1, h.lf, w, rest, r.meta, steady, metas, behind);
      hide Flows, Stands;
      var r2 := TakeHeader(r1, h.lf, HeadSize(w));
      EndsSame(r1, r2, r, r2, rest, behind);
    }
  }

  lemma SameEnd(r: Reader, r': Reader, rest: bytes, behind: bytes)
    requires r'.tillEof == r.tillEof || r'.tillEof == -1 || r.tillEof != -1
    ensures EndsAtOnce(r, r', rest, behind)
  {
  }

  lemma EndsSame(r1: Reader, r2: Reader, r: Reader, r3: Reader, rest: bytes, behind: bytes)
    requires EndsAtOnce(r1, r2, rest, behind) && r.tillEof == r1.tillEof && r3.tillEof == r2.tillEof
    ensures EndsAtOnce(r, r3, rest, behind)
  {
  }

  /** Where the extensions of the next header are settled, reading them in the buffer gives what
      reading them alone gives. */
  lemma SettledList(r: Reader, rest: bytes, h: Header, meta: seq<Meta>, mem: bytes)
    requires r.off <= |r.raw| && StartsWithHeader(r.Unread() + rest) && Settled(HeadList(r.Unread() + rest))
    requires (if 0 <= h.ext <= h.cr <= |r.raw| then r.raw[h.ext..h.cr] else []) == HeadList(r.Unread() + rest)
    requires meta == if 0 <= h.ext <= h.cr <= |r.raw| then ParseList(r.raw[h.ext..h.cr], r.raw[h.cr..] + mem) else []
    ensures meta == ParseList(HeadList(r.Unread() + rest), [])
  {
    hide StartsWithHeader, HeadList, ParseList;
    ParseNone([]);
    if 0 <= h.ext <= h.cr <= |r.raw| {
      var after := r.raw[h.cr..] + mem;
      assert ParseList(HeadList(r.Unread() + rest), after) == ParseList(HeadList(r.Unread() + rest), []);
    }
  }

  /** One round on received bytes keeps how the reader stands to its stream. */
  lemma ReceiveStands(r: Reader, got: bytes, rest: bytes, steady: bool, metas: seq<Meta>, behind: bytes, mem: bytes)
    requires Flows(r, got + rest) && got != [] && r.tillHeader <= 2 && r.tillEof != 0 && r.Pending() == []
    requires Stands(r, got + rest, steady, metas, behind)
    ensures var r' := Receive(r, got, mem).0;
      Flows(r', rest) && Stands(r', rest, steady, metas, behind) && EndsAtOnce(r, r', rest, behind)
  {
    FlowsCounter(r, got + rest);
    hide WellFormed, Body, Digest, Carried, Steady, EndsAtOnce;
    var r1 := r.(raw := r.raw + got);
    assert r1.Unread() + rest == r.Unread() + (got + rest);
    if r.tillEof == -1 {
      if r.tillHeader == 2 {
        SeparatorStands(r, got, rest, steady, metas, behind, mem);
      } else {
        DigestStands(r1, rest, steady, metas, behind, mem);
        EndsSame(r1, Digest(r1, mem).0, r, Digest(r1, mem).0, rest, behind);
      }
    } else {
      SameEnd(r, Receive(r, got, mem).0, rest, behind);
      ReceiveKeeps(r, got, rest, mem);
      if |r1.Unread()| == 1 && r.tillHeader == 2 { HalfDigest(r1, mem); }
    }
  }

  /** Bytes of the CR LF between two chunks come first. */
  lemma SeparatorStands(r: Reader, got: bytes, rest: bytes, steady: bool, metas: seq<Meta>, behind: bytes, mem: bytes)
    requires Flows(r, got + rest) && got != [] && r.tillHeader == 2 && r.tillEof == -1 && r.Pending() == []
    requires Stands(r, got + rest, steady, metas, behind)
    ensures var r' := Receive(r, got, mem).0;
      Flows(r', rest) && Stands(r', rest, steady, metas, behind) && EndsAtOnce(r, r', rest, behind)
  {
    hide WellFormed, Body, Digest, Carried, Steady, EndsAtOnce;
    var r1 := r.(raw := r.raw + got);
    var w := r.Unread() + (got + rest);
    assert r1.Unread() + rest == w;
    var n := |r1.Unread()|;
    WellFormedBody(2, w);
    CarriedBody(2, w);
    if n == 1 {
      assert r1.raw[r.off] == w[0];
      HalfSeparator(r1, mem);
      SameEnd(r, r1, rest, behind);
    } else if n == 2 {
      assert w[2..] == rest && [] + rest == rest;
      SameEnd(r, r1.(raw := [], off := 0, tillHeader := 0), rest, behind);
    } else {
      var r2 := r1.(off := r1.off + 2, tillHeader := 0);
      assert r2.Unread() + rest == w[2..];
      DigestStands(r2, rest, steady, metas, behind, mem);
      EndsSame(r2, Digest(r2, mem).0, r, Digest(r2, mem).0, rest, behind);
    }
  }

  /** So do body bytes that go straight to the caller. */
  lemma DirectStands(r: Reader, got: bytes, rest: bytes, steady: bool, metas: seq<Meta>, behind: bytes)
    requires Flows(r, got + rest) && r.tillHeader > 2 && |got| <= r.tillHeader - 2
    requires Stands(r, got + rest, steady, metas, behind)
    ensures var r' := r.(tillHeader := r.tillHeader - |got|); Flows(r', rest) && Stands(r', rest, steady, metas, behind)
  {
    hide WellFormed, Body, Carried, Steady;
    DirectKeeps(r, got, rest);
    var w := got + rest;
    assert r.tillEof == -1;
    assert r.Unread() + w == w && r.Unread() + rest == rest && w[|got|..] == rest;
    TakeCarried(r.tillHeader, w, |got|);
  }

  /** After the last header, a round notices the end if and only if more has arrived than the
      counter asks for, and otherwise takes as much off the counter as off the buffer. */
  lemma EndNeedsSurplus(r: Reader, got: bytes, mem: bytes)
    requires r.Valid() && r.tillEof == 2 && got != []
    ensures var r' := Receive(r, got, mem).0;
      && r'.Valid() && (r'.tillEof == 0 || r'.tillEof == 2)
      && (r'.tillEof == 0 <==> |r.Unread()| + |got| > r.tillHeader)
      && (r'.tillEof == 2 ==> |r'.Unread()| - r'.tillHeader == |r.Unread()| + |got| - r.tillHeader)
  {
    hide Digest;
    var s := r.(raw := r.raw + got);
    var n := |s.raw| - s.off;
    ReceiveValid(r, got, mem);
    if n == 1 && s.tillHeader == 2 { HalfDigest(s, mem); }
  }
}
