/** How much of a body a run can deliver, by the number of reads in which the source gave
    something: each of them digests at most one header, so chunks that arrive together get stuck. */
module StuckChunks {
  import opened Options
  import opened Bytes
  import opened ChunkedStream
  import opened Extensions
  import opened ReaderStep
  import opened ReaderEnd
  import opened ReaderRuns
  import opened ReaderLaws
  import opened ChunkText

  // ------------------------------------------------------- the first n chunks

  /** The body bytes in what is left of the chunk at hand and in the next `n` chunks. */
  ghost function Reach(n: nat, k: nat, s: bytes): nat
    requires WellFormed(k, s)
    decreases |s|, k
  {
    if k != 0 then k - 2 + Reach(n, 0, s[k..])
    else if HeadSize(s) == 0 || n == 0 then 0
    else Reach(n - 1, HeadSize(s) + 2, AfterHead(s))
  }

  /** How many chunks with a body are still to begin. */
  ghost function Chunks(k: nat, s: bytes): nat
    requires WellFormed(k, s)
    decreases |s|, k
  {
    if k != 0 then Chunks(0, s[k..])
    else if HeadSize(s) == 0 then 0
    else 1 + Chunks(HeadSize(s) + 2, AfterHead(s))
  }

  lemma ReachBody(n: nat, k: nat, s: bytes)
    requires k != 0 && WellFormed(k, s)
    ensures WellFormed(0, s[k..]) && k >= 2 && Reach(n, k, s) == k - 2 + Reach(n, 0, s[k..])
    ensures Chunks(k, s) == Chunks(0, s[k..])
  {
  }

  lemma ReachHead(n: nat, s: bytes)
    requires WellFormed(0, s)
    ensures StartsWithHeader(s) && (HeadSize(s) != 0 ==> WellFormed(HeadSize(s) + 2, AfterHead(s)))
    ensures Reach(n, 0, s)
      == if HeadSize(s) == 0 || n == 0 then 0 else Reach(n - 1, HeadSize(s) + 2, AfterHead(s))
    ensures Chunks(0, s) == if HeadSize(s) == 0 then 0 else 1 + Chunks(HeadSize(s) + 2, AfterHead(s))
  {
    hide StartsWithHeader, HeadSize, AfterHead;
  }

  lemma ReachTake(n: nat, k: nat, s: bytes, m: nat)
    requires k > 2 && m <= k - 2 && WellFormed(k, s)
    ensures WellFormed(k - m, s[m..]) && Reach(n, k, s) == m + Reach(n, k - m, s[m..])
  {
    hide WellFormed, Reach, Chunks;
    TakeBody(k, s, m);
    WellFormedBody(k, s);
    ReachBody(n, k, s);
    ReachBody(n, k - m, s[m..]);
    assert s[m..][k - m..] == s[k..];
  }

  /** The first chunks carry no more than all, and all if and only if there are no others. */
  lemma {:induction false} ReachAll(n: nat, k: nat, s: bytes)
    requires WellFormed(k, s)
    ensures Reach(n, k, s) <= |Body(k, s)|
    ensures Reach(n, k, s) == |Body(k, s)| <==> n >= Chunks(k, s)
    decreases |s|, k
  {
    hide WellFormed, Body, Reach, Chunks, StartsWithHeader, HeadSize, AfterHead;
    if k != 0 {
      WellFormedBody(k, s);
      ReachBody(n, k, s);
      assert |s| >= k;
      ReachAll(n, 0, s[k..]);
    } else {
      WellFormedHead(s);
      ReachHead(n, s);
      if HeadSize(s) != 0 {
        ReachAll(if n == 0 then 0 else n - 1, HeadSize(s) + 2, AfterHead(s));
        if n == 0 { WellFormedBody(HeadSize(s) + 2, AfterHead(s)); }
      }
    }
  }

  lemma {:induction false} ReachMore(n: nat, k: nat, s: bytes)
    requires WellFormed(k, s)
    ensures Reach(n, k, s) <= Reach(n + 1, k, s)
    decreases |s|, k
  {
    hide WellFormed, Reach, Chunks, StartsWithHeader, HeadSize, AfterHead;
    if k != 0 {
      ReachBody(n, k, s);
      ReachBody(n + 1, k, s);
      WellFormedBody(k, s);
      assert |s| >= k;
      ReachMore(n, 0, s[k..]);
    } else {
      ReachHead(n, s);
      ReachHead(n + 1, s);
      if HeadSize(s) != 0 && n != 0 { ReachMore(n - 1, HeadSize(s) + 2, AfterHead(s)); }
    }
  }

  // --------------------------------------------------- what one read can reach

  /** The bytes pending, and those of the body within the next `n` headers. */
  ghost function Within(n: nat, r: Reader, rest: bytes): nat
    requires Flows(r, rest)
  {
    |r.Pending()| + if r.tillEof == -1 then Reach(n, r.tillHeader, r.Unread() + rest) else 0
  }

  lemma ChunkReach(n: nat, r: Reader, size: nat, rest: bytes)
    requires r.Valid() && r.off + size < |r.raw| && r.tillEof == -1
    requires WellFormed(size + 2, r.Unread() + rest)
    ensures var r' := TakeChunk(r, size);
      Flows(r', rest) && Within(n, r', rest) == Reach(n, size + 2, r.Unread() + rest)
  {
    hide WellFormed, Body, Reach, Chunks;
    var w, u := r.Unread() + rest, r.raw[r.off + size..] + rest;
    var r' := TakeChunk(r, size);
    ChunkKeeps(r, size, rest);
    WellFormedBody(size + 2, w);
    ReachBody(n, size + 2, w);
    CutUnread(r.raw, r.off, size, rest);
    if r'.tillHeader == 2 {
      CutTwice(w, size);
      assert r'.Unread() + rest == u;
      ReachBody(n, 2, u);
    } else {
      CutUnread(r.raw, r.off, size + 2, rest);
    }
  }

  lemma HeaderReach(n: nat, r: Reader, lf: nat, size: nat, rest: bytes)
    requires r.Valid() && r.off <= lf < |r.raw| && r.tillEof == -1 && r.tillHeader == 0 && r.Pending() == []
    requires size + 2 < WORD
    requires if size == 0 then CrLfAt(r.raw[lf + 1..] + rest, 0) else WellFormed(size + 2, r.raw[lf + 1..] + rest)
    ensures var r' := TakeHeader(r, lf, size);
      && Flows(r', rest)
      && Within(n, r', rest) == if size == 0 then 0 else Reach(n, size + 2, r.raw[lf + 1..] + rest)
  {
    hide WellFormed, Body, Reach, Chunks;
    HeaderKeeps(r, lf, size, rest);
    var t := r.raw[lf + 1..];
    var r' := TakeHeader(r, lf, size);
    if t == [] {
      assert r'.Unread() + rest == t + rest;
    } else if |t| <= size {
      ReachTake(n, size + 2, t + rest, |t|);
      assert r'.Unread() + rest == (t + rest)[|t|..];
    } else if size > 0 {
      ChunkReach(n, r.(off := lf + 1), size, rest);
    }
  }

  lemma WithinMore(n: nat, r: Reader, rest: bytes)
    requires Flows(r, rest)
    ensures Within(n, r, rest) <= Within(n + 1, r, rest)
  {
    hide WellFormed, Reach;
    if r.tillEof == -1 { ReachMore(n, r.tillHeader, r.Unread() + rest); }
  }

  lemma DigestReach(n: nat, r: Reader, rest: bytes, mem: bytes)
    requires Flows(r, rest) && r.tillEof == -1 && r.tillHeader == 0 && r.Pending() == []
    ensures var r' := Digest(r, mem).0; Flows(r', rest) && Within(n, r', rest) <= Within(n + 1, r, rest)
  {
    hide StartsWithHeader, HeadSize, AfterHead, ParseHex, ScanFrom, TakeHeader, ParseList, WellFormed, Body, Reach,
      Chunks;
    var w := r.Unread() + rest;
    WellFormedHead(w);
    if ScanFrom(r.raw, r.off, FRESH).None? {
      ReachMore(n, 0, w);
    } else {
      FoundHeader(r.raw, r.off, rest);
      var h := ScanFrom(r.raw, r.off, FRESH).value;
      var meta := if 0 <= h.ext <= h.cr <= |r.raw| then ParseList(r.raw[h.ext..h.cr], r.raw[h.cr..] + mem) else [];
      var r1 := r.(raw := r.raw[SizeEnd(h) := 0], meta := r.meta + meta);
      assert r1.raw[h.lf + 1..] == r.raw[h.lf + 1..];
      HeaderReach(n, r1, h.lf, HeadSize(w), rest);
      ReachHead(n + 1, w);
    }
  }

  lemma ReceiveReach(n: nat, r: Reader, got: bytes, rest: bytes, mem: bytes)
    requires Flows(r, got + rest) && got != [] && r.tillHeader <= 2 && r.tillEof != 0 && r.Pending() == []
    ensures var r' := Receive(r, got, mem).0; Flows(r', rest) && Within(n, r', rest) <= Within(n + 1, r, got + rest)
  {
    FlowsCounter(r, got + rest);
    hide WellFormed, Body, Digest, Reach, Chunks;
    var r1 := r.(raw := r.raw + got);
    var w := r.Unread() + (got + rest);
    assert r1.Unread() + rest == w;
    ReceiveKeeps(r, got, rest, mem);
    if r.tillEof == -1 {
      if r.tillHeader == 2 {
        SeparatorReach(n, r, got, rest, mem);
      } else {
        DigestReach(n, r1, rest, mem);
      }
    } else if |r1.Unread()| == 1 && r.tillHeader == 2 {
      HalfDigest(r1, mem);
    }
  }

  lemma SeparatorReach(n: nat, r: Reader, got: bytes, rest: bytes, mem: bytes)
    requires Flows(r, got + rest) && got != [] && r.tillHeader == 2 && r.tillEof == -1 && r.Pending() == []
    ensures var r' := Receive(r, got, mem).0; Flows(r', rest) && Within(n, r', rest) <= Within(n + 1, r, got + rest)
  {
    hide WellFormed, Body, Digest, Reach, Chunks;
    var r1 := r.(raw := r.raw + got);
    var w := r.Unread() + (got + rest);
    assert r1.Unread() + rest == w;
    ReceiveKeeps(r, got, rest, mem);
    ReachBody(n + 1, 2, w);
    if |r1.Unread()| == 1 {
      WellFormedBody(2, w);
      assert r1.raw[r.off] == w[0];
      HalfSeparator(r1, mem);
      ReachBody(n, 2, w);
      ReachMore(n, 0, w[2..]);
    } else if |r1.Unread()| == 2 {
      assert w[2..] == rest && [] + rest == rest;
      ReachMore(n, 0, rest);
    } else {
      var r2 := r1.(off := r1.off + 2, tillHeader := 0);
      assert r2.Unread() + rest == w[2..];
      DigestReach(n, r2, rest, mem);
    }
  }

  lemma DirectReach(n: nat, r: Reader, got: bytes, rest: bytes)
    requires Flows(r, got + rest) && r.tillHeader > 2 && |got| <= r.tillHeader - 2
    ensures var r' := r.(tillHeader := r.tillHeader - |got|);
      Flows(r', rest) && |got| + Within(n, r', rest) == Within(n, r, got + rest)
  {
    hide WellFormed, Body, Reach;
    DirectKeeps(r, got, rest);
    var w := got + rest;
    assert r.Unread() + w == w && r.Unread() + rest == rest && w[|got|..] == rest;
    ReachTake(n, r.tillHeader, w, |got|);
  }

  lemma DeliverReach(n: nat, r: Reader, len: nat, rest: bytes)
    requires r.Valid() && Flows(r, rest)
    ensures var (r', d) := Deliver(r, len); Flows(r', rest) && |d| + Within(n, r', rest) == Within(n, r, rest)
  {
    hide WellFormed, Body, Deliver, Reach;
    DeliverParts(r, len);
    assert Deliver(r, len).0.Unread() == r.Unread();
  }

  function Productive(got: bytes): nat { if got == [] then 0 else 1 }

  lemma RoundReach(n: nat, r: Reader, len: nat, got: bytes, rest: bytes, mem: bytes)
    requires r.Valid() && |got| <= Ask(r, len) && Flows(r, got + rest) && r.Pending() == []
    ensures var (r', d) := Round(r, len, got, mem);
      Flows(r', rest) && |d| + Within(n, r', rest) <= Within(n + Productive(got), r, got + rest)
  {
    hide Flows, Within, Receive;
    if got == [] {
      Nothing(got, rest);
    } else if r.tillHeader > 2 {
      DirectReach(n, r, got, rest);
      WithinMore(n, r, got + rest);
    } else {
      ReceiveReach(n, r, got, rest, mem);
    }
  }

  lemma ReadReach(n: nat, r: Reader, e: Event, rest: bytes)
    requires Allowed(r, e) && Flows(r, e.got + rest)
    ensures var (r', d) := ReadStep(r, e);
      Flows(r', rest) && |d| + Within(n, r', rest) <= Within(n + Productive(e.got), r, e.got + rest)
  {
    hide Deliver, Round, Flows, Within, ReadStep, Ask, Reader.Pending;
    if e.len <= |r.Pending()| {
      ReadFilled(r, e);
      Nothing(e.got, rest);
      if e.len > 0 { DeliverReach(n, r, e.len, rest); }
    } else {
      ReadOn(r, e);
      var (r1, d1) := Deliver(r, e.len);
      var (r2, d2) := Round(r1, e.len - |d1|, e.got, e.mem);
      DeliverReach(n + Productive(e.got), r, e.len, e.got + rest);
      RoundReach(n, r1, e.len - |d1|, e.got, rest, e.mem);
      DeliverReach(n, r2, e.len - |d1| - |d2|, rest);
    }
  }

  /** In how many reads of a run the source gave something. */
  function GivingReads(es: seq<Event>): nat {
    if es == [] then 0 else GivingReads(es[..|es| - 1]) + Productive(es[|es| - 1].got)
  }

  lemma {:induction false} RunReach(n: nat, r: Reader, es: seq<Event>, rest: bytes)
    requires r.Valid() && Possible(r, es) && Flows(r, Arrived(es) + rest)
    ensures var (r', out) := Run(r, es);
      Flows(r', rest) && |out| + Within(n, r', rest) <= Within(n + GivingReads(es), r, Arrived(es) + rest)
    decreases |es|
  {
    hide Flows, Within, Possible, Run, Arrived, Allowed, ReadStep;
    if es == [] {
      RunNone(r);
      Nothing([], rest);
    } else {
      var front, e := RunLess(r, es, rest);
      RunKeeps(r, front, e.got + rest);
      RunReach(n + Productive(e.got), r, front, e.got + rest);
      ReadReach(n, Run(r, front).0, e, rest);
    }
  }

  /** However the source splits its stream and however much is read at a time: a run in which it
      gave something in `n` reads has decoded no more than the bodies of the first `n` chunks. */
  lemma FirstChunks(es: seq<Event>, rest: bytes)
    requires Possible(EMPTY, es) && WellFormed(0, Arrived(es) + rest)
    ensures var (r, out) := Run(EMPTY, es);
      && out + r.Pending() <= Body(0, Arrived(es) + rest)
      && |out + r.Pending()| <= Reach(GivingReads(es), 0, Arrived(es) + rest)
  {
    hide WellFormed, Body, Possible, Run, Arrived, Flows, Reach, Ahead;
    var stream := Arrived(es) + rest;
    var (r, out) := Run(EMPTY, es);
    Fresh(stream);
    PrefixOfBody(es, rest);
    Joined(out, r.Pending(), Ahead(r, rest));
    RunReach(0, EMPTY, es, rest);
    assert EMPTY.Unread() + stream == stream;
    StartWithin(GivingReads(es), stream);
    PendingWithin(r, rest);
  }

  lemma StartWithin(n: nat, stream: bytes)
    requires Flows(EMPTY, stream) && WellFormed(0, stream)
    ensures Within(n, EMPTY, stream) == Reach(n, 0, stream)
  {
    hide WellFormed, Reach;
    assert EMPTY.Unread() + stream == stream;
  }

  lemma PendingWithin(r: Reader, rest: bytes)
    requires Flows(r, rest)
    ensures Within(0, r, rest) >= |r.Pending()|
  {
    hide WellFormed, Reach;
  }

  /** A stream of more chunks with a body than the source gave pieces loses some of its body: it
      has not been delivered in whole, and no read without input ever delivers the rest. */
  lemma FewPiecesLose(es: seq<Event>, dry: seq<Event>, rest: bytes)
    requires Possible(EMPTY, es) && WellFormed(0, Arrived(es) + rest)
    requires Possible(Run(EMPTY, es).0, dry) && Arrived(dry) == []
    requires GivingReads(es) < Chunks(0, Arrived(es) + rest)
    ensures var (r, out) := Run(EMPTY, es);
      out + Run(r, dry).1 + Run(r, dry).0.Pending() < Body(0, Arrived(es) + rest)
  {
    hide WellFormed, Body, Possible, Run, Arrived, Reach, Chunks;
    var (r, out) := Run(EMPTY, es);
    FirstChunks(es, rest);
    ReachAll(GivingReads(es), 0, Arrived(es) + rest);
    RunDry(r, dry);
    Joined(out, Run(r, dry).1, Run(r, dry).0.Pending());
  }

  // ----------------------------------------------------- all in one piece

  /** A whole chunk and more reach the buffer at once: its body is decoded, the rest stays raw. */
  lemma ChunkInBuffer(stream: bytes, mem: bytes)
    requires WellFormed(0, stream) && StartsWithHeader(stream) && HeadSize(stream) > 0
    ensures var r := Receive(EMPTY, stream, mem).0;
      |AfterHead(stream)| > HeadSize(stream) && r.Pending() == AfterHead(stream)[..HeadSize(stream)]
  {
    hide ScanFrom, ParseHex, ParseList, AllHex, HeadSize, AfterHead, WellFormed;
    var n, t := HeadSize(stream), AfterHead(stream);
    WellFormedHead(stream);
    WellFormedBody(n + 2, t);
    assert stream[0..] == stream && stream + [] == stream && EMPTY.raw + stream == stream;
    ScanSome(stream);
    FoundHeader(stream, 0, []);
    var h := Scan(stream).value;
    assert stream[h.lf + 1..] + [] == stream[h.lf + 1..];
    TakenWhole(EMPTY.(raw := stream), h, n, mem);
  }

  lemma ScanSome(s: bytes)
    requires StartsWithHeader(s)
    ensures s != [] && Scan(s).Some? && Scan(s) == ScanFrom(s, 0, FRESH)
  {
    hide ScanFrom, AllHex;
  }

  lemma TakenWhole(r: Reader, h: Header, n: nat, mem: bytes)
    requires r == EMPTY.(raw := r.raw) && r.raw != [] && ScanFrom(r.raw, 0, FRESH) == Some(h)
    requires 0 <= SizeEnd(h) <= h.lf && h.lf + 1 + n < |r.raw| && 0 < n
    requires ParseHex(r.raw[0..SizeEnd(h)]) == Some(n)
    ensures Settle(r, mem).0.Pending() == r.raw[h.lf + 1..][..n]
  {
    hide ScanFrom, ParseHex, ParseList;
  }

  /** A stream given in one piece, which the reader takes up to 1024 bytes of: its first chunk's
      body is all that is ever delivered. */
  lemma GulpLoses(stream: bytes, len: nat, dry: seq<Event>, mem: bytes)
    requires WellFormed(0, stream) && StartsWithHeader(stream) && HeadSize(stream) > 0
    requires len > 0 && |stream| <= 1024
    ensures Allowed(EMPTY, Event(len, stream, mem)) && |AfterHead(stream)| > HeadSize(stream)
    ensures var (r, d) := ReadStep(EMPTY, Event(len, stream, mem));
      Possible(r, dry) && Arrived(dry) == [] ==>
        d + Run(r, dry).1 + Run(r, dry).0.Pending() == AfterHead(stream)[..HeadSize(stream)]
  {
    hide WellFormed, Body, Receive, Possible, Run, Arrived, Deliver, Reader.Pending, StartsWithHeader, HeadSize,
      AfterHead;
    ChunkInBuffer(stream, mem);
    ScanSome(stream);
    GulpStep(len, stream, mem);
    var r1 := Receive(EMPTY, stream, mem).0;
    DeliverParts(r1, len);
    var (r2, d) := ReadStep(EMPTY, Event(len, stream, mem));
    hide ReadStep;
    if Possible(r2, dry) && Arrived(dry) == [] {
      RunDry(r2, dry);
      Joined(d, Run(r2, dry).1, Run(r2, dry).0.Pending());
    }
  }

  lemma GulpStep(len: nat, stream: bytes, mem: bytes)
    requires len > 0 && 0 < |stream| <= 1024
    ensures Allowed(EMPTY, Event(len, stream, mem)) && Receive(EMPTY, stream, mem).0.Valid()
    ensures ReadStep(EMPTY, Event(len, stream, mem)) == Deliver(Receive(EMPTY, stream, mem).0, len)
  {
    hide Receive, Deliver;
    ReceiveValid(EMPTY, stream, mem);
    var (r, d) := Deliver(Receive(EMPTY, stream, mem).0, len);
    StartsDry(len);
    assert Round(EMPTY, len, stream, mem) == (Receive(EMPTY, stream, mem).0, []);
    Nothing([], d);
    assert Fetch(EMPTY, len, stream, mem) == (r, d);
    ReadOn(EMPTY, Event(len, stream, mem));
  }

  lemma StartsDry(len: nat)
    ensures Deliver(EMPTY, len) == (EMPTY, [])
  {
  }

  const A: byte := 97
  const B: byte := 98
  /** `1 a 1 b 0`, each with its line ends. */
  const TWO_CHUNKS: bytes := [49, 13, 10, A, 13, 10, 49, 13, 10, B, 13, 10, 48, 13, 10, 13, 10]

  /** Two chunks, of body `a` and body `b`, given at once: `b` is never delivered. */
  lemma SecondChunkLost(len: nat, dry: seq<Event>, mem: bytes)
    requires len > 0
    ensures WellFormed(0, TWO_CHUNKS) && Body(0, TWO_CHUNKS) == [A, B]
    ensures Allowed(EMPTY, Event(len, TWO_CHUNKS, mem))
    ensures var (r, d) := ReadStep(EMPTY, Event(len, TWO_CHUNKS, mem));
      Possible(r, dry) && Arrived(dry) == [] ==> d + Run(r, dry).1 + Run(r, dry).0.Pending() == [A]
  {
    hide WellFormed, Body, Receive, Possible, Run, Arrived, ReadStep, Allowed, StartsWithHeader, HeadSize, AfterHead,
      Regular, Closed, Through, Delivered;
    var cs := [Chunk([A], [], false), Chunk([B], [], false), Chunk([], [], false)];
    TwoChunks();
    StreamDecodes(cs, []);
    assert TWO_CHUNKS + [] == TWO_CHUNKS;
    FirstOfTwo();
    GulpLoses(TWO_CHUNKS, len, dry, mem);
  }

  lemma FirstOfTwo()
    ensures StartsWithHeader(TWO_CHUNKS) && HeadSize(TWO_CHUNKS) == 1
    ensures |AfterHead(TWO_CHUNKS)| > 1 && AfterHead(TWO_CHUNKS)[..1] == [A]
  {
    hide StartsWithHeader, HeadSize, AfterHead;
    var after := [A, CR, LF] + TWO_CHUNKS[6..];
    assert PrintHex(1) == [49] && PrintList([]) == [];
    assert TWO_CHUNKS == HeadText(1, []) + after;
    HeadDecodes(1, [], after);
  }

  lemma TwoChunks()
    ensures var cs := [Chunk([A], [], false), Chunk([B], [], false), Chunk([], [], false)];
      Regular(cs) && Closed(cs) && Through(cs) == TWO_CHUNKS && Delivered(cs) == [A, B]
  {
    var a, b, end := Chunk([A], [], false), Chunk([B], [], false), Chunk([], [], false);
    var cs := [a, b, end];
    assert PrintHex(1) == [49] && PrintHex(0) == [48] && PrintList([]) == [];
    assert cs[2].body == [] && cs[1..] == [b, end] && [b, end][1..] == [end];
    assert Through([end]) == [48, CR, LF, CR, LF] && Delivered([end]) == [];
    assert ChunkBytes(b) == [49, CR, LF, B, CR, LF] && ChunkBytes(a) == [49, CR, LF, A, CR, LF];
    assert Through([b, end]) == ChunkBytes(b) + Through([end]) && Delivered([b, end]) == [B] + [];
    assert Through(cs) == ChunkBytes(a) + Through([b, end]);
  }
}
