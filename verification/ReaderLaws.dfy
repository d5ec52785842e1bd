/** What holds of every run of reads, however the source splits its stream: what is delivered,
    what is lost, which extensions are read, and when the end is noticed. */
module ReaderLaws {
  import opened Options
  import opened Bytes
  import opened ChunkedStream
  import opened Extensions
  import opened StreamContents
  import opened ReaderStep
  import opened ReaderEnd
  import opened ReaderRuns

  // -------------------------------------------------------------------- runs

  /** Everything the source gave in a run. */
  function Arrived(es: seq<Event>): bytes {
    if es == [] then [] else Arrived(es[..|es| - 1]) + es[|es| - 1].got
  }

  /** The source keeps to what it is asked for in every read of the run. */
  ghost predicate Possible(r: Reader, es: seq<Event>)
    requires r.Valid()
    decreases |es|, 0
  {
    es == [] || (Possible(r, es[..|es| - 1]) && Allowed(Run(r, es[..|es| - 1]).0, es[|es| - 1]))
  }

  /** The reader after the run, and all it has delivered. */
  ghost function Run(r: Reader, es: seq<Event>): (res: (Reader, bytes))
    requires r.Valid() && Possible(r, es)
    ensures res.0.Valid()
    decreases |es|, 1
  {
    if es == [] then (r, [])
    else
      var (r1, out) := Run(r, es[..|es| - 1]);
      var (r2, d) := ReadStep(r1, es[|es| - 1]);
      (r2, out + d)
  }

  /** One more read. */
  lemma RunMore(r: Reader, es: seq<Event>, e: Event)
    requires r.Valid() && Possible(r, es) && Allowed(Run(r, es).0, e)
    ensures Possible(r, es + [e]) && Arrived(es + [e]) == Arrived(es) + e.got
    ensures Run(r, es + [e]) == (ReadStep(Run(r, es).0, e).0, Run(r, es).1 + ReadStep(Run(r, es).0, e).1)
  {
    hide Allowed, ReadStep;
    assert (es + [e])[..|es|] == es;
  }

  lemma RunNone(r: Reader)
    requires r.Valid()
    ensures Possible(r, []) && Run(r, []) == (r, []) && Arrived([]) == []
  {
  }

  /** Taking the last read off a run. */
  lemma RunLess(r: Reader, es: seq<Event>, rest: bytes) returns (front: seq<Event>, e: Event)
    requires r.Valid() && es != [] && Possible(r, es)
    ensures es == front + [e] && |front| == |es| - 1 && front == es[..|es| - 1] && e == es[|es| - 1]
    ensures Possible(r, front) && Allowed(Run(r, front).0, e)
    ensures Run(r, es) == (ReadStep(Run(r, front).0, e).0, Run(r, front).1 + ReadStep(Run(r, front).0, e).1)
    ensures Arrived(es) + rest == Arrived(front) + (e.got + rest)
  {
    hide Allowed, ReadStep;
    front, e := es[..|es| - 1], es[|es| - 1];
    Joined(Arrived(front), e.got, rest);
  }

  // ------------------------------------------------------------- conservation

  /** What was due before a run is what the run delivers, followed by what is due after it. */
  lemma {:induction false} RunKeeps(r: Reader, es: seq<Event>, rest: bytes)
    requires r.Valid() && Possible(r, es) && Flows(r, Arrived(es) + rest)
    ensures var (r', out) := Run(r, es); Flows(r', rest) && Due(r, Arrived(es) + rest) == out + Due(r', rest)
    decreases |es|
  {
    hide Flows, Due, Possible, Run, Arrived, Allowed, ReadStep;
    if es == [] {
      RunNone(r);
      Nothing([], rest);
    } else {
      var front, e := RunLess(r, es, rest);
      RunKeeps(r, front, e.got + rest);
      ReadKeeps(Run(r, front).0, e, rest);
      Joined(Run(r, front).1, ReadStep(Run(r, front).0, e).1, Due(Run(r, es).0, rest));
    }
  }

  /** A run keeps how the reader stands to the extensions and the end of its stream. */
  lemma {:induction false} RunStands(r: Reader, es: seq<Event>, rest: bytes, steady: bool, metas: seq<Meta>,
      behind: bytes)
    requires r.Valid() && Possible(r, es) && Flows(r, Arrived(es) + rest)
    requires Stands(r, Arrived(es) + rest, steady, metas, behind)
    ensures var r' := Run(r, es).0; Flows(r', rest) && Stands(r', rest, steady, metas, behind)
    decreases |es|
  {
    hide Flows, Stands, Possible, Run, Arrived, Allowed, ReadStep;
    if es == [] {
      RunNone(r);
      Nothing([], rest);
    } else {
      var front, e := RunLess(r, es, rest);
      RunStands(r, front, e.got + rest, steady, metas, behind);
      ReadStands(Run(r, front).0, e, rest, steady, metas, behind);
    }
  }

  /** A new reader before a whole stream. */
  lemma Fresh(stream: bytes)
    requires WellFormed(0, stream)
    ensures EMPTY.Valid() && Flows(EMPTY, stream) && Due(EMPTY, stream) == Body(0, stream)
    ensures Stands(EMPTY, stream, Steady(0, stream), Carried(0, stream).metas, Carried(0, stream).behind)
  {
    hide WellFormed, Body, Carried, Steady;
    Nothing([], stream);
    assert EMPTY.Unread() + stream == stream;
  }

  /** The output of a run over a stream is a prefix of the body. */
  lemma PrefixOfBody(es: seq<Event>, rest: bytes)
    requires Possible(EMPTY, es) && WellFormed(0, Arrived(es) + rest)
    ensures var (r', out) := Run(EMPTY, es);
      Flows(r', rest) && out + Due(r', rest) == Body(0, Arrived(es) + rest) && out <= Body(0, Arrived(es) + rest)
  {
    hide WellFormed, Body, Flows, Due, Possible, Run, Arrived;
    Fresh(Arrived(es) + rest);
    RunKeeps(EMPTY, es, rest);
  }

  // ------------------------------------------------------ a source that is dry

  /** Reads that get nothing deliver what is pending and nothing else, ever. */
  lemma {:induction false} RunDry(r: Reader, es: seq<Event>)
    requires r.Valid() && Possible(r, es) && Arrived(es) == []
    ensures var (r', out) := Run(r, es);
      && SameButDecoded(r, r')
      && r.Pending() == out + r'.Pending()
    decreases |es|
  {
    hide Possible, Run, Arrived, Allowed, ReadStep;
    if es == [] {
      RunNone(r);
      Nothing([], r.Pending());
    } else {
      var front, e := RunLess(r, es, []);
      assert Arrived(front) == [] && e.got == [];
      RunDry(r, front);
      ReadDry(Run(r, front).0, e);
      Joined(Run(r, front).1, ReadStep(Run(r, front).0, e).1, Run(r, es).0.Pending());
    }
  }

  /** The next header in the buffer, once the counter to it has run down, is the last chunk's. */
  ghost predicate OnlyLastLeft(r: Reader)
    requires r.Valid()
  {
    && r.tillHeader <= |r.Unread()|
    && StartsWithHeader(r.Unread()[r.tillHeader..]) && HeadSize(r.Unread()[r.tillHeader..]) == 0
  }

  /** With nothing left in the source, no body is ahead if and only if the last chunk has been
      seen or is the next in the buffer. */
  lemma NoneAhead(r: Reader)
    requires Flows(r, [])
    ensures Ahead(r, []) == [] <==> r.tillEof != -1 || OnlyLastLeft(r)
  {
    hide WellFormed, Body, StartsWithHeader, HeadSize, AfterHead;
    assert r.Unread() + [] == r.Unread();
    if r.tillEof == -1 {
      if r.tillHeader != 0 {
        WellFormedBody(r.tillHeader, r.Unread());
        assert r.Unread()[..0] == [];
      } else {
        assert r.Unread()[0..] == r.Unread();
      }
      var w := r.Unread()[r.tillHeader..];
      WellFormedHead(w);
      if HeadSize(w) != 0 { WellFormedBody(HeadSize(w) + 2, AfterHead(w)); }
    }
  }

  /** Once the source has given its whole stream, the body is delivered in whole, now or by
      later reads, if and only if the last chunk has been seen or is the next in the buffer. */
  lemma WholeBody(es: seq<Event>, dry: seq<Event>)
    requires Possible(EMPTY, es) && WellFormed(0, Arrived(es))
    requires Possible(Run(EMPTY, es).0, dry) && Arrived(dry) == []
    ensures var (r, out) := Run(EMPTY, es);
      var (r', more) := Run(r, dry);
      && out + more + r'.Pending() <= Body(0, Arrived(es))
      && (out + more + r'.Pending() == Body(0, Arrived(es)) <==> r.tillEof != -1 || OnlyLastLeft(r))
  {
    hide WellFormed, Body, Flows, Ahead, Possible, Run, Arrived, OnlyLastLeft;
    var (r, out) := Run(EMPTY, es);
    var (r', more) := Run(r, dry);
    assert Arrived(es) + [] == Arrived(es);
    PrefixOfBody(es, []);
    RunDry(r, dry);
    NoneAhead(r);
    Joined(out, more, r'.Pending());
    Joined(out, r.Pending(), Ahead(r, []));
    assert out + r.Pending() + [] == out + r.Pending();
  }

  // ------------------------------------------------------- the end of the stream

  /** After the last header the end is noticed if and only if more bytes arrive than the counter
      asks for. */
  lemma {:induction false} EndRun(r: Reader, es: seq<Event>)
    requires r.Valid() && Possible(r, es) && r.tillEof == 2 && |r.Unread()| <= r.tillHeader
    ensures var r' := Run(r, es).0;
      && (r'.tillEof == 0 || r'.tillEof == 2)
      && (r'.tillEof == 0 <==> |r.Unread()| + |Arrived(es)| > r.tillHeader)
      && (r'.tillEof == 2 ==> |r'.Unread()| - r'.tillHeader == |r.Unread()| + |Arrived(es)| - r.tillHeader)
    decreases |es|
  {
    hide Possible, Run, Arrived, Allowed, ReadStep;
    if es == [] {
      RunNone(r);
    } else {
      var front, e := RunLess(r, es, []);
      EndRun(r, front);
      ReadEnd(Run(r, front).0, e);
    }
  }

  lemma {:induction false} EndStays(r: Reader, es: seq<Event>)
    requires r.Valid() && Possible(r, es) && r.tillEof == 0
    ensures Run(r, es).0.tillEof == 0
    decreases |es|
  {
    hide Possible, Run, Arrived, Allowed, ReadStep;
    if es == [] {
      RunNone(r);
    } else {
      var front, e := RunLess(r, es, []);
      EndStays(r, front);
      ReadEnd(Run(r, front).0, e);
    }
  }

  /** When the end of a stream is noticed, for any split: the read `e` digests the last header,
      after the reads `es` and before the reads `more`. It is noticed if and only if the closing
      CR LF came along with that header, or more than the stream has arrived since. */
  lemma EndNoticed(es: seq<Event>, e: Event, more: seq<Event>, rest: bytes)
    requires Possible(EMPTY, es) && Allowed(Run(EMPTY, es).0, e)
    requires var stream := Arrived(es) + (e.got + (Arrived(more) + rest)); WellFormed(0, stream)
    requires var r2 := ReadStep(Run(EMPTY, es).0, e).0;
      Run(EMPTY, es).0.tillEof == -1 && r2.tillEof != -1 && Possible(r2, more)
    ensures var behind := Carried(0, Arrived(es) + (e.got + (Arrived(more) + rest))).behind;
      var r2 := ReadStep(Run(EMPTY, es).0, e).0;
      Run(r2, more).0.tillEof == 0 <==> |Arrived(more)| + |rest| <= |behind| || |rest| < |behind|
  {
    hide Possible, Run, Arrived, Allowed, ReadStep, Flows, WellFormed, Carried, Steady;
    var left := Arrived(more) + rest;
    var stream := Arrived(es) + (e.got + left);
    var (c, st) := (Carried(0, stream), Steady(0, stream));
    Fresh(stream);
    RunStands(EMPTY, es, e.got + left, st, c.metas, c.behind);
    RunKeeps(EMPTY, es, e.got + left);
    var r2 := ReadStep(Run(EMPTY, es).0, e).0;
    ReadStands(Run(EMPTY, es).0, e, left, st, c.metas, c.behind);
    if r2.tillEof == 0 {
      EndStays(r2, more);
    } else {
      EndRun(r2, more);
    }
  }

  const LAST: bytes := [48, 13, 10]
  const CLOSE: bytes := [13, 10]

  /** The empty stream in one piece: its end is noticed. */
  lemma EndInOnePiece(mem: bytes)
    ensures Allowed(EMPTY, Event(1, LAST + CLOSE, mem)) && ReadStep(EMPTY, Event(1, LAST + CLOSE, mem)).0.tillEof == 0
  {
    hide ParseList, ParseHex, ScanFrom;
    var s := LAST + CLOSE;
    assert EMPTY.raw + s == s;
    ScanLast(CLOSE);
    assert Digest(EMPTY.(raw := s), mem).0.tillEof == 0;
    assert Receive(EMPTY, s, mem) == Digest(EMPTY.(raw := s), mem);
  }

  /** The same bytes split before the closing line: the end is never noticed. */
  lemma EndInTwoPieces(es: seq<Event>, mem: bytes)
    ensures Allowed(EMPTY, Event(1, LAST, mem)) && Allowed(ReadStep(EMPTY, Event(1, LAST, mem)).0, Event(1, CLOSE, mem))
    ensures var r := ReadStep(ReadStep(EMPTY, Event(1, LAST, mem)).0, Event(1, CLOSE, mem)).0;
      Possible(r, es) && Arrived(es) == [] ==> Run(r, es).0.tillEof == 2
  {
    hide ParseList, ParseHex, ScanFrom, Possible, Run, Arrived;
    assert EMPTY.raw + LAST == LAST;
    assert LAST + [] == LAST;
    ScanLast([]);
    var r1 := ReadStep(EMPTY, Event(1, LAST, mem)).0;
    assert r1.tillEof == 2 && r1.raw == [] && r1.tillHeader == 2 && r1.decoded == [];
    assert [] + CLOSE == CLOSE;
    var r2 := ReadStep(r1, Event(1, CLOSE, mem)).0;
    assert r2.tillEof == 2 && r2.tillHeader == 0 && r2.raw == [];
    if Possible(r2, es) && Arrived(es) == [] { EndRun(r2, es); }
  }

  lemma ScanLast(t: bytes)
    ensures ScanFrom(LAST + t, 0, FRESH) == Some(Header(-1, 1, 2)) && ParseHex((LAST + t)[0..1]) == Some(0)
  {
    var s := LAST + t;
    assert s[0] == 48 && s[1] == CR && s[2] == LF;
    assert ScanFrom(s, 2, Scanner(0, -1, 1)) == Some(Header(-1, 1, 2));
    assert ScanFrom(s, 1, FRESH) == ScanFrom(s, 2, Scanner(0, -1, 1));
    assert s[0..1] == [48] == PrintHex(0);
    ParsePrintHex(0);
  }

  /** Where something follows the end of the stream, as after every stream the writer makes, a
      source that has given everything leaves no doubt: the end is noticed unless chunks are
      stuck before the last one. */
  lemma SurplusSeen(es: seq<Event>)
    requires Possible(EMPTY, es) && WellFormed(0, Arrived(es)) && Carried(0, Arrived(es)).behind != []
    ensures var r := Run(EMPTY, es).0; r.tillEof == -1 || r.tillEof == 0
  {
    hide Possible, Run, Arrived, WellFormed, Carried, Steady, Body;
    var stream := Arrived(es);
    assert stream + [] == stream;
    Fresh(stream);
    RunStands(EMPTY, es, [], Steady(0, stream), Carried(0, stream).metas, Carried(0, stream).behind);
  }

  // ----------------------------------------------------- a byte at a time, or all at once

  /** The reader holds no decoded bytes and no header that it could digest. */
  ghost predicate Frugal(r: Reader) {
    && r.Valid() && r.decoded == []
    && (r.tillEof == -1 && r.tillHeader == 0 ==> ScanFrom(r.raw, r.off, FRESH).None?)
    && (r.tillEof == -1 && r.tillHeader == 2 ==> |r.Unread()| <= 1)
  }

  lemma {:induction false} FoundAtLast(s: bytes, c: byte, i: nat, sc: Scanner)
    requires i <= |s| && ScanFrom(s, i, sc).None?
    ensures ScanFrom(s + [c], i, sc).Some? ==> ScanFrom(s + [c], i, sc).value.lf == |s|
    decreases |s| - i
  {
    var t := s + [c];
    if i == |s| {
      assert ScanFrom(t, i + 1, Advance(sc, t[i], i)).None?;
    } else {
      assert t[i] == s[i];
      FoundAtLast(s, c, i + 1, Advance(sc, s[i], i));
    }
  }

  lemma FrugalDigest(r: Reader, raw: bytes, c: byte, rest: bytes, mem: bytes)
    requires Flows(r, rest) && r.tillEof == -1 && r.tillHeader == 0 && r.decoded == []
    requires r.raw == raw + [c] && r.off <= |raw| && ScanFrom(raw, r.off, FRESH).None?
    ensures Frugal(Digest(r, mem).0)
  {
    hide WellFormed, Body, ParseHex, ParseList, ScanFrom, StartsWithHeader, HeadSize, AfterHead;
    var w := r.Unread() + rest;
    WellFormedHead(w);
    DigestValid(r, mem);
    FoundAtLast(raw, c, r.off, FRESH);
    if ScanFrom(r.raw, r.off, FRESH).Some? {
      FoundHeader(r.raw, r.off, rest);
      ScanEmpty();
    }
  }

  lemma ScanEmpty()
    ensures ScanFrom([], 0, FRESH).None?
  {
  }

  lemma FrugalReceive(r: Reader, got: bytes, rest: bytes, mem: bytes)
    requires Frugal(r) && Flows(r, got + rest) && |got| == 1 && r.tillHeader <= 2 && r.tillEof != 0
    ensures Frugal(Receive(r, got, mem).0)
  {
    FlowsCounter(r, got + rest);
    hide WellFormed, Body, Digest, ScanFrom;
    if r.tillEof == 2 {
      FrugalClosing(r, got, mem);
    } else if r.tillHeader == 2 {
      FrugalSeparator(r, got, rest, mem);
    } else {
      FrugalHeader(r, got, rest, mem);
    }
  }

  lemma FrugalClosing(r: Reader, got: bytes, mem: bytes)
    requires Frugal(r) && |got| == 1 && r.tillHeader <= 2 && r.tillEof == 2
    ensures Frugal(Receive(r, got, mem).0)
  {
    hide Digest, ScanFrom;
    ReceiveValid(r, got, mem);
    var r1 := r.(raw := r.raw + got);
    if |r1.Unread()| == 1 && r.tillHeader == 2 { HalfDigest(r1, mem); }
  }

  lemma FrugalHeader(r: Reader, got: bytes, rest: bytes, mem: bytes)
    requires Frugal(r) && Flows(r, got + rest) && |got| == 1 && r.tillHeader == 0 && r.tillEof == -1
    ensures Frugal(Receive(r, got, mem).0)
  {
    hide WellFormed, Body, Digest, ScanFrom;
    var r1 := r.(raw := r.raw + got);
    assert r1.Unread() + rest == r.Unread() + (got + rest) && r.raw + [got[0]] == r1.raw;
    FrugalDigest(r1, r.raw, got[0], rest, mem);
  }

  lemma FrugalSeparator(r: Reader, got: bytes, rest: bytes, mem: bytes)
    requires Frugal(r) && Flows(r, got + rest) && |got| == 1 && r.tillHeader == 2 && r.tillEof == -1
    ensures Frugal(Receive(r, got, mem).0)
  {
    hide WellFormed, Body, Digest, ScanFrom;
    var r1 := r.(raw := r.raw + got);
    var w := r.Unread() + (got + rest);
    assert r1.Unread() + rest == w;
    ScanEmpty();
    WellFormedBody(2, w);
    if |r1.Unread()| == 1 {
      assert r1.raw[r.off] == w[0];
      HalfSeparator(r1, mem);
    }
  }

  lemma FrugalRead(r: Reader, e: Event, rest: bytes)
    requires Frugal(r) && Allowed(r, e) && Flows(r, e.got + rest) && |e.got| <= 1
    ensures Frugal(ReadStep(r, e).0)
  {
    hide WellFormed, Body, ScanFrom, Receive;
    if e.got == [] {
      ReadDry(r, e);
    } else if r.tillHeader <= 2 {
      FrugalReceive(r, e.got, rest, e.mem);
    }
  }

  /** A source that gives at most one byte at a time never leaves chunks stuck. */
  lemma {:induction false} FrugalRun(es: seq<Event>, rest: bytes)
    requires Possible(EMPTY, es) && WellFormed(0, Arrived(es) + rest)
    requires forall i :: 0 <= i < |es| ==> |es[i].got| <= 1
    ensures Frugal(Run(EMPTY, es).0)
    decreases |es|
  {
    hide Possible, Run, Arrived, Allowed, ReadStep, WellFormed, Flows, Due, Frugal, Stands;
    if es == [] {
      RunNone(EMPTY);
      FrugalStart();
    } else {
      var front, e := RunLess(EMPTY, es, rest);
      FrugalRun(front, e.got + rest);
      Fresh(Arrived(es) + rest);
      RunKeeps(EMPTY, front, e.got + rest);
      FrugalRead(Run(EMPTY, front).0, e, rest);
    }
  }

  lemma FrugalStart()
    ensures Frugal(EMPTY)
  {
    ScanEmpty();
  }

  /** A header that starts the unread bytes is found in the buffer. */
  lemma HeaderFound(r: Reader)
    requires r.Valid() && StartsWithHeader(r.Unread())
    ensures ScanFrom(r.raw, r.off, FRESH).Some?
  {
    hide ScanFrom, AllHex;
    var front, s := r.raw[..r.off], r.Unread();
    assert front + s == r.raw;
    FirstIsHex(s);
    ScanShifts(front, s, 0, FRESH);
  }

  lemma FrugalEnd(r: Reader)
    requires Frugal(r) && Flows(r, [])
    ensures r.tillEof != -1
  {
    hide WellFormed, Body, StartsWithHeader, ScanFrom;
    assert r.Unread() + [] == r.Unread();
    if r.tillEof == -1 {
      if r.tillHeader == 0 {
        WellFormedHead(r.Unread());
        HeaderFound(r);
      } else {
        WellFormedBody(r.tillHeader, r.Unread());
      }
    }
  }

  /** A source that gives at most one byte at a time: once it has given its whole stream, or the
      end has been noticed, exactly the body has been delivered. */
  lemma DribbleDelivers(es: seq<Event>, rest: bytes)
    requires Possible(EMPTY, es) && WellFormed(0, Arrived(es) + rest)
    requires forall i :: 0 <= i < |es| ==> |es[i].got| <= 1
    requires rest == [] || Run(EMPTY, es).0.tillEof != -1
    ensures var (r, out) := Run(EMPTY, es);
      r.tillEof != -1 && r.Pending() == [] && out == Body(0, Arrived(es) + rest)
  {
    hide Possible, Run, Arrived, WellFormed, Body, Flows;
    var (r, out) := Run(EMPTY, es);
    FrugalRun(es, rest);
    PrefixOfBody(es, rest);
    if rest == [] {
      FrugalEnd(r) by { hide Frugal; }
    }
    assert r.Pending() == [];
    assert out + ([] + []) == out;
  }

  /** The source refuses a read that wants something only when it has given all of `stream`. */
  ghost predicate Served(es: seq<Event>, stream: bytes) {
    forall i :: 0 <= i < |es| && es[i].got == [] ==>
      Arrived(es[..i]) == stream || (Possible(EMPTY, es[..i]) && Content(Run(EMPTY, es[..i]).0, es[i].len))
  }

  /** The read needs nothing from the source: enough is pending, or the end has been noticed. */
  ghost predicate Content(r: Reader, len: nat)
    requires r.Valid()
  {
    len <= |r.Pending()| || r.tillEof == 0
  }

  lemma AskZero(r: Reader, len: nat)
    requires r.Valid() && len > 0
    ensures Ask(r, len) == 0 <==> r.tillEof == 0
  {
  }

  lemma ServedLess(es: seq<Event>, stream: bytes)
    requires Served(es, stream) && es != []
    ensures Served(es[..|es| - 1], stream)
  {
    hide Possible, Run, Arrived, Content;
    var front := es[..|es| - 1];
    forall i | 0 <= i < |front| ensures front[i] == es[i] && front[..i] == es[..i] {
    }
  }

  /** Such a source gives a byte in every read until it has given its stream or the end has been
      noticed. */
  lemma {:induction false} DribbleLasts(es: seq<Event>, rest: bytes)
    requires Possible(EMPTY, es) && WellFormed(0, Arrived(es) + rest) && Served(es, Arrived(es) + rest)
    requires forall i :: 0 <= i < |es| ==> |es[i].got| <= 1 && es[i].len > 0
    ensures rest == [] || Run(EMPTY, es).0.tillEof == 0 || |Arrived(es)| == |es|
    decreases |es|
  {
    hide Possible, Run, Arrived, Allowed, ReadStep, WellFormed, Flows, Served, Frugal;
    if es == [] {
      RunNone(EMPTY);
    } else {
      var front, e := RunLess(EMPTY, es, rest);
      var r1 := Run(EMPTY, front).0;
      ServedLess(es, Arrived(es) + rest);
      FrugalRun(front, e.got + rest);
      DribbleLasts(front, e.got + rest);
      RunMore(EMPTY, front, e);
      if r1.tillEof == 0 {
        ReadEnd(r1, e);
      } else if e.got == [] {
        LastServed(es, Arrived(es) + rest);
        FrugalHolds(r1);
        assert |Arrived(es)| == |Arrived(front)|;
      }
    }
  }

  lemma LastServed(es: seq<Event>, stream: bytes)
    requires Served(es, stream) && es != [] && es[|es| - 1].got == []
    ensures var front := es[..|es| - 1];
      Arrived(front) == stream || (Possible(EMPTY, front) && Content(Run(EMPTY, front).0, es[|es| - 1].len))
  {
    hide Possible, Run, Arrived, Content;
  }

  lemma FrugalHolds(r: Reader)
    requires Frugal(r)
    ensures r.Pending() == []
  {
  }

  /** A source that gives a byte whenever it is asked, for as many reads as its stream has bytes:
      exactly the body is delivered. */
  lemma DribbleSuffices(es: seq<Event>, rest: bytes)
    requires Possible(EMPTY, es) && WellFormed(0, Arrived(es) + rest) && Served(es, Arrived(es) + rest)
    requires forall i :: 0 <= i < |es| ==> |es[i].got| <= 1 && es[i].len > 0
    requires |es| >= |Arrived(es)| + |rest|
    ensures var (r, out) := Run(EMPTY, es);
      r.tillEof != -1 && r.Pending() == [] && out == Body(0, Arrived(es) + rest)
    ensures Carried(0, Arrived(es) + rest).behind != [] ==> Run(EMPTY, es).0.tillEof == 0
  {
    hide Possible, Run, Arrived, WellFormed, Body, Served, Carried, Steady;
    DribbleLasts(es, rest);
    DribbleDelivers(es, rest);
    if rest == [] && Carried(0, Arrived(es) + rest).behind != [] {
      assert Arrived(es) + rest == Arrived(es);
      SurplusSeen(es);
    }
  }
}
