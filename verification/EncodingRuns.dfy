/** Whole runs of the encoding object: many reads, many writes, and one followed by the other. */
module EncodingRuns {
  import opened Options
  import opened Bytes
  import opened ChunkedStream
  import opened Extensions
  import opened StreamContents
  import opened ReaderStep
  import opened ReaderEnd
  import opened ReaderRuns
  import opened ReaderLaws
  import opened ChunkText
  import opened Callbacks
  import opened WriterStep
  import opened WriterLaws
  import opened EncodingReader
  import opened EncodingWriter

  // ------------------------------------------------------------------ reading

  /** A source that never gives more than one byte. */
  predicate OneByOne(plan: seq<int>) {
    forall i :: 0 <= i < |plan| ==> plan[i] <= 1
  }

  /** One read call: the length asked for, and what memory holds behind the reader's buffer. */
  datatype ReadCall = ReadCall(len: nat, mem: bytes)

  /** A source that gives something in every read of a run, and reads that want something. */
  predicate Willing(plan: seq<int>, asked: seq<ReadCall>) {
    && |plan| >= |asked| && (forall i :: 0 <= i < |plan| ==> plan[i] >= 1)
    && (forall i :: 0 <= i < |asked| ==> asked[i].len >= 1)
  }

  /** A source that never answers with an error. */
  predicate Obliging(plan: seq<int>) {
    forall i :: 0 <= i < |plan| ==> plan[i] >= 0
  }

  /** How many bytes answers announce. */
  function Total(rets: seq<int>): nat {
    if rets == [] then 0
    else Total(Front(rets)) + if Last(rets) < 0 then 0 else Last(rets)
  }

  predicate NoError(rets: seq<int>) {
    forall i :: 0 <= i < |rets| ==> rets[i] >= 0
  }

  /** Reads with any lengths from a source that splits its bytes in any way: a run of the model,
      on what the source gave. The answers count the bytes delivered; from a source without
      errors whose bytes are the beginning of a stream, which `more` completes, none is -1. */
  method ReadRun(source: ByteSource, asked: seq<ReadCall>, ghost more: bytes)
    returns (rets: seq<int>, out: bytes, enc: Reading, ghost es: seq<Event>)
    modifies source
    ensures |rets| == |asked| && Total(rets) == |out|
    ensures Obliging(old(source.plan)) && WellFormed(0, old(source.rest) + more) ==> NoError(rets)
    ensures fresh(enc) && enc.View().Valid()
    ensures Possible(EMPTY, es) && (enc.View(), out) == Run(EMPTY, es)
    ensures Arrived(es) + source.rest == old(source.rest)
    ensures |es| == |asked| && forall i :: 0 <= i < |es| ==> es[i].len == asked[i].len && es[i].mem == asked[i].mem
    ensures OneByOne(old(source.plan)) ==> forall i :: 0 <= i < |es| ==> |es[i].got| <= 1
    ensures Willing(old(source.plan), asked) ==> Served(es, old(source.rest))
  {
    hide Possible, Run, Arrived, Served, ReadStep, OneByOne, Willing, Ask, Offer, Reader.Pending, Obliging, NoError,
      Total, WellFormed, BadHeader;
    ghost var stream, plan := source.rest, source.plan;
    enc := new Reading();
    rets, out, es := [], [], [];
    RunNone(EMPTY);
    Nothing([], stream);
    ServedNone(stream);
    NoAnswers();
    for i := 0 to |asked|
      invariant enc.View().Valid() && Possible(EMPTY, es) && (enc.View(), out) == Run(EMPTY, es)
      invariant Arrived(es) + source.rest == stream
      invariant |es| == i && forall j :: 0 <= j < i ==> es[j].len == asked[j].len && es[j].mem == asked[j].mem
      invariant OneByOne(plan) ==> OneByOne(source.plan) && forall j :: 0 <= j < i ==> |es[j].got| <= 1
      invariant Willing(plan, asked) ==> Willing(source.plan, asked[i..]) && Served(es, stream)
      invariant |rets| == i && Total(rets) == |out|
      invariant Obliging(plan) ==> Obliging(source.plan)
      invariant Obliging(plan) && WellFormed(0, stream + more) ==> NoError(rets)
    {
      ghost var before, left, offers := enc.View(), source.rest, source.plan;
      var ret, data;
      ghost var got;
      ret, data, got := enc.Read(asked[i].len, source, asked[i].mem);
      ghost var e := Event(asked[i].len, got, asked[i].mem);
      if Obliging(plan) {
        Obliges(offers);
        if WellFormed(0, stream + more) { NoErrorMore(es, e, source.rest, stream, more, rets, ret); }
      }
      RunMore(EMPTY, es, e);
      Joined(Arrived(es), got, source.rest);
      if OneByOne(plan) { OfferOne(offers, before, e, left); }
      if Willing(plan, asked) { OfferSome(offers, asked[i..], before, e, left, es, stream); }
      TotalMore(rets, ret);
      rets, out, es := rets + [ret], out + data, es + [e];
      assert asked[i..][1..] == asked[i + 1..];
    }
  }

  lemma NoAnswers()
    ensures Total([]) == 0 && NoError([])
  {
  }

  lemma TotalMore(rets: seq<int>, ret: int)
    ensures Total(rets + [ret]) == Total(rets) + if ret < 0 then 0 else ret
  {
    assert Front(rets + [ret]) == rets;
  }

  lemma Obliges(plan: seq<int>)
    requires Obliging(plan)
    ensures !(plan != [] && plan[0] < 0) && Obliging(NextPlan(plan)) && Obliging(plan)
  {
  }

  /** On a stream no read comes upon a header whose size cannot be read. */
  lemma NoErrorMore(es: seq<Event>, e: Event, rest: bytes, stream: bytes, more: bytes, rets: seq<int>, ret: int)
    requires Possible(EMPTY, es) && Allowed(Run(EMPTY, es).0, e) && Arrived(es) + (e.got + rest) == stream
    requires WellFormed(0, stream + more) && NoError(rets)
    requires ret < 0 ==> Run(EMPTY, es).0.Pending() == [] && e.len > 0 && BadHeader(Run(EMPTY, es).0, e.got)
    ensures NoError(rets + [ret])
  {
    hide Possible, Run, Arrived, WellFormed, Flows, Due, BadHeader;
    var r := Run(EMPTY, es).0;
    Joined(Arrived(es), e.got + rest, more);
    Joined(e.got, rest, more);
    PrefixOfBody(es, e.got + (rest + more));
    if ret < 0 { NoBadHeader(r, e.got, rest + more) by { AskNothing(r, e); } }
  }

  lemma AskNothing(r: Reader, e: Event)
    requires Allowed(r, e) && r.Pending() == [] && e.len > 0
    ensures e.got != [] && r.tillHeader <= 2 ==> r.tillEof != 0
  {
  }

  lemma ServedNone(stream: bytes)
    ensures Served([], stream)
  {
  }

  /** What the source has given by its plan in a read. */
  ghost predicate Gave(plan: seq<int>, r: Reader, e: Event, left: bytes) {
    && r.Valid()
    && (e.len <= |r.Pending()| ==> e.got == [])
    && (e.len > |r.Pending()| ==> |e.got| == Offer(plan, Ask(r, e.len - |r.Pending()|), |left|))
  }

  lemma OfferOne(plan: seq<int>, r: Reader, e: Event, left: bytes)
    requires OneByOne(plan) && Gave(plan, r, e, left)
    ensures |e.got| <= 1 && OneByOne(NextPlan(plan))
  {
  }

  lemma OfferSome(plan: seq<int>, asked: seq<ReadCall>, r: Reader, e: Event, left: bytes, es: seq<Event>, stream: bytes)
    requires Willing(plan, asked) && asked != [] && asked[0].len == e.len && Gave(plan, r, e, left)
    requires Possible(EMPTY, es) && r == Run(EMPTY, es).0 && Arrived(es) + left == stream && Served(es, stream)
    ensures Willing(plan, asked[1..]) && Willing(NextPlan(plan), asked[1..]) && Served(es + [e], stream)
  {
    hide Possible, Run, Arrived, Ask;
    if e.got == [] {
      if e.len > |r.Pending()| {
        AskZero(r, e.len - |r.Pending()|);
        if left == [] { assert Arrived(es) + [] == Arrived(es); }
      }
    }
    var es' := es + [e];
    forall i | 0 <= i < |es'| && es'[i].got == []
      ensures Arrived(es'[..i]) == stream || (Possible(EMPTY, es'[..i]) && Content(Run(EMPTY, es'[..i]).0, es'[i].len))
    {
      assert es'[..i] == es[..i];
      if i == |es| { assert es[..i] == es; }
    }
  }

  /** Over a well-formed stream the output is always a prefix of the body. Once the source is dry
      it is all of the body that will ever come, which is the whole body if and only if the last
      chunk has been seen or is the next in the buffer. */
  method ReadStream(source: ByteSource, asked: seq<ReadCall>)
    returns (rets: seq<int>, out: bytes, enc: Reading, ghost es: seq<Event>)
    requires WellFormed(0, source.rest)
    modifies source
    ensures fresh(enc) && Possible(EMPTY, es) && (enc.View(), out) == Run(EMPTY, es)
    ensures Arrived(es) + source.rest == old(source.rest)
    ensures Flows(enc.View(), source.rest) && out + Due(enc.View(), source.rest) == Body(0, old(source.rest))
    ensures |rets| == |asked| && Total(rets) == |out| && (Obliging(old(source.plan)) ==> NoError(rets))
    ensures out <= Body(0, old(source.rest))
    ensures enc.bytesTillEof != -1 && enc.View().Pending() == [] ==> out == Body(0, old(source.rest))
    ensures source.rest == [] ==>
      (out + enc.View().Pending() == Body(0, old(source.rest)) <==> enc.bytesTillEof != -1 || OnlyLastLeft(enc.View()))
    ensures OneByOne(old(source.plan)) && source.rest == [] ==> out == Body(0, old(source.rest))
    ensures OneByOne(old(source.plan)) && Willing(old(source.plan), asked) && |asked| >= |old(source.rest)| ==>
      && out == Body(0, old(source.rest)) && enc.View().Pending() == [] && enc.bytesTillEof != -1
      && (Carried(0, old(source.rest)).behind != [] ==> enc.bytesTillEof == 0)
  {
    hide Possible, Run, Arrived, Served, OneByOne, Willing, WellFormed, Body, Flows, Ahead, OnlyLastLeft, Carried,
      Obliging, NoError, Total;
    ghost var stream := source.rest;
    assert stream + [] == stream;
    rets, out, enc, es := ReadRun(source, asked, []);
    PrefixOfBody(es, source.rest);
    if enc.bytesTillEof != -1 && enc.View().Pending() == [] {
      NoneDue(enc.View(), source.rest);
      assert out + [] == out;
    }
    if source.rest == [] {
      assert Arrived(es) + [] == Arrived(es);
      RunNone(enc.View());
      WholeBody(es, []);
      assert out + [] == out;
    }
    if OneByOne(old(source.plan)) {
      if source.rest == [] { DribbleDelivers(es, []); }
      if Willing(old(source.plan), asked) && |asked| >= |stream| {
        WillingLens(old(source.plan), asked);
        DribbleSuffices(es, source.rest);
      }
    }
  }

  lemma NoneDue(r: Reader, rest: bytes)
    requires Flows(r, rest) && r.tillEof != -1 && r.Pending() == []
    ensures Due(r, rest) == []
  {
  }

  lemma WillingLens(plan: seq<int>, asked: seq<ReadCall>)
    requires Willing(plan, asked)
    ensures forall i :: 0 <= i < |asked| ==> asked[i].len > 0
  {
  }

  // ------------------------------------------------------------------ writing

  /** Any calls, to a sink that accepts as little as it likes: a run of the model. What the sink
      has and what is pending are always the whole chunks of the calls that were accepted, and
      the meta data of the calls is in those chunks or still to be written, in order. */
  method WriteRun(w: Writing, sink: ByteSink, calls: seq<Call>) returns (took: seq<nat>, ghost t: Trace)
    requires w.Valid() && w.View() == IDLE && sink.written == []
    modifies w, sink
    ensures w.Valid() && t == Writes(calls, old(sink.plan))
    ensures w.View() == t.w && sink.written == t.sent && sink.plan == t.plan && took == t.took
    ensures Fits(calls, took) && Bodies(t.chunks) == TakenBodies(calls, took)
    ensures MetasOf(t.chunks) + w.metaWrite == MetasOfCalls(calls)
    ensures CallsPrint(calls) ==> sink.written + w.Unsent() == Concat(t.chunks)
  {
    hide Writes, Fits, TakenBodies, Bodies, MetasOf, MetasOfCalls, CallsPrint, Concat, WriteStep, Accepts, Written,
      Taken;
    ghost var plan := sink.plan;
    took, t := [], Trace(IDLE, [], plan, [], []);
    NoCalls(plan);
    for i := 0 to |calls|
      invariant w.Valid() && t == Writes(calls[..i], plan)
      invariant w.View() == t.w && sink.written == t.sent && sink.plan == t.plan && took == t.took
    {
      assert calls[..i + 1] == calls[..i] + [calls[i]];
      WritesMore(calls[..i], calls[i], plan);
      w.AppendMeta(calls[i].meta);
      var n, accepted := w.Write(calls[i].body, sink);
      TakenExact(calls[i].body);
      took, t := took + [n], Further(t, calls[i]);
    }
    assert calls[..|calls|] == calls;
    RunReports(calls, plan);
    RunKeepsMetas(calls, plan);
    if CallsPrint(calls) { RunConserves(calls, plan); }
  }

  lemma NoCalls(plan: seq<int>)
    ensures Writes([], plan) == Trace(IDLE, [], plan, [], [])
  {
  }

  /** Calls to a sink: whatever it has received of the chunks that were accepted begins a stream
      of the bodies before the first accepted call without one, with their meta data where it is
      clean; it is a whole stream if and only if it reaches to that call's end. */
  method Send(calls: seq<Call>, sinkPlan: seq<int>)
    returns (took: seq<nat>, stream: bytes, pending: nat, ghost t: Trace)
    requires CallsPrint(calls)
    ensures t == Writes(calls, sinkPlan) && took == t.took && stream == t.sent && pending == |t.w.unsent|
    ensures Fits(calls, took) && Delivered(t.chunks) <= TakenBodies(calls, took)
    ensures Delivered(t.chunks) == TakenBodies(calls, took) <==> NoneLate(t.chunks)
    ensures WellFormed(0, stream + Missing(t)) && Body(0, stream + Missing(t)) == Delivered(t.chunks)
    ensures WellFormed(0, stream) <==> EndSent(t)
    ensures EndSent(t) ==> Body(0, stream) == Delivered(t.chunks)
    ensures AllClean(t.chunks) ==>
      Steady(0, stream + Missing(t)) && Carried(0, stream + Missing(t)).metas == Announced(t.chunks)
  {
    hide Writes, WellFormed, Body, Carried, Steady, Delivered, Announced, Fits, TakenBodies, NoneLate, EndSent, Missing,
      AllClean, CallsPrint;
    var w := new Writing();
    var sink := new ByteSink(sinkPlan);
    took, t := WriteRun(w, sink, calls);
    pending := w.Pending();
    stream := sink.written;
    SentPart(calls, sinkPlan);
    SentWhole(calls, sinkPlan);
    TakenIsDelivered(calls, sinkPlan);
  }

  /** Calls to any sink, and what it received read back from any source. At every moment a prefix
      of the bodies accepted before the end has come out. When the reader reports the end, a call
      without a body was accepted and exactly those bodies have come out, with their meta data
      where it is clean. If the end was sent, a source that gives its bytes one by one, for as
      many reads, delivers all of them, and gets the reader to report it if a byte behind the end
      was sent. */
  method Transfer(calls: seq<Call>, sinkPlan: seq<int>, sourcePlan: seq<int>, asked: seq<ReadCall>)
    returns (took: seq<nat>, stream: bytes, pending: nat, rets: seq<int>, out: bytes, metas: seq<Meta>, ended: bool,
      ghost t: Trace)
    requires CallsPrint(calls)
    ensures t == Writes(calls, sinkPlan) && Fits(calls, took)
    ensures took == t.took && stream == t.sent && pending == |t.w.unsent|
    ensures |rets| == |asked| && Total(rets) == |out| && (Obliging(sourcePlan) ==> NoError(rets))
    ensures out <= Delivered(t.chunks) && out <= TakenBodies(calls, took)
    ensures ended ==> Closed(t.chunks) && out == Delivered(t.chunks)
    ensures ended ==> (out == TakenBodies(calls, took) <==> NoneLate(t.chunks))
    ensures ended && AllClean(t.chunks) ==> metas == Announced(t.chunks)
    ensures OneByOne(sourcePlan) && Willing(sourcePlan, asked) && |asked| >= |stream| && EndSent(t) ==>
      && out == Delivered(t.chunks)
      && (|t.w.unsent| < |Behind(t.chunks)| ==> ended)
    ensures Insistent(calls, sinkPlan) ==> EndSent(t) && |t.w.unsent| < |Behind(t.chunks)|
    ensures Generous(sinkPlan, calls) ==>
      pending == 0 && AllAccepted(calls, t.chunks, took)
    ensures EmptiesLast(calls) ==> NoneLate(t.chunks)
    ensures CallsSurvive(calls) ==> AllClean(t.chunks)
  {
    hide Writes, TakenBodies, Fits, NoneLate, WellFormed, Body, Carried, Steady, Delivered, Announced, Behind, Closed,
      AllClean, CallsPrint, EndSent, Missing, OneByOne, Willing, Possible, Run, Arrived, Flows, Ahead, Served,
      Insistent, Generous, EmptiesLast, CallsSurvive, AllAccepted, Obliging, NoError, Total;
    took, stream, pending, t := Send(calls, sinkPlan);
    var source := new ByteSource(stream, sourcePlan);
    var enc;
    ghost var es;
    rets, out, enc, es := ReadRun(source, asked, Missing(t));
    var eof := enc.Eof(None);
    ended, metas := eof == 1, enc.metaRead;
    PartRead(es, source.rest, stream, Missing(t));
    if ended {
      NoneDue(enc.View(), source.rest + Missing(t));
      assert out + [] == out;
      if AllClean(t.chunks) { MetasRead(es, source.rest + Missing(t)); }
      EndedClosed(calls, sinkPlan, es, source.rest);
    }
    if OneByOne(sourcePlan) && Willing(sourcePlan, asked) && |asked| >= |stream| && EndSent(t) {
      WillingLens(sourcePlan, asked);
      DribbleSuffices(es, source.rest);
      SentWhole(calls, sinkPlan);
    }
    Circumstances(calls, sinkPlan);
  }

  /** What is known of a run of writes from its calls and its sink alone. */
  lemma Circumstances(calls: seq<Call>, plan: seq<int>)
    requires CallsPrint(calls)
    ensures var t := Writes(calls, plan);
      && (Insistent(calls, plan) ==> EndSent(t) && |t.w.unsent| < |Behind(t.chunks)|)
      && (Generous(plan, calls) ==>
          t.w == IDLE && AllAccepted(calls, t.chunks, t.took))
      && (EmptiesLast(calls) ==> NoneLate(t.chunks))
      && (CallsSurvive(calls) ==> AllClean(t.chunks))
  {
    hide Writes, EndSent, Insistent, Generous, EmptiesLast, NoneLate, CallsSurvive, AllClean, CallsPrint, Behind,
      AllAccepted;
    if Insistent(calls, plan) { InsistentSends(calls, plan); }
    if Generous(plan, calls) { RunGenerous(calls, plan); }
    if EmptiesLast(calls) { EmptiesLastNoneLate(calls, plan); }
    if CallsSurvive(calls) { RunClean(calls, plan); }
  }

  /** Reading from a part of a stream is reading from the stream. */
  lemma PartRead(es: seq<Event>, rest: bytes, stream: bytes, missing: bytes)
    requires Possible(EMPTY, es) && Arrived(es) + rest == stream && WellFormed(0, stream + missing)
    ensures Arrived(es) + (rest + missing) == stream + missing
    ensures var (r, out) := Run(EMPTY, es);
      && Flows(r, rest + missing) && out + Due(r, rest + missing) == Body(0, stream + missing)
      && out <= Body(0, stream + missing)
  {
    hide Possible, Run, Arrived, Flows, Due, WellFormed, Body;
    Joined(Arrived(es), rest, missing);
    PrefixOfBody(es, rest + missing);
  }

  /** Once the last chunk has been seen and all is delivered, more chunks make no difference. */
  lemma EndedAlready(calls: seq<Call>, plan: seq<int>, es: seq<Event>, rest: bytes, more: seq<Chunk>)
    requires CallsPrint(calls) && Possible(EMPTY, es) && Arrived(es) + rest == Writes(calls, plan).sent
    requires Run(EMPTY, es).0.tillEof != -1 && Run(EMPTY, es).0.Pending() == []
    requires Regular(more) && Closed(Writes(calls, plan).chunks + more)
    ensures Run(EMPTY, es).1 == Delivered(Writes(calls, plan).chunks + more)
  {
    hide Possible, Run, Arrived, Flows, Due, WellFormed, Body, Closed, Writes, CallsPrint, Delivered, Concat, Behind,
      Carried, Announced;
    var t := Writes(calls, plan);
    var (r, out) := Run(EMPTY, es);
    SentDecodes(calls, plan, more);
    PartRead(es, rest, t.sent, t.w.unsent + Concat(more));
    NoneDue(r, rest + (t.w.unsent + Concat(more)));
    assert out + [] == out;
  }

  /** The reader reports the end only if an accepted call has ended the stream: otherwise what was
      sent would be the beginning of a stream that ends here as of one that goes on. */
  lemma EndedClosed(calls: seq<Call>, plan: seq<int>, es: seq<Event>, rest: bytes)
    requires CallsPrint(calls) && Possible(EMPTY, es) && Arrived(es) + rest == Writes(calls, plan).sent
    requires Run(EMPTY, es).0.tillEof != -1 && Run(EMPTY, es).0.Pending() == []
    ensures Closed(Writes(calls, plan).chunks)
  {
    hide Possible, Run, Arrived, Closed, Writes, CallsPrint, Delivered, Concat, Behind, Announced, Through;
    var cs := Writes(calls, plan).chunks;
    if !Closed(cs) {
      var one, two := [END], [Chunk([0], [], false), END];
      EndParts();
      OneMore();
      MoreChunks(cs, one);
      MoreChunks(cs, two);
      Longer(Delivered(cs), Delivered(two));
      EndedAlready(calls, plan, es, rest, one);
      EndedAlready(calls, plan, es, rest, two);
    }
  }

  lemma Longer(s: bytes, t: bytes)
    requires t != []
    ensures s + t != s + []
  {
    assert |s + t| > |s + []|;
  }

  lemma OneMore()
    ensures var two := [Chunk([0], [], false), END]; Regular(two) && Closed(two) && Delivered(two) == [0]
  {
    var two := [Chunk([0], [], false), END];
    assert two[1].body == [] && two[1..] == [END] && [END][1..] == [];
    assert Delivered([END]) == [] && [0] + [] == [0];
  }

  /** Once the last chunk has been seen, the reader has the extensions of the whole stream. */
  lemma MetasRead(es: seq<Event>, rest: bytes)
    requires Possible(EMPTY, es) && WellFormed(0, Arrived(es) + rest) && Steady(0, Arrived(es) + rest)
    requires Run(EMPTY, es).0.tillEof != -1
    ensures Run(EMPTY, es).0.meta == Carried(0, Arrived(es) + rest).metas
  {
    hide Possible, Run, Arrived, WellFormed, Carried, Steady, Flows;
    var stream := Arrived(es) + rest;
    Fresh(stream);
    RunStands(EMPTY, es, rest, true, Carried(0, stream).metas, Carried(0, stream).behind);
  }

  // ------------------------------------------------------------ extensions across

  /** Where the scan of the raw buffer finds a printed header. */
  lemma PrintedInRaw(raw: bytes, off: nat, n: nat, ms: seq<Meta>, rest: bytes)
    requires off <= |raw| && raw[off..] == HeadText(n, ms) + rest && AllTame(ms)
    ensures var (h, e) := (off + |PrintHex(n)|, |PrintList(ms)|);
      ScanFrom(raw, off, FRESH) == Some(Header(if ms == [] then -1 else h, h + e, h + e + 1))
  {
    hide ScanFrom, PrintList, AllTame, PrintHex;
    var front, s := raw[..off], raw[off..];
    assert front + s == raw;
    assert s[0] == PrintHex(n)[0];
    ScanHead(n, ms, rest);
    ScanShifts(front, s, 0, FRESH);
  }

  /** A reader that has a printed header in its buffer takes over exactly the printed list
      if and only if the list is clean. */
  lemma ReadsExtensions(r: Reader, n: nat, ms: seq<Meta>, rest: bytes, mem: bytes)
    requires r.Valid() && r.tillHeader == 0 && r.Unread() == HeadText(n, ms) + rest
    requires AllTame(ms)
    ensures var (r', ret) := Digest(r, mem); ret == 0 && (r'.meta == r.meta + ms <==> Clean(ms))
  {
    hide ScanFrom, PrintList, AllTame, PrintHex, ParseList, ParseHex, Clean, TakeHeader;
    PrintedInRaw(r.raw, r.off, n, ms, rest);
    var hex, text := PrintHex(n), PrintList(ms);
    var i, j := r.off + |hex|, r.off + |hex| + |text|;
    assert r.Unread() == hex + (text + ([CR, LF] + rest));
    assert r.raw[r.off..i] == r.Unread()[..|hex|] == hex;
    assert r.raw[i..j] == r.Unread()[|hex|..|hex| + |text|] == text;
    ParsePrintHex(n);
    AllKeyed(ms);
    var after := r.raw[j..] + mem;
    RoundTrip(ms, after);
    PrintedEmpty(ms);
    var read := ParseList(text, after);
    ParseNone(after);
    SameTail(r.meta, read, ms);
    var size := if n < WORD then n else WORD - 1;
    TakeKeepsMeta(r.(raw := r.raw[(if ms == [] then j else i) := 0], meta := r.meta + read), j + 1, size);
  }

  /** A header alone sets the counter to the next one to the size and the CR LF behind the body,
      if and only if 64 bits can count them: otherwise the counter wraps around, and the body is
      taken for the next header. */
  lemma SizeWraps(n: nat, mem: bytes)
    requires n < 0x1_0000_0000_0000_0000
    ensures var (r, ret) := Receive(EMPTY, HeadText(n, []), mem);
      && ret == 0 && r.raw == []
      && (r.tillHeader == n + 2 <==> n + 2 < 0x1_0000_0000_0000_0000)
      && (n == 0xFFFF_FFFF_FFFF_FFFE ==> r.tillHeader == 0 && r.tillEof == -1)
  {
    hide ScanFrom, PrintHex, ParseHex, ParseList;
    var raw := HeadText(n, []);
    assert PrintList([]) == [] && raw[0..] == raw == raw + [] && [] + raw == raw;
    PrintedInRaw(raw, 0, n, [], []);
    var i := |PrintHex(n)|;
    assert raw[0..i] == PrintHex(n) && |raw| == i + 2;
    ParsePrintHex(n);
    assert EMPTY.meta + [] == EMPTY.meta;
    assert Digest(EMPTY.(raw := raw), mem) == (TakeHeader(EMPTY.(raw := raw[i := 0]), i + 1, n), 0);
  }

  lemma AllKeyed(ms: seq<Meta>)
    requires AllTame(ms)
    ensures forall i :: 0 <= i < |ms| ==> ms[i].key.Some?
  {
  }

  lemma TakeKeepsMeta(r: Reader, lf: nat, size: nat)
    requires r.off <= lf < |r.raw|
    ensures TakeHeader(r, lf, size).meta == r.meta
  {
  }
}
