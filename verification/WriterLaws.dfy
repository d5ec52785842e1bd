/** Whole runs of write calls, with or without a buffer, to a sink that takes what it likes. */
module WriterLaws {
  import opened Options
  import opened Bytes
  import opened ChunkedStream
  import opened Extensions
  import opened StreamContents
  import opened ChunkText
  import opened Callbacks
  import opened WriterStep

  // -------------------------------------------------------------------- runs

  /** One write call: meta data attached before it, and its buffer, if it has one. */
  datatype Call = Call(meta: seq<Meta>, body: Option<bytes>)

  /** Where a run has got to: the writer, what the sink has received and is still willing to take,
      the chunks of the calls that were accepted, and what each call answered. */
  datatype Trace = Trace(w: Writer, sent: bytes, plan: seq<int>, chunks: seq<Chunk>, took: seq<nat>)

  /** One more call. */
  function Further(t: Trace, c: Call): Trace {
    var w := t.w.(metas := t.w.metas + c.meta);
    var (w', s, p) := WriteStep(w, c.body, t.plan);
    if Accepts(w, t.plan) then
      Trace(w', t.sent + s, p, t.chunks + [Chunk(Taken(c.body), w.metas, c.body.None?)], t.took + [|Taken(c.body)|])
    else Trace(w', t.sent + s, p, t.chunks, t.took + [0])
  }

  function Writes(calls: seq<Call>, plan: seq<int>): Trace {
    if calls == [] then Trace(IDLE, [], plan, [], []) else Further(Writes(Front(calls), plan), Last(calls))
  }

  function Front<T>(s: seq<T>): seq<T>
    requires s != []
  {
    s[..|s| - 1]
  }

  function Last<T>(s: seq<T>): T
    requires s != []
  {
    s[|s| - 1]
  }

  lemma WritesMore(calls: seq<Call>, c: Call, plan: seq<int>)
    ensures Writes(calls + [c], plan) == Further(Writes(calls, plan), c)
  {
    hide Further;
    assert Front(calls + [c]) == calls;
  }

  /** Meta data the writer prints faithfully: tame, and without NUL. */
  predicate Printable(m: Meta) {
    && IsTame(m) && 0 !in m.key.value && (m.value.Some? ==> 0 !in m.value.value)
  }

  predicate AllPrintable(ms: seq<Meta>) {
    forall i :: 0 <= i < |ms| ==> Printable(ms[i])
  }

  predicate CallsPrint(calls: seq<Call>) {
    forall i :: 0 <= i < |calls| ==> AllPrintable(calls[i].meta)
  }

  lemma {:induction false} EscapeNoNul(v: bytes)
    requires 0 !in v
    ensures 0 !in Escape(v)
  {
    if v == [] {
    } else {
      EscapeNoNul(v[1..]);
    }
  }

  lemma {:induction false} ListNoNul(ms: seq<Meta>)
    requires AllPrintable(ms)
    ensures 0 !in PrintList(ms)
  {
    if ms == [] {
    } else {
      if ms[0].value.Some? { EscapeNoNul(ms[0].value.value); }
      assert 0 !in PrintMeta(ms[0]);
      ListNoNul(ms[1..]);
    }
  }

  /** With printable meta data the bytes written are those of a chunk. */
  lemma WrittenChunk(c: Chunk)
    requires AllPrintable(c.metas)
    ensures Written(c.body, c.closing, c.metas) == ChunkBytes(c) && AllTame(c.metas)
  {
    ListNoNul(c.metas);
    CStringWhole(PrintList(c.metas));
    var head := HeadText(|c.body|, c.metas) + c.body;
    assert head + [CR, LF] + Surplus(c) == head + ([CR, LF] + Surplus(c));
    assert [CR, LF] + [] == [CR, LF];
  }

  lemma SplitFirst(cs: seq<Chunk>, c: Chunk)
    requires cs != []
    ensures (cs + [c])[0] == cs[0] && (cs + [c])[1..] == cs[1..] + [c]
  {
  }

  lemma {:induction false} ConcatSnoc(cs: seq<Chunk>, c: Chunk)
    ensures Concat(cs + [c]) == Concat(cs) + ChunkBytes(c)
    ensures Bodies(cs + [c]) == Bodies(cs) + c.body && MetasOf(cs + [c]) == MetasOf(cs) + c.metas
  {
    hide ChunkBytes;
    if cs == [] {
      assert cs + [c] == [c] && [c][1..] == [];
      assert Concat([c]) == ChunkBytes(c) + Concat([]) && Bodies([c]) == c.body + Bodies([]);
      assert MetasOf([c]) == c.metas + MetasOf([]);
    } else {
      var first, rest := cs[0], cs[1..];
      ConcatSnoc(rest, c);
      SplitFirst(cs, c);
      Joined(ChunkBytes(first), Concat(rest), ChunkBytes(c));
      Joined(first.body, Bodies(rest), c.body);
      Joined(first.metas, MetasOf(rest), c.metas);
    }
  }

  lemma RegularMore(cs: seq<Chunk>, c: Chunk)
    requires Regular(cs) && AllTame(c.metas) && |c.body| + 2 < WORD && (c.closing ==> c.body == [])
    ensures Regular(cs + [c])
  {
    hide AllTame;
  }

  // ------------------------------------------------------------- conservation

  lemma PrintableFront(calls: seq<Call>)
    requires CallsPrint(calls) && calls != []
    ensures CallsPrint(Front(calls)) && AllPrintable(Last(calls).meta)
  {
    hide AllPrintable;
  }

  /** What the sink has and what is pending are always the whole chunks of the calls that were
      accepted, whatever the calls and the sink. */
  lemma {:induction false} RunConserves(calls: seq<Call>, plan: seq<int>)
    requires CallsPrint(calls)
    ensures var t := Writes(calls, plan);
      t.sent + t.w.unsent == Concat(t.chunks) && Regular(t.chunks) && AllPrintable(t.w.metas)
    decreases |calls|
  {
    hide Regular, Further, Concat, ChunkBytes, CallsPrint, Printable;
    if calls == [] {
      assert Concat([]) == [] && Regular([]) by { Start(); }
    } else {
      PrintableFront(calls);
      RunConserves(Front(calls), plan);
      FurtherConserves(Writes(Front(calls), plan), Last(calls));
    }
  }

  lemma Start()
    ensures Concat([]) == [] && Bodies([]) == [] && MetasOf([]) == [] && Regular([])
  {
  }

  lemma FurtherConserves(t: Trace, c: Call)
    requires t.sent + t.w.unsent == Concat(t.chunks) && Regular(t.chunks)
    requires AllPrintable(t.w.metas) && AllPrintable(c.meta)
    ensures var t' := Further(t, c);
      t'.sent + t'.w.unsent == Concat(t'.chunks) && Regular(t'.chunks) && AllPrintable(t'.w.metas)
  {
    hide Regular, Concat, ChunkBytes, Printable, Taken, Written, WriteStep, Accepts;
    var w := t.w.(metas := t.w.metas + c.meta);
    var (w', s, p) := WriteStep(w, c.body, t.plan);
    var next := Chunk(Taken(c.body), w.metas, c.body.None?);
    StepKeeps(w, c.body, t.plan);
    Joined(t.sent, s, w'.unsent);
    if Accepts(w, t.plan) {
      WrittenChunk(next);
      ConcatSnoc(t.chunks, next);
      RegularMore(t.chunks, next) by { NoBuffer(c); }
      Joined(t.sent, w.unsent, ChunkBytes(next));
    } else {
      assert w.unsent + [] == w.unsent;
    }
  }

  lemma NoBuffer(c: Call)
    ensures c.body.None? ==> Taken(c.body) == []
    ensures c.body == Some([]) ==> Taken(c.body) == []
    ensures Taken(c.body) == [] ==> c.body.None? || c.body == Some([])
    ensures |Taken(c.body)| + 2 < WORD
  {
  }

  /** What the calls may answer: nothing, or the length of the buffer up to one megabyte. */
  predicate Fits(calls: seq<Call>, took: seq<nat>) {
    |calls| == |took| && forall i :: 0 <= i < |calls| && took[i] != 0 ==>
      && calls[i].body.Some?
      && took[i] == if |calls[i].body.value| < 1048576 then |calls[i].body.value| else 1048576
  }

  /** The bytes of the callers' buffers as far as the return values say they were taken. */
  function TakenBodies(calls: seq<Call>, took: seq<nat>): bytes
    requires Fits(calls, took)
    decreases |calls|
  {
    if calls == [] then []
    else
      FitsFront(calls, took);
      TakenBodies(Front(calls), Front(took)) + if Last(took) == 0 then [] else Last(calls).body.value[..Last(took)]
  }

  lemma FitsFront(calls: seq<Call>, took: seq<nat>)
    requires Fits(calls, took) && calls != []
    ensures took != [] && Fits(Front(calls), Front(took))
    ensures Last(took) != 0 ==> Last(calls).body.Some? && Last(took) <= |Last(calls).body.value|
  {
  }

  /** What one more call answers, and the chunk it adds. */
  lemma FurtherParts(t: Trace, c: Call)
    ensures var t' := Further(t, c);
      var body := Taken(c.body);
      || (t'.took == t.took + [0] && t'.chunks == t.chunks)
      || (t'.took == t.took + [|body|] && t'.chunks == t.chunks + [Chunk(body, t.w.metas + c.meta, c.body.None?)])
  {
    hide Taken, WriteStep, Accepts;
  }

  lemma TakenMore(calls: seq<Call>, took: seq<nat>, n: nat)
    requires calls != [] && Fits(Front(calls), took) && (n == 0 || n == |Taken(Last(calls).body)|)
    ensures Fits(calls, took + [n])
    ensures TakenBodies(calls, took + [n]) == TakenBodies(Front(calls), took) + Taken(Last(calls).body)[..n]
  {
    hide Taken;
    TakenExact(Last(calls).body);
    assert Front(took + [n]) == took;
  }

  /** The chunks' bodies are what the return values report. */
  lemma {:induction false} RunReports(calls: seq<Call>, plan: seq<int>)
    ensures var t := Writes(calls, plan); Fits(calls, t.took) && TakenBodies(calls, t.took) == Bodies(t.chunks)
    decreases |calls|
  {
    hide Taken, Further, Bodies, Fits, TakenBodies, MetasOf, Concat;
    if calls == [] {
      Start();
      NoneTaken();
    } else {
      var t, c := Writes(Front(calls), plan), Last(calls);
      var t' := Further(t, c);
      var body := Taken(c.body);
      RunReports(Front(calls), plan);
      FurtherParts(t, c);
      if t'.took == t.took + [0] && t'.chunks == t.chunks {
        TakenMore(calls, t.took, 0);
        assert body[..0] == [] && Bodies(t.chunks) + [] == Bodies(t.chunks);
      } else {
        TakenMore(calls, t.took, |body|);
        assert body[..|body|] == body;
        ConcatSnoc(t.chunks, Chunk(body, t.w.metas + c.meta, c.body.None?));
      }
    }
  }

  lemma NoneTaken()
    ensures Fits([], []) && TakenBodies([], []) == []
  {
  }

  /** The meta data of all calls. */
  function MetasOfCalls(calls: seq<Call>): seq<Meta> {
    if calls == [] then [] else MetasOfCalls(Front(calls)) + Last(calls).meta
  }

  /** The meta data of the calls is in those chunks or still to be written, in order. */
  lemma {:induction false} RunKeepsMetas(calls: seq<Call>, plan: seq<int>)
    ensures var t := Writes(calls, plan); MetasOf(t.chunks) + t.w.metas == MetasOfCalls(calls)
    decreases |calls|
  {
    hide Taken, WriteStep, Accepts, MetasOf;
    if calls == [] {
      Start();
    } else {
      var t := Writes(Front(calls), plan);
      var t' := Writes(calls, plan);
      var w := t.w.(metas := t.w.metas + Last(calls).meta);
      RunKeepsMetas(Front(calls), plan);
      StepKeeps(w, Last(calls).body, t.plan);
      Joined(MetasOf(t.chunks), t.w.metas, Last(calls).meta);
      if Accepts(w, t.plan) {
        ConcatSnoc(t.chunks, Last(t'.chunks));
        assert MetasOf(t'.chunks) + [] == MetasOf(t'.chunks);
      }
    }
  }

  // ------------------------------------------------- what was sent, decoded

  /** What more chunks add to the first ones. */
  lemma {:induction false} MoreChunks(cs: seq<Chunk>, more: seq<Chunk>)
    ensures Concat(cs + more) == Concat(cs) + Concat(more)
    ensures Closed(cs) ==>
      && Closed(cs + more) && Through(cs + more) == Through(cs) && Behind(cs + more) == Behind(cs) + Concat(more)
      && Delivered(cs + more) == Delivered(cs) && Announced(cs + more) == Announced(cs)
    ensures !Closed(cs) ==>
      && Closed(cs + more) == Closed(more) && Behind(cs + more) == Behind(more)
      && Through(cs + more) == Concat(cs) + Through(more)
      && Delivered(cs + more) == Delivered(cs) + Delivered(more)
      && Announced(cs + more) == Announced(cs) + Announced(more)
    decreases |cs|
  {
    hide ChunkBytes, LastText, Closed;
    if cs == [] {
      assert [] + more == more;
      NeverClosed();
    } else {
      var c, rest := cs[0], cs[1..];
      assert (cs + more)[0] == c && (cs + more)[1..] == rest + more;
      MoreChunks(rest, more);
      ClosedAt(cs);
      ClosedAt(cs + more);
      Joined(ChunkBytes(c), Concat(rest), Concat(more));
      if c.body == [] {
        Joined(Surplus(c), Concat(rest), Concat(more));
      } else if !Closed(rest) {
        Joined(ChunkBytes(c), Concat(rest), Through(more));
        Joined(c.body, Delivered(rest), Delivered(more));
        Joined(c.metas, Announced(rest), Announced(more));
      }
    }
  }

  lemma NeverClosed()
    ensures !Closed([])
  {
  }

  lemma ClosedAt(cs: seq<Chunk>)
    requires cs != []
    ensures Closed(cs) <==> cs[0].body == [] || Closed(cs[1..])
  {
    if cs[0].body != [] {
      if Closed(cs) { ClosedLess(cs); }
      if Closed(cs[1..]) {
        var i :| 0 <= i < |cs[1..]| && cs[1..][i].body == [];
        assert cs[i + 1].body == [];
      }
    }
  }

  lemma RegularBoth(cs: seq<Chunk>, more: seq<Chunk>)
    requires Regular(cs) && Regular(more)
    ensures Regular(cs + more)
    ensures AllClean(cs) && AllClean(more) ==> AllClean(cs + more)
  {
    hide AllTame, Clean;
  }

  /** What has been sent and what is pending, followed by any chunks of which one ends the stream
      if none has done so yet, is a stream of the bodies accepted before its end. */
  lemma SentDecodes(calls: seq<Call>, plan: seq<int>, more: seq<Chunk>)
    requires CallsPrint(calls) && Regular(more) && Closed(Writes(calls, plan).chunks + more)
    ensures var t := Writes(calls, plan);
      var (s, cs) := (t.sent + (t.w.unsent + Concat(more)), t.chunks + more);
      && WellFormed(0, s) && Body(0, s) == Delivered(cs) && Carried(0, s).behind == Behind(cs)
      && (AllClean(t.chunks) && AllClean(more) ==> Steady(0, s) && Carried(0, s).metas == Announced(cs))
  {
    hide WellFormed, Body, Carried, Steady, Concat, Through, Behind, Delivered, Announced, Closed, AllClean, Regular,
      Writes, CallsPrint;
    var t := Writes(calls, plan);
    var cs := t.chunks + more;
    RunConserves(calls, plan);
    Joined(t.sent, t.w.unsent, Concat(more));
    MoreChunks(t.chunks, more);
    RegularBoth(t.chunks, more);
    TextParts(cs);
    StreamDecodes(cs, Behind(cs));
    StreamCarries(cs, Behind(cs));
  }

  const END := Chunk([], [], true)

  /** What is missing of a whole stream: what is pending, and a last chunk if none has been
      accepted. */
  function Missing(t: Trace): bytes {
    t.w.unsent + if Closed(t.chunks) then [] else Concat([END])
  }

  lemma EndParts()
    ensures Regular([END]) && Closed([END]) && AllClean([END])
    ensures Delivered([END]) == [] && Announced([END]) == [] && Behind([END]) == [CR, LF]
    ensures |Concat([END])| >= 7
  {
    hide PrintHex;
    assert [END][0].body == [] && [END][1..] == [];
    assert |HeadText(0, [])| >= 3;
    assert Concat([END]) == ChunkBytes(END) + [];
  }

  /** Whatever part of it the sink has taken, what was sent begins a stream of the bodies that
      were accepted before the first accepted call without a body. */
  lemma SentPart(calls: seq<Call>, plan: seq<int>)
    requires CallsPrint(calls)
    ensures var t := Writes(calls, plan);
      var s := t.sent + Missing(t);
      && WellFormed(0, s) && Body(0, s) == Delivered(t.chunks)
      && Carried(0, s).behind == (if Closed(t.chunks) then Behind(t.chunks) else [CR, LF])
      && (AllClean(t.chunks) ==> Steady(0, s) && Carried(0, s).metas == Announced(t.chunks))
  {
    hide WellFormed, Body, Carried, Steady, Concat, Behind, Delivered, Announced, Closed, AllClean, Regular, Writes,
      CallsPrint;
    var t := Writes(calls, plan);
    if Closed(t.chunks) {
      Start();
      assert t.chunks + [] == t.chunks;
      NoneUnclean();
      SentDecodes(calls, plan, []);
    } else {
      EndParts();
      MoreChunks(t.chunks, [END]);
      SentDecodes(calls, plan, [END]);
      assert Delivered(t.chunks) + [] == Delivered(t.chunks) && Announced(t.chunks) + [] == Announced(t.chunks);
    }
  }

  lemma NoneUnclean()
    ensures AllClean([])
  {
  }

  /** Less is pending than was written behind the end of the stream, or just as much. */
  predicate EndSent(t: Trace) {
    Closed(t.chunks) && |t.w.unsent| <= |Behind(t.chunks)|
  }

  /** What was sent is a whole stream if and only if a call without a body was accepted and no
      more is pending than what was written behind its end. */
  lemma SentWhole(calls: seq<Call>, plan: seq<int>)
    requires CallsPrint(calls)
    ensures var t := Writes(calls, plan);
      && (WellFormed(0, t.sent) <==> EndSent(t))
      && (EndSent(t) ==>
          && Body(0, t.sent) == Delivered(t.chunks)
          && |Carried(0, t.sent).behind| == |Behind(t.chunks)| - |t.w.unsent|)
  {
    hide WellFormed, Body, Carried, Steady, Concat, Behind, Through, Delivered, Announced, Closed, AllClean, Regular,
      Writes, CallsPrint;
    var t := Writes(calls, plan);
    SentPart(calls, plan);
    EndParts();
    if EndSent(t) {
      RunConserves(calls, plan);
      TextParts(t.chunks);
      SentThrough(t.sent, t.w.unsent, Through(t.chunks), Behind(t.chunks));
      var tail := Behind(t.chunks)[..|Behind(t.chunks)| - |t.w.unsent|];
      StreamDecodes(t.chunks, tail);
      StreamCarries(t.chunks, tail);
    }
    if WellFormed(0, t.sent) { StreamExtends(0, t.sent, Missing(t)); }
  }

  lemma SentThrough(sent: bytes, unsent: bytes, through: bytes, behind: bytes)
    requires sent + unsent == through + behind && |unsent| <= |behind|
    ensures sent == through + behind[..|behind| - |unsent|]
  {
    assert sent == (sent + unsent)[..|sent|];
  }

  // -------------------------------------------------- bodies behind the end

  predicate Empty(c: Call) { c.body.None? || c.body == Some([]) }

  /** No call with a body comes after one without. */
  predicate EmptiesLast(calls: seq<Call>) {
    forall i, j :: 0 <= i < j < |calls| && Empty(calls[i]) ==> Empty(calls[j])
  }

  /** The bodies delivered are the first of those reported as taken, and are all of them if and
      only if none was taken after an accepted call without a body. */
  lemma TakenIsDelivered(calls: seq<Call>, plan: seq<int>)
    ensures var t := Writes(calls, plan);
      && Fits(calls, t.took)
      && Delivered(t.chunks) <= TakenBodies(calls, t.took)
      && (Delivered(t.chunks) == TakenBodies(calls, t.took) <==> NoneLate(t.chunks))
  {
    hide Writes, Fits, TakenBodies, Delivered, Bodies, NoneLate;
    RunReports(calls, plan);
    DeliversAll(Writes(calls, plan).chunks);
  }

  lemma EmptyTaken(c: Call)
    ensures Taken(c.body) == [] <==> Empty(c)
  {
    NoBuffer(c);
  }

  /** Calls without a body may come anywhere; where they come last, none is late. */
  lemma {:induction false} EmptiesLastNoneLate(calls: seq<Call>, plan: seq<int>)
    requires EmptiesLast(calls)
    ensures NoneLate(Writes(calls, plan).chunks)
    ensures Closed(Writes(calls, plan).chunks) ==> exists i :: 0 <= i < |calls| && Empty(calls[i])
    decreases |calls|
  {
    hide Further, Empty, Taken;
    if calls == [] {
    } else {
      var t, c := Writes(Front(calls), plan), Last(calls);
      EmptiesLastNoneLate(Front(calls), plan);
      FurtherParts(t, c);
      EmptyTaken(c);
      if Closed(t.chunks) {
        var i :| 0 <= i < |Front(calls)| && Empty(Front(calls)[i]);
        assert Empty(calls[i]);
        assert Empty(c);
      } else if Empty(c) {
        assert Empty(calls[|calls| - 1]);
      }
      assert forall i :: 0 <= i < |t.chunks| ==> Further(t, c).chunks[i] == t.chunks[i];
    }
  }

  // -------------------------------------------------------------- meta data

  predicate AllSurvive(ms: seq<Meta>) {
    forall i :: 0 <= i < |ms| ==> Survives(ms[i])
  }

  lemma {:induction false} SurvivorsClean(ms: seq<Meta>)
    requires AllSurvive(ms)
    ensures Clean(ms)
  {
    if ms == [] {
    } else {
      SurvivorsClean(ms[1..]);
    }
  }

  /** All the meta data of the calls survives. */
  predicate CallsSurvive(calls: seq<Call>) {
    forall i :: 0 <= i < |calls| ==> AllSurvive(calls[i].meta)
  }

  /** Surviving entries make clean lists, however the sink has them gathered into chunks. */
  lemma {:induction false} RunClean(calls: seq<Call>, plan: seq<int>)
    requires CallsSurvive(calls)
    ensures AllClean(Writes(calls, plan).chunks) && AllSurvive(Writes(calls, plan).w.metas)
    decreases |calls|
  {
    hide Survives, Clean, Taken, WriteStep, Accepts;
    if calls == [] {
    } else {
      var t, c := Writes(Front(calls), plan), Last(calls);
      var w := t.w.(metas := t.w.metas + c.meta);
      RunClean(Front(calls), plan);
      StepKeeps(w, c.body, t.plan);
      SurvivorsClean(w.metas);
    }
  }

  // ----------------------------------------------- sinks that take everything

  /** A sink that takes the chunk of every call in whole. */
  predicate Generous(plan: seq<int>, calls: seq<Call>) {
    |plan| >= |calls| && forall i :: 0 <= i < |calls| ==>
      plan[i] >= |Written(Taken(calls[i].body), calls[i].body.None?, calls[i].meta)|
  }

  function ChunkOf(c: Call): Chunk { Chunk(Taken(c.body), c.meta, c.body.None?) }

  /** The chunks and answers of calls that are all accepted: each buffer up to one megabyte. */
  predicate AllAccepted(calls: seq<Call>, chunks: seq<Chunk>, took: seq<nat>) {
    && |chunks| == |took| == |calls|
    && (forall i :: 0 <= i < |calls| && calls[i].body.None? ==>
          took[i] == 0 && chunks[i] == Chunk([], calls[i].meta, true))
    && (forall i :: 0 <= i < |calls| && calls[i].body.Some? ==>
          && took[i] == (if |calls[i].body.value| < 1048576 then |calls[i].body.value| else 1048576)
          && chunks[i] == Chunk(calls[i].body.value[..took[i]], calls[i].meta, false))
  }

  /** To such a sink every call is accepted, and nothing stays pending. */
  lemma {:induction false} RunGenerous(calls: seq<Call>, plan: seq<int>)
    requires Generous(plan, calls)
    ensures var t := Writes(calls, plan);
      t.w == IDLE && t.plan == plan[|calls|..] && AllAccepted(calls, t.chunks, t.took)
    decreases |calls|
  {
    hide Taken, Further, ChunkOf, Generous, AllAccepted;
    if calls == [] {
      NoneAccepted();
    } else {
      var t, c := Writes(Front(calls), plan), Last(calls);
      GenerousFront(plan, calls);
      RunGenerous(Front(calls), plan);
      GenerousFurther(t, c);
      AcceptedMore(calls, t.chunks, t.took);
    }
  }

  lemma NoneAccepted()
    ensures AllAccepted([], [], [])
  {
  }

  lemma AcceptedMore(calls: seq<Call>, chunks: seq<Chunk>, took: seq<nat>)
    requires calls != [] && AllAccepted(Front(calls), chunks, took)
    ensures AllAccepted(calls, chunks + [ChunkOf(Last(calls))], took + [|Taken(Last(calls).body)|])
  {
    hide Taken;
    TakenExact(Last(calls).body);
  }

  lemma GenerousFront(plan: seq<int>, calls: seq<Call>)
    requires Generous(plan, calls) && calls != []
    ensures Generous(plan, Front(calls)) && |plan| >= |calls|
    ensures plan[|calls| - 1] >= |Written(Taken(Last(calls).body), Last(calls).body.None?, Last(calls).meta)|
  {
    hide Written, Taken;
  }

  lemma GenerousFurther(t: Trace, c: Call)
    requires t.w == IDLE && t.plan != [] && t.plan[0] >= |Written(Taken(c.body), c.body.None?, c.meta)|
    ensures var t' := Further(t, c);
      && t'.w == IDLE && t'.plan == t.plan[1..]
      && t'.chunks == t.chunks + [ChunkOf(c)] && t'.took == t.took + [|Taken(c.body)|]
  {
    hide Taken, Written, WriteStep, Accepts;
    assert [] + c.meta == c.meta;
    GenerousStep(c, t.plan);
  }

  lemma GenerousStep(c: Call, plan: seq<int>)
    requires plan != [] && plan[0] >= |Written(Taken(c.body), c.body.None?, c.meta)|
    ensures var w := Writer([], c.meta);
      && Accepts(w, plan) && WriteStep(w, c.body, plan).0 == IDLE && WriteStep(w, c.body, plan).2 == plan[1..]
  {
    hide Taken, Written;
    WrittenNotEmpty(Taken(c.body), c.body.None?, c.meta);
  }

  // ------------------------------------------- sinks that take at least a byte

  lemma {:induction false} RunSends(calls: seq<Call>, plan: seq<int>)
    requires Eager(plan) && |plan| >= 2 * |calls|
    ensures var t := Writes(calls, plan);
      |t.sent| >= |calls| && Eager(t.plan) && |t.plan| >= |plan| - 2 * |calls|
    decreases |calls|
  {
    hide Taken, WriteStep, Accepts;
    if calls == [] {
    } else {
      var t, c := Writes(Front(calls), plan), Last(calls);
      RunSends(Front(calls), plan);
      StepSends(t.w.(metas := t.w.metas + c.meta), c.body, t.plan);
    }
  }

  /** The length of the chunks the calls would make if each were accepted. */
  function Cost(calls: seq<Call>): nat {
    if calls == [] then 0
    else Cost(Front(calls)) + |Written(Taken(Last(calls).body), Last(calls).body.None?, Last(calls).meta)|
  }

  lemma {:induction false} PrintListBoth(a: seq<Meta>, b: seq<Meta>)
    ensures PrintList(a + b) == PrintList(a) + PrintList(b)
  {
    hide PrintMeta;
    if a == [] {
      assert a + b == b;
    } else {
      assert (a + b)[0] == a[0] && (a + b)[1..] == a[1..] + b;
      PrintListBoth(a[1..], b);
      Joined(PrintMeta(a[0]), PrintList(a[1..]), PrintList(b));
    }
  }

  lemma WrittenLength(body: bytes, last: bool, metas: seq<Meta>)
    requires AllPrintable(metas)
    ensures |Written(body, last, metas)| == |PrintHex(|body|)| + |PrintList(metas)| + |body| + if last then 6 else 4
  {
    hide PrintHex, PrintList, CString, Printable;
    ListNoNul(metas);
    CStringWhole(PrintList(metas));
  }

  lemma PrintableBoth(a: seq<Meta>, b: seq<Meta>)
    requires AllPrintable(a) && AllPrintable(b)
    ensures AllPrintable(a + b)
  {
    hide Printable;
  }

  /** The chunks accepted and the meta data still to be written are no longer than that. */
  lemma {:induction false} RunCost(calls: seq<Call>, plan: seq<int>)
    requires CallsPrint(calls)
    ensures var t := Writes(calls, plan);
      |Concat(t.chunks)| + |PrintList(t.w.metas)| <= Cost(calls)
    decreases |calls|
  {
    hide Further, Written, CallsPrint, PrintList, Concat, AllPrintable, Regular, Taken;
    if calls == [] {
      Start();
      assert |PrintList([])| == 0 by { NothingPrinted(); }
    } else {
      var t, c := Writes(Front(calls), plan), Last(calls);
      PrintableFront(calls);
      RunCost(Front(calls), plan);
      RunConserves(Front(calls), plan);
      FurtherCost(t, c);
    }
  }

  lemma NothingPrinted()
    ensures PrintList([]) == []
  {
  }

  lemma FurtherCost(t: Trace, c: Call)
    requires AllPrintable(t.w.metas) && AllPrintable(c.meta)
    ensures var t' := Further(t, c);
      |Concat(t'.chunks)| + |PrintList(t'.w.metas)|
        <= |Concat(t.chunks)| + |PrintList(t.w.metas)| + |Written(Taken(c.body), c.body.None?, c.meta)|
  {
    hide WriteStep, Accepts, Written, PrintList, Concat, AllPrintable, Taken, ChunkBytes, PrintHex;
    var w := t.w.(metas := t.w.metas + c.meta);
    var body := Taken(c.body);
    var next := Chunk(body, w.metas, c.body.None?);
    StepKeeps(w, c.body, t.plan);
    PrintListBoth(t.w.metas, c.meta);
    PrintableBoth(t.w.metas, c.meta);
    WrittenLength(body, c.body.None?, c.meta);
    WrittenLength(body, c.body.None?, w.metas);
    WrittenChunk(next);
    ConcatSnoc(t.chunks, next);
    NothingPrinted();
  }

  /** Calls that only ask for the end of the stream. */
  function Closing(n: nat): seq<Call> {
    if n == 0 then [] else Closing(n - 1) + [Call([], None)]
  }

  /** While they are refused nothing is added; the first that is accepted ends the stream. */
  lemma {:induction false} RunCloses(calls: seq<Call>, n: nat, plan: seq<int>)
    requires CallsPrint(calls)
    ensures CallsPrint(calls + Closing(n)) && |Closing(n)| == n
    ensures var (t0, t) := (Writes(calls, plan), Writes(calls + Closing(n), plan));
      if Closed(t.chunks) then |Through(t.chunks)| <= Cost(calls) + 5
      else t.chunks == t0.chunks && t.w.metas == t0.w.metas
  {
    hide Further, CallsPrint, Closed, Through, Concat, Writes, PrintList, Behind, AllPrintable, Regular, Cost;
    var t0 := Writes(calls, plan);
    RunCost(calls, plan);
    if n == 0 {
      assert calls + [] == calls;
      if Closed(t0.chunks) { TextParts(t0.chunks); }
    } else {
      var front, c := calls + Closing(n - 1), Call([], None);
      RunCloses(calls, n - 1, plan);
      assert calls + Closing(n) == front + [c];
      PrintableMore(front, c) by { NoMetas(); }
      WritesMore(front, c, plan);
      FurtherCloses(Writes(front, plan));
    }
  }

  lemma NoMetas()
    ensures AllPrintable([])
  {
  }

  lemma PrintableMore(calls: seq<Call>, c: Call)
    requires CallsPrint(calls) && AllPrintable(c.meta)
    ensures CallsPrint(calls + [c])
  {
    hide AllPrintable;
  }

  lemma FurtherCloses(t: Trace)
    ensures var t' := Further(t, Call([], None));
      if Closed(t.chunks) then Closed(t'.chunks) && Through(t'.chunks) == Through(t.chunks)
      else if Closed(t'.chunks) then |Through(t'.chunks)| == |Concat(t.chunks)| + |PrintList(t.w.metas)| + 5
      else t'.chunks == t.chunks && t'.w.metas == t.w.metas
  {
    hide WriteStep, Accepts, PrintList, Concat, Through, Delivered, Behind, Announced, Closed, ChunkBytes;
    var w := t.w.(metas := t.w.metas + []);
    assert t.w.metas + [] == t.w.metas;
    var last := Chunk([], t.w.metas, true);
    assert t.chunks + [] == t.chunks;
    StepKeeps(w, None, t.plan);
    MoreChunks(t.chunks, [last]);
    LastAlone(last);
  }

  lemma LastAlone(c: Chunk)
    requires c.body == []
    ensures Closed([c]) && Through([c]) == LastText(c.metas) && |LastText(c.metas)| == |PrintList(c.metas)| + 5
  {
    hide PrintList;
    assert [c][0].body == [];
    assert |PrintHex(0)| == 1;
  }

  /** A sink that takes at least one byte of every offer receives the whole stream, and a byte
      behind its end, if the end is asked for as often as the calls before have text, and six
      times more. */
  lemma RunInsists(calls: seq<Call>, n: nat, plan: seq<int>)
    requires CallsPrint(calls) && n > Cost(calls) + 5
    requires Eager(plan) && |plan| >= 2 * (|calls| + n)
    ensures var t := Writes(calls + Closing(n), plan); EndSent(t) && |t.w.unsent| < |Behind(t.chunks)|
  {
    hide Further, CallsPrint, Closed, Through, Concat, Writes, Behind, PrintList, Eager, Regular, AllPrintable;
    var all := calls + Closing(n);
    var t := Writes(all, plan);
    RunCloses(calls, n, plan);
    RunCost(calls, plan);
    RunSends(all, plan);
    RunConserves(all, plan);
    if Closed(t.chunks) { TextParts(t.chunks); }
  }

  /** A run that ends by asking for the end so often, to such a sink. */
  ghost predicate Insistent(calls: seq<Call>, plan: seq<int>) {
    && Eager(plan) && |plan| >= 2 * |calls|
    && exists k :: 0 <= k <= |calls| && calls[k..] == Closing(|calls| - k) && |calls| - k > Cost(calls[..k]) + 5
  }

  lemma PrintablePrefix(calls: seq<Call>, k: nat)
    requires CallsPrint(calls) && k <= |calls|
    ensures CallsPrint(calls[..k])
  {
    hide AllPrintable;
  }

  lemma InsistentSends(calls: seq<Call>, plan: seq<int>)
    requires CallsPrint(calls) && Insistent(calls, plan)
    ensures var t := Writes(calls, plan); EndSent(t) && |t.w.unsent| < |Behind(t.chunks)|
  {
    hide Writes, Behind, EndSent, Eager, AllPrintable, Closing, Cost, CallsPrint;
    var k :| 0 <= k <= |calls| && calls[k..] == Closing(|calls| - k) && |calls| - k > Cost(calls[..k]) + 5;
    assert calls == calls[..k] + Closing(|calls| - k);
    PrintablePrefix(calls, k);
    RunInsists(calls[..k], |calls| - k, plan);
  }

  // --------------------------------------------------------------- witnesses

  /** An empty body ends the stream: of two calls, with an empty body and with body `a`, followed
      by one without a buffer, the second is reported as taken and never delivered. */
  lemma EmptyBodyEnds()
    ensures var calls := [Call([], Some([])), Call([], Some([97])), Call([], None)];
      var t := Writes(calls, [9, 9, 9]);
      && t.w == IDLE && t.took == [0, 1, 0]
      && Fits(calls, t.took) && TakenBodies(calls, t.took) == [97] && Delivered(t.chunks) == []
  {
    hide Writes, Written, Taken, TakenBodies, Fits;
    var calls := [Call([], Some([])), Call([], Some([97])), Call([], None)];
    var plan := [9, 9, 9];
    ShortText();
    assert Generous(plan, calls);
    RunGenerous(calls, plan);
    var t := Writes(calls, plan);
    RunReports(calls, plan);
    var c0, c1, c2 := Chunk([], [], false), Chunk([97], [], false), Chunk([], [], true);
    assert calls[1].body.value[..1] == [97] && calls[0].body.value[..0] == [];
    assert t.chunks == [c0, c1, c2];
    assert t.chunks[0].body == [] && t.chunks[1..] == [c1, c2] && t.chunks[1..][1..] == [c2] && [c2][1..] == [];
    assert Bodies([c2]) == [] + Bodies([]);
    assert Bodies(t.chunks[1..]) == [97] + Bodies([c2]);
    assert Bodies(t.chunks) == [] + Bodies(t.chunks[1..]);
    assert t.took == [0, 1, 0];
  }

  lemma ShortText()
    ensures Taken(Some([])) == [] && Taken(Some([97])) == [97] && Taken(None) == []
    ensures |Written([], false, [])| == 5 && |Written([97], false, [])| == 6
    ensures Written([], true, []) == [48, CR, LF, CR, LF, CR, LF]
  {
    assert PrintHex(0) == [48] && PrintHex(1) == [49] && CString(PrintList([])) == [];
  }

  /** Calls without a buffer are meant to flush, but whenever the first offer takes all that is
      pending they add another last chunk: with a sink that takes 4, 3 and 4 bytes, two such calls
      leave two last chunks, and bytes pending. */
  lemma FlushRepeats()
    ensures var t := Writes(Closing(2), [4, 3, 4]);
      && t.sent + t.w.unsent == [48, 13, 10, 13, 10, 13, 10] + [48, 13, 10, 13, 10, 13, 10]
      && |t.w.unsent| == 3
  {
    hide Written, Taken;
    ShortText();
    var text: bytes := [48, CR, LF, CR, LF, CR, LF];
    var c := Call([], None);
    assert Closing(1) == [c] && Closing(2) == [c, c];
    var t1 := Writes([c], [4, 3, 4]);
    assert Front([c]) == [] && Front([c, c]) == [c];
    assert WriteStep(IDLE, None, [4, 3, 4]) == (Writer(text[4..], []), [] + text[..4], [3, 4]);
    assert WriteStep(Writer(text[4..], []), None, [3, 4]) == (Writer(text[4..], []), text[4..][..3] + text[..4], []);
  }
}
