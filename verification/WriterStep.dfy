/** One call of the chunked writer on values: what it builds, and what of it the sink takes. */
module WriterStep {
  import opened Options
  import opened Bytes
  import opened Extensions
  import opened Callbacks

  const LIMIT := 1048576

  /** The chunk written for `body`, with the extensions as a C string. */
  function Written(body: bytes, last: bool, metas: seq<Meta>): bytes {
    PrintHex(|body|) + CString(PrintList(metas)) + [CR, LF] + body + (if last then [CR, LF, CR, LF] else [CR, LF])
  }

  /** How much of a body one call takes. */
  function Taken(buf: Option<bytes>): bytes {
    if buf.None? then [] else if |buf.value| > LIMIT then buf.value[..LIMIT] else buf.value
  }

  /** One call takes the whole buffer, or its first megabyte, and nothing where there is none. */
  lemma TakenExact(buf: Option<bytes>)
    ensures buf.None? ==> Taken(buf) == []
    ensures buf.Some? ==>
      && |Taken(buf)| == (if |buf.value| < 1048576 then |buf.value| else 1048576)
      && Taken(buf) == buf.value[..|Taken(buf)|]
  {
    if buf.Some? { assert buf.value[..|buf.value|] == buf.value; }
  }

  /** The writer: the bytes it still has to send, and the meta data for its next chunk. */
  datatype Writer = Writer(unsent: bytes, metas: seq<Meta>)

  const IDLE := Writer([], [])

  /** What is pending is offered to a sink once, if anything is: the writer after it, what the
      sink has taken, and what is left of its plan. */
  function Flushed(w: Writer, plan: seq<int>): (Writer, bytes, seq<int>) {
    if w.unsent == [] then (w, [], plan)
    else
      var n := Moved(plan, |w.unsent|);
      (w.(unsent := w.unsent[n..]), w.unsent[..n], NextPlan(plan))
  }

  /** A chunk is built, unless something is still to be sent. */
  function Queued(w: Writer, buf: Option<bytes>): Writer {
    if w.unsent != [] then w else Writer(Written(Taken(buf), buf.None?, w.metas), [])
  }

  /** One call: flush, build, flush. */
  function WriteStep(w: Writer, buf: Option<bytes>, plan: seq<int>): (Writer, bytes, seq<int>) {
    var (w1, s1, p1) := Flushed(w, plan);
    var (w2, s2, p2) := Flushed(Queued(w1, buf), p1);
    (w2, s1 + s2, p2)
  }

  /** The first offer takes all that is pending. */
  predicate Accepts(w: Writer, plan: seq<int>) {
    Moved(plan, |w.unsent|) == |w.unsent|
  }

  lemma FlushParts(w: Writer, plan: seq<int>)
    ensures var (w', s, p) := Flushed(w, plan);
      && s + w'.unsent == w.unsent && w'.metas == w.metas
      && (w'.unsent == [] <==> Accepts(w, plan))
      && |s| == Moved(plan, |w.unsent|)
  {
  }

  lemma WrittenNotEmpty(body: bytes, last: bool, metas: seq<Meta>)
    ensures |Written(body, last, metas)| >= 5 && (last ==> |Written(body, last, metas)| >= 7)
  {
    hide PrintHex;
  }

  /** A call is accepted if and only if its first offer takes all that is pending. Then its
      chunk is added to what is sent and pending, and otherwise nothing. */
  lemma StepKeeps(w: Writer, buf: Option<bytes>, plan: seq<int>)
    ensures var (w', s, p) := WriteStep(w, buf, plan);
      && s + w'.unsent == w.unsent + (if Accepts(w, plan) then Written(Taken(buf), buf.None?, w.metas) else [])
      && w'.metas == (if Accepts(w, plan) then [] else w.metas)
  {
    hide Flushed, Accepts, Written;
    var (w1, s1, p1) := Flushed(w, plan);
    var (w2, s2, p2) := Flushed(Queued(w1, buf), p1);
    FlushParts(w, plan);
    FlushParts(Queued(w1, buf), p1);
    Joined(s1, s2, w2.unsent);
    if w1.unsent == [] { assert s1 + [] == s1; } else { assert w.unsent + [] == w.unsent; }
  }

  /** A sink that takes at least one byte of every offer. */
  predicate Eager(plan: seq<int>) {
    forall i :: 0 <= i < |plan| ==> plan[i] >= 1
  }

  /** Such a sink receives something in every call, and is asked at most twice. */
  lemma StepSends(w: Writer, buf: Option<bytes>, plan: seq<int>)
    requires Eager(plan) && |plan| >= 2
    ensures var (w', s, p) := WriteStep(w, buf, plan); s != [] && Eager(p) && |p| >= |plan| - 2
  {
    hide Written;
    var body := Taken(buf);
    WrittenNotEmpty(body, buf.None?, w.metas);
    var (w1, s1, p1) := Flushed(w, plan);
    var (w2, s2, p2) := Flushed(Queued(w1, buf), p1);
    if w.unsent == [] {
      assert s2 != [];
    } else {
      assert s1 != [];
    }
  }

  /** Flushing by a call without a buffer, as the interface promises, leaves nothing pending and
      adds no chunk if and only if the first offer takes only a part and the second the rest. */
  lemma FlushOnly(w: Writer, plan: seq<int>)
    requires w.unsent != []
    ensures var n := Moved(plan, |w.unsent|);
      (!Accepts(w, plan) && WriteStep(w, None, plan).0.unsent == [])
      <==> n < |w.unsent| && Moved(NextPlan(plan), |w.unsent| - n) == |w.unsent| - n
  {
    hide Written;
  }
}
