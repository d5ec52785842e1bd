/** Whole runs of reads on values: what each call asks for and gives, and what holds of the
    bytes, the extensions and the end of the stream however the source splits it. */
module ReaderRuns {
  import opened Options
  import opened Bytes
  import opened ChunkedStream
  import opened Extensions
  import opened StreamContents
  import opened ReaderStep
  import opened ReaderEnd

  // ------------------------------------------------------------------ one read

  /** One call of the reader: the length asked for, what its source gave, and what memory holds
      behind the bytes in the reader's buffer. */
  datatype Event = Event(len: nat, got: bytes, mem: bytes)

  /** Only the decoded bytes may differ. */
  predicate SameButDecoded(r: Reader, r': Reader) {
    && r'.raw == r.raw && r'.off == r.off && r'.meta == r.meta
    && r'.tillHeader == r.tillHeader && r'.tillEof == r.tillEof
  }

  /** Moves up to `len` decoded bytes out. */
  function Deliver(r: Reader, len: nat): (res: (Reader, bytes))
    requires r.Valid()
    ensures res.0.Valid() && |res.1| <= len
  {
    var have := r.Pending();
    var n := if len < |have| then len else |have|;
    if r.decoded == [] then (r, [])
    else if r.decodedOff + n == |r.decoded| then (r.(decoded := [], decodedOff := 0), have[..n])
    else (r.(decodedOff := r.decodedOff + n), have[..n])
  }

  /** Nothing else changes, nothing is lost, and all is delivered that there is room for. */
  lemma DeliverParts(r: Reader, len: nat)
    requires r.Valid()
    ensures var (r', d) := Deliver(r, len);
      && SameButDecoded(r, r')
      && r.Pending() == d + r'.Pending()
      && |d| == (if len < |r.Pending()| then len else |r.Pending()|)
      && (|d| < len ==> r'.decoded == [] && r'.Pending() == [])
  {
  }

  /** How many bytes the reader asks its source for, when `len` are wanted. */
  function Ask(r: Reader, len: nat): nat
    requires r.Valid()
  {
    if r.tillHeader > 2 then if len > r.tillHeader - 2 then r.tillHeader - 2 else len
    else if r.tillEof != -1 then r.tillEof
    else 1024
  }

  /** Within a body it asks for what is wanted, but not for the CR LF behind the body; before a
      header for up to 1024 bytes, and after the last one for 2. */
  lemma AskExact(r: Reader, len: nat)
    requires r.Valid()
    ensures r.tillHeader > 2 ==>
      Ask(r, len) <= len && Ask(r, len) <= r.tillHeader - 2 && (Ask(r, len) == len || Ask(r, len) == r.tillHeader - 2)
    ensures r.tillHeader <= 2 && r.tillEof == -1 ==> Ask(r, len) == 1024
    ensures r.tillHeader <= 2 && r.tillEof != -1 ==> Ask(r, len) == if r.tillEof == 2 then 2 else 0
  {
  }

  /** The decoder's part of a read: the source has given `got`. */
  function Round(r: Reader, len: nat, got: bytes, mem: bytes): (res: (Reader, bytes))
    requires r.Valid() && |got| <= Ask(r, len)
    ensures res.0.Valid() && |res.1| <= len
  {
    if got == [] then (r, [])
    else if r.tillHeader > 2 then (r.(tillHeader := r.tillHeader - |got|), got)
    else
      ReceiveValid(r, got, mem);
      (Receive(r, got, mem).0, [])
  }

  /** One round, and what has become deliverable with it. */
  function Fetch(r: Reader, len: nat, got: bytes, mem: bytes): (res: (Reader, bytes))
    requires r.Valid() && |got| <= Ask(r, len)
    ensures res.0.Valid() && |res.1| <= len
  {
    var (r1, d1) := Round(r, len, got, mem);
    var (r2, d2) := Deliver(r1, len - |d1|);
    (r2, d1 + d2)
  }

  /** What the source gave: nothing where the decoded bytes at hand fill the caller's buffer,
      and no more than it was asked for. */
  ghost predicate Allowed(r: Reader, e: Event) {
    && r.Valid()
    && if e.len <= |r.Pending()| then e.got == [] else |e.got| <= Ask(r, e.len - |r.Pending()|)
  }

  /** What one call does to the reader, and the bytes it delivers. */
  function ReadStep(r: Reader, e: Event): (res: (Reader, bytes))
    requires Allowed(r, e)
    ensures res.0.Valid() && |res.1| <= e.len
  {
    if e.len == 0 then (r, [])
    else
      DeliverParts(r, e.len);
      var (r1, d1) := Deliver(r, e.len);
      if |d1| == e.len then (r1, d1)
      else
        var (r2, d2) := Fetch(r1, e.len - |d1|, e.got, e.mem);
        (r2, d1 + d2)
  }

  // ------------------------------------------------------------ laws of one read

  lemma ReadFilled(r: Reader, e: Event)
    requires Allowed(r, e) && e.len <= |r.Pending()|
    ensures e.got == []
    ensures ReadStep(r, e) == if e.len == 0 then (r, []) else Deliver(r, e.len)
  {
    hide Deliver, Fetch, Reader.Pending;
    DeliverParts(r, e.len);
  }

  lemma ReadOn(r: Reader, e: Event)
    requires Allowed(r, e) && e.len > |r.Pending()|
    ensures var (r1, d1) := Deliver(r, e.len);
      && |d1| < e.len && r1.decoded == [] && r1.Pending() == [] && |e.got| <= Ask(r1, e.len - |d1|)
      && Ask(r1, e.len - |d1|) == Ask(r, e.len - |r.Pending()|)
      && ReadStep(r, e) == (Fetch(r1, e.len - |d1|, e.got, e.mem).0, d1 + Fetch(r1, e.len - |d1|, e.got, e.mem).1)
  {
    hide Deliver, Fetch, Reader.Pending;
    DeliverParts(r, e.len);
  }

  /** A read delivers exactly the next bytes that are due. */
  lemma ReadKeeps(r: Reader, e: Event, rest: bytes)
    requires Allowed(r, e) && Flows(r, e.got + rest)
    ensures var (r', d) := ReadStep(r, e); Flows(r', rest) && Due(r, e.got + rest) == d + Due(r', rest)
  {
    hide Deliver, Fetch, Flows, Due, ReadStep, Ask, Reader.Pending;
    if e.len <= |r.Pending()| {
      ReadFilled(r, e);
      Nothing(e.got, rest);
      Nothing([], Due(r, rest));
      if e.len > 0 { DeliverKeeps(r, e.len, rest); }
    } else {
      ReadOn(r, e);
      var (r1, d1) := Deliver(r, e.len);
      DeliverKeeps(r, e.len, e.got + rest);
      FetchKeeps(r1, e.len - |d1|, e.got, rest, e.mem);
      var (r2, d2) := Fetch(r1, e.len - |d1|, e.got, e.mem);
      Joined(d1, d2, Due(r2, rest));
    }
  }

  lemma Nothing(got: bytes, rest: bytes)
    requires got == []
    ensures got + rest == rest
  {
  }

  lemma DeliverKeeps(r: Reader, len: nat, rest: bytes)
    requires r.Valid() && Flows(r, rest)
    ensures var (r', d) := Deliver(r, len); Flows(r', rest) && Due(r, rest) == d + Due(r', rest)
  {
    hide WellFormed, Body, Deliver, Reader.Pending;
    var (r', d) := Deliver(r, len);
    DeliverParts(r, len);
    assert r'.Unread() == r.Unread();
    Joined(d, r'.Pending(), Ahead(r, rest));
  }

  lemma ReceiveDue(r: Reader, got: bytes, rest: bytes, mem: bytes)
    requires Flows(r, got + rest) && got != [] && r.tillHeader <= 2 && r.tillEof != 0 && r.Pending() == []
    ensures var r' := Receive(r, got, mem).0; Flows(r', rest) && Due(r, got + rest) == [] + Due(r', rest)
  {
    hide Ahead, WellFormed, Body;
    ReceiveKeeps(r, got, rest, mem);
    hide Receive, Flows;
    var r' := Receive(r, got, mem).0;
    Nothing([], Ahead(r, got + rest));
    Nothing([], Due(r', rest));
  }

  lemma DirectDue(r: Reader, got: bytes, rest: bytes)
    requires Flows(r, got + rest) && r.tillHeader > 2 && |got| <= r.tillHeader - 2 && r.Pending() == []
    ensures Flows(r.(tillHeader := r.tillHeader - |got|), rest)
    ensures Due(r, got + rest) == got + Due(r.(tillHeader := r.tillHeader - |got|), rest)
  {
    hide Flows, Ahead;
    DirectKeeps(r, got, rest);
    Nothing([], Ahead(r, got + rest));
    Nothing([], Ahead(r.(tillHeader := r.tillHeader - |got|), rest));
  }

  lemma FetchKeeps(r: Reader, len: nat, got: bytes, rest: bytes, mem: bytes)
    requires r.Valid() && |got| <= Ask(r, len) && Flows(r, got + rest) && r.Pending() == []
    ensures var (r', d) := Fetch(r, len, got, mem); Flows(r', rest) && Due(r, got + rest) == d + Due(r', rest)
  {
    hide Deliver, Round, Flows, Due;
    RoundKeeps(r, len, got, rest, mem);
    var (r1, d1) := Round(r, len, got, mem);
    DeliverKeeps(r1, len - |d1|, rest);
    var (r2, d2) := Deliver(r1, len - |d1|);
    Joined(d1, d2, Due(r2, rest));
  }

  lemma RoundKeeps(r: Reader, len: nat, got: bytes, rest: bytes, mem: bytes)
    requires r.Valid() && |got| <= Ask(r, len) && Flows(r, got + rest) && r.Pending() == []
    ensures var (r', d) := Round(r, len, got, mem); Flows(r', rest) && Due(r, got + rest) == d + Due(r', rest)
  {
    hide Flows, Due, Receive;
    if got == [] {
      Nothing(got, rest);
      Nothing([], Due(r, rest));
    } else if r.tillHeader > 2 {
      DirectDue(r, got, rest);
    } else {
      ReceiveDue(r, got, rest, mem);
    }
  }

  /** A read keeps how the reader stands to the extensions and the end of its stream. */
  lemma ReadStands(r: Reader, e: Event, rest: bytes, steady: bool, metas: seq<Meta>, behind: bytes)
    requires Allowed(r, e) && Flows(r, e.got + rest) && Stands(r, e.got + rest, steady, metas, behind)
    ensures var r' := ReadStep(r, e).0;
      Flows(r', rest) && Stands(r', rest, steady, metas, behind) && EndsAtOnce(r, r', rest, behind)
  {
    hide Deliver, Fetch, Flows, Stands, EndsAtOnce, ReadStep, Ask, Reader.Pending;
    SameEnd(r, r, rest, behind);
    DeliverParts(r, e.len);
    if e.len <= |r.Pending()| {
      var (r1, d1) := Deliver(r, e.len);
      ReadFilled(r, e);
      Nothing(e.got, rest);
      SameEnd(r, r1, rest, behind);
      if e.len > 0 { DeliverStands(r, e.len, rest, steady, metas, behind); }
    } else {
      ReadOn(r, e);
      var (r1, d1) := Deliver(r, e.len);
      DeliverStands(r, e.len, e.got + rest, steady, metas, behind);
      FetchStands(r1, e.len - |d1|, e.got, rest, steady, metas, behind, e.mem);
      var r2 := Fetch(r1, e.len - |d1|, e.got, e.mem).0;
      EndsSame(r1, r2, r, r2, rest, behind);
    }
  }

  lemma DeliverStands(r: Reader, len: nat, rest: bytes, steady: bool, metas: seq<Meta>, behind: bytes)
    requires r.Valid() && Flows(r, rest) && Stands(r, rest, steady, metas, behind)
    ensures var r' := Deliver(r, len).0; Flows(r', rest) && Stands(r', rest, steady, metas, behind)
  {
    hide WellFormed, Body, Deliver, Carried, Steady, Reader.Pending;
    DeliverParts(r, len);
    assert Deliver(r, len).0.Unread() == r.Unread();
  }

  lemma FetchStands(r: Reader, len: nat, got: bytes, rest: bytes, steady: bool, metas: seq<Meta>, behind: bytes,
      mem: bytes)
    requires r.Valid() && |got| <= Ask(r, len) && r.Pending() == []
    requires Flows(r, got + rest) && Stands(r, got + rest, steady, metas, behind)
    ensures var r' := Fetch(r, len, got, mem).0;
      Flows(r', rest) && Stands(r', rest, steady, metas, behind) && EndsAtOnce(r, r', rest, behind)
  {
    hide Deliver, Round, Flows, Stands, EndsAtOnce, Reader.Pending;
    RoundStands(r, len, got, rest, steady, metas, behind, mem);
    var (r1, d1) := Round(r, len, got, mem);
    DeliverStands(r1, len - |d1|, rest, steady, metas, behind);
    DeliverParts(r1, len - |d1|);
    EndsSame(r, r1, r, Deliver(r1, len - |d1|).0, rest, behind);
  }

  lemma RoundStands(r: Reader, len: nat, got: bytes, rest: bytes, steady: bool, metas: seq<Meta>, behind: bytes,
      mem: bytes)
    requires r.Valid() && |got| <= Ask(r, len) && r.Pending() == []
    requires Flows(r, got + rest) && Stands(r, got + rest, steady, metas, behind)
    ensures var r' := Round(r, len, got, mem).0;
      Flows(r', rest) && Stands(r', rest, steady, metas, behind) && EndsAtOnce(r, r', rest, behind)
  {
    hide Flows, Stands, Receive;
    if got == [] {
      Nothing(got, rest);
    } else if r.tillHeader > 2 {
      DirectStands(r, got, rest, steady, metas, behind);
    } else {
      ReceiveStands(r, got, rest, steady, metas, behind, mem);
    }
  }

  /** A read that gets nothing from its source delivers from the decoded bytes and changes
      nothing else. */
  lemma ReadDry(r: Reader, e: Event)
    requires Allowed(r, e) && e.got == []
    ensures var (r', d) := ReadStep(r, e);
      && SameButDecoded(r, r')
      && r.Pending() == d + r'.Pending()
  {
    hide Deliver, Fetch, ReadStep, Ask, Reader.Pending;
    DeliverParts(r, e.len);
    if e.len <= |r.Pending()| {
      ReadFilled(r, e);
      Nothing([], r.Pending());
    } else {
      ReadOn(r, e);
      var (r1, d1) := Deliver(r, e.len);
      FetchDry(r1, e.len - |d1|, e.mem);
      assert d1 + [] == d1;
    }
  }

  lemma FetchDry(r: Reader, len: nat, mem: bytes)
    requires r.Valid() && r.Pending() == []
    ensures var (r', d) := Fetch(r, len, [], mem); SameButDecoded(r, r') && d == [] && r'.Pending() == []
  {
    hide Deliver, Receive, Reader.Pending;
    DeliverParts(r, len);
    Nothing([], Deliver(r, len).1);
  }

  /** The end of the stream, seen from a read after the last header. */
  lemma ReadEnd(r: Reader, e: Event)
    requires Allowed(r, e) && (r.tillEof == 2 || r.tillEof == 0)
    ensures var r' := ReadStep(r, e).0;
      && (r.tillEof == 0 ==> r'.tillEof == 0 && e.got == [])
      && (r.tillEof == 2 ==>
          && (r'.tillEof == 0 || r'.tillEof == 2)
          && (r'.tillEof == 0 <==> e.got != [] && |r.Unread()| + |e.got| > r.tillHeader)
          && (r'.tillEof == 2 ==> |r'.Unread()| - r'.tillHeader == |r.Unread()| + |e.got| - r.tillHeader))
  {
    hide Deliver, Fetch, ReadStep, Reader.Pending;
    if e.got == [] {
      ReadDry(r, e);
    } else {
      ReadOn(r, e);
      var (r1, d1) := Deliver(r, e.len);
      DeliverParts(r, e.len);
      FetchEnd(r1, e.len - |d1|, e.got, e.mem);
    }
  }

  lemma FetchEnd(r: Reader, len: nat, got: bytes, mem: bytes)
    requires r.Valid() && |got| <= Ask(r, len) && got != [] && (r.tillEof == 2 || r.tillEof == 0)
    ensures var r' := Fetch(r, len, got, mem).0;
      && r.tillEof == 2 && (r'.tillEof == 0 || r'.tillEof == 2)
      && (r'.tillEof == 0 <==> |r.Unread()| + |got| > r.tillHeader)
      && (r'.tillEof == 2 ==> |r'.Unread()| - r'.tillHeader == |r.Unread()| + |got| - r.tillHeader)
  {
    hide Deliver, Receive, Reader.Pending;
    var (r1, d1) := Round(r, len, got, mem);
    EndNeedsSurplus(r, got, mem);
    DeliverParts(r1, len - |d1|);
  }
}
