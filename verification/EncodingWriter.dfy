/** The writing half of the encoding object: chunks are built whole and drained into a sink
    that may take any part of what it is offered. */
module EncodingWriter {
  import opened Options
  import opened Bytes
  import opened ChunkedStream
  import opened Extensions
  import opened Callbacks
  import opened WriterStep

  // -------------------------------------------------- printing the extensions

  /** The room the length pass reserves for a value: one byte more for every quote. */
  method EscapedLength(v: bytes) returns (n: nat)
    ensures n == |Escape(v)|
  {
    n := |v|;
    for i := 0 to |v|
      invariant n == |Escape(v[..i])| + (|v| - i)
    {
      EscapeSnoc(v[..i], v[i]);
      assert v[..i + 1] == v[..i] + [v[i]];
      if v[i] == QUOTE { n := n + 1; }
    }
    assert v[..|v|] == v;
  }

  lemma {:induction false} EscapeSnoc(v: bytes, c: byte)
    ensures Escape(v + [c]) == Escape(v) + if c == QUOTE then [BACKSLASH, QUOTE] else [c]
  {
    if v == [] {
      assert v + [c] == [c];
    } else {
      assert (v + [c])[1..] == v[1..] + [c];
      EscapeSnoc(v[1..], c);
    }
  }

  /** The room the length pass reserves. */
  function Room(ms: seq<Meta>): nat {
    if ms == [] then 0
    else if ms[0].key.None? then Room(ms[1..])
    else
      var value := if ms[0].value.None? then 0 else |Escape(ms[0].value.value)|;
      4 + |ms[0].key.value| + value + Room(ms[1..])
  }

  method MeasureList(ms: seq<Meta>) returns (buflen: nat)
    ensures buflen == 1 + Room(ms)
  {
    buflen := 1;
    var cur := 0;
    while cur < |ms|
      invariant cur <= |ms| && buflen + Room(ms[cur..]) == 1 + Room(ms)
    {
      var m := ms[cur];
      assert ms[cur..][1..] == ms[cur + 1..];
      if m.key.Some? {
        buflen := buflen + 4;
        buflen := buflen + |m.key.value|;
        if m.value.Some? {
          var n := EscapedLength(m.value.value);
          buflen := buflen + n;
        }
      }
      cur := cur + 1;
    }
  }

  method CopyInto(buf: array<byte>, p: nat, s: bytes) returns (q: nat)
    requires p + |s| <= buf.Length
    modifies buf
    ensures q == p + |s| && buf[..q] == old(buf[..p]) + s
  {
    for i := 0 to |s|
      invariant buf[..p] == old(buf[..p])
      invariant buf[p..p + i] == s[..i]
    {
      buf[p + i] := s[i];
      assert buf[p..p + i + 1] == buf[p..p + i] + [s[i]];
      assert s[..i + 1] == s[..i] + [s[i]];
    }
    q := p + |s|;
    assert buf[..q] == buf[..p] + buf[p..q];
  }

  method EscapeInto(buf: array<byte>, p: nat, v: bytes) returns (q: nat)
    requires p + |Escape(v)| <= buf.Length
    modifies buf
    ensures q == p + |Escape(v)| && buf[..q] == old(buf[..p]) + Escape(v)
  {
    q := p;
    for i := 0 to |v|
      invariant q == p + |Escape(v[..i])| && q + |Escape(v[i..])| <= buf.Length
      invariant buf[..q] == old(buf[..p]) + Escape(v[..i])
    {
      EscapeSnoc(v[..i], v[i]);
      assert v[..i + 1] == v[..i] + [v[i]];
      assert v[i..][1..] == v[i + 1..];
      if v[i] == QUOTE {
        q := CopyInto(buf, q, [BACKSLASH]);
      }
      q := CopyInto(buf, q, [v[i]]);
    }
    assert v[..|v|] == v;
  }

  method PrintInto(buf: array<byte>, p: nat, m: Meta) returns (q: nat)
    requires p + Room([m]) <= buf.Length
    modifies buf
    ensures q <= p + Room([m]) && buf[..q] == old(buf[..p]) + PrintMeta(m) && q <= buf.Length
  {
    hide Room, PrintMeta, PrintValue, Escape;
    MetaParts(m);
    Joined(buf[..p], [], []);
    if m.key.None? {
      return p;
    }
    ghost var front := buf[..p];
    q := CopyInto(buf, p, [SEMICOLON]);
    q := CopyInto(buf, q, m.key.value);
    Joined(front, [SEMICOLON], m.key.value);
    if m.value.Some? && m.value.value != [] {
      q := ValueInto(buf, q, m.value.value);
      Joined(front, [SEMICOLON] + m.key.value, PrintValue(m));
    }
  }

  /** What an entry's text is made of, and the room asked for it. */
  lemma MetaParts(m: Meta)
    ensures m.key.None? ==> PrintMeta(m) == [] && Room([m]) == 0
    ensures m.key.Some? ==> PrintMeta(m) == [SEMICOLON] + m.key.value + PrintValue(m)
    ensures m.key.Some? ==> Room([m]) == 4 + |m.key.value| + (if m.value.Some? then |Escape(m.value.value)| else 0)
    ensures m.key.Some? && (m.value.None? || m.value.value == []) ==>
      PrintValue(m) == [] && PrintMeta(m) == [SEMICOLON] + m.key.value
    ensures m.key.Some? && m.value.Some? && m.value.value != [] ==>
      PrintValue(m) == [EQUALS, QUOTE] + Escape(m.value.value) + [QUOTE]
  {
    assert [m][1..] == [];
  }

  method ValueInto(buf: array<byte>, p: nat, v: bytes) returns (q: nat)
    requires p + |Escape(v)| + 3 <= buf.Length
    modifies buf
    ensures q == p + |Escape(v)| + 3 && buf[..q] == old(buf[..p]) + ([EQUALS, QUOTE] + Escape(v) + [QUOTE])
  {
    hide Escape;
    q := CopyInto(buf, p, [EQUALS, QUOTE]);
    q := EscapeInto(buf, q, v);
    q := CopyInto(buf, q, [QUOTE]);
  }

  lemma RoomFirst(ms: seq<Meta>)
    requires ms != []
    ensures Room(ms) == Room([ms[0]]) + Room(ms[1..]) && PrintList(ms) == PrintMeta(ms[0]) + PrintList(ms[1..])
  {
    assert [ms[0]][1..] == [];
  }

  /** Two passes: the first measures, the second writes into a buffer of exactly that size,
      with room for the terminator. */
  method PrintExtensions(ms: seq<Meta>) returns (buf: array<byte>, p: nat)
    ensures fresh(buf) && p < buf.Length && buf[..p] == PrintList(ms) && buf[p] == 0
  {
    hide Room, PrintList, PrintMeta;
    var buflen := MeasureList(ms);
    buf := new byte[buflen];
    p := 0;
    var cur := 0;
    ListEnds(ms);
    while cur < |ms|
      invariant cur <= |ms|
      invariant p + Room(ms[cur..]) + 1 <= buf.Length
      invariant buf[..p] + PrintList(ms[cur..]) == PrintList(ms)
    {
      RoomFirst(ms[cur..]);
      assert ms[cur..][1..] == ms[cur + 1..] && ms[cur..][0] == ms[cur];
      p := PrintInto(buf, p, ms[cur]);
      cur := cur + 1;
    }
    buf[p] := 0;
  }

  lemma ListEnds(ms: seq<Meta>)
    ensures ms[0..] == ms && ms[|ms|..] == [] && Room([]) == 0 && PrintList([]) == []
  {
  }

  // -------------------------------------------------------------- the writer

  class Writing {
    var metaWrite: seq<Meta>
    var bufWriteEncoded: bytes
    var bufWriteEncodedOffset: nat

    constructor ()
      ensures Valid() && metaWrite == [] && Unsent() == []
    {
      metaWrite, bufWriteEncoded, bufWriteEncodedOffset := [], [], 0;
    }

    ghost predicate Valid()
      reads this
    {
      if bufWriteEncoded == [] then bufWriteEncodedOffset == 0 else bufWriteEncodedOffset < |bufWriteEncoded|
    }

    function Unsent(): bytes
      requires Valid()
      reads this
    {
      bufWriteEncoded[bufWriteEncodedOffset..]
    }

    method AppendMeta(meta: seq<Meta>)
      modifies `metaWrite
      ensures metaWrite == old(metaWrite) + meta
    {
      metaWrite := metaWrite + meta;
    }

    /** `httpp_encoding_pending` */
    method Pending() returns (n: nat)
      requires Valid()
      ensures n == |Unsent()|
    {
      n := |bufWriteEncoded| - bufWriteEncodedOffset;
    }

    function View(): Writer
      requires Valid()
      reads this
    {
      Writer(Unsent(), metaWrite)
    }

    /** Offers the sink what is pending, once. */
    method Flush(sink: ByteSink)
      requires Valid()
      modifies `bufWriteEncoded, `bufWriteEncodedOffset, sink
      ensures Valid()
      ensures var (w, sent, plan) := Flushed(old(View()), old(sink.plan));
        View() == w && sink.written == old(sink.written) + sent && sink.plan == plan
    {
      if bufWriteEncoded == [] {
        assert sink.written + [] == sink.written;
        return;
      }
      ghost var unsent := Unsent();
      var ret := sink.Push(bufWriteEncoded[bufWriteEncodedOffset..]);
      assert unsent[0..] == unsent;
      if ret > 0 {
        assert unsent[ret..] == bufWriteEncoded[bufWriteEncodedOffset + ret..];
        bufWriteEncodedOffset := bufWriteEncodedOffset + ret;
        if bufWriteEncodedOffset == |bufWriteEncoded| {
          bufWriteEncoded, bufWriteEncodedOffset := [], 0;
        }
      }
    }

    /** The pending meta data as text; it is used up. */
    method TakeExtensions() returns (text: bytes)
      modifies `metaWrite
      ensures metaWrite == [] && text == CString(PrintList(old(metaWrite)))
    {
      if metaWrite == [] {
        return [];
      }
      var buf, p := PrintExtensions(metaWrite);
      text := ReadCString(buf, p);
      metaWrite := [];
    }

    /** Builds one chunk, unless something is still to be flushed. */
    method ChunkedWrite(buf: Option<bytes>) returns (ret: nat)
      requires Valid()
      modifies this
      ensures Valid()
      ensures View() == Queued(old(View()), buf)
      ensures old(Unsent()) != [] || buf.None? ==> ret == 0
      ensures old(Unsent()) == [] && buf.Some? ==>
        && ret == (if |buf.value| < 1048576 then |buf.value| else 1048576)
        && Unsent() == Written(buf.value[..ret], false, old(metaWrite))
    {
      hide PrintHex, PrintList, CString;
      TakenExact(buf);
      var pending := Pending();
      if pending > 0 {
        return 0;
      }
      var body := if buf.None? then [] else buf.value;
      var len := |body|;
      if len > LIMIT {
        len := LIMIT;
      }
      var encodedLength := PrintHex(len);
      var extensions := TakeExtensions();
      bufWriteEncoded := encodedLength + extensions + [CR, LF] + body[..len]
        + (if buf.None? then [CR, LF, CR, LF] else [CR, LF]);
      bufWriteEncodedOffset := 0;
      return len;
    }

    /** `httpp_encoding_write` on a chunked encoding. The call is accepted if and only if the
        first offer takes all that was pending; then the bytes sent and pending grow by exactly
        its chunk, and otherwise not at all. */
    method Write(buf: Option<bytes>, sink: ByteSink) returns (ret: nat, ghost accepted: bool)
      requires Valid()
      modifies this, sink
      ensures Valid()
      ensures var (w, sent, plan) := WriteStep(old(View()), buf, old(sink.plan));
        View() == w && sink.written == old(sink.written) + sent && sink.plan == plan
      ensures accepted == Accepts(old(View()), old(sink.plan))
      ensures !accepted || buf.None? ==> ret == 0
      ensures accepted && buf.Some? ==> ret == if |buf.value| < 1048576 then |buf.value| else 1048576
      ensures sink.written + Unsent() == old(sink.written + Unsent())
        + if !accepted then [] else Written(if buf.None? then [] else buf.value[..ret], buf.None?, old(metaWrite))
      ensures metaWrite == if accepted then [] else old(metaWrite)
    {
      hide Flushed, Queued, Accepts, Taken, Written;
      TakenExact(buf);
      ghost var w, was, plan := View(), sink.written, sink.plan;
      Flush(sink);
      FlushParts(w, plan);
      accepted := Unsent() == [];
      ghost var (w1, s1, p1) := Flushed(w, plan);
      ret := ChunkedWrite(buf);
      Flush(sink);
      StepKeeps(w, buf, plan);
      ghost var s2 := Flushed(Queued(w1, buf), p1).1;
      Joined(was, s1, s2);
      Joined(was, s1 + s2, Unsent());
      Joined(was, w.unsent, if accepted then Written(Taken(buf), buf.None?, w.metas) else []);
    }
  }

  method ReadCString(buf: array<byte>, ghost p: nat) returns (text: bytes)
    requires p < buf.Length && buf[p] == 0
    ensures text == CString(buf[..p])
  {
    text := [];
    var i := 0;
    ghost var s := buf[..p];
    assert s[0..] == s && [] + CString(s) == CString(s);
    while buf[i] != 0
      invariant i <= p && CString(s) == text + CString(s[i..])
      decreases p - i
    {
      CStringNext(s, i);
      Joined(text, [s[i]], CString(s[i + 1..]));
      text := text + [buf[i]];
      i := i + 1;
    }
    assert CString(s[i..]) == [];
    assert text + [] == text;
  }

  lemma CStringNext(s: bytes, i: nat)
    requires i < |s| && s[i] != 0
    ensures CString(s[i..]) == [s[i]] + CString(s[i + 1..])
  {
    assert s[i..][1..] == s[i + 1..];
  }
}
