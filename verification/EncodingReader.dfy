/** The reading half of the encoding object: its buffers, the source it pulls from, and the
    loops of the chunked reader. */
module EncodingReader {
  import opened Options
  import opened Bytes
  import opened ChunkedStream
  import opened Extensions
  import opened Callbacks
  import opened ReaderStep
  import opened ReaderRuns

  /** The scan for the end of a header in a buffer. */
  method ScanHeader(raw: bytes, off: nat) returns (ext: int, cr: int, lf: int)
    requires off <= |raw|
    ensures lf == -1 <==> ScanFrom(raw, off, FRESH).None?
    ensures lf != -1 ==> lf >= 0 && ScanFrom(raw, off, FRESH) == Some(Header(ext, cr, lf))
  {
    var inQuote := 0;
    ext, cr, lf := -1, -1, -1;
    var i := off;
    while i < |raw|
      invariant off <= i <= |raw| && lf == -1
      invariant ScanFrom(raw, off, FRESH) == ScanFrom(raw, i, Scanner(inQuote, ext, cr))
    {
      var c := raw[i];
      if inQuote != 0 {
        if c == BACKSLASH {
          inQuote := 2;
        } else if c == QUOTE {
          inQuote := inQuote - 1;
        }
      } else if c == QUOTE {
        inQuote := 1;
      } else if c == SEMICOLON && ext == -1 {
        ext := i;
      } else if c == CR {
        cr := i;
      } else if c == LF && cr == i - 1 {
        lf := i;
        return;
      }
      i := i + 1;
    }
  }

  method FindKeyEnd(raw: bytes, p: nat, end: nat) returns (n: nat)
    requires p <= end <= |raw|
    ensures n == KeyLength(raw[p..end])
  {
    n := 0;
    while p + n < end && raw[p + n] != EQUALS
      invariant p + n <= end
      invariant KeyLength(raw[p..end]) == n + KeyLength(raw[p + n..end])
    {
      assert raw[p + n..end][1..] == raw[p + n + 1..end];
      n := n + 1;
    }
  }

  method FindValueEnd(raw: bytes, p: nat, end: nat) returns (n: nat)
    requires p <= end <= |raw|
    ensures n == ValueLength(raw[p..end], 0)
  {
    var inQuote := 0;
    n := 0;
    while p + n < end
      invariant p + n <= end
      invariant ValueLength(raw[p..end], 0) == n + ValueLength(raw[p + n..end], inQuote)
    {
      var c := raw[p + n];
      assert raw[p + n..end][1..] == raw[p + n + 1..end];
      if inQuote != 0 {
        if c == BACKSLASH {
          inQuote := 2;
        } else if c == QUOTE {
          inQuote := inQuote - 1;
        }
        if inQuote == 0 {
          n := n + 1;
          return;
        }
      } else if c == QUOTE {
        inQuote := 1;
      } else if c == SEMICOLON {
        return;
      }
      n := n + 1;
    }
  }

  /** Whether a `;` lies at `i`, in the buffer or in memory behind it. */
  predicate IsSemicolon(raw: bytes, mem: bytes, i: nat) {
    if i < |raw| then raw[i] == SEMICOLON else i - |raw| < |mem| && mem[i - |raw|] == SEMICOLON
  }

  /** Copies the value in `raw[p..end]`, dropping its quotes. The code may look for a `;` beyond
      the bytes it has read: `mem` is what memory holds there. */
  method CopyValue(raw: bytes, p: nat, end: nat, mem: bytes) returns (value: bytes)
    requires p <= end <= |raw|
    ensures value == ValueOf(raw[p..end], raw[end..] + mem, 0)
  {
    var inQuote := 0;
    var i := p;
    value := [];
    ghost var after := raw[end..] + mem;
    while i < end
      invariant p <= i <= end
      invariant ValueOf(raw[p..end], after, 0) == value + ValueOf(raw[i..end], after, inQuote)
    {
      var c := raw[i];
      ghost var before := value;
      assert raw[i..end][1..] == raw[i + 1..end];
      if inQuote != 0 {
        if c == BACKSLASH {
          inQuote := 2;
        } else if c == QUOTE {
          inQuote := inQuote - 1;
          if inQuote != 0 { value := value + [QUOTE]; }
        } else {
          value := value + [c];
        }
        if inQuote == 0 { return; }
      } else if c == QUOTE {
        inQuote := 1;
      } else if IsSemicolon(raw, mem, end + (end - i)) {
        return;
      } else {
        value := value + [c];
      }
      i := i + 1;
      Joined(before, if value == before then [] else [c], ValueOf(raw[i..end], after, inQuote));
    }
  }

  /** Reads the extension at `start` and says how many bytes it takes up. */
  method ReadExtension(raw: bytes, start: nat, end: nat, mem: bytes) returns (meta: Meta, used: nat)
    requires start < end <= |raw|
    ensures (meta, used) == FirstMeta(raw[start..end], raw[end..] + mem)
  {
    hide KeyLength, ValueLength, ValueOf;
    ghost var s := raw[start..end];
    var p := start + 1;
    assert s[1..] == raw[p..end];
    var keyLen := FindKeyEnd(raw, p, end);
    var key := Some(raw[p..p + keyLen]);
    assert s[1..][..keyLen] == s[1..1 + keyLen];
    assert raw[p..end][..keyLen] == raw[p..p + keyLen];
    p := p + keyLen;
    if p == end || p + 1 == end {
      return Meta(key, None), end - start;
    }
    p := p + 1;
    ghost var v := s[keyLen + 2..];
    assert v == raw[p..end];
    var valueLen := FindValueEnd(raw, p, end);
    assert raw[p..p + valueLen] == v[..valueLen];
    assert raw[p + valueLen..] == v[valueLen..] + raw[end..];
    Joined(v[valueLen..], raw[end..], mem);
    var value := CopyValue(raw, p, p + valueLen, mem);
    return Meta(key, Some(value)), p + valueLen - start;
  }

  class Reading {
    var metaRead: seq<Meta>
    var bufReadRaw: bytes
    var bufReadRawOffset: nat
    var bufReadDecoded: bytes
    var bufReadDecodedOffset: nat
    var bytesTillEof: int
    var readBytesTillHeader: nat

    constructor ()
      ensures View() == EMPTY
    {
      metaRead, bufReadRaw, bufReadRawOffset := [], [], 0;
      bufReadDecoded, bufReadDecodedOffset := [], 0;
      bytesTillEof, readBytesTillHeader := -1, 0;
    }

    function View(): Reader
      reads this
    {
      Reader(bufReadRaw, bufReadRawOffset, bufReadDecoded, bufReadDecodedOffset, readBytesTillHeader, bytesTillEof,
             metaRead)
    }

    /** Appends the extensions spelled by `raw[start..end]` to the meta data read so far. */
    method ReadExtensions(raw: bytes, start: nat, end: nat, mem: bytes)
      requires start <= end <= |raw|
      modifies this`metaRead
      ensures metaRead == old(metaRead) + ParseList(raw[start..end], raw[end..] + mem)
    {
      hide FirstMeta;
      var p := start;
      ghost var after, whole := raw[end..] + mem, ParseList(raw[start..end], raw[end..] + mem);
      while p < end
        invariant start <= p <= end
        invariant old(metaRead) + whole == metaRead + ParseList(raw[p..end], after)
      {
        if raw[p] != SEMICOLON {
          break;
        }
        var meta, used := ReadExtension(raw, p, end, mem);
        assert raw[p..end][used..] == raw[p + used..end];
        metaRead := metaRead + [meta];
        p := p + used;
      }
    }

    /** A complete header ends at `lf` and announces `size` bytes. */
    method EnterChunk(lf: nat, size: nat)
      requires View().Valid() && bufReadRawOffset <= lf < |bufReadRaw|
      modifies this
      ensures View() == TakeHeader(old(View()), lf, size)
    {
      hide TakeChunk;
      bufReadRawOffset := lf + 1;
      if size == 0 {
        bytesTillEof := 2;
      }
      if bufReadRawOffset == |bufReadRaw| {
        bufReadRaw, bufReadRawOffset := [], 0;
        readBytesTillHeader := (size + 2) % WORD;
        return;
      }
      if |bufReadRaw| - bufReadRawOffset <= size {
        bufReadDecoded, bufReadDecodedOffset := bufReadRaw, bufReadRawOffset;
        bufReadRaw, bufReadRawOffset := [], 0;
        readBytesTillHeader := (size + 2 - (|bufReadDecoded| - bufReadDecodedOffset)) % WORD;
        return;
      }
      SplitChunk(size);
    }

    /** The raw buffer holds the `size` bytes of a body and more. */
    method SplitChunk(size: nat)
      requires bufReadRawOffset + size < |bufReadRaw|
      modifies this
      ensures View() == TakeChunk(old(View()), size)
    {
      bufReadDecoded, bufReadDecodedOffset := bufReadRaw[bufReadRawOffset..bufReadRawOffset + size], 0;
      bufReadRawOffset := bufReadRawOffset + size;
      readBytesTillHeader := 2;
      if |bufReadRaw| - bufReadRawOffset >= 2 {
        bufReadRawOffset := bufReadRawOffset + 2;
        readBytesTillHeader := 0;
        if bytesTillEof != -1 {
          bytesTillEof := 0;
        }
        if |bufReadRaw| - bufReadRawOffset == 0 {
          bufReadRaw, bufReadRawOffset := [], 0;
        }
      }
    }

    /** Looks for a header in the raw buffer and digests it if it is complete. */
    method FindHeader(mem: bytes) returns (ret: int)
      requires View().Valid()
      modifies this
      ensures (View(), ret) == Digest(old(View()), mem)
    {
      hide ScanFrom, ParseHex, ParseList, TakeHeader;
      var ext, cr, lf := ScanHeader(bufReadRaw, bufReadRawOffset);
      if lf == -1 {
        return 0;
      }
      var sizeEnd := if ext != -1 then ext else cr;
      if !(bufReadRawOffset <= sizeEnd <= lf < |bufReadRaw|) {
        // A lone LF at the very start of the buffer: the C code would write a NUL before the buffer.
        return -1;
      }
      if 0 <= ext <= cr <= |bufReadRaw| {
        ReadExtensions(bufReadRaw, ext, cr, mem);
      }
      var size := ParseHex(bufReadRaw[bufReadRawOffset..sizeEnd]);
      bufReadRaw := bufReadRaw[sizeEnd := 0];
      assert old(metaRead) + [] == old(metaRead);
      if size.None? {
        return -1;
      }
      EnterChunk(lf, size.value);
      return 0;
    }

    /** The chunked decoder: body bytes straight from the source, or one round on the raw buffer. */
    method ChunkedRead(len: nat, source: ByteSource?, mem: bytes) returns (ret: int, data: bytes, ghost got: bytes)
      requires View().Valid() && len > 0
      modifies this, source
      ensures -1 <= ret <= len && |data| == (if ret < 1 then 0 else ret)
      ensures |got| <= Ask(old(View()), len) && (View(), data) == Round(old(View()), len, got, mem)
      ensures ret == -1 ==> bufReadDecoded == old(bufReadDecoded)
      ensures ret == -1 <==>
        || source == null || (old(source.plan) != [] && old(source.plan)[0] < 0) || BadHeader(old(View()), got)
      ensures source == null ==> got == []
      ensures source != null ==>
        && old(source.rest) == got + source.rest
        && |got| == Offer(old(source.plan), Ask(old(View()), len), |old(source.rest)|)
        && source.plan == NextPlan(old(source.plan))
    {
      hide Settle, Moved, Garbled;
      got, data := [], [];
      if source == null {
        return -1, [], [];
      }
      if readBytesTillHeader > 2 {
        var amount := if len > readBytesTillHeader - 2 then readBytesTillHeader - 2 else len;
        ret, data := source.Pull(amount);
        got := data;
        if ret < 1 {
          return;
        }
        readBytesTillHeader := readBytesTillHeader - ret;
        return;
      }
      var buflen := if bytesTillEof != -1 then bytesTillEof else 1024;
      var more;
      ret, more := source.Pull(buflen);
      got := more;
      if ret < 1 {
        return;
      }
      bufReadRaw := bufReadRaw + more;
      ReceiveAnswers(old(View()), more, mem);
      ret := Absorb(mem);
    }

    /** What happens after new bytes have reached the raw buffer. */
    method Absorb(mem: bytes) returns (ret: int)
      requires View().Valid()
      modifies this
      ensures (View(), ret) == Settle(old(View()), mem)
    {
      hide Digest;
      if |bufReadRaw| - bufReadRawOffset == readBytesTillHeader {
        bufReadRaw, bufReadRawOffset := [], 0;
        readBytesTillHeader := 0;
        return 0;
      } else if |bufReadRaw| - bufReadRawOffset > readBytesTillHeader {
        bufReadRawOffset := bufReadRawOffset + readBytesTillHeader;
        readBytesTillHeader := 0;
      }
      if bytesTillEof != -1 {
        if readBytesTillHeader == 0 {
          bytesTillEof := 0;
        }
        if bytesTillEof == 0 {
          return 0;
        }
      }
      ret := FindHeader(mem);
    }

    /** Moves up to `len` decoded bytes out of the buffer; -1 when there is none. */
    method CopyDecoded(len: nat) returns (ret: int, data: bytes)
      requires View().Valid() && len > 0
      modifies `bufReadDecoded, `bufReadDecodedOffset
      ensures ret == if old(bufReadDecoded) == [] then -1 else |data|
      ensures ret <= len && |data| == (if ret < 1 then 0 else ret)
      ensures (View(), data) == Deliver(old(View()), len)
    {
      if bufReadDecoded == [] {
        return -1, [];
      }
      var haveLen := |bufReadDecoded| - bufReadDecodedOffset;
      var amount := if len < haveLen then len else haveLen;
      assert View().Pending()[..amount] == bufReadDecoded[bufReadDecodedOffset..bufReadDecodedOffset + amount];
      data := bufReadDecoded[bufReadDecodedOffset..bufReadDecodedOffset + amount];
      bufReadDecodedOffset := bufReadDecodedOffset + amount;
      if bufReadDecodedOffset == |bufReadDecoded| {
        bufReadDecoded, bufReadDecodedOffset := [], 0;
      }
      ret := amount;
    }

    /** The call of the decoder in `httpp_encoding_read` and the second delivery. */
    method FetchMore(len: nat, source: ByteSource?, mem: bytes) returns (ret: int, data: bytes, ghost got: bytes)
      requires View().Valid() && len > 0 && bufReadDecoded == []
      modifies this, source
      ensures -1 <= ret <= len && |data| == (if ret < 1 then 0 else ret)
      ensures |got| <= Ask(old(View()), len) && (View(), data) == Fetch(old(View()), len, got, mem)
      ensures ret == -1 <==>
        || source == null || (old(source.plan) != [] && old(source.plan)[0] < 0) || BadHeader(old(View()), got)
      ensures source == null ==> got == []
      ensures source != null ==>
        && old(source.rest) == got + source.rest
        && |got| == Offer(old(source.plan), Ask(old(View()), len), |old(source.rest)|)
        && source.plan == NextPlan(old(source.plan))
    {
      hide Deliver, Round, Moved, Offer, NextPlan, Fetch, BadHeader;
      ret, data, got := ChunkedRead(len, source, mem);
      FetchParts(old(View()), len, got, mem);
      if 0 <= ret < len {
        var last, rem := CopyDecoded(len - ret);
        data := data + rem;
        ret := ret + |rem|;
      }
    }

    method ReadOnce(len: nat, source: ByteSource?, mem: bytes) returns (ret: int, data: bytes, ghost got: bytes)
      requires View().Valid()
      modifies this, source
      ensures -1 <= ret <= len && |data| == (if ret < 1 then 0 else ret)
      ensures Allowed(old(View()), Event(len, got, mem))
      ensures (View(), data) == ReadStep(old(View()), Event(len, got, mem))
      ensures ret == -1 <==>
        && len > 0 && old(View()).Pending() == []
        && (source == null || (old(source.plan) != [] && old(source.plan)[0] < 0) || BadHeader(old(View()), got))
      ensures source == null ==> got == []
      ensures source != null ==> old(source.rest) == got + source.rest
      ensures source != null && len <= |old(View()).Pending()| ==> source.plan == old(source.plan)
      ensures source != null && len > |old(View()).Pending()| ==>
        && |got| == Offer(old(source.plan), Ask(old(View()), len - |old(View()).Pending()|), |old(source.rest)|)
        && source.plan == NextPlan(old(source.plan))
    {
      hide Deliver, Fetch, Offer, Allowed, ReadStep, NextPlan, Ask, Reader.Pending, BadHeader;
      ghost var r := View();
      data, got := [], [];
      if len == 0 {
        Enough(r, 0, mem);
        ReadFilled(r, Event(0, [], mem));
        return 0, [], [];
      }
      ret, data := CopyDecoded(len);
      DeliverParts(r, len);
      if ret == len {
        Enough(r, len, mem);
        ReadFilled(r, Event(len, [], mem));
        return;
      }
      var done := |data|;
      var more;
      ret, more, got := FetchMore(len - done, source, mem);
      Reached(r, len, got, mem);
      SameHeader(r, Deliver(r, len).0, got);
      ReadOn(r, Event(len, got, mem));
      data := data + more;
      done := done + |more|;
      return if ret == -1 && done == 0 then -1 else done, data, got;
    }

    /** `httpp_encoding_read` on a chunked encoding. For a well-formed stream it delivers exactly
        the next bytes that are due. */
    method Read(len: nat, source: ByteSource?, mem: bytes) returns (ret: int, data: bytes, ghost got: bytes)
      requires View().Valid()
      modifies this, source
      ensures -1 <= ret <= len && |data| == (if ret < 1 then 0 else ret)
      ensures Allowed(old(View()), Event(len, got, mem))
      ensures (View(), data) == ReadStep(old(View()), Event(len, got, mem))
      ensures ret == -1 <==>
        && len > 0 && old(View()).Pending() == []
        && (source == null || (old(source.plan) != [] && old(source.plan)[0] < 0) || BadHeader(old(View()), got))
      ensures source == null ==> got == []
      ensures source != null ==> old(source.rest) == got + source.rest
      ensures source != null && len <= |old(View()).Pending()| ==> source.plan == old(source.plan)
      ensures source != null && len > |old(View()).Pending()| ==>
        && |got| == Offer(old(source.plan), Ask(old(View()), len - |old(View()).Pending()|), |old(source.rest)|)
        && source.plan == NextPlan(old(source.plan))
      ensures source != null && old(Flows(View(), source.rest)) ==>
        Flows(View(), source.rest) && old(Due(View(), source.rest)) == data + Due(View(), source.rest)
    {
      hide Flows, Due, Allowed, ReadStep, Offer, NextPlan, Ask, BadHeader;
      ghost var r, rest := View(), if source == null then [] else source.rest;
      ret, data, got := ReadOnce(len, source, mem);
      if source != null && Flows(r, rest) { ReadKeeps(r, Event(len, got, mem), source.rest); }
    }

    /** `httpp_encoding_eof`; `asked` is what the caller's callback would answer. By its own
        count the reader reports the end only when nothing is due any more. */
    method Eof(asked: Option<int>) returns (ret: int)
      requires View().Valid()
      ensures View().Pending() != [] ==> ret == 0
      ensures View().Pending() == [] && bytesTillEof == 0 ==> ret == 1
      ensures View().Pending() == [] && bytesTillEof != 0 ==> ret == if asked.Some? then asked.value else 0
      ensures ret != 0 && bytesTillEof == 0 ==>
        forall rest: bytes :: Flows(View(), rest) ==> Due(View(), rest) == []
    {
      hide Flows, WellFormed, Body;
      if |bufReadDecoded| - bufReadDecodedOffset != 0 {
        return 0;
      }
      if bytesTillEof == 0 {
        return 1;
      }
      return if asked.Some? then asked.value else 0;
    }
  }

  /** With no decoded bytes left there is nothing more to deliver. */
  lemma NoneToDeliver(r: Reader, len: nat)
    requires r.Valid() && r.decoded == []
    ensures Deliver(r, len) == (r, [])
  {
  }

  lemma SameHeader(r: Reader, r': Reader, got: bytes)
    requires r.Valid() && r'.Valid() && SameButDecoded(r, r')
    ensures BadHeader(r', got) == BadHeader(r, got)
  {
    hide Garbled;
  }

  lemma Reached(r: Reader, len: nat, got: bytes, mem: bytes)
    requires r.Valid() && len > |r.Pending()|
    requires var (r1, d1) := Deliver(r, len); |d1| < len && |got| <= Ask(r1, len - |d1|)
    ensures Allowed(r, Event(len, got, mem))
  {
    hide Deliver;
    DeliverParts(r, len);
  }

  lemma Enough(r: Reader, len: nat, mem: bytes)
    requires r.Valid() && len <= |r.Pending()|
    ensures Allowed(r, Event(len, [], mem))
  {
  }

  /** What a fetch is after its round, where decoded bytes are left and where none are. */
  lemma FetchParts(r: Reader, len: nat, got: bytes, mem: bytes)
    requires r.Valid() && len > 0 && |got| <= Ask(r, len) && r.decoded == []
    ensures var (r1, d1) := Round(r, len, got, mem);
      && Fetch(r, len, got, mem) == (Deliver(r1, len - |d1|).0, d1 + Deliver(r1, len - |d1|).1)
      && (r1.decoded == [] || |d1| == len ==> Fetch(r, len, got, mem) == (r1, d1))
  {
    hide Deliver, Receive;
    var (r1, d1) := Round(r, len, got, mem);
    if r1.decoded == [] {
      NoneToDeliver(r1, len - |d1|);
      assert d1 + [] == d1;
    }
  }
}
