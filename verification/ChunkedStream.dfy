/** The chunked transfer coding of section 3.6.1 of RFC 2616, as a meaning for streams of bytes. */
module ChunkedStream {
  import opened Options
  import opened Bytes

  // --------------------------------------------------------------- chunk headers

  /** Where the extensions of a header begin (-1: none), its final CR, and its LF. */
  datatype Header = Header(ext: int, cr: int, lf: nat)

  /** The scanner's memory: the quoting state, the first `;` and the last CR outside quotes. */
  datatype Scanner = Scanner(quote: int, ext: int, cr: int)

  const FRESH := Scanner(0, -1, -1)

  /** CR LF ends a header, except inside quotes. */
  predicate Ends(sc: Scanner, c: byte, i: int) {
    sc.quote == 0 && c == LF && sc.cr == i - 1
  }

  function Advance(sc: Scanner, c: byte, i: int): Scanner {
    if sc.quote != 0 then
      sc.(quote := if c == BACKSLASH then 2 else if c == QUOTE then sc.quote - 1 else sc.quote)
    else if c == QUOTE then sc.(quote := 1)
    else if c == SEMICOLON && sc.ext == -1 then sc.(ext := i)
    else if c == CR then sc.(cr := i)
    else sc
  }

  function ScanFrom(s: bytes, i: nat, sc: Scanner): Option<Header>
    requires i <= |s|
    decreases |s| - i
  {
    if i == |s| then None
    else if Ends(sc, s[i], i) then Some(Header(sc.ext, sc.cr, i))
    else ScanFrom(s, i + 1, Advance(sc, s[i], i))
  }

  function Scan(s: bytes): Option<Header> { ScanFrom(s, 0, FRESH) }

  /** Where the size in a header ends. */
  function SizeEnd(h: Header): int { if h.ext != -1 then h.ext else h.cr }

  lemma {:induction false} ScanRange(s: bytes, i: nat, sc: Scanner)
    requires i <= |s| && -1 <= sc.ext < i && -1 <= sc.cr < i
    ensures ScanFrom(s, i, sc).Some? ==>
      var h := ScanFrom(s, i, sc).value;
      i <= h.lf < |s| && h.cr == h.lf - 1 && -1 <= h.ext < h.lf
    decreases |s| - i
  {
    if i == |s| || Ends(sc, s[i], i) {
    } else {
      ScanRange(s, i + 1, Advance(sc, s[i], i));
    }
  }

  /** A stream that does not begin with LF does not end its header at once. */
  lemma NotAtOnce(s: bytes)
    requires s == [] || s[0] != LF
    ensures Scan(s).Some? ==>
      var h := Scan(s).value;
      0 < h.lf < |s| && h.cr == h.lf - 1 && -1 <= h.ext < h.lf
  {
    if s != [] { ScanRange(s, 1, Advance(FRESH, s[0], 0)); }
  }

  /** A header found in a stream is found in every longer stream. */
  lemma {:induction false} ScanExtends(s: bytes, more: bytes, i: nat, sc: Scanner)
    requires i <= |s|
    ensures ScanFrom(s, i, sc).Some? ==> ScanFrom(s + more, i, sc) == ScanFrom(s, i, sc)
    decreases |s| - i
  {
    if i == |s| {
    } else {
      assert (s + more)[i] == s[i];
      if !Ends(sc, s[i], i) { ScanExtends(s, more, i + 1, Advance(sc, s[i], i)); }
    }
  }

  /** What a scanner finds `n` bytes further on. */
  function Shifted(sc: Scanner, n: nat): Scanner {
    sc.(ext := if sc.ext == -1 then -1 else sc.ext + n, cr := if sc.cr == -1 then -1 else sc.cr + n)
  }

  /** Bytes that precede the header do not matter, provided it does not begin with LF. */
  lemma {:induction false} ScanShifts(front: bytes, s: bytes, i: nat, sc: Scanner)
    requires i <= |s| && sc.ext >= -1 && sc.cr >= -1
    requires i == 0 ==> s == [] || s[0] != LF
    ensures var r := ScanFrom(s, i, sc);
      ScanFrom(front + s, |front| + i, Shifted(sc, |front|))
        == if r.None? then None
           else Some(Header(if r.value.ext == -1 then -1 else r.value.ext + |front|,
                            if r.value.cr == -1 then -1 else r.value.cr + |front|,
                            r.value.lf + |front|))
    decreases |s| - i
  {
    if i == |s| {
    } else {
      assert (front + s)[|front| + i] == s[i];
      if !Ends(sc, s[i], i) { ScanShifts(front, s, i + 1, Advance(sc, s[i], i)); }
    }
  }

  // ------------------------------------------------------------ streams and bodies

  /** `s` starts with a complete header whose size is plain hexadecimal digits, and such that
      the counter to the next header can hold it. */
  predicate StartsWithHeader(s: bytes) {
    var r := Scan(s);
    && r.Some? && r.value.lf < |s| && 0 < SizeEnd(r.value) <= r.value.lf && AllHex(s[..SizeEnd(r.value)])
    && HexNat(s[..SizeEnd(r.value)]) + 2 < WORD
  }

  function HeadSize(s: bytes): (n: nat)
    requires StartsWithHeader(s)
    ensures n + 2 < WORD
  {
    HexNat(s[..SizeEnd(Scan(s).value)])
  }

  function AfterHead(s: bytes): (t: bytes)
    requires StartsWithHeader(s)
    ensures |t| < |s|
  {
    s[Scan(s).value.lf + 1..]
  }

  predicate CrLfAt(s: bytes, i: nat) {
    i + 2 <= |s| && s[i] == CR && s[i + 1] == LF
  }

  /** `s` is a complete coded stream, from a point `k` bytes before the next header: `k - 2`
      bytes of body and CR LF, or nothing. Anything may follow the last chunk. */
  ghost predicate WellFormed(k: nat, s: bytes)
    decreases |s|, k
  {
    if k != 0 then k >= 2 && CrLfAt(s, k - 2) && WellFormed(0, s[k..])
    else
      && StartsWithHeader(s)
      && if HeadSize(s) == 0 then CrLfAt(AfterHead(s), 0) else WellFormed(HeadSize(s) + 2, AfterHead(s))
  }

  /** The body such a stream carries. */
  ghost function Body(k: nat, s: bytes): bytes
    requires WellFormed(k, s)
    decreases |s|, k
  {
    if k != 0 then s[..k - 2] + Body(0, s[k..])
    else if HeadSize(s) == 0 then [] else Body(HeadSize(s) + 2, AfterHead(s))
  }

  lemma WellFormedBody(k: nat, s: bytes)
    requires k != 0
    ensures WellFormed(k, s) <==> k >= 2 && CrLfAt(s, k - 2) && WellFormed(0, s[k..])
    ensures WellFormed(k, s) ==> Body(k, s) == s[..k - 2] + Body(0, s[k..])
  {
  }

  lemma WellFormedHead(s: bytes)
    ensures WellFormed(0, s) ==> StartsWithHeader(s)
    ensures StartsWithHeader(s) ==>
      var (n, t) := (HeadSize(s), AfterHead(s));
      && (WellFormed(0, s) <==> if n == 0 then CrLfAt(t, 0) else WellFormed(n + 2, t))
      && (WellFormed(0, s) ==> Body(0, s) == if n == 0 then [] else Body(n + 2, t))
  {
  }

  /** Some of the announced body bytes may be taken off first. */
  lemma TakeBody(k: nat, s: bytes, n: nat)
    requires k > 2 && n <= k - 2 && WellFormed(k, s)
    ensures WellFormed(k - n, s[n..]) && Body(k, s) == s[..n] + Body(k - n, s[n..])
  {
    hide WellFormed, Body;
    WellFormedBody(k, s);
    var t := s[n..];
    WellFormedBody(k - n, t);
    assert t[k - n..] == s[k..];
    assert s[..k - 2] == s[..n] + t[..k - n - 2];
  }
}
