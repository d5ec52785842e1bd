/** The log's own formatter: a bounded writer with an escaping `%H` conversion. */
module LogFormat {
  import opened Options
  import opened Bytes

  const DOT: byte := 46
  const BACKQUOTE: byte := 96
  const DEL: byte := 127

  /** What the caller passes for one conversion: a number already rendered by the C library, a
      string or NULL, or the length of a `*`. */
  datatype Arg = Number(text: bytes) | Text(s: Option<bytes>) | Length(n: int)

  // ------------------------------------------------------------------- escaping

  /** Characters are signed: those from 128 on compare below every other. */
  predicate IsPrint(c: byte, allowSpace: bool) {
    !((c <= QUOTE || c >= 128 || c == BACKQUOTE || c == BACKSLASH) && !(allowSpace && c == SPACE))
  }

  /** Four bytes for one, the low nibble first. */
  function EscapeByte(c: byte): (t: bytes)
    ensures |t| == 4
  {
    [BACKSLASH, LOWER_X, HexDigit(c % 16), HexDigit(c / 16)]
  }

  function EscapeText(s: bytes, allowSpace: bool): bytes {
    if s == [] then []
    else (if IsPrint(s[0], allowSpace) then [s[0]] else EscapeByte(s[0])) + EscapeText(s[1..], allowSpace)
  }

  /** The length the separate length function computes. */
  function EscapedLength(arg: Option<bytes>, isAlt: bool, allowSpace: bool): nat {
    if arg.None? then (if isAlt then 1 else 6)
    else CountText(arg.value, allowSpace) + if isAlt then 2 else 0
  }

  function CountText(s: bytes, allowSpace: bool): nat {
    if s == [] then 0 else (if IsPrint(s[0], allowSpace) then 1 else 4) + CountText(s[1..], allowSpace)
  }

  /** The length function agrees with the escaped text. */
  lemma {:induction false} CountsText(s: bytes, allowSpace: bool)
    ensures CountText(s, allowSpace) == |EscapeText(s, allowSpace)|
  {
    if s == [] {
    } else {
      CountsText(s[1..], allowSpace);
    }
  }

  /** Reads escaped text back. */
  function UnescapeText(t: bytes): bytes
    decreases |t|
  {
    if t == [] then []
    else if t[0] == BACKSLASH && |t| >= 4 && IsHex(t[2]) && IsHex(t[3]) then
      [HexValue(t[3]) * 16 + HexValue(t[2])] + UnescapeText(t[4..])
    else [t[0]] + UnescapeText(t[1..])
  }

  /** Escaped text determines the text it came from. */
  lemma {:induction false} EscapeDecodes(s: bytes, allowSpace: bool)
    ensures UnescapeText(EscapeText(s, allowSpace)) == s
  {
    if s == [] {
    } else {
      var t, rest := EscapeText(s, allowSpace), EscapeText(s[1..], allowSpace);
      EscapeDecodes(s[1..], allowSpace);
      if IsPrint(s[0], allowSpace) {
        assert t[1..] == rest;
      } else {
        assert t[4..] == rest;
      }
    }
  }

  lemma ByteIsPlain(c: byte)
    ensures forall x :: x in EscapeByte(c) ==> x != QUOTE && x != LF && x != CR && 32 <= x < 127
  {
  }

  /** Escaped text contains no quote, no line end and no byte outside ASCII. It is printable
      ASCII if and only if the text has no DEL, which the code does not escape. */
  lemma {:induction false} EscapeIsPlain(s: bytes, allowSpace: bool)
    ensures forall i :: 0 <= i < |EscapeText(s, allowSpace)| ==>
      var c := EscapeText(s, allowSpace)[i]; c != QUOTE && c != LF && c != CR && 32 <= c < 128
    ensures DEL in EscapeText(s, allowSpace) <==> DEL in s
  {
    hide EscapeByte;
    if s == [] {
    } else {
      EscapeIsPlain(s[1..], allowSpace);
      ByteIsPlain(s[0]);
      var head, rest := if IsPrint(s[0], allowSpace) then [s[0]] else EscapeByte(s[0]), EscapeText(s[1..], allowSpace);
      assert EscapeText(s, allowSpace) == head + rest && s == [s[0]] + s[1..];
      forall i | 0 <= i < |head + rest| ensures (head + rest)[i] in head || (head + rest)[i] in rest {
      }
    }
  }

  /** Which bytes are shown as they are: those from `#` to DEL without backslash and backquote, and
      the space where it is allowed. */
  predicate StaysAsIs(c: byte, allowSpace: bool) {
    (35 <= c <= 127 && c != 92 && c != 96) || (allowSpace && c == 32)
  }

  /** Any other byte becomes a backslash, an `x` and its two digits, the low one first. */
  lemma EscapeOne(c: byte, allowSpace: bool)
    ensures EscapeText([c], allowSpace)
      == if StaysAsIs(c, allowSpace) then [c] else [92, 120, DIGITS[c % 16], DIGITS[c / 16]]
  {
    HexTable(c % 16);
    HexTable(c / 16);
    assert [c][1..] == [];
  }

  lemma {:induction false} EscapeBoth(a: bytes, b: bytes, allowSpace: bool)
    ensures EscapeText(a + b, allowSpace) == EscapeText(a, allowSpace) + EscapeText(b, allowSpace)
  {
    hide IsPrint, EscapeByte;
    if a == [] {
      assert a + b == b;
    } else {
      assert (a + b)[1..] == a[1..] + b;
      EscapeBoth(a[1..], b, allowSpace);
      Joined(if IsPrint(a[0], allowSpace) then [a[0]] else EscapeByte(a[0]), EscapeText(a[1..], allowSpace),
        EscapeText(b, allowSpace));
    }
  }

  // ------------------------------------------------------- bounded conversions

  /** A string copied while block and room last. */
  function PlainBlock(s: bytes, len: int, size: nat): (t: bytes)
    ensures |t| <= size
  {
    if s == [] || len == 0 || size == 0 then [] else [s[0]] + PlainBlock(s[1..], len - 1, size - 1)
  }

  /** What `%H` shows for one byte: itself, its escape, or a dot where four bytes no longer fit. */
  function Shown(c: byte, len: int, size: nat, allowSpace: bool): (t: bytes)
    requires size > 0
    ensures 0 < |t| <= size
  {
    if IsPrint(c, allowSpace) then [c] else if size < 4 || len < 4 then [DOT] else EscapeByte(c)
  }

  /** A string escaped while block and room last. */
  function EscapeBlock(s: bytes, len: int, size: nat, allowSpace: bool): (t: bytes)
    ensures |t| <= size
    decreases s
  {
    if s == [] || len == 0 || size == 0 then []
    else
      var t := Shown(s[0], len, size, allowSpace);
      t + EscapeBlock(s[1..], len - |t|, size - |t|, allowSpace)
  }

  const NULL_TEXT: bytes := [40, 110, 117, 108, 108, 41]

  function Quote(isAlt: bool, len: int, size: nat): (t: bytes)
    ensures |t| <= size
  {
    if isAlt && size > 0 && len != 0 then [QUOTE] else []
  }

  function OpenedBlock(s: bytes, isAlt: bool, len: int, size: nat, allowSpace: bool): (t: bytes)
    ensures |t| <= size
  {
    var open := Quote(isAlt, len, size);
    open + EscapeBlock(s, len - |open|, size - |open|, allowSpace)
  }

  /** `%H` of a string: quoted in the alternative form, the closing quote only where it still fits. */
  function QuotedBlock(s: bytes, isAlt: bool, len: int, size: nat, allowSpace: bool): (t: bytes)
    ensures |t| <= size
  {
    var text := OpenedBlock(s, isAlt, len, size, allowSpace);
    text + Quote(isAlt, len - |text|, size - |text|)
  }

  /** One string conversion. */
  function Convert(isH: bool, isAlt: bool, allowSpace: bool, blockLen: int, given: Option<bytes>, size: nat): (t: bytes)
    ensures |t| <= size
  {
    var alt := isH && isAlt;
    var arg := if given.None? && !alt then Some(NULL_TEXT) else given;
    var len := if blockLen == 0 then EscapedLength(arg, alt, allowSpace) else blockLen;
    if isH then
      if arg.None? then (if size > 0 && len != 0 then [DASH] else [])
      else QuotedBlock(arg.value, alt, len, size, allowSpace)
    else PlainBlock(arg.value, len, size)
  }

  /** The copy is the beginning of the string, as long as block and room allow; a negative length
      does not limit it. */
  lemma {:induction false} PlainExact(s: bytes, len: int, size: nat)
    ensures PlainBlock(s, len, size)
      == s[..if 0 <= len <= |s| && len <= size then len else if size <= |s| then size else |s|]
  {
    if s == [] || len == 0 || size == 0 {
    } else {
      PlainExact(s[1..], len - 1, size - 1);
      hide PlainBlock;
      var n := if 0 <= len <= |s| && len <= size then len else if size <= |s| then size else |s|;
      assert s[..n] == [s[0]] + s[1..][..n - 1];
    }
  }

  /** The escaped copy byte by byte: a byte that is not shown as it is gets four bytes where both
      block and room have them, and otherwise a dot. */
  lemma BlockByByte(c: byte, s: bytes, len: int, size: nat, allowSpace: bool)
    ensures EscapeBlock([], len, size, allowSpace) == []
    ensures len == 0 || size == 0 ==> EscapeBlock([c] + s, len, size, allowSpace) == []
    ensures len != 0 && size > 0 ==>
      EscapeBlock([c] + s, len, size, allowSpace)
        == if StaysAsIs(c, allowSpace) then [c] + EscapeBlock(s, len - 1, size - 1, allowSpace)
           else if len < 4 || size < 4 then [46] + EscapeBlock(s, len - 1, size - 1, allowSpace)
           else [92, 120, DIGITS[c % 16], DIGITS[c / 16]] + EscapeBlock(s, len - 4, size - 4, allowSpace)
  {
    hide Shown;
    assert ([c] + s)[1..] == s;
    if len != 0 && size > 0 { ShownExact(c, len, size, allowSpace); }
  }

  lemma ShownExact(c: byte, len: int, size: nat, allowSpace: bool)
    requires size > 0
    ensures Shown(c, len, size, allowSpace)
      == if StaysAsIs(c, allowSpace) then [c]
         else if len < 4 || size < 4 then [46]
         else [92, 120, DIGITS[c % 16], DIGITS[c / 16]]
  {
    HexTable(c % 16);
    HexTable(c / 16);
  }

  /** The quotes around it: none where there is no room for the first, and the second only where
      block and room are left. */
  lemma QuotesAround(s: bytes, len: int, size: nat, allowSpace: bool)
    ensures QuotedBlock(s, false, len, size, allowSpace) == EscapeBlock(s, len, size, allowSpace)
    ensures len == 0 || size == 0 ==> QuotedBlock(s, true, len, size, allowSpace) == []
    ensures len != 0 && size > 0 ==>
      var t := EscapeBlock(s, len - 1, size - 1, allowSpace);
      QuotedBlock(s, true, len, size, allowSpace)
        == [34] + t + if 1 + |t| < size && 1 + |t| != len then [34] else []
  {
    hide EscapeBlock;
    var t := EscapeBlock(s, len, size, allowSpace);
    assert [] + t + [] == t;
    if len == 0 || size == 0 {
      CountsNone(s, allowSpace);
      NoRoom(s, len, allowSpace);
    }
  }

  lemma NoRoom(s: bytes, len: int, allowSpace: bool)
    ensures EscapeBlock(s, len, 0, allowSpace) == []
  {
  }

  /** With no explicit length and enough room, `%H` writes exactly the escaped text, and the
      length function announces exactly that much. */
  lemma ConvertExact(isAlt: bool, allowSpace: bool, s: bytes, size: nat)
    requires size > EscapedLength(Some(s), isAlt, allowSpace)
    ensures var t := Convert(true, isAlt, allowSpace, 0, Some(s), size);
      && |t| == EscapedLength(Some(s), isAlt, allowSpace)
      && t == if isAlt then [QUOTE] + EscapeText(s, allowSpace) + [QUOTE] else EscapeText(s, allowSpace)
  {
    hide EscapeBlock, EscapeText, CountText;
    CountsText(s, allowSpace);
    CountsNone(s, allowSpace);
    var n := CountText(s, allowSpace);
    if isAlt {
      BlockExact(s, n + 1, size - 1, allowSpace);
    } else if n > 0 {
      BlockExact(s, n, size, allowSpace);
    }
  }

  lemma CountsNone(s: bytes, allowSpace: bool)
    ensures CountText(s, allowSpace) == 0 <==> s == []
    ensures forall size: nat :: EscapeBlock(s, 0, size, allowSpace) == []
    ensures s == [] ==> EscapeText(s, allowSpace) == []
  {
  }

  lemma {:induction false} BlockExact(s: bytes, len: int, size: nat, allowSpace: bool)
    requires len >= CountText(s, allowSpace) && size >= CountText(s, allowSpace)
    ensures EscapeBlock(s, len, size, allowSpace) == EscapeText(s, allowSpace)
  {
    if s == [] {
    } else {
      var n := |Shown(s[0], len, size, allowSpace)|;
      BlockExact(s[1..], len - n, size - n, allowSpace);
    }
  }

  // ------------------------------------------------------------- format strings

  /** The state inside a conversion specification. */
  datatype Spec = Spec(inBlock: bool, blockSize: int, blockLen: int, space: bool, alt: bool)

  const LOUD: byte := 72
  const SHARP: byte := 35

  const OUTSIDE := Spec(false, 0, 0, false, false)
  const INSIDE := Spec(true, 0, 0, false, false)

  const INVALID: bytes := [60, 60, 60, 105, 110, 118, 97, 108, 105, 100, 62, 62, 62]

  predicate IsDigit(c: byte) { 48 <= c <= 57 }

  function DigitRun(f: bytes): (n: nat)
    ensures n <= |f| && (f != [] && IsDigit(f[0]) ==> n > 0)
  {
    if f == [] || !IsDigit(f[0]) then 0 else 1 + DigitRun(f[1..])
  }

  /** `atoi` */
  function Decimal(f: bytes, acc: nat): nat
    decreases f
  {
    if f == [] || !IsDigit(f[0]) then acc else Decimal(f[1..], acc * 10 + (f[0] - 48))
  }

  function Rest(args: seq<Arg>): seq<Arg> { if args == [] then [] else args[1..] }

  function LengthArg(args: seq<Arg>): int { if args != [] && args[0].Length? then args[0].n else 0 }

  /** A conversion that prints a number or a string. */
  predicate IsFinal(c: byte) {
    c == 112 || c == 100 || c == 105 || c == 117 || c == 115 || c == LOUD
  }

  /** An integer conversion of a size that is not known prints a fixed text and takes no argument. */
  predicate IsInvalid(c: byte, blockSize: int) {
    (c == 100 || c == 105 || c == 117) && blockSize != 0 && blockSize != 1 && blockSize != 2 && blockSize != 122
  }

  /** The text a conversion prints. */
  function Given(c: byte, st: Spec, args: seq<Arg>): Option<bytes> {
    if IsInvalid(c, st.blockSize) then Some(INVALID)
    else if args == [] || args[0].Length? then None
    else if args[0].Number? then Some(args[0].text) else args[0].s
  }

  /** What a character inside a specification does to it, other than ending it. */
  function Refine(c: byte, st: Spec, args: seq<Arg>): Spec {
    if c == 108 then st.(blockSize := st.blockSize + 1)
    else if c == 122 then st.(blockSize := 122)
    else if c == 42 then st.(blockLen := LengthArg(args))
    else if c == SPACE then st.(space := true)
    else if c == SHARP then st.(alt := true)
    else st
  }

  /** Everything the formatter writes into `room` bytes, its terminator aside. */
  function Format(f: bytes, st: Spec, args: seq<Arg>, room: nat): (t: bytes)
    ensures |t| <= room
    decreases |f|
  {
    if f == [] || room == 0 then []
    else if !st.inBlock then
      if f[0] == PERCENT then Format(f[1..], INSIDE, args, room) else [f[0]] + Format(f[1..], st, args, room - 1)
    else if IsFinal(f[0]) then
      var t := Convert(f[0] == LOUD, st.alt, st.space, st.blockLen, Given(f[0], st, args), room);
      t + Format(f[1..], st.(inBlock := false), if IsInvalid(f[0], st.blockSize) then args else Rest(args), room - |t|)
    else if 49 <= f[0] <= 57 then
      Format(f[DigitRun(f)..], st.(blockLen := Decimal(f, 0)), args, room)
    else
      Format(f[1..], Refine(f[0], st, args), if f[0] == 42 then Rest(args) else args, room)
  }

  // ------------------------------------------------------------- truncation

  lemma ShownRoom(c: byte, len: int, room: nat, big: nat, allowSpace: bool)
    requires big > 0 && |Shown(c, len, big, allowSpace)| <= room <= big
    ensures Shown(c, len, room, allowSpace) == Shown(c, len, big, allowSpace)
  {
    hide IsPrint, EscapeByte;
  }

  lemma {:induction false} EscapeRoom(s: bytes, len: int, room: nat, big: nat, allowSpace: bool)
    requires |EscapeBlock(s, len, big, allowSpace)| <= room <= big
    ensures EscapeBlock(s, len, room, allowSpace) == EscapeBlock(s, len, big, allowSpace)
  {
    hide Shown;
    if s == [] || len == 0 || big == 0 {
    } else {
      var n := |Shown(s[0], len, big, allowSpace)|;
      ShownRoom(s[0], len, room, big, allowSpace);
      EscapeRoom(s[1..], len - n, room - n, big - n, allowSpace);
    }
  }

  lemma {:induction false} PlainRoom(s: bytes, len: int, room: nat, big: nat)
    requires |PlainBlock(s, len, big)| <= room <= big
    ensures PlainBlock(s, len, room) == PlainBlock(s, len, big)
  {
    if s == [] || len == 0 || big == 0 {
    } else {
      PlainRoom(s[1..], len - 1, room - 1, big - 1);
    }
  }

  lemma QuotedRoom(s: bytes, isAlt: bool, len: int, room: nat, big: nat, allowSpace: bool)
    requires |QuotedBlock(s, isAlt, len, big, allowSpace)| <= room <= big
    ensures QuotedBlock(s, isAlt, len, room, allowSpace) == QuotedBlock(s, isAlt, len, big, allowSpace)
  {
    hide EscapeBlock;
    var open := |Quote(isAlt, len, big)|;
    EscapeRoom(s, len - open, room - open, big - open, allowSpace);
  }

  lemma ConvertRoom(isH: bool, isAlt: bool, allowSpace: bool, blockLen: int, given: Option<bytes>, room: nat, big: nat)
    requires |Convert(isH, isAlt, allowSpace, blockLen, given, big)| <= room <= big
    ensures Convert(isH, isAlt, allowSpace, blockLen, given, room)
      == Convert(isH, isAlt, allowSpace, blockLen, given, big)
  {
    hide QuotedBlock, PlainBlock, EscapedLength;
    var arg := if given.None? && !(isH && isAlt) then Some(NULL_TEXT) else given;
    var len := if blockLen == 0 then EscapedLength(arg, isH && isAlt, allowSpace) else blockLen;
    if arg.Some? {
      if isH {
        QuotedRoom(arg.value, isAlt, len, room, big, allowSpace);
      } else {
        PlainRoom(arg.value, len, room, big);
      }
    }
  }

  /** Text is lost only for want of room: a buffer that could hold what a larger one receives
      receives the same. */
  lemma {:induction false} EnoughRoom(f: bytes, st: Spec, args: seq<Arg>, room: nat, big: nat)
    requires |Format(f, st, args, big)| <= room <= big
    ensures Format(f, st, args, room) == Format(f, st, args, big)
    decreases |f|
  {
    hide Convert, Given, Refine, IsFinal, IsInvalid, Decimal, DigitRun;
    if f == [] || big == 0 {
    } else {
      if !st.inBlock {
        if f[0] == PERCENT {
          EnoughRoom(f[1..], INSIDE, args, room, big);
        } else {
          EnoughRoom(f[1..], st, args, room - 1, big - 1);
        }
      } else if IsFinal(f[0]) {
        var given := Given(f[0], st, args);
        var n := |Convert(f[0] == LOUD, st.alt, st.space, st.blockLen, given, big)|;
        ConvertRoom(f[0] == LOUD, st.alt, st.space, st.blockLen, given, room, big);
        var left := if IsInvalid(f[0], st.blockSize) then args else Rest(args);
        EnoughRoom(f[1..], st.(inBlock := false), left, room - n, big - n);
      } else if 49 <= f[0] <= 57 {
        assert DigitRun(f) > 0;
        EnoughRoom(f[DigitRun(f)..], st.(blockLen := Decimal(f, 0)), args, room, big);
      } else {
        EnoughRoom(f[1..], Refine(f[0], st, args), if f[0] == 42 then Rest(args) else args, room, big);
      }
    }
  }

  // ------------------------------------------------------------ simple formats

  /** Text without a `%` is written as it is, as far as there is room. */
  lemma {:induction false} LiteralText(f: bytes, args: seq<Arg>, room: nat)
    requires forall i :: 0 <= i < |f| ==> f[i] != PERCENT
    ensures Format(f, OUTSIDE, args, room) == f[..if |f| < room then |f| else room]
  {
    if f == [] || room == 0 {
    } else {
      LiteralText(f[1..], args, room - 1);
    }
  }

  // --------------------------------------------------------- writing the buffer

  /** `was` became `now` by writing `t` from position p on and nothing else. */
  ghost predicate Wrote(was: bytes, now: bytes, p: nat, t: bytes) {
    |now| == |was| && p + |t| <= |was| && now == was[..p] + t + was[p + |t|..]
  }

  lemma WroteMore(was: bytes, mid: bytes, now: bytes, p: nat, t: bytes, u: bytes)
    requires Wrote(was, mid, p, t) && Wrote(mid, now, p + |t|, u)
    ensures Wrote(was, now, p, t + u)
  {
    assert mid[..p + |t|] == was[..p] + t;
    assert mid[p + |t| + |u|..] == was[p + |t| + |u|..];
  }

  lemma WroteNothing(was: bytes, p: nat)
    requires p <= |was|
    ensures Wrote(was, was, p, [])
  {
  }

  method Put(str: array<byte>, q: nat, c: byte)
    requires q < str.Length
    modifies str
    ensures Wrote(old(str[..]), str[..], q, [c])
  {
    str[q] := c;
  }

  /** The four bytes of one escape. */
  method PutEscape(str: array<byte>, q: nat, c: byte)
    requires q + 4 <= str.Length
    modifies str
    ensures Wrote(old(str[..]), str[..], q, EscapeByte(c))
  {
    str[q] := BACKSLASH;
    str[q + 1] := LOWER_X;
    str[q + 2] := HexDigit(c % 16);
    str[q + 3] := HexDigit(c / 16);
  }

  /** One round of the escaping loop. */
  method PutShown(str: array<byte>, q: nat, c: byte, blockLen: int, allowSpace: bool) returns (n: nat)
    requires q < str.Length
    modifies str
    ensures n == |Shown(c, blockLen, str.Length - q, allowSpace)|
    ensures Wrote(old(str[..]), str[..], q, Shown(c, blockLen, str.Length - q, allowSpace))
  {
    hide EscapeByte, Wrote;
    n := 1;
    if !IsPrint(c, allowSpace) {
      if str.Length - q < 4 || blockLen < 4 {
        Put(str, q, DOT);
      } else {
        PutEscape(str, q, c);
        n := 4;
      }
    } else {
      Put(str, q, c);
    }
  }

  method PlainBlockInto(str: array<byte>, p: nat, arg: bytes, len: int) returns (q: nat)
    requires p <= str.Length
    modifies str
    ensures q == p + |PlainBlock(arg, len, str.Length - p)|
    ensures Wrote(old(str[..]), str[..], p, PlainBlock(arg, len, str.Length - p))
  {
    hide Wrote;
    q := p;
    var i, blockLen := 0, len;
    ghost var done: bytes := [];
    WroteNothing(str[..], p);
    assert arg[0..] == arg;
    while i < |arg| && blockLen != 0 && q < str.Length
      invariant i <= |arg| && p <= q == p + |done| <= str.Length
      invariant Wrote(old(str[..]), str[..], p, done)
      invariant done + PlainBlock(arg[i..], blockLen, str.Length - q) == PlainBlock(arg, len, str.Length - p)
      decreases |arg| - i
    {
      ghost var mid, t := str[..], [arg[i]];
      assert arg[i..][1..] == arg[i + 1..];
      Put(str, q, arg[i]);
      WroteMore(old(str[..]), mid, str[..], p, done, t);
      q, i, blockLen := q + 1, i + 1, blockLen - 1;
      Joined(done, t, PlainBlock(arg[i..], blockLen, str.Length - q));
      done := done + t;
    }
    assert done + [] == done;
  }

  lemma EscapeBlockStep(arg: bytes, i: nat, len: int, size: nat, allowSpace: bool)
    requires i < |arg| && len != 0 && size > 0
    ensures var t := Shown(arg[i], len, size, allowSpace);
      EscapeBlock(arg[i..], len, size, allowSpace) == t + EscapeBlock(arg[i + 1..], len - |t|, size - |t|, allowSpace)
  {
    assert arg[i..][1..] == arg[i + 1..];
  }

  lemma EscapeBlockEnd(s: bytes, len: int, size: nat, allowSpace: bool)
    requires s == [] || len == 0 || size == 0
    ensures EscapeBlock(s, len, size, allowSpace) == []
  {
  }

  method EscapeBlockInto(str: array<byte>, p: nat, arg: bytes, len: int, allowSpace: bool) returns (q: nat)
    requires p <= str.Length
    modifies str
    ensures q == p + |EscapeBlock(arg, len, str.Length - p, allowSpace)|
    ensures Wrote(old(str[..]), str[..], p, EscapeBlock(arg, len, str.Length - p, allowSpace))
  {
    hide Shown, Wrote, EscapeBlock;
    q := p;
    var i, blockLen := 0, len;
    ghost var done: bytes := [];
    WroteNothing(str[..], p);
    assert arg[0..] == arg && done + EscapeBlock(arg, len, str.Length - p, allowSpace)
      == EscapeBlock(arg, len, str.Length - p, allowSpace);
    while i < |arg| && blockLen != 0 && q < str.Length
      invariant i <= |arg| && p <= q == p + |done| <= str.Length
      invariant Wrote(old(str[..]), str[..], p, done)
      invariant done + EscapeBlock(arg[i..], blockLen, str.Length - q, allowSpace)
        == EscapeBlock(arg, len, str.Length - p, allowSpace)
      decreases |arg| - i
    {
      ghost var mid, t := str[..], Shown(arg[i], blockLen, str.Length - q, allowSpace);
      EscapeBlockStep(arg, i, blockLen, str.Length - q, allowSpace);
      var n := PutShown(str, q, arg[i], blockLen, allowSpace);
      WroteMore(old(str[..]), mid, str[..], p, done, t);
      q, blockLen, i := q + n, blockLen - n, i + 1;
      Joined(done, t, EscapeBlock(arg[i..], blockLen, str.Length - q, allowSpace));
      done := done + t;
    }
    EscapeBlockEnd(arg[i..], blockLen, str.Length - q, allowSpace);
    assert done + [] == done;
  }

  method PutQuote(str: array<byte>, q: nat, isAlt: bool, blockLen: int) returns (n: nat)
    requires q <= str.Length
    modifies str
    ensures n == |Quote(isAlt, blockLen, str.Length - q)|
    ensures Wrote(old(str[..]), str[..], q, Quote(isAlt, blockLen, str.Length - q))
  {
    n := 0;
    if isAlt && q < str.Length && blockLen != 0 {
      Put(str, q, QUOTE);
      n := 1;
    }
  }

  /** The opening quote and the escaped text. */
  method OpenedBlockInto(str: array<byte>, p: nat, arg: bytes, isAlt: bool, len: int, allowSpace: bool) returns (q: nat)
    requires p <= str.Length
    modifies str
    ensures q == p + |OpenedBlock(arg, isAlt, len, str.Length - p, allowSpace)|
    ensures Wrote(old(str[..]), str[..], p, OpenedBlock(arg, isAlt, len, str.Length - p, allowSpace))
  {
    hide EscapeBlock, Wrote, Quote;
    var open := PutQuote(str, p, isAlt, len);
    ghost var mid, begin := str[..], Quote(isAlt, len, str.Length - p);
    q := EscapeBlockInto(str, p + open, arg, len - open, allowSpace);
    WroteMore(old(str[..]), mid, str[..], p, begin,
      EscapeBlock(arg, len - open, str.Length - p - open, allowSpace));
  }

  method QuotedBlockInto(str: array<byte>, p: nat, arg: bytes, isAlt: bool, len: int, allowSpace: bool) returns (q: nat)
    requires p <= str.Length
    modifies str
    ensures q == p + |QuotedBlock(arg, isAlt, len, str.Length - p, allowSpace)|
    ensures Wrote(old(str[..]), str[..], p, QuotedBlock(arg, isAlt, len, str.Length - p, allowSpace))
  {
    hide OpenedBlock, Wrote, Quote;
    ghost var begin := OpenedBlock(arg, isAlt, len, str.Length - p, allowSpace);
    q := OpenedBlockInto(str, p, arg, isAlt, len, allowSpace);
    ghost var mid := str[..];
    var close := PutQuote(str, q, isAlt, len - (q - p));
    WroteMore(old(str[..]), mid, str[..], p, begin, Quote(isAlt, len - (q - p), str.Length - q));
    q := q + close;
  }

  /** A string conversion, from the substitution of a NULL argument on. */
  method ConvertInto(str: array<byte>, p: nat, st: Spec, isH: bool, given: Option<bytes>) returns (q: nat)
    requires p <= str.Length
    modifies str
    ensures q == p + |Convert(isH, st.alt, st.space, st.blockLen, given, str.Length - p)|
    ensures Wrote(old(str[..]), str[..], p, Convert(isH, st.alt, st.space, st.blockLen, given, str.Length - p))
  {
    hide EscapedLength, PlainBlock, QuotedBlock;
    var alt, arg, blockLen := st.alt, given, st.blockLen;
    if !isH {
      alt := false;
    }
    if arg.None? && !alt {
      arg := Some(NULL_TEXT);
    }
    if blockLen == 0 {
      blockLen := EscapedLength(arg, alt, st.space);
    }
    if isH && arg.None? {
      q := p;
      if p < str.Length && blockLen != 0 {
        Put(str, p, DASH);
        q := p + 1;
      }
    } else if isH {
      q := QuotedBlockInto(str, p, arg.value, alt, blockLen, st.space);
    } else {
      q := PlainBlockInto(str, p, arg.value, blockLen);
    }
  }

  /** The digits of an explicit length. */
  method ReadNumber(format: bytes, i: nat) returns (j: nat, n: nat)
    requires i <= |format|
    ensures j == i + DigitRun(format[i..]) && n == Decimal(format[i..], 0)
  {
    j, n := i, 0;
    while j < |format| && IsDigit(format[j])
      invariant i <= j <= |format|
      invariant DigitRun(format[i..]) == j - i + DigitRun(format[j..])
      invariant Decimal(format[i..], 0) == Decimal(format[j..], n)
    {
      assert format[j..][1..] == format[j + 1..];
      j, n := j + 1, n * 10 + (format[j] - 48);
    }
  }

  /** With `done` written, formatting the rest `f` completes the text `whole`. */
  ghost predicate Due(was: bytes, now: bytes, done: bytes, f: bytes, st: Spec, args: seq<Arg>, whole: bytes) {
    Wrote(was, now, 0, done) && done + Format(f, st, args, |was| - |done|) == whole
  }

  lemma DueNext(was: bytes, mid: bytes, now: bytes, done: bytes, t: bytes, f: bytes, st: Spec, args: seq<Arg>,
                f': bytes, st': Spec, args': seq<Arg>, whole: bytes)
    requires Due(was, mid, done, f, st, args, whole) && Wrote(mid, now, |done|, t)
    requires Format(f, st, args, |was| - |done|) == t + Format(f', st', args', |was| - |done| - |t|)
    ensures Due(was, now, done + t, f', st', args', whole)
  {
    hide Format;
    WroteMore(was, mid, now, 0, done, t);
    Joined(done, t, Format(f', st', args', |was| - |done| - |t|));
  }

  lemma DueStart(was: bytes, f: bytes, args: seq<Arg>)
    ensures Due(was, was, [], f, OUTSIDE, args, Format(f, OUTSIDE, args, |was|))
  {
    hide Format;
  }

  lemma DueEnd(was: bytes, now: bytes, done: bytes, f: bytes, st: Spec, args: seq<Arg>, whole: bytes)
    requires Due(was, now, done, f, st, args, whole) && (f == [] || |done| == |was|)
    ensures Wrote(was, now, 0, whole) && done == whole
  {
  }

  lemma FormatLiteral(f: bytes, st: Spec, args: seq<Arg>, room: nat)
    requires f != [] && room > 0 && !st.inBlock && f[0] != PERCENT
    ensures Format(f, st, args, room) == [f[0]] + Format(f[1..], st, args, room - 1)
  {
  }

  /** Where the loop goes on after a character that writes nothing. */
  lemma FormatQuiet(f: bytes, st: Spec, args: seq<Arg>, room: nat, skip: nat, st': Spec, args': seq<Arg>)
    requires f != [] && room > 0 && skip <= |f|
    requires !st.inBlock ==> f[0] == PERCENT && (skip, st', args') == (1, INSIDE, args)
    requires st.inBlock ==> !IsFinal(f[0])
    requires st.inBlock && 49 <= f[0] <= 57 ==>
      (skip, st', args') == (DigitRun(f), st.(blockLen := Decimal(f, 0)), args)
    requires st.inBlock && !(49 <= f[0] <= 57) ==>
      (skip, st', args') == (1, Refine(f[0], st, args), if f[0] == 42 then Rest(args) else args)
    ensures Format(f, st, args, room) == Format(f[skip..], st', args', room)
  {
    hide Convert, Refine, IsFinal, DigitRun, Decimal, Rest;
  }

  lemma SliceTwice(s: bytes, i: nat, j: nat)
    requires i <= j <= |s|
    ensures s[i..][j - i..] == s[j..]
  {
  }

  lemma Empty(u: bytes)
    ensures [] + u == u
  {
  }

  lemma FormatFinal(f: bytes, st: Spec, args: seq<Arg>, room: nat, t: bytes, args': seq<Arg>)
    requires f != [] && room > 0 && st.inBlock && IsFinal(f[0])
    requires t == Convert(f[0] == LOUD, st.alt, st.space, st.blockLen, Given(f[0], st, args), room)
    requires args' == if IsInvalid(f[0], st.blockSize) then args else Rest(args)
    ensures Format(f, st, args, room) == t + Format(f[1..], st.(inBlock := false), args', room - |t|)
  {
    hide Convert, Given, IsFinal, IsInvalid, Rest;
  }

  lemma LoneH(st: Spec, arg: Option<bytes>, room: nat)
    requires room > 0 && st.inBlock && st.blockSize == 0
    ensures Format([LOUD], st, [Text(arg)], room) == Convert(true, st.alt, st.space, st.blockLen, arg, room)
  {
    hide Convert;
    var t := Convert(true, st.alt, st.space, st.blockLen, arg, room);
    FormatFinal([LOUD], st, [Text(arg)], room, t, []);
    assert t + [] == t;
  }

  /** A `%H` or `%#H` by itself, with enough room: the line holds the argument's escaped text,
      for `%#H` in quotes. */
  lemma LineOfH(s: bytes, room: nat)
    requires room > EscapedLength(Some(s), true, false)
    ensures Format([PERCENT, LOUD], OUTSIDE, [Text(Some(s))], room) == EscapeText(s, false)
    ensures Format([PERCENT, SHARP, LOUD], OUTSIDE, [Text(Some(s))], room) == [QUOTE] + EscapeText(s, false) + [QUOTE]
  {
    hide EscapeText, Convert, Format;
    var args := [Text(Some(s))];
    assert [PERCENT, LOUD][1..] == [LOUD] == [SHARP, LOUD][1..] && [PERCENT, SHARP, LOUD][1..] == [SHARP, LOUD];
    FormatQuiet([PERCENT, LOUD], OUTSIDE, args, room, 1, INSIDE, args);
    FormatQuiet([PERCENT, SHARP, LOUD], OUTSIDE, args, room, 1, INSIDE, args);
    FormatQuiet([SHARP, LOUD], INSIDE, args, room, 1, INSIDE.(alt := true), args);
    LoneH(INSIDE, Some(s), room);
    LoneH(INSIDE.(alt := true), Some(s), room);
    ConvertExact(false, false, s, room);
    ConvertExact(true, false, s, room);
  }

  lemma NumberEnds(format: bytes, i: nat)
    requires i < |format| && IsDigit(format[i])
    ensures i < i + DigitRun(format[i..]) <= |format|
  {
  }

  /** A character that changes the specification and writes nothing. */
  method Quiet(format: bytes, i: nat, st: Spec, args: seq<Arg>, ghost room: nat)
    returns (i': nat, st': Spec, args': seq<Arg>)
    requires i < |format| && room > 0 && if st.inBlock then !IsFinal(format[i]) else format[i] == PERCENT
    ensures i < i' <= |format|
    ensures Format(format[i..], st, args, room) == Format(format[i'..], st', args', room)
  {
    hide Format, Refine, IsFinal, Decimal, Rest, DigitRun;
    var c := format[i];
    i', st', args' := i + 1, st, args;
    if !st.inBlock {
      st' := INSIDE;
    } else if 49 <= c <= 57 {
      var n;
      i', n := ReadNumber(format, i);
      NumberEnds(format, i);
      st' := st.(blockLen := n);
    } else {
      st' := Refine(c, st, args);
      args' := if c == 42 then Rest(args) else args;
    }
    SliceTwice(format, i, i');
    FormatQuiet(format[i..], st, args, room, i' - i, st', args');
  }

  /** One round of the formatter's loop: what it writes and where it goes on. */
  method Step(str: array<byte>, q: nat, format: bytes, i: nat, st: Spec, args: seq<Arg>)
    returns (q': nat, i': nat, st': Spec, args': seq<Arg>, ghost t: bytes)
    requires i < |format| && q < str.Length
    modifies str
    ensures i < i' <= |format| && q' == q + |t| <= str.Length
    ensures Wrote(old(str[..]), str[..], q, t)
    ensures Format(format[i..], st, args, str.Length - q) == t + Format(format[i'..], st', args', str.Length - q')
  {
    hide Wrote, Format, Convert, IsFinal, IsInvalid, Given, Rest;
    var c := format[i];
    ghost var room := str.Length - q;
    SliceTwice(format, i, i + 1);
    q', i', st', args', t := q, i + 1, st, args, [];
    if !st.inBlock && c != PERCENT {
      Put(str, q, c);
      q', t := q + 1, [c];
      FormatLiteral(format[i..], st, args, room);
    } else if st.inBlock && IsFinal(c) {
      t := Convert(c == LOUD, st.alt, st.space, st.blockLen, Given(c, st, args), room);
      q' := ConvertInto(str, q, st, c == LOUD, Given(c, st, args));
      st' := st.(inBlock := false);
      args' := if IsInvalid(c, st.blockSize) then args else Rest(args);
      FormatFinal(format[i..], st, args, room, t, args');
    } else {
      WroteNothing(str[..], q);
      i', st', args' := Quiet(format, i, st, args, room);
      Empty(Format(format[i'..], st', args', room));
    }
  }

  /** The whole formatter: what it writes is `Format`, the last byte of the buffer giving way to the
      terminator when the text fills it; nothing else of the buffer changes. */
  method VSnprintf(str: array<byte>, format: bytes, args: seq<Arg>)
    requires str.Length >= 1
    modifies str
    ensures var t := Format(format, OUTSIDE, args, str.Length); var end := if |t| < str.Length then |t| else |t| - 1;
      str[..] == t[..end] + [0] + old(str[end + 1..])
  {
    hide Due, Format, Wrote;
    var i, q, st, left := 0, 0, OUTSIDE, args;
    ghost var was, done: bytes := str[..], [];
    ghost var whole := Format(format, OUTSIDE, args, str.Length);
    assert format[0..] == format;
    DueStart(was, format, args);
    while i < |format| && q < str.Length
      invariant i <= |format| && q == |done| <= str.Length
      invariant Due(was, str[..], done, format[i..], st, left, whole)
      decreases |format| - i
    {
      ghost var mid, f, from, kept, t := str[..], format[i..], st, left, [];
      q, i, st, left, t := Step(str, q, format, i, st, left);
      DueNext(was, mid, str[..], done, t, f, from, kept, format[i..], st, left, whole);
      done := done + t;
    }
    DueEnd(was, str[..], done, format[i..], st, left, whole);
    Terminate(str, q, whole, was);
  }

  /** `str--` when nothing is left, then the NUL. */
  method Terminate(str: array<byte>, q: nat, ghost t: bytes, ghost was: bytes)
    requires str.Length >= 1 && q == |t| && Wrote(was, str[..], 0, t)
    modifies str
    ensures var end := if |t| < str.Length then |t| else |t| - 1;
      str[..] == t[..end] + [0] + was[end + 1..]
  {
    var p := q;
    if p == str.Length {
      p := p - 1;
    }
    str[p] := 0;
  }
}
