/** What a format string means, put together from its pieces: the formatter writes the texts of
    the pieces one after the other. */
module LogTemplate {
  import opened Options
  import opened Bytes
  import opened LogFormat

  /** An explicit length: none, in digits, or in an argument. */
  datatype Width = Whole | Digits(n: nat) | Star(m: int)

  /** The size of an integer: that of as many `l`, or of a `z`. */
  datatype Size = Longs(n: nat) | SizeT

  /** Text without `%`; a string or a number, with characters that mean nothing before its length;
      a string to be escaped; an integer of a size that is not known. */
  datatype Piece =
    | Literal(text: bytes)
    | Plain(quiet: bytes, size: Size, width: Width, conv: byte, arg: Arg)
    | Escaped(space: bool, alt: bool, s: Option<bytes>)
    | Unknown(longs: nat, conv: byte)

  /** A character that does not end, size or measure a conversion. */
  predicate MeansNothing(c: byte) {
    && c != 112 && c != 100 && c != 105 && c != 117 && c != 115 && c != 72
    && c != 108 && c != 122 && c != 42 && !(49 <= c <= 57)
  }

  /** `d`, `i` and `u`. */
  predicate IsInteger(c: byte) { c == 100 || c == 105 || c == 117 }

  predicate Proper(p: Piece) {
    match p
    case Literal(text) => 37 !in text
    case Plain(quiet, size, width, conv, arg) =>
      && (forall i :: 0 <= i < |quiet| ==> MeansNothing(quiet[i]))
      && (IsInteger(conv) || conv == 115 || conv == 112) && (IsInteger(conv) && size.Longs? ==> size.n <= 2)
      && !arg.Length? && (width.Digits? ==> width.n > 0)
    case Escaped(_, _, _) => true
    case Unknown(longs, conv) => IsInteger(conv) && longs > 2 && longs != 122
  }

  function Repeat(c: byte, n: nat): bytes { if n == 0 then [] else [c] + Repeat(c, n - 1) }

  /** `%d` */
  function PrintDecimal(n: nat): (s: bytes)
    ensures s != []
  {
    if n < 10 then [48 + n] else PrintDecimal(n / 10) + [48 + n % 10]
  }

  function PrintSize(z: Size): bytes {
    match z
    case Longs(n) => Repeat(108, n)
    case SizeT => [122]
  }

  function PrintWidth(w: Width): bytes {
    match w
    case Whole => []
    case Digits(n) => PrintDecimal(n)
    case Star(_) => [42]
  }

  /** How the piece is written in a format string. */
  function PrintPiece(p: Piece): bytes {
    match p
    case Literal(text) => text
    case Plain(quiet, size, width, conv, _) => [37] + (quiet + (PrintSize(size) + (PrintWidth(width) + [conv])))
    case Escaped(space, alt, _) => [37] + ((if space then [32] else []) + ((if alt then [35] else []) + [72]))
    case Unknown(longs, conv) => [37] + (Repeat(108, longs) + [conv])
  }

  /** The arguments it takes. */
  function ArgsOf(p: Piece): seq<Arg> {
    match p
    case Literal(_) => []
    case Plain(_, _, width, _, arg) => (if width.Star? then [Length(width.m)] else []) + [arg]
    case Escaped(_, _, s) => [Text(s)]
    case Unknown(_, _) => []
  }

  /** `(null)` */
  function ValueOf(arg: Arg): bytes
    requires !arg.Length?
  {
    if arg.Number? then arg.text else if arg.s.None? then [40, 110, 117, 108, 108, 41] else arg.s.value
  }

  /** What a length says: 0 for none. */
  function LengthOf(w: Width): int {
    match w
    case Whole => 0
    case Digits(n) => n
    case Star(m) => m
  }

  /** A positive length cuts; no length, 0 and negative ones do not. */
  function Cut(v: bytes, w: Width): bytes {
    if 0 < LengthOf(w) < |v| then v[..LengthOf(w)] else v
  }

  /** The text it prints where there is room. */
  function TextOf(p: Piece): bytes
    requires Proper(p)
  {
    match p
    case Literal(text) => text
    case Plain(_, _, width, _, arg) => Cut(ValueOf(arg), width)
    case Escaped(space, alt, s) =>
      if s.None? then (if alt then [45] else [40, 110, 117, 108, 108, 41])
      else if alt then [34] + EscapeText(s.value, space) + [34]
      else EscapeText(s.value, space)
    case Unknown(_, _) => [60, 60, 60, 105, 110, 118, 97, 108, 105, 100, 62, 62, 62]
  }

  predicate AllProper(ps: seq<Piece>) {
    forall i :: 0 <= i < |ps| ==> Proper(ps[i])
  }

  function PrintFormat(ps: seq<Piece>): bytes {
    if ps == [] then [] else PrintPiece(ps[0]) + PrintFormat(ps[1..])
  }

  function AllArgs(ps: seq<Piece>): seq<Arg> {
    if ps == [] then [] else ArgsOf(ps[0]) + AllArgs(ps[1..])
  }

  function AllText(ps: seq<Piece>): bytes
    requires AllProper(ps)
  {
    if ps == [] then [] else TextOf(ps[0]) + AllText(ps[1..])
  }

  /** As much of a text as there is room for. */
  function Fitting(t: bytes, room: nat): (u: bytes)
    ensures |u| <= room
  {
    if |t| <= room then t else t[..room]
  }

  // ------------------------------------------------------------------- decimals

  predicate AllDecimal(s: bytes) {
    forall i :: 0 <= i < |s| ==> IsDigit(s[i])
  }

  lemma {:induction false} DecimalShape(n: nat)
    ensures AllDecimal(PrintDecimal(n)) && (n > 0 ==> 49 <= PrintDecimal(n)[0] <= 57)
  {
    if n < 10 {
    } else {
      DecimalShape(n / 10);
    }
  }

  /** Digits with another character behind them are read as a run. */
  lemma {:induction false} DigitsRun(s: bytes, rest: bytes)
    requires AllDecimal(s) && (rest == [] || !IsDigit(rest[0]))
    ensures DigitRun(s + rest) == |s|
  {
    if s == [] {
      assert s + rest == rest;
    } else {
      assert (s + rest)[1..] == s[1..] + rest;
      DigitsRun(s[1..], rest);
    }
  }

  lemma {:induction false} DecimalSnoc(s: bytes, c: byte, rest: bytes, acc: nat)
    requires AllDecimal(s) && IsDigit(c) && (rest == [] || !IsDigit(rest[0]))
    ensures Decimal(s + [c] + rest, acc) == Decimal(s, acc) * 10 + (c - 48)
    decreases |s|
  {
    var t := s + [c] + rest;
    if s == [] {
      assert t == [c] + rest && t[1..] == rest;
    } else {
      assert t[1..] == s[1..] + [c] + rest;
      DecimalSnoc(s[1..], c, rest, acc * 10 + (s[0] - 48));
    }
  }

  /** Reading back a printed number yields the number. */
  lemma {:induction false} DecimalPrints(n: nat, rest: bytes)
    requires rest == [] || !IsDigit(rest[0])
    ensures Decimal(PrintDecimal(n) + rest, 0) == n
  {
    if n < 10 {
      DecimalSnoc([], 48 + n, rest, 0);
      assert [] + [48 + n] + rest == PrintDecimal(n) + rest;
    } else {
      DecimalPrints(n / 10, []);
      DecimalShape(n / 10);
      assert PrintDecimal(n / 10) + [] == PrintDecimal(n / 10);
      DecimalSnoc(PrintDecimal(n / 10), 48 + n % 10, rest, 0);
    }
  }

  // ------------------------------------------------------ inside a conversion

  /** Characters that mean nothing leave size and length of the conversion alone. */
  lemma {:induction false} QuietRun(q: bytes, g: bytes, st: Spec, args: seq<Arg>, room: nat) returns (st': Spec)
    requires st.inBlock && room > 0 && forall i :: 0 <= i < |q| ==> MeansNothing(q[i])
    ensures st'.inBlock && st'.blockSize == st.blockSize && st'.blockLen == st.blockLen
    ensures Format(q + g, st, args, room) == Format(g, st', args, room)
    decreases |q|
  {
    hide Format;
    if q == [] {
      st' := st;
      assert q + g == g;
    } else {
      var f := q + g;
      assert f[1..] == q[1..] + g && f[0] == q[0];
      FormatQuiet(f, st, args, room, 1, Refine(q[0], st, args), args);
      st' := QuietRun(q[1..], g, Refine(q[0], st, args), args, room);
    }
  }

  lemma {:induction false} LongRun(n: nat, g: bytes, st: Spec, args: seq<Arg>, room: nat)
    requires st.inBlock && room > 0
    ensures Format(Repeat(108, n) + g, st, args, room) == Format(g, st.(blockSize := st.blockSize + n), args, room)
  {
    hide Format;
    if n == 0 {
      assert Repeat(108, n) + g == g;
    } else {
      var f := Repeat(108, n) + g;
      assert f[1..] == Repeat(108, n - 1) + g && f[0] == 108;
      var st' := st.(blockSize := st.blockSize + 1);
      FormatQuiet(f, st, args, room, 1, st', args);
      LongRun(n - 1, g, st', args, room);
    }
  }

  /** The number the formatter keeps for a size. */
  function SizeOf(z: Size): int { if z.Longs? then z.n else 122 }

  lemma SizeRun(z: Size, g: bytes, st: Spec, args: seq<Arg>, room: nat)
    requires st.inBlock && room > 0 && st.blockSize == 0
    ensures Format(PrintSize(z) + g, st, args, room) == Format(g, st.(blockSize := SizeOf(z)), args, room)
  {
    hide Format;
    match z
    case Longs(n) => LongRun(n, g, st, args, room);
    case SizeT =>
      assert ([122] + g)[1..] == g;
      FormatQuiet([122] + g, st, args, room, 1, st.(blockSize := 122), args);
  }

  lemma WidthRun(w: Width, g: bytes, st: Spec, args: seq<Arg>, room: nat)
    requires st.inBlock && room > 0 && st.blockLen == 0 && g != [] && !IsDigit(g[0])
    requires w.Digits? ==> w.n > 0
    ensures Format(PrintWidth(w) + g, st, (if w.Star? then [Length(w.m)] else []) + args, room)
      == Format(g, st.(blockLen := LengthOf(w)), args, room)
  {
    hide Format;
    match w
    case Whole =>
      assert PrintWidth(w) + g == g && [] + args == args;
    case Digits(n) =>
      var d := PrintDecimal(n);
      DecimalShape(n);
      DigitsRun(d, g);
      DecimalPrints(n, g);
      assert (d + g)[|d|..] == g && [] + args == args;
      FormatQuiet(d + g, st, args, room, |d|, st.(blockLen := n), args);
    case Star(m) =>
      var all := [Length(m)] + args;
      assert ([42] + g)[1..] == g && all[1..] == args;
      FormatQuiet([42] + g, st, all, room, 1, st.(blockLen := m), args);
  }

  // --------------------------------------------------------- whole conversions

  lemma {:induction false} CountAtLeast(s: bytes, allowSpace: bool)
    ensures CountText(s, allowSpace) >= |s|
  {
    if s == [] {
    } else {
      CountAtLeast(s[1..], allowSpace);
    }
  }

  /** A conversion of a number or a string that is not escaped. */
  lemma ConvertsPlain(alt: bool, space: bool, w: Width, arg: Arg, room: nat)
    requires !arg.Length? && (w.Digits? ==> w.n > 0)
    ensures Convert(false, alt, space, LengthOf(w), if arg.Number? then Some(arg.text) else arg.s, room)
      == Fitting(Cut(ValueOf(arg), w), room)
  {
    var v, len := ValueOf(arg), LengthOf(w);
    CountAtLeast(v, space);
    PlainExact(v, if len == 0 then CountText(v, space) else len, room);
    assert v[..|v|] == v;
  }

  /** What lies outside a conversion does not depend on the last one. */
  lemma {:induction false} OutsideSame(f: bytes, st: Spec, args: seq<Arg>, room: nat)
    requires !st.inBlock
    ensures Format(f, st, args, room) == Format(f, OUTSIDE, args, room)
    decreases |f|
  {
    if f == [] || room == 0 || f[0] == PERCENT {
    } else {
      OutsideSame(f[1..], st, args, room - 1);
    }
  }

  lemma NoRoomLeft(f: bytes, st: Spec, args: seq<Arg>)
    ensures Format(f, st, args, 0) == []
  {
  }

  /** The character that ends a conversion. */
  lemma Ends(c: byte, g: bytes, st: Spec, arg: Arg, args: seq<Arg>, room: nat, t: bytes)
    requires st.inBlock && room > 0 && IsFinal(c) && !IsInvalid(c, st.blockSize) && !arg.Length?
    requires t == Convert(c == LOUD, st.alt, st.space, st.blockLen, if arg.Number? then Some(arg.text) else arg.s, room)
    ensures Format([c] + g, st, [arg] + args, room) == t + Format(g, OUTSIDE, args, room - |t|)
  {
    hide Format, Convert;
    var f, all := [c] + g, [arg] + args;
    assert f[1..] == g && all[1..] == args;
    FormatFinal(f, st, all, room, t, args);
    OutsideSame(g, st.(inBlock := false), args, room - |t|);
  }

  lemma Opens(g: bytes, args: seq<Arg>, room: nat)
    requires room > 0
    ensures Format([37] + g, OUTSIDE, args, room) == Format(g, INSIDE, args, room)
  {
    hide Format;
    assert ([37] + g)[1..] == g;
    FormatQuiet([37] + g, OUTSIDE, args, room, 1, INSIDE, args);
  }

  /** After a piece the formatter goes on with what follows it and the room that is left. */
  ghost predicate GoesOn(p: Piece, g: bytes, args: seq<Arg>, room: nat)
    requires Proper(p)
  {
    var t := Fitting(TextOf(p), room);
    Format(PrintPiece(p) + g, OUTSIDE, ArgsOf(p) + args, room) == t + Format(g, OUTSIDE, args, room - |t|)
  }

  lemma {:induction false} LiteralGoesOn(text: bytes, g: bytes, args: seq<Arg>, room: nat)
    requires 37 !in text
    ensures var t := Fitting(text, room);
      Format(text + g, OUTSIDE, args, room) == t + Format(g, OUTSIDE, args, room - |t|)
    decreases |text|
  {
    hide Format, Fitting;
    if room == 0 {
      NoRoomLeft(text + g, OUTSIDE, args);
      NoRoomLeft(g, OUTSIDE, args);
      assert Fitting(text, 0) == [];
    } else if text == [] {
      assert text + g == g;
      FitsNothing(room);
      assert [] + Format(g, OUTSIDE, args, room) == Format(g, OUTSIDE, args, room);
    } else {
      var f, rest := text + g, text[1..];
      assert f[1..] == rest + g && f[0] == text[0];
      FormatLiteral(f, OUTSIDE, args, room);
      LiteralGoesOn(rest, g, args, room - 1);
      var t := Fitting(rest, room - 1);
      FitsFirst(text, room);
      Joined([text[0]], t, Format(g, OUTSIDE, args, room - 1 - |t|));
    }
  }

  lemma FitsNothing(room: nat)
    ensures Fitting([], room) == []
  {
  }

  lemma FitsFirst(t: bytes, room: nat)
    requires t != [] && room > 0
    ensures Fitting(t, room) == [t[0]] + Fitting(t[1..], room - 1)
  {
  }

  /** The text of such a piece up to its length, up to its last character, and its arguments. */
  lemma PlainParts(p: Piece, g: bytes, args: seq<Arg>)
    requires p.Plain? && Proper(p)
    ensures PrintPiece(p) + g
      == [37] + (p.quiet + (PrintSize(p.size) + (PrintWidth(p.width) + ([p.conv] + g))))
    ensures ArgsOf(p) + args == (if p.width.Star? then [Length(p.width.m)] else []) + ([p.arg] + args)
    ensures IsFinal(p.conv) && p.conv != LOUD && !IsDigit(p.conv) && !IsInvalid(p.conv, SizeOf(p.size))
    ensures !p.arg.Length?
    ensures (p.width.Digits? ==> p.width.n > 0) && TextOf(p) == Cut(ValueOf(p.arg), p.width)
    ensures forall i :: 0 <= i < |p.quiet| ==> MeansNothing(p.quiet[i])
  {
    hide PrintSize, PrintWidth, Cut, ValueOf, MeansNothing;
  }

  lemma PlainGoesOn(p: Piece, g: bytes, args: seq<Arg>, room: nat)
    requires p.Plain? && Proper(p) && room > 0
    ensures GoesOn(p, g, args, room)
  {
    hide Format, Convert, Proper, PrintPiece, ArgsOf, TextOf, PrintSize, SizeOf, PrintWidth, Cut, ValueOf, LengthOf,
      Fitting, MeansNothing, IsFinal, IsInvalid;
    PlainParts(p, g, args);
    var tail := [p.conv] + g;
    var measured := PrintWidth(p.width) + tail;
    var sized := PrintSize(p.size) + measured;
    var all := (if p.width.Star? then [Length(p.width.m)] else []) + ([p.arg] + args);
    Opens(p.quiet + sized, all, room);
    var st := QuietRun(p.quiet, sized, INSIDE, all, room);
    SizeRun(p.size, measured, st, all, room);
    var st1 := st.(blockSize := SizeOf(p.size));
    WidthRun(p.width, tail, st1, [p.arg] + args, room);
    var st2 := st1.(blockLen := LengthOf(p.width));
    ConvertsPlain(st2.alt, st2.space, p.width, p.arg, room);
    Ends(p.conv, g, st2, p.arg, args, room, Fitting(TextOf(p), room));
  }

  lemma EscapedGoesOn(p: Piece, g: bytes, args: seq<Arg>, room: nat)
    requires p.Escaped? && room > |TextOf(p)|
    ensures GoesOn(p, g, args, room)
  {
    hide Format, Convert, EscapeText, TextOf;
    var Escaped(space, alt, s) := p;
    var all, flags := [Text(s)] + args, (if alt then [35] else []) + ([72] + g);
    assert PrintPiece(p) + g == [37] + ((if space then [32] else []) + flags);
    Opens((if space then [32] else []) + flags, all, room);
    FlagRun(space, SPACE, INSIDE, INSIDE.(space := space), flags, all, room);
    var st := INSIDE.(space := space);
    FlagRun(alt, SHARP, st, st.(alt := alt), [72] + g, all, room);
    ConvertsLoud(alt, space, s, room);
    Ends(72, g, st.(alt := alt), Text(s), args, room, TextOf(p));
  }

  /** A space or a `#`, where there is one. */
  lemma FlagRun(present: bool, c: byte, st: Spec, st': Spec, g: bytes, args: seq<Arg>, room: nat)
    requires st.inBlock && room > 0 && (c == SPACE || c == SHARP)
    requires st' == if present then (if c == SPACE then st.(space := true) else st.(alt := true)) else st
    ensures Format((if present then [c] else []) + g, st, args, room) == Format(g, st', args, room)
  {
    hide Format;
    if present {
      assert ([c] + g)[1..] == g;
      FormatQuiet([c] + g, st, args, room, 1, st', args);
    } else {
      assert [] + g == g;
    }
  }

  /** With an explicit length, `%H` shows as much of the text and its quotes as the length and the
      room allow. */
  lemma LoudLimited(space: bool, alt: bool, w: Width, s: Option<bytes>, g: bytes, args: seq<Arg>, room: nat)
    requires room > 0 && LengthOf(w) != 0 && (w.Digits? ==> w.n > 0)
    ensures var all := (if w.Star? then [Length(w.m)] else []) + ([Text(s)] + args);
      var f := [37] + ((if space then [32] else []) + ((if alt then [35] else []) + (PrintWidth(w) + ([72] + g))));
      var t :=
        if s.None? && alt then [45]
        else QuotedBlock(if s.None? then [40, 110, 117, 108, 108, 41] else s.value, alt, LengthOf(w), room, space);
      Format(f, OUTSIDE, all, room) == t + Format(g, OUTSIDE, args, room - |t|)
  {
    hide Format, QuotedBlock, PrintWidth;
    var rest := [Text(s)] + args;
    var all, measured := (if w.Star? then [Length(w.m)] else []) + rest, PrintWidth(w) + ([72] + g);
    var flags := (if alt then [35] else []) + measured;
    Opens((if space then [32] else []) + flags, all, room);
    var st1 := INSIDE.(space := space);
    FlagRun(space, SPACE, INSIDE, st1, flags, all, room);
    var st2 := st1.(alt := alt);
    FlagRun(alt, SHARP, st1, st2, measured, all, room);
    WidthRun(w, [72] + g, st2, rest, room);
    var st3 := st2.(blockLen := LengthOf(w));
    Ends(72, g, st3, Text(s), args, room, Convert(true, alt, space, LengthOf(w), s, room));
  }

  lemma ConvertsLoud(alt: bool, space: bool, s: Option<bytes>, room: nat)
    requires room > |TextOf(Escaped(space, alt, s))|
    ensures Convert(true, alt, space, 0, s, room) == TextOf(Escaped(space, alt, s))
  {
    hide EscapeText, CountText, EscapeBlock;
    if s.Some? {
      CountsText(s.value, space);
      ConvertExact(alt, space, s.value, room);
    } else if !alt {
      CountsText(NULL_TEXT, space);
      NullIsPlain(space);
      ConvertExact(false, space, NULL_TEXT, room);
    }
  }

  lemma NullIsPlain(space: bool)
    ensures EscapeText(NULL_TEXT, space) == NULL_TEXT
  {
    var s := NULL_TEXT;
    assert s[1..][1..] == s[2..] && s[2..][1..] == s[3..] && s[3..][1..] == s[4..] && s[4..][1..] == s[5..];
    assert s[5..] == [41] && [41][1..] == [];
    assert EscapeText(s[5..], space) == [41];
    assert EscapeText(s[4..], space) == [108, 41];
    assert EscapeText(s[3..], space) == [108, 108, 41];
    assert EscapeText(s[2..], space) == [117, 108, 108, 41];
    assert EscapeText(s[1..], space) == [110, 117, 108, 108, 41];
  }

  /** An integer of unknown size prints a fixed text and takes no argument. */
  lemma UnknownGoesOn(p: Piece, g: bytes, args: seq<Arg>, room: nat)
    requires p.Unknown? && Proper(p) && room > 0
    ensures GoesOn(p, g, args, room)
  {
    hide Format, Convert;
    var Unknown(longs, conv) := p;
    var tail := [conv] + g;
    assert PrintPiece(p) + g == [37] + (Repeat(108, longs) + tail) && [] + args == args;
    Opens(Repeat(108, longs) + tail, args, room);
    LongRun(longs, tail, INSIDE, args, room);
    var st := INSIDE.(blockSize := longs);
    var t := Fitting(TextOf(p), room);
    ConvertsPlain(false, false, Whole, Number(INVALID), room);
    assert tail[1..] == g;
    FormatFinal(tail, st, args, room, t, args);
    OutsideSame(g, st.(inBlock := false), args, room - |t|);
  }

  lemma PieceGoesOn(p: Piece, g: bytes, args: seq<Arg>, room: nat)
    requires Proper(p) && (p.Escaped? ==> room > |TextOf(p)|)
    ensures GoesOn(p, g, args, room)
  {
    hide Format;
    if p.Literal? {
      LiteralGoesOn(p.text, g, args, room);
      assert [] + args == args;
    } else if room == 0 {
      NoRoomLeft(PrintPiece(p) + g, OUTSIDE, ArgsOf(p) + args);
      NoRoomLeft(g, OUTSIDE, args);
    } else if p.Plain? {
      PlainGoesOn(p, g, args, room);
    } else if p.Escaped? {
      EscapedGoesOn(p, g, args, room);
    } else {
      UnknownGoesOn(p, g, args, room);
    }
  }

  // ------------------------------------------------------------ whole formats

  lemma ProperRest(ps: seq<Piece>)
    requires AllProper(ps) && ps != []
    ensures Proper(ps[0]) && AllProper(ps[1..])
  {
    hide Proper;
  }

  lemma FittingBoth(t: bytes, u: bytes, room: nat)
    ensures Fitting(t + u, room) == Fitting(t, room) + Fitting(u, room - |Fitting(t, room)|)
  {
    if |t| > room {
      assert (t + u)[..room] == t[..room] && u[..0] == [];
    }
  }

  /** A format without escapes prints the texts of its pieces, one after the other, as far as there
      is room. */
  lemma {:induction false} PlainFormat(ps: seq<Piece>, args: seq<Arg>, room: nat)
    requires AllProper(ps) && forall i :: 0 <= i < |ps| ==> !ps[i].Escaped?
    ensures Format(PrintFormat(ps), OUTSIDE, AllArgs(ps) + args, room) == Fitting(AllText(ps), room)
    decreases |ps|
  {
    hide Format, Proper, PrintPiece, ArgsOf, TextOf, Fitting;
    if ps == [] {
      FormatNothing(AllArgs(ps) + args, room);
    } else {
      var p, rest := ps[0], ps[1..];
      ProperRest(ps);
      PieceGoesOn(p, PrintFormat(rest), AllArgs(rest) + args, room);
      Joined(ArgsOf(p), AllArgs(rest), args);
      PlainFormat(rest, args, room - |Fitting(TextOf(p), room)|);
      FittingBoth(TextOf(p), AllText(rest), room);
    }
  }

  lemma FormatNothing(args: seq<Arg>, room: nat)
    ensures Format([], OUTSIDE, args, room) == [] && Fitting([], room) == []
  {
  }

  lemma {:induction false} RoomyFormat(ps: seq<Piece>, args: seq<Arg>, room: nat)
    requires AllProper(ps) && room > |AllText(ps)|
    ensures Format(PrintFormat(ps), OUTSIDE, AllArgs(ps) + args, room) == AllText(ps)
    decreases |ps|
  {
    hide Format, Proper, PrintPiece, ArgsOf, TextOf;
    if ps == [] {
      FormatNothing(AllArgs(ps) + args, room);
    } else {
      var p, rest := ps[0], ps[1..];
      ProperRest(ps);
      PieceGoesOn(p, PrintFormat(rest), AllArgs(rest) + args, room);
      Joined(ArgsOf(p), AllArgs(rest), args);
      RoomyFormat(rest, args, room - |TextOf(p)|);
    }
  }

  /** Any format prints the texts of its pieces, one after the other, where there is room for them. */
  lemma WholeFormat(ps: seq<Piece>, args: seq<Arg>, room: nat)
    requires AllProper(ps) && room >= |AllText(ps)|
    ensures Format(PrintFormat(ps), OUTSIDE, AllArgs(ps) + args, room) == AllText(ps)
  {
    hide Format, AllText;
    RoomyFormat(ps, args, room + 1);
    EnoughRoom(PrintFormat(ps), OUTSIDE, AllArgs(ps) + args, room, room + 1);
  }

  /** So does the buffer of a logged line, with its terminator. */
  method PrintLine(str: array<byte>, ps: seq<Piece>)
    requires AllProper(ps) && str.Length > |AllText(ps)|
    modifies str
    ensures str[..|AllText(ps)| + 1] == AllText(ps) + [0]
  {
    hide Format, AllText, PrintFormat, AllArgs;
    WholeFormat(ps, [], str.Length);
    assert AllArgs(ps) + [] == AllArgs(ps);
    VSnprintf(str, PrintFormat(ps), AllArgs(ps));
  }
}
