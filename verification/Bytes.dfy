/** Bytes as integers, and hexadecimal numbers as `snprintf` prints and `sscanf` reads them. */
module Bytes {
  import opened Options

  type byte = x: int | 0 <= x < 256
  type bytes = seq<byte>

  const LF: byte := 10
  const CR: byte := 13
  const SPACE: byte := 32
  const QUOTE: byte := 34
  const PERCENT: byte := 37
  const SEMICOLON: byte := 59
  const EQUALS: byte := 61
  const BACKSLASH: byte := 92
  const PLUS: byte := 43
  const DASH: byte := 45
  const ZERO: byte := 48
  const UPPER_X: byte := 88
  const LOWER_X: byte := 120

  /** One more than the greatest number a 64-bit counter holds. */
  const WORD: nat := 0x1_0000_0000_0000_0000

  /** Concatenation is associative. */
  lemma Joined<T>(a: seq<T>, b: seq<T>, c: seq<T>)
    ensures (a + b) + c == a + (b + c)
  {
  }

  /** What C reads in memory that holds `s`: the bytes before the first NUL. */
  function CString(s: bytes): bytes {
    if s == [] || s[0] == 0 then [] else [s[0]] + CString(s[1..])
  }

  lemma {:induction false} CStringWhole(s: bytes)
    requires 0 !in s
    ensures CString(s) == s
  {
    if s == [] {
    } else {
      CStringWhole(s[1..]);
    }
  }

  predicate IsHex(b: byte) {
    48 <= b <= 57 || 65 <= b <= 70 || 97 <= b <= 102
  }

  function HexValue(b: byte): nat
    requires IsHex(b)
  {
    if b <= 57 then b - 48 else if b <= 70 then b - 55 else b - 87
  }

  function HexDigit(n: nat): (b: byte)
    requires n < 16
    ensures IsHex(b) && HexValue(b) == n
  {
    if n < 10 then 48 + n else 87 + n
  }

  /** `0123456789abcdef` */
  const DIGITS: bytes := [48, 49, 50, 51, 52, 53, 54, 55, 56, 57, 97, 98, 99, 100, 101, 102]

  lemma HexTable(n: nat)
    requires n < 16
    ensures HexDigit(n) == DIGITS[n] && HexValue(DIGITS[n]) == n
  {
  }

  predicate AllHex(s: bytes) {
    forall i :: 0 <= i < |s| ==> IsHex(s[i])
  }

  function HexNat(s: bytes): nat
    requires AllHex(s)
  {
    if s == [] then 0 else HexNat(s[..|s| - 1]) * 16 + HexValue(s[|s| - 1])
  }

  /** `%lx` */
  function PrintHex(n: nat): (s: bytes)
    ensures s != [] && AllHex(s)
  {
    if n < 16 then [HexDigit(n)] else PrintHex(n / 16) + [HexDigit(n % 16)]
  }

  /** Lower-case digits without leading zeros. */
  lemma {:induction false} PrintHexShape(n: nat)
    ensures forall i :: 0 <= i < |PrintHex(n)| ==> PrintHex(n)[i] in DIGITS
    ensures n < 16 ==> PrintHex(n) == [DIGITS[n]]
    ensures n > 0 ==> PrintHex(n)[0] != 48
  {
    if n < 16 {
      HexTable(n);
    } else {
      PrintHexShape(n / 16);
      HexTable(n % 16);
    }
  }

  /** How many leading bytes are hexadecimal digits. */
  function HexRun(s: bytes): (n: nat)
    ensures n <= |s| && AllHex(s[..n])
  {
    if s == [] || !IsHex(s[0]) then 0
    else
      var n := 1 + HexRun(s[1..]);
      assert forall i :: 1 <= i < n ==> s[i] == s[1..][..n - 1][i - 1];
      n
  }

  /** What `isspace` accepts. */
  predicate IsBlank(b: byte) { b == SPACE || 9 <= b <= 13 }

  function SkipBlanks(s: bytes): bytes {
    if s != [] && IsBlank(s[0]) then SkipBlanks(s[1..]) else s
  }

  predicate HasSign(s: bytes) { s != [] && (s[0] == PLUS || s[0] == DASH) }

  /** A `0x` before the digits. */
  predicate HasPrefix(s: bytes) { |s| >= 2 && s[0] == ZERO && (s[1] == UPPER_X || s[1] == LOWER_X) }

  /** `%llx`: after blanks, a sign and `0x`, all of which may be missing, the number the leading
      digits spell, if there are any. A number too large reads as the largest, and a negative one
      wraps around. */
  function ParseHex(s: bytes): (r: Option<nat>)
    ensures r.Some? ==> r.value < WORD
  {
    var t := SkipBlanks(s);
    var u := if HasSign(t) then t[1..] else t;
    var v := if HasPrefix(u) then u[2..] else u;
    if HexRun(v) == 0 then None
    else
      var n := HexNat(v[..HexRun(v)]);
      Some(if n >= WORD then WORD - 1 else if HasSign(t) && t[0] == DASH && n > 0 then WORD - n else n)
  }

  lemma {:induction false} RunOfDigits(s: bytes)
    requires AllHex(s)
    ensures HexRun(s) == |s|
  {
    if s == [] {
    } else {
      RunOfDigits(s[1..]);
    }
  }

  lemma {:induction false} HexNatPrints(n: nat)
    ensures HexNat(PrintHex(n)) == n
  {
    if n < 16 {
    } else {
      HexNatPrints(n / 16);
      var s := PrintHex(n);
      assert s[..|s| - 1] == PrintHex(n / 16);
    }
  }

  /** Digits alone are read as what they spell, as far as 64 bits go. */
  lemma ParseDigits(s: bytes)
    requires s != [] && AllHex(s)
    ensures ParseHex(s) == Some(if HexNat(s) < WORD then HexNat(s) else WORD - 1)
  {
    RunOfDigits(s);
    assert !IsBlank(s[0]) && !HasSign(s) && !HasPrefix(s);
    assert s[..|s|] == s;
  }

  /** Reading back a printed number yields the number if and only if it has no more than 64 bits. */
  lemma ParsePrintHex(n: nat)
    ensures ParseHex(PrintHex(n)) == Some(if n < WORD then n else WORD - 1)
  {
    HexNatPrints(n);
    ParseDigits(PrintHex(n));
  }

  /** Blanks, a sign and a prefix are accepted where the grammar has digits only: ` +0xA` is ten,
      and `-1` is the largest number. */
  lemma ParseSigned()
    ensures ParseHex([SPACE, PLUS, ZERO, LOWER_X, 65]) == Some(10) && ParseHex([DASH, 49]) == Some(WORD - 1)
    ensures ParseHex([ZERO, LOWER_X]) == None && ParseHex([]) == None
  {
    var ten: bytes := [65];
    var one: bytes := [49];
    RunOfDigits(ten);
    RunOfDigits(one);
    var s: bytes := [SPACE, PLUS, ZERO, LOWER_X, 65];
    assert SkipBlanks(s) == SkipBlanks(s[1..]) == [PLUS, ZERO, LOWER_X, 65];
    assert [PLUS, ZERO, LOWER_X, 65][1..] == [ZERO, LOWER_X, 65] && [ZERO, LOWER_X, 65][2..] == ten && ten[..1] == ten;
    assert HexNat(ten) == HexNat(ten[..0]) * 16 + 10 == 10 && HexNat(one) == HexNat(one[..0]) * 16 + 1 == 1;
    assert [DASH, 49][1..] == one && one[..1] == one;
    assert [ZERO, LOWER_X][2..] == [];
  }
}
