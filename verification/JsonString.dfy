/**
 The string lexer of Lua CJSON as a function of the text: the escape tables,
 surrogate pairs, and the UTF-8 that they become.

 A text d is a C string held in a sequence: its last element is the NUL.
 Character codes are numbers from 0 to 255.
 */
module JsonString {
  import opened Bytes
  import opened Wrappers

  /** d ends in a NUL. (It may hold others, at which the lexer stops.) */
  ghost predicate IsText(d: bytes) {
    |d| > 0 && d[|d| - 1] == 0
  }

  const QUOTE: int := 0x22
  const BACKSLASH: int := 0x5C

  /** The decoding table: 0 stands for an illegal escape, 'u' for a code unit to be parsed. */
  function Escape2Char(c: int): int {
    if c == '\"' as int then 0x22
    else if c == '\\' as int then 0x5C
    else if c == '/' as int then 0x2F
    else if c == 'b' as int then 0x08
    else if c == 't' as int then 0x09
    else if c == 'n' as int then 0x0A
    else if c == 'f' as int then 0x0C
    else if c == 'r' as int then 0x0D
    else if c == 'u' as int then 'u' as int
    else 0
  }

  // ----- Hexadecimal -----

  /** c | 0x20 */
  function SetBit5(c: int): int {
    if (c / 32) % 2 == 0 then c + 32 else c
  }

  function HexDigit2Int(c: int): int {
    if '0' as int <= c <= '9' as int then c - '0' as int
    else
      var l := SetBit5(c);
      if 'a' as int <= l <= 'f' as int then 10 + l - 'a' as int else -1
  }

  /** The digit value c stands for, in either case; -1 for any other character. */
  lemma HexDigits(c: int)
    ensures HexDigit2Int(c) ==
      if '0' as int <= c <= '9' as int then c - '0' as int
      else if 'a' as int <= c <= 'f' as int then c - 'a' as int + 10
      else if 'A' as int <= c <= 'F' as int then c - 'A' as int + 10
      else -1
  {
  }

  /** Four hex digits at i, or -1. The digits are read in order, so nothing behind a NUL is read. */
  function DecodeHex4(d: bytes, i: nat): (r: int)
    requires IsText(d) && i < |d|
    ensures -1 <= r <= 0xFFFF
    ensures r >= 0 ==> i + 4 < |d| && d[i] != 0 && d[i + 1] != 0 && d[i + 2] != 0 && d[i + 3] != 0
  {
    HexDigits(d[i]);
    var a := HexDigit2Int(d[i]);
    if a < 0 then -1 else
      HexDigits(d[i + 1]);
      var b := HexDigit2Int(d[i + 1]);
      if b < 0 then -1 else
        HexDigits(d[i + 2]);
        var c := HexDigit2Int(d[i + 2]);
        if c < 0 then -1 else
          HexDigits(d[i + 3]);
          var e := HexDigit2Int(d[i + 3]);
          if e < 0 then -1 else 0x1000 * a + 0x100 * b + 0x10 * c + e
  }

  // ----- UTF-8 -----

  /** The UTF-8 of a code point; (x >> 6) & 0x3F | 0x80 is written as arithmetic. */
  function CodepointToUtf8(c: nat): bytes {
    if c <= 0x7F then [c]
    else if c <= 0x7FF then [0xC0 + c / 0x40, 0x80 + c % 0x40]
    else if c <= 0xFFFF then [0xE0 + c / 0x1000, 0x80 + (c / 0x40) % 0x40, 0x80 + c % 0x40]
    else if c <= 0x1FFFFF then
      [0xF0 + c / 0x40000, 0x80 + (c / 0x1000) % 0x40, 0x80 + (c / 0x40) % 0x40, 0x80 + c % 0x40]
    else []
  }

  predicate IsScalar(c: int) {
    0 <= c <= 0xD7FF || 0xE000 <= c <= 0x10FFFF
  }

  predicate Tail(b: int) {
    0x80 <= b <= 0xBF
  }

  /** One character of UTF-8, by the grammar of RFC 3629 section 4. */
  predicate IsUtf8Char(s: bytes) {
    || (|s| == 1 && 0 <= s[0] <= 0x7F)
    || (|s| == 2 && 0xC2 <= s[0] <= 0xDF && Tail(s[1]))
    || (|s| == 3 && Tail(s[1]) && Tail(s[2])
        && (s[0] == 0xE0 ==> 0xA0 <= s[1]) && (s[0] == 0xED ==> s[1] <= 0x9F) && 0xE0 <= s[0] <= 0xEF)
    || (|s| == 4 && Tail(s[1]) && Tail(s[2]) && Tail(s[3])
        && (s[0] == 0xF0 ==> 0x90 <= s[1]) && (s[0] == 0xF4 ==> s[1] <= 0x8F) && 0xF0 <= s[0] <= 0xF4)
  }

  /** The code point a UTF-8 character stands for, by RFC 3629 section 3. */
  function Utf8Value(s: bytes): int
    requires IsUtf8Char(s)
  {
    if |s| == 1 then s[0]
    else if |s| == 2 then (s[0] - 0xC0) * 0x40 + (s[1] - 0x80)
    else if |s| == 3 then (s[0] - 0xE0) * 0x1000 + (s[1] - 0x80) * 0x40 + (s[2] - 0x80)
    else (s[0] - 0xF0) * 0x40000 + (s[1] - 0x80) * 0x1000 + (s[2] - 0x80) * 0x40 + (s[3] - 0x80)
  }

  lemma TwoDigits(c: nat)
    ensures c == 0x40 * (c / 0x40) + c % 0x40 && 0 <= c % 0x40 < 0x40
  {
  }

  lemma ThreeDigits(c: nat)
    ensures c == 0x1000 * (c / 0x1000) + 0x40 * ((c / 0x40) % 0x40) + c % 0x40
    ensures 0 <= (c / 0x40) % 0x40 < 0x40 && 0 <= c % 0x40 < 0x40
  {
    assert (c / 0x40) / 0x40 == c / 0x1000;
  }

  lemma FourDigits(c: nat)
    ensures c == 0x40000 * (c / 0x40000) + 0x1000 * ((c / 0x1000) % 0x40) + 0x40 * ((c / 0x40) % 0x40) + c % 0x40
    ensures 0 <= (c / 0x1000) % 0x40 < 0x40 && 0 <= (c / 0x40) % 0x40 < 0x40 && 0 <= c % 0x40 < 0x40
  {
    ThreeDigits(c);
    assert (c / 0x1000) / 0x40 == c / 0x40000;
  }

  /** Every scalar value becomes the one well-formed UTF-8 character that stands for it. */
  lemma {:induction false} Utf8OfScalar(c: nat)
    requires IsScalar(c)
    ensures IsUtf8Char(CodepointToUtf8(c)) && Utf8Value(CodepointToUtf8(c)) == c
  {
    if c <= 0x7F {
    } else if c <= 0x7FF {
      TwoDigits(c);
    } else if c <= 0xFFFF {
      ThreeDigits(c);
    } else {
      FourDigits(c);
    }
  }

  /** Well-formed characters stand for scalar values only, and no two stand for the same one. */
  lemma Utf8IsUnique(s: bytes, t: bytes)
    requires IsUtf8Char(s)
    ensures IsScalar(Utf8Value(s))
    ensures IsUtf8Char(t) && Utf8Value(t) == Utf8Value(s) ==> t == s
  {
  }

  // ----- \u escapes -----

  predicate IsSurrogate(c: int) { 0xD800 <= c <= 0xDFFF }
  predicate IsHigh(c: int) { 0xD800 <= c <= 0xDBFF }
  predicate IsLow(c: int) { 0xDC00 <= c <= 0xDFFF }

  /** The scalar value of a surrogate pair. */
  function Combine(high: int, low: int): (c: int)
    requires IsHigh(high) && IsLow(low)
    ensures 0x10000 <= c <= 0x10FFFF
  {
    (high - 0xD800) * 0x400 + (low - 0xDC00) + 0x10000
  }

  datatype Escape = Escape(utf8: bytes, len: nat)

  /** The \u escape at i, where the \u is known to stand: the bytes to append and the length to skip. */
  function UnicodeEscape(d: bytes, i: nat): (r: Option<Escape>)
    requires IsText(d) && i + 2 < |d|
    ensures r.Some? ==> |r.value.utf8| < r.value.len && i + r.value.len < |d|
  {
    var code := DecodeHex4(d, i + 2);
    if code < 0 then None
    else if IsSurrogate(code) then
      if !IsHigh(code) then None
      else if d[i + 6] != BACKSLASH || d[i + 7] != 'u' as int then None
      else
        var low := DecodeHex4(d, i + 8);
        if low < 0 || !IsLow(low) then None
        else Some(Escape(CodepointToUtf8(Combine(code, low)), 12))
    else Some(Escape(CodepointToUtf8(code), 6))
  }

  // ----- Strings -----

  datatype Lexed = Lexed(s: bytes, next: nat) | Bad(message: string, at: nat)
  {
    function Prepend(front: bytes): Lexed {
      if Lexed? then Lexed(front + s, next) else this
    }
  }

  /** The rest of a string from i on, up to its closing quote. */
  function LexString(d: bytes, i: nat): (r: Lexed)
    requires IsText(d) && i < |d|
    ensures r.Lexed? ==> i < r.next < |d| && |r.s| < r.next - i
    ensures r.Bad? ==> i <= r.at < |d|
    decreases |d| - i
  {
    var c := d[i];
    if c == QUOTE then Lexed([], i + 1)
    else if c == 0 then Bad("unexpected end of string", i)
    else if c == BACKSLASH then
      var e := Escape2Char(d[i + 1]);
      if e == 'u' as int then
        match UnicodeEscape(d, i)
        case Some(u) => LexString(d, i + u.len).Prepend(u.utf8)
        case None => Bad("invalid unicode escape code", i)
      else if e == 0 then Bad("invalid escape code", i)
      else LexString(d, i + 2).Prepend([e])
    else LexString(d, i + 1).Prepend([c])
  }
}
