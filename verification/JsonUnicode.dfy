/**
 The \u escapes of JSON against UTF-16 as RFC 2781 defines it: what is
 accepted, what it becomes, and that every scalar value can be written so.
 */
module JsonUnicode {
  import opened Bytes
  import opened Lua
  import opened JsonString
  import opened JsonDecode
  import opened JsonText
  import opened JsonReads
  import opened Wrappers

  // ----- UTF-16, RFC 2781 -----

  /** Encoding a scalar value, section 2.1. */
  function Utf16(c: int): (units: seq<int>)
    requires IsScalar(c)
    ensures forall k :: 0 <= k < |units| ==> 0 <= units[k] <= 0xFFFF
  {
    if c < 0x10000 then [c]
    else
      var u := c - 0x10000;
      assert u / 0x400 < 0x400;
      [0xD800 + u / 0x400, 0xDC00 + u % 0x400]
  }

  /** Decoding the character that a run of code units starts with, section 2.2: its scalar value and its length. */
  function FromUtf16(units: seq<int>): Option<(int, nat)> {
    if units == [] then None
    else
      var w1 := units[0];
      if w1 < 0xD800 || w1 > 0xDFFF then Some((w1, 1))
      else if !(0xD800 <= w1 <= 0xDBFF) then None
      else if |units| < 2 || !(0xDC00 <= units[1] <= 0xDFFF) then None
      else Some(((w1 % 0x400) * 0x400 + units[1] % 0x400 + 0x10000, 2))
  }

  lemma Utf16RoundTrip(c: int)
    requires IsScalar(c)
    ensures FromUtf16(Utf16(c)) == Some((c, |Utf16(c)|))
  {
    if c >= 0x10000 {
      var u := c - 0x10000;
      LowTenBits(0xD800, u / 0x400);
      LowTenBits(0xDC00, u % 0x400);
    }
  }

  lemma LowTenBits(base: nat, x: nat)
    requires base % 0x400 == 0 && x < 0x400
    ensures (base + x) % 0x400 == x
  {
  }

  // ----- Reading escapes -----

  /** The code units that \u escapes at i stand for: none, one or two of them. */
  function UnitsAt(d: bytes, i: nat): seq<int>
    requires IsText(d) && i + 2 < |d|
  {
    var first := DecodeHex4(d, i + 2);
    if first < 0 then []
    else if d[i + 6] != BACKSLASH || d[i + 7] != 'u' as int then [first]
    else
      var second := DecodeHex4(d, i + 8);
      if second < 0 then [first] else [first, second]
  }

  /**
   An escape is accepted exactly if its code units begin with a character of
   UTF-16, and then it becomes the UTF-8 of that scalar value. So a lone low
   surrogate, a high one without a low one behind it, and an inverted pair
   are refused.
   */
  lemma {:induction false} EscapeIsUtf16(d: bytes, i: nat)
    requires IsText(d) && i + 2 < |d|
    ensures match FromUtf16(UnitsAt(d, i))
      case None => UnicodeEscape(d, i) == None
      case Some(c) =>
        && IsScalar(c.0)
        && UnicodeEscape(d, i).Some?
        && var u := UnicodeEscape(d, i).value;
        && IsUtf8Char(u.utf8) && Utf8Value(u.utf8) == c.0 && u.len == 6 * c.1
  {
    hide CodepointToUtf8, DecodeHex4, IsUtf8Char, Utf8Value;
    var units := UnitsAt(d, i);
    if units != [] {
      if !IsSurrogate(units[0]) {
        Utf8OfScalar(units[0]);
      } else if IsHigh(units[0]) && |units| == 2 && IsLow(units[1]) {
        LowTenBits(0xD800, units[0] - 0xD800);
        LowTenBits(0xDC00, units[1] - 0xDC00);
        Utf8OfScalar(Combine(units[0], units[1]));
      }
    }
  }

  // ----- Writing escapes -----

  /** A hex digit in lower or upper case. */
  function HexDigit(v: int, upper: bool): (c: int)
    requires 0 <= v < 16
    ensures HexDigit2Int(c) == v
  {
    HexDigits('0' as int + v);
    HexDigits('a' as int + (v - 10));
    HexDigits('A' as int + (v - 10));
    if v < 10 then '0' as int + v else (if upper then 'A' as int else 'a' as int) + (v - 10)
  }

  function Hex4(unit: int, upper: bool): (h: bytes)
    requires 0 <= unit <= 0xFFFF
    ensures IsHex4(h) && Hex4Value(h) == unit
  {
    SixteenBits(unit);
    [HexDigit(unit / 0x1000, upper), HexDigit((unit / 0x100) % 0x10, upper),
     HexDigit((unit / 0x10) % 0x10, upper), HexDigit(unit % 0x10, upper)]
  }

  lemma SixteenBits(unit: int)
    requires 0 <= unit <= 0xFFFF
    ensures 0 <= unit / 0x1000 < 0x10 && 0 <= (unit / 0x100) % 0x10 < 0x10 && 0 <= (unit / 0x10) % 0x10 < 0x10
    ensures unit ==
      0x1000 * (unit / 0x1000) + 0x100 * ((unit / 0x100) % 0x10) + 0x10 * ((unit / 0x10) % 0x10) + unit % 0x10
  {
    assert (unit / 0x10) / 0x10 == unit / 0x100 && (unit / 0x100) / 0x10 == unit / 0x1000;
  }

  /** A character in its escaped form, RFC 4627 section 2.5. */
  function EscapeOf(c: int, upper: bool): Spelling
    requires IsScalar(c)
  {
    var units := Utf16(c);
    if |units| == 1 then Unit(Hex4(units[0], upper)) else Pair(Hex4(units[0], upper), Hex4(units[1], upper))
  }

  lemma UnitsOfScalar(c: int)
    requires IsScalar(c)
    ensures c < 0x10000 ==> Utf16(c) == [c] && !IsSurrogate(c)
    ensures c >= 0x10000 ==>
      var units := Utf16(c);
      |units| == 2 && IsHigh(units[0]) && IsLow(units[1]) && Combine(units[0], units[1]) == c
  {
    if c >= 0x10000 {
      var u := c - 0x10000;
      assert u / 0x400 < 0x400 && u == (u / 0x400) * 0x400 + u % 0x400;
    }
  }

  /** The escaped form of every scalar value is legal, and means the UTF-8 of that value. */
  lemma {:induction false} EscapeOfScalar(c: int, upper: bool)
    requires IsScalar(c)
    ensures LegalSpelling(EscapeOf(c, upper)) && SpellingMeaning(EscapeOf(c, upper)) == CodepointToUtf8(c)
    ensures IsUtf8Char(SpellingMeaning(EscapeOf(c, upper))) && Utf8Value(SpellingMeaning(EscapeOf(c, upper))) == c
  {
    hide CodepointToUtf8, IsUtf8Char, Utf8Value, HexDigit2Int, Utf16, IsHigh, IsLow, Combine, IsHex4, Hex4Value, Hex4;
    Utf8OfScalar(c);
    UnitsOfScalar(c);
  }

  function EscapesOf(cs: seq<int>, upper: bool): seq<Spelling>
    requires forall k :: 0 <= k < |cs| ==> IsScalar(cs[k])
  {
    if cs == [] then [] else [EscapeOf(cs[0], upper)] + EscapesOf(cs[1..], upper)
  }

  function Utf8(cs: seq<int>): bytes
    requires forall k :: 0 <= k < |cs| ==> IsScalar(cs[k])
  {
    if cs == [] then [] else (assert IsScalar(cs[0]); CodepointToUtf8(cs[0])) + Utf8(cs[1..])
  }

  lemma {:induction false} EscapesMean(cs: seq<int>, upper: bool)
    requires forall k :: 0 <= k < |cs| ==> IsScalar(cs[k])
    ensures LegalString(EscapesOf(cs, upper)) && StringMeaning(EscapesOf(cs, upper)) == Utf8(cs)
  {
    hide CodepointToUtf8, SpellingMeaning, LegalSpelling, EscapeOf;
    if cs != [] {
      EscapeOfScalar(cs[0], upper);
      EscapesMean(cs[1..], upper);
      var rest := EscapesOf(cs[1..], upper);
      CharsUnfold([EscapeOf(cs[0], upper)] + rest);
      assert ([EscapeOf(cs[0], upper)] + rest)[1..] == rest;
    }
  }

  /** A text whose characters are all escaped, in either case of the digits, decodes to its UTF-8. */
  lemma {:induction false} DecodesEscapedText(cfg: Config, cs: seq<int>, upper: bool, slots: nat)
    requires forall k :: 0 <= k < |cs| ==> IsScalar(cs[k])
    ensures Decode(cfg, [QUOTE] + CharsText(EscapesOf(cs, upper)), slots) == Value(TStr(Utf8(cs)))
  {
    hide Decode, LegalSpelling, ReadableSpelling, EscapesOf, CharsText;
    EscapesMean(cs, upper);
    LegalIsReadable(EscapesOf(cs, upper));
    var doc := DString(EscapesOf(cs, upper));
    assert [] + Text(doc) + [] == Text(doc) && Text(doc)[..|Text(doc)|] == Text(doc);
    WholeExactly(cfg, Text(doc), [], doc, []);
    ReadsRendering(cfg, Text(doc), [], doc, [], slots);
  }
}
