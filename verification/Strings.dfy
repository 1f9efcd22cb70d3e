/** The URL codec and the splitting of strings in the Lua utilities. */
module Strings {
  import opened Bytes

  const CR := 0x0D
  const LF := 0x0A
  const SPACE := 0x20
  const PLUS := 0x2B
  const PERCENT := 0x25

  // ----- urlencode -----

  /** gsub(s, "\n", "\r\n") */
  function ExpandNewlines(s: bytes): bytes {
    if s == [] then [] else (if s[0] == LF then [CR, LF] else [s[0]]) + ExpandNewlines(s[1..])
  }

  /** [%w%.%- ], in the C locale. */
  predicate Unescaped(c: int) {
    || '0' as int <= c <= '9' as int || 'A' as int <= c <= 'Z' as int || 'a' as int <= c <= 'z' as int
    || c == '.' as int || c == '-' as int || c == SPACE
  }

  function UpperHex(v: int): int {
    if v < 10 then '0' as int + v else 'A' as int + (v - 10)
  }

  /** "%" .. string.format("%02X", c) */
  function UrlEncodeChar(c: int): bytes {
    [PERCENT, UpperHex(c / 0x10), UpperHex(c % 0x10)]
  }

  function EscapeChars(s: bytes): bytes {
    if s == [] then [] else (if Unescaped(s[0]) then [s[0]] else UrlEncodeChar(s[0])) + EscapeChars(s[1..])
  }

  function Replace(s: bytes, from: int, to: int): (r: bytes)
    ensures |r| == |s| && forall k :: 0 <= k < |s| ==> r[k] == if s[k] == from then to else s[k]
  {
    seq(|s|, k requires 0 <= k < |s| => if s[k] == from then to else s[k])
  }

  function UrlEncode(s: bytes): bytes {
    Replace(EscapeChars(ExpandNewlines(s)), SPACE, PLUS)
  }

  // ----- urldecode -----

  /** %x */
  predicate IsHexDigit(c: int) {
    '0' as int <= c <= '9' as int || 'A' as int <= c <= 'F' as int || 'a' as int <= c <= 'f' as int
  }

  function HexValue(c: int): int {
    if c <= '9' as int then c - '0' as int else if c <= 'F' as int then c - 'A' as int + 10 else c - 'a' as int + 10
  }

  /** gsub(s, "%%(%x%x)", ...): from left to right, and not in what was put in. */
  function UnescapeChars(s: bytes): bytes {
    if s == [] then []
    else if s[0] == PERCENT && |s| >= 3 && IsHexDigit(s[1]) && IsHexDigit(s[2])
    then [0x10 * HexValue(s[1]) + HexValue(s[2])] + UnescapeChars(s[3..])
    else [s[0]] + UnescapeChars(s[1..])
  }

  /** gsub(s, "\r\n", "\n") */
  function CollapseNewlines(s: bytes): bytes {
    if s == [] then []
    else if s[0] == CR && |s| >= 2 && s[1] == LF then [LF] + CollapseNewlines(s[2..])
    else [s[0]] + CollapseNewlines(s[1..])
  }

  function UrlDecode(s: bytes): bytes {
    CollapseNewlines(UnescapeChars(Replace(s, PLUS, SPACE)))
  }

  // ----- The round trip -----

  /** A line feed that was there keeps a carriage return of its own: only the one put in front is taken away again. */
  lemma {:induction false} CollapseExpand(s: bytes)
    ensures CollapseNewlines(ExpandNewlines(s)) == s
  {
    if s != [] {
      var rest := ExpandNewlines(s[1..]);
      CollapseExpand(s[1..]);
      if s[0] == LF {
        assert ([CR, LF] + rest)[2..] == rest;
      } else {
        assert ([s[0]] + rest)[1..] == rest;
        FirstOfExpanded(s[1..]);
      }
    }
  }

  lemma FirstOfExpanded(s: bytes)
    ensures var t := ExpandNewlines(s); t != [] ==> t[0] != LF
  {
  }

  lemma HexPair(c: int)
    requires 0 <= c < 256
    ensures IsHexDigit(UpperHex(c / 0x10)) && IsHexDigit(UpperHex(c % 0x10))
    ensures 0x10 * HexValue(UpperHex(c / 0x10)) + HexValue(UpperHex(c % 0x10)) == c
  {
    assert HexValue(UpperHex(c / 0x10)) == c / 0x10 && HexValue(UpperHex(c % 0x10)) == c % 0x10;
  }

  lemma {:induction false} UnescapeEscape(s: bytes)
    requires IsBytes(s)
    ensures UnescapeChars(EscapeChars(s)) == s
  {
    if s != [] {
      var rest := EscapeChars(s[1..]);
      UnescapeEscape(s[1..]);
      if Unescaped(s[0]) {
        assert ([s[0]] + rest)[1..] == rest;
      } else {
        HexPair(s[0]);
        assert (UrlEncodeChar(s[0]) + rest)[3..] == rest;
      }
    }
  }

  lemma {:induction false} ExpandedBytes(s: bytes)
    requires IsBytes(s)
    ensures IsBytes(ExpandNewlines(s))
  {
    if s != [] { ExpandedBytes(s[1..]); }
  }

  /** A character that may stand in a query: a letter, a digit, or one of . - % and the space. */
  predicate Escaped(c: int) {
    Unescaped(c) || c == PERCENT
  }

  lemma {:induction false} EscapedOnly(s: bytes)
    requires IsBytes(s)
    ensures forall k :: 0 <= k < |EscapeChars(s)| ==> Escaped(EscapeChars(s)[k])
  {
    if s != [] {
      EscapedOnly(s[1..]);
      HexPair(s[0]);
    }
  }

  /** Every byte string survives the URL: also one that has "\r\n", "+" or "%" in it. */
  lemma UrlRoundTrip(s: bytes)
    requires IsBytes(s)
    ensures UrlDecode(UrlEncode(s)) == s
  {
    hide ExpandNewlines, EscapeChars, CollapseNewlines, UnescapeChars;
    var t := EscapeChars(ExpandNewlines(s));
    ExpandedBytes(s);
    EscapedOnly(ExpandNewlines(s));
    assert forall k :: 0 <= k < |t| ==> Escaped(t[k]);
    assert Replace(Replace(t, SPACE, PLUS), PLUS, SPACE) == t;
    UnescapeEscape(ExpandNewlines(s));
    CollapseExpand(s);
  }

  // ----- What becomes of each byte -----

  predicate LetterOrDigit(c: int) {
    '0' as int <= c <= '9' as int || 'A' as int <= c <= 'Z' as int || 'a' as int <= c <= 'z' as int
  }

  /** And the URL has none of the characters that mean something in it, except the two that the code uses. */
  lemma UrlIsSafe(s: bytes)
    requires IsBytes(s)
    ensures forall k :: 0 <= k < |UrlEncode(s)| ==>
      var c := UrlEncode(s)[k];
      LetterOrDigit(c) || c == '.' as int || c == '-' as int || c == '%' as int || c == '+' as int
  {
    ExpandedBytes(s);
    EscapedOnly(ExpandNewlines(s));
    assert forall k :: 0 <= k < |EscapeChars(ExpandNewlines(s))| ==> Escaped(EscapeChars(ExpandNewlines(s))[k]);
  }

  lemma ExpandCons(c: int, s: bytes)
    ensures ExpandNewlines([c] + s) == (if c == LF then [CR, LF] else [c]) + ExpandNewlines(s)
    ensures ExpandNewlines([]) == []
  {
    assert ([c] + s)[1..] == s;
  }

  lemma EscapeCons(c: int, s: bytes)
    ensures EscapeChars([c] + s) == (if Unescaped(c) then [c] else UrlEncodeChar(c)) + EscapeChars(s)
    ensures EscapeChars([]) == []
  {
    assert ([c] + s)[1..] == s;
  }

  lemma Regroup(a: bytes, b: bytes, c: bytes)
    ensures a + (b + c) == (a + b) + c && [] + c == c
  {
  }

  lemma {:induction false} ExpandSum(s: bytes, t: bytes)
    ensures ExpandNewlines(s + t) == ExpandNewlines(s) + ExpandNewlines(t)
  {
    hide ExpandNewlines;
    if s == [] {
      ExpandCons(0, []);
      Regroup([], [], t);
      Regroup([], [], ExpandNewlines(t));
    } else {
      var c, q := s[0], s[1..];
      ExpandSum(q, t);
      assert s == [c] + q && s + t == [c] + (q + t);
      ExpandCons(c, q);
      ExpandCons(c, q + t);
      Regroup(if c == LF then [CR, LF] else [c], ExpandNewlines(q), ExpandNewlines(t));
    }
  }

  lemma {:induction false} EscapeSum(s: bytes, t: bytes)
    ensures EscapeChars(s + t) == EscapeChars(s) + EscapeChars(t)
  {
    hide EscapeChars, Unescaped, UrlEncodeChar;
    if s == [] {
      EscapeCons(0, []);
      Regroup([], [], t);
      Regroup([], [], EscapeChars(t));
    } else {
      var c, q := s[0], s[1..];
      EscapeSum(q, t);
      assert s == [c] + q && s + t == [c] + (q + t);
      EscapeCons(c, q);
      EscapeCons(c, q + t);
      Regroup(if Unescaped(c) then [c] else UrlEncodeChar(c), EscapeChars(q), EscapeChars(t));
    }
  }

  /** Bytes are encoded one by one. */
  lemma UrlEncodeSum(s: bytes, t: bytes)
    ensures UrlEncode(s + t) == UrlEncode(s) + UrlEncode(t)
  {
    ExpandSum(s, t);
    EscapeSum(ExpandNewlines(s), ExpandNewlines(t));
  }

  /** v is the value of the upper-case hexadecimal digit c. */
  predicate UpperHexOf(c: int, v: int) {
    || ('0' as int <= c <= '9' as int && v == c - '0' as int)
    || ('A' as int <= c <= 'F' as int && v == c - 'A' as int + 10)
  }

  lemma EncodedByte(c: int)
    ensures UrlEncode([c]) == Replace(EscapeChars(if c == 0x0A then [0x0D, 0x0A] else [c]), SPACE, PLUS)
    ensures EscapeChars([c]) == if Unescaped(c) then [c] else UrlEncodeChar(c)
    ensures EscapeChars([0x0D, 0x0A]) == UrlEncodeChar(0x0D) + UrlEncodeChar(0x0A)
  {
    assert [c][1..] == [];
    assert ExpandNewlines([c]) == (if c == 0x0A then [0x0D, 0x0A] else [c]) + ExpandNewlines([]);
    assert [0x0D, 0x0A][1..] == [0x0A] && [0x0A][1..] == [];
  }

  lemma HexOf(v: int)
    requires 0 <= v < 16
    ensures UpperHexOf(UpperHex(v), v) && UpperHex(v) != SPACE
  {
  }

  /**
   A letter, a digit, a dot or a hyphen stands for itself, a plus for a space,
   and everything else is a percent sign and two digits, a line feed with a
   carriage return in front of it.
   */
  lemma {:induction false} UrlEncodesByte(c: int) returns (high: int, low: int)
    requires 0 <= c < 256
    ensures UrlEncode([]) == []
    ensures var t := UrlEncode([c]);
      if LetterOrDigit(c) || c == '.' as int || c == '-' as int then t == [c]
      else if c == ' ' as int then t == ['+' as int]
      else if c == 0x0A then t == ['%' as int, '0' as int, 'D' as int, '%' as int, '0' as int, 'A' as int]
      else
        && |t| == 3 && t[0] == '%' as int && UpperHexOf(t[1], high) && UpperHexOf(t[2], low)
        && c == 0x10 * high + low
  {
    EncodedByte(c);
    high, low := c / 0x10, c % 0x10;
    HexOf(high);
    HexOf(low);
    hide UrlEncode, EscapeChars;
    NothingEncoded();
  }

  lemma NothingEncoded()
    ensures UrlEncode([]) == []
  {
  }

  /** Letters, digits, dots and hyphens stand for themselves, and a plus for a space. */
  lemma {:induction false} UrlKeepsPlain(s: bytes)
    requires forall k :: 0 <= k < |s| ==>
      LetterOrDigit(s[k]) || s[k] == '.' as int || s[k] == '-' as int || s[k] == ' ' as int
    ensures |UrlEncode(s)| == |s|
    ensures forall k :: 0 <= k < |s| ==> UrlEncode(s)[k] == if s[k] == ' ' as int then '+' as int else s[k]
  {
    PlainChars(s);
  }

  lemma {:induction false} PlainChars(s: bytes)
    requires forall k :: 0 <= k < |s| ==> Unescaped(s[k])
    ensures ExpandNewlines(s) == s && EscapeChars(s) == s
  {
    if s != [] {
      assert Unescaped(s[0]);
      PlainChars(s[1..]);
    }
  }

  // ----- split -----

  ghost predicate Occurs(s: bytes, i: int, d: bytes) {
    0 <= i && i + |d| <= |s| && s[i..i + |d|] == d
  }

  /** string.find(s, d, pos, true): the first occurrence from pos on, or -1. */
  method Find(s: bytes, d: bytes, pos: nat) returns (st: int)
    requires d != []
    ensures st == -1 || (pos <= st && Occurs(s, st, d))
    ensures forall i :: pos <= i && (st == -1 || i < st) ==> !Occurs(s, i, d)
  {
    st := pos;
    while st + |d| <= |s|
      invariant pos <= st && forall i :: pos <= i < st ==> !Occurs(s, i, d)
    {
      if s[st..st + |d|] == d { return; }
      st := st + 1;
    }
    st := -1;
  }

  function Join(ps: seq<bytes>, d: bytes): bytes
    requires ps != []
  {
    if |ps| == 1 then ps[0] else ps[0] + d + Join(ps[1..], d)
  }

  /** The delimiter occurs in p + d only at the end, so that a search finds it there. */
  ghost predicate EndsAtFirst(p: bytes, d: bytes) {
    forall i :: 0 <= i < |p| ==> !Occurs(p + d, i, d)
  }

  ghost predicate NowhereIn(p: bytes, d: bytes) {
    forall i :: !Occurs(p, i, d)
  }

  /** The pieces that a search from left to right cuts at each delimiter. */
  ghost predicate Pieces(ps: seq<bytes>, d: bytes) {
    && ps != []
    && (forall k :: 0 <= k < |ps| - 1 ==> EndsAtFirst(ps[k], d))
    && NowhereIn(ps[|ps| - 1], d)
  }

  /** The pieces of the rest of s from pos on. */
  ghost predicate Splits(s: bytes, pos: nat, ps: seq<bytes>, d: bytes) {
    pos <= |s| && Pieces(ps, d) && Join(ps, d) == s[pos..]
  }

  lemma OccursInside(s: bytes, lo: nat, hi: nat, i: int, d: bytes)
    requires lo <= hi <= |s|
    ensures Occurs(s[lo..hi], i, d) ==> Occurs(s, lo + i, d)
  {
    if 0 <= i && i + |d| <= hi - lo {
      var t, u := s[lo..hi][i..i + |d|], s[lo + i..lo + i + |d|];
      assert forall k :: 0 <= k < |d| ==> t[k] == u[k];
    }
  }

  /** What is cut off at the first delimiter is a piece in front of those of the rest. */
  lemma PrependPiece(s: bytes, pos: nat, st: nat, ps: seq<bytes>, d: bytes)
    requires d != [] && pos <= st && Occurs(s, st, d) && Splits(s, st + |d|, ps, d)
    requires forall i :: pos <= i < st ==> !Occurs(s, i, d)
    ensures Splits(s, pos, [s[pos..st]] + ps, d)
  {
    var p := s[pos..st];
    var qs := [p] + ps;
    assert qs[1..] == ps;
    assert s[pos..] == p + d + s[st + |d|..];
    assert p + d == s[pos..st + |d|];
    forall i | 0 <= i < |p|
      ensures !Occurs(p + d, i, d)
    {
      OccursInside(s, pos, st + |d|, i, d);
    }
    forall k | 0 <= k < |qs| - 1
      ensures EndsAtFirst(qs[k], d)
    {
      if k > 0 { assert qs[k] == ps[k - 1]; }
    }
    assert qs[|qs| - 1] == ps[|ps| - 1];
  }

  lemma LastPiece(s: bytes, pos: nat, d: bytes)
    requires d != [] && pos <= |s| && forall i :: pos <= i ==> !Occurs(s, i, d)
    ensures Splits(s, pos, [s[pos..]], d)
  {
    forall i
      ensures !Occurs(s[pos..], i, d)
    {
      OccursInside(s, pos, |s|, i, d);
      assert s[pos..|s|] == s[pos..];
    }
  }

  datatype SplitResult = NoDelimiter | Pieced(pieces: seq<bytes>)

  /** string.split: joined with the delimiter, the pieces are the input again. */
  method Split(input: bytes, delimiter: bytes) returns (r: SplitResult)
    ensures r == NoDelimiter <==> delimiter == []
    ensures r.Pieced? ==> Pieces(r.pieces, delimiter) && Join(r.pieces, delimiter) == input
  {
    if delimiter == [] { return NoDelimiter; }
    var pos, arr: seq<bytes> := 0, [];
    assert forall ps: seq<bytes> :: [] + ps == ps;
    var st := Find(input, delimiter, pos);
    while st != -1
      invariant pos <= |input| && (st == -1 || (pos <= st && Occurs(input, st, delimiter)))
      invariant forall i :: pos <= i && (st == -1 || i < st) ==> !Occurs(input, i, delimiter)
      invariant forall ps :: Splits(input, pos, ps, delimiter) ==> Splits(input, 0, arr + ps, delimiter)
      decreases |input| - pos
    {
      var piece := input[pos..st];
      forall ps | Splits(input, st + |delimiter|, ps, delimiter)
        ensures Splits(input, 0, arr + [piece] + ps, delimiter)
      {
        PrependPiece(input, pos, st, ps, delimiter);
        assert arr + [piece] + ps == arr + ([piece] + ps);
      }
      arr := arr + [piece];
      pos := st + |delimiter|;
      st := Find(input, delimiter, pos);
    }
    LastPiece(input, pos, delimiter);
    arr := arr + [input[pos..]];
    assert input[0..] == input;
    return Pieced(arr);
  }

  lemma {:induction false} JoinedStartsWith(ps: seq<bytes>, d: bytes)
    requires d != [] && Pieces(ps, d)
    ensures |ps| == 1 ==> forall i :: !Occurs(Join(ps, d), i, d)
    ensures |ps| > 1 ==>
      && Occurs(Join(ps, d), |ps[0]|, d) && (forall i :: 0 <= i < |ps[0]| ==> !Occurs(Join(ps, d), i, d))
      && Join(ps, d)[..|ps[0]|] == ps[0] && Join(ps, d)[|ps[0]| + |d|..] == Join(ps[1..], d) && Pieces(ps[1..], d)
  {
    if |ps| > 1 {
      var s, p := Join(ps, d), ps[0];
      assert s == (p + d) + Join(ps[1..], d);
      assert s[|p|..|p| + |d|] == d && s[..|p| + |d|] == p + d;
      forall i | 0 <= i < |p|
        ensures !Occurs(s, i, d)
      {
        assert (p + d)[i..i + |d|] == s[i..i + |d|];
        assert EndsAtFirst(ps[0], d);
        assert !Occurs(p + d, i, d);
      }
      forall k | 0 <= k < |ps[1..]| - 1
        ensures EndsAtFirst(ps[1..][k], d)
      {
        assert EndsAtFirst(ps[k + 1], d);
      }
    }
  }

  /**
   There is only one way to cut a string into such pieces: split takes apart
   what was joined of them, and nothing else.
   */
  lemma {:induction false} PiecesAreUnique(ps: seq<bytes>, qs: seq<bytes>, d: bytes)
    requires d != [] && Pieces(ps, d) && Pieces(qs, d) && Join(ps, d) == Join(qs, d)
    ensures ps == qs
    decreases |ps|
  {
    hide Pieces, Join, Occurs;
    JoinedStartsWith(ps, d);
    JoinedStartsWith(qs, d);
    OnePiece(ps, d);
    OnePiece(qs, d);
    if |ps| > 1 {
      assert |ps[0]| == |qs[0]|;
      PiecesAreUnique(ps[1..], qs[1..], d);
      assert ps == [ps[0]] + ps[1..] && qs == [qs[0]] + qs[1..];
    } else {
      assert ps == [ps[0]] && qs == [qs[0]];
    }
  }

  lemma OnePiece(ps: seq<bytes>, d: bytes)
    requires Pieces(ps, d)
    ensures ps != [] && (|ps| == 1 ==> Join(ps, d) == ps[0])
  {
  }

  // ----- What is decoded -----

  /** A character, or a percent sign and two hexadecimal digits. */
  datatype Unit = Char(c: int) | Hex(high: int, low: int)

  /** v is the value of the hexadecimal digit c, in either case. */
  predicate HexOfCase(c: int, v: int) {
    UpperHexOf(c, v) || ('a' as int <= c <= 'f' as int && v == c - 'a' as int + 10)
  }

  function UnitsText(us: seq<Unit>): bytes {
    if us == [] then []
    else (match us[0] case Char(c) => [c] case Hex(h, l) => ['%' as int, h, l]) + UnitsText(us[1..])
  }

  ghost predicate HasValue(c: int) {
    exists v :: HexOfCase(c, v)
  }

  ghost predicate TwoDigits(s: bytes) {
    |s| >= 2 && HasValue(s[0]) && HasValue(s[1])
  }

  /** A percent sign is a character by itself only if no two digits follow it. */
  ghost predicate LegalUnits(us: seq<Unit>) {
    us != [] ==>
      && (us[0].Hex? ==> TwoDigits([us[0].high, us[0].low]))
      && (us[0] == Char('%' as int) ==> !TwoDigits(UnitsText(us[1..])))
      && LegalUnits(us[1..])
  }

  /** t is what the units stand for: a plus is a space. */
  ghost predicate UnitsMean(us: seq<Unit>, t: bytes) {
    && |t| == |us|
    && forall k :: 0 <= k < |us| ==>
         match us[k]
         case Char(c) => t[k] == if c == '+' as int then ' ' as int else c
         case Hex(h, l) => exists v, w :: HexOfCase(h, v) && HexOfCase(l, w) && t[k] == 0x10 * v + w
  }

  /** Every string is made of such units. */
  lemma {:induction false} UnitsExist(s: bytes) returns (us: seq<Unit>)
    ensures LegalUnits(us) && UnitsText(us) == s
    decreases |s|
  {
    hide TwoDigits;
    if s == [] {
      us := [];
    } else if s[0] == '%' as int && TwoDigits(s[1..]) {
      AtLeastTwo(s[1..]);
      var rest := UnitsExist(s[3..]);
      us := [Hex(s[1], s[2])] + rest;
      assert us[1..] == rest && s == [s[0], s[1], s[2]] + s[3..];
    } else {
      var rest := UnitsExist(s[1..]);
      us := [Char(s[0])] + rest;
      assert us[1..] == rest && s == [s[0]] + s[1..];
    }
  }

  lemma AtLeastTwo(s: bytes)
    requires TwoDigits(s)
    ensures |s| >= 2 && TwoDigits([s[0], s[1]])
  {
    hide HasValue;
  }

  lemma HexDigitIs(c: int)
    ensures IsHexDigit(c) <==> HasValue(c)
    ensures forall v :: HexOfCase(c, v) ==> v == HexValue(c)
    ensures IsHexDigit(c) ==> HexOfCase(c, HexValue(c))
  {
    if IsHexDigit(c) { assert HexOfCase(c, HexValue(c)); }
  }

  lemma TwoDigitsAre(s: bytes)
    ensures TwoDigits(s) <==> |s| >= 2 && IsHexDigit(s[0]) && IsHexDigit(s[1])
    ensures TwoDigits(s) <==> TwoDigits(Replace(s, PLUS, SPACE))
    ensures |s| >= 2 && IsHexDigit(s[0]) ==> Replace(s, PLUS, SPACE)[0] == s[0]
    ensures |s| >= 2 && IsHexDigit(s[1]) ==> Replace(s, PLUS, SPACE)[1] == s[1]
  {
    var t := Replace(s, PLUS, SPACE);
    if |s| >= 2 {
      HexDigitIs(s[0]);
      HexDigitIs(s[1]);
      HexDigitIs(t[0]);
      HexDigitIs(t[1]);
    }
  }

  lemma ReplaceSum(s: bytes, t: bytes)
    ensures Replace(s + t, PLUS, SPACE) == Replace(s, PLUS, SPACE) + Replace(t, PLUS, SPACE)
  {
  }

  lemma UnescapeHex(h: int, l: int, rest: bytes)
    requires IsHexDigit(h) && IsHexDigit(l)
    ensures UnescapeChars(['%' as int, h, l] + rest) == [0x10 * HexValue(h) + HexValue(l)] + UnescapeChars(rest)
  {
    var s := ['%' as int, h, l] + rest;
    assert s[3..] == rest;
  }

  lemma UnescapeChar(c: int, rest: bytes)
    requires c == '%' as int ==> !(|rest| >= 2 && IsHexDigit(rest[0]) && IsHexDigit(rest[1]))
    ensures UnescapeChars([c] + rest) == [c] + UnescapeChars(rest)
  {
    var s := [c] + rest;
    assert s[1..] == rest;
    assert |s| >= 3 ==> s[1] == rest[0] && s[2] == rest[1];
  }

  /** The units are undone one by one, from left to right. */
  lemma {:induction false} UnitsUnescape(us: seq<Unit>, t: bytes)
    requires LegalUnits(us) && UnitsMean(us, t)
    ensures UnescapeChars(Replace(UnitsText(us), PLUS, SPACE)) == t
    decreases |us|
  {
    hide UnescapeChars, TwoDigits, HexOfCase, IsHexDigit, HexValue;
    if us == [] {
      NothingUnescaped();
    } else {
      var rest := UnitsText(us[1..]);
      UnitsUnescape(us[1..], t[1..]);
      assert t == [t[0]] + t[1..];
      match us[0]
      case Hex(h, l) =>
        TwoDigitsAre([h, l]);
        HexDigitIs(h);
        HexDigitIs(l);
        ReplaceSum(['%' as int, h, l], rest);
        KeepsDigits(h, l);
        UnescapeHex(h, l, Replace(rest, PLUS, SPACE));
      case Char(c) =>
        ReplaceSum([c], rest);
        TwoDigitsAre(rest);
        TwoDigitsAre(Replace(rest, PLUS, SPACE));
        UnescapeChar(if c == PLUS then SPACE else c, Replace(rest, PLUS, SPACE));
        assert Replace([c], PLUS, SPACE) == [if c == PLUS then SPACE else c];
    }
  }

  lemma NothingUnescaped()
    ensures UnescapeChars(Replace([], PLUS, SPACE)) == []
  {
  }

  lemma KeepsDigits(h: int, l: int)
    requires IsHexDigit(h) && IsHexDigit(l)
    ensures Replace(['%' as int, h, l], PLUS, SPACE) == ['%' as int, h, l]
  {
  }

  /** Where a carriage return and a line feed stand only at the end of p and of what follows. */
  lemma {:induction false} CollapsePiece(p: bytes, rest: bytes)
    requires EndsAtFirst(p, [0x0D, 0x0A])
    ensures CollapseNewlines(p + [0x0D, 0x0A] + rest) == p + [0x0A] + CollapseNewlines(rest)
  {
    var s := p + [0x0D, 0x0A] + rest;
    if p == [] {
      assert s[2..] == rest;
    } else {
      var d, q := [0x0D, 0x0A], p[1..];
      assert !Occurs(p + d, 0, d);
      assert (p + d)[0..2] == [(p + d)[0], (p + d)[1]] && s[0] == (p + d)[0] && s[1] == (p + d)[1];
      forall i | 0 <= i < |q|
        ensures !Occurs(q + d, i, d)
      {
        assert !Occurs(p + d, i + 1, d);
        assert (p + d)[i + 1..i + 1 + |d|] == (q + d)[i..i + |d|];
      }
      CollapsePiece(q, rest);
      assert s[1..] == q + d + rest && p == [p[0]] + q;
    }
  }

  lemma {:induction false} CollapseNothing(p: bytes)
    requires NowhereIn(p, [0x0D, 0x0A])
    ensures CollapseNewlines(p) == p
  {
    if p != [] {
      var d, q := [0x0D, 0x0A], p[1..];
      assert !Occurs(p, 0, d);
      assert |p| >= 2 ==> p[0..2] == [p[0], p[1]];
      forall i
        ensures !Occurs(q, i, d)
      {
        assert !Occurs(p, i + 1, d);
        if 0 <= i && i + |d| <= |q| { assert p[i + 1..i + 1 + |d|] == q[i..i + |d|]; }
      }
      CollapseNothing(q);
    }
  }

  /** Collapsing line ends joins with line feeds what carriage returns and line feeds cut. */
  lemma {:induction false} CollapseJoined(ps: seq<bytes>)
    requires Pieces(ps, [0x0D, 0x0A])
    ensures CollapseNewlines(Join(ps, [0x0D, 0x0A])) == Join(ps, [0x0A])
    decreases |ps|
  {
    hide CollapseNewlines;
    if |ps| == 1 {
      CollapseNothing(ps[0]);
    } else {
      assert EndsAtFirst(ps[0], [0x0D, 0x0A]);
      forall k | 0 <= k < |ps[1..]| - 1
        ensures EndsAtFirst(ps[1..][k], [0x0D, 0x0A])
      {
        assert EndsAtFirst(ps[k + 1], [0x0D, 0x0A]);
      }
      CollapsePiece(ps[0], Join(ps[1..], [0x0D, 0x0A]));
      CollapseJoined(ps[1..]);
    }
  }

  /**
   What any string decodes to: its escapes and pluses undone, and then each
   carriage return with a line feed behind it taken away, both at once.
   */
  lemma UrlDecodes(us: seq<Unit>, t: bytes, ps: seq<bytes>)
    requires LegalUnits(us) && UnitsMean(us, t) && Pieces(ps, [0x0D, 0x0A]) && Join(ps, [0x0D, 0x0A]) == t
    ensures UrlDecode(UnitsText(us)) == Join(ps, [0x0A])
  {
    hide UnescapeChars, CollapseNewlines, Pieces, Join, LegalUnits, UnitsMean;
    UnitsUnescape(us, t);
    CollapseJoined(ps);
  }
}
