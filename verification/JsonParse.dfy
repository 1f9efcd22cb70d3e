/**
 The parser of Lua CJSON as it runs: an index that moves through the text, and
 one temporary buffer that is allocated once and written without checks.
 */
module JsonParse {
  import opened Bytes
  import opened Lua
  import opened JsonString
  import opened JsonDecode
  import opened StrBuf
  import opened Wrappers

  lemma PrependTwice(x: Lexed, a: bytes, b: bytes)
    ensures x.Prepend(b).Prepend(a) == x.Prepend(a + b) && x.Prepend([]) == x
  {
    if x.Lexed? { assert a + (b + x.s) == (a + b) + x.s; }
  }

  /** The tests of the code on single bits are the surrogate ranges, and its masks the arithmetic on them. */
  lemma SurrogateBits(c: nat)
    requires c <= 0xFFFF
    ensures c / 0x800 == 0x1B <==> IsSurrogate(c)
    ensures IsSurrogate(c) ==> ((c / 0x400) % 2 == 0 <==> IsHigh(c))
    ensures c / 0x400 == 0x37 <==> IsLow(c)
    ensures IsHigh(c) ==> c % 0x400 == c - 0xD800
    ensures IsLow(c) ==> c % 0x400 == c - 0xDC00
  {
  }

  /** One turn of the loop over the characters of a string, s having been read so far. */
  lemma LexTurn(d: bytes, i: nat, s: bytes)
    requires IsText(d) && i < |d|
    ensures var all := LexString(d, i).Prepend(s);
      if d[i] == QUOTE then all == Lexed(s, i + 1)
      else if d[i] == 0 then all == Bad("unexpected end of string", i)
      else if d[i] != BACKSLASH then all == LexString(d, i + 1).Prepend(s + [d[i]])
      else
        var e := Escape2Char(d[i + 1]);
        if e == 'u' as int then
          match UnicodeEscape(d, i)
          case Some(u) => all == LexString(d, i + u.len).Prepend(s + u.utf8)
          case None => all == Bad("invalid unicode escape code", i)
        else if e == 0 then all == Bad("invalid escape code", i)
        else i + 2 < |d| && all == LexString(d, i + 2).Prepend(s + [e])
    ensures d[i] == BACKSLASH && Escape2Char(d[i + 1]) != 0 ==> i + 2 < |d|
  {
    hide UnicodeEscape;
    if d[i] == QUOTE {
      assert s + [] == s;
    } else if d[i] == BACKSLASH {
      var e := Escape2Char(d[i + 1]);
      if e == 'u' as int {
        match UnicodeEscape(d, i)
        case Some(u) => PrependTwice(LexString(d, i + u.len), s, u.utf8);
        case None =>
      } else if e != 0 {
        PrependTwice(LexString(d, i + 2), s, [e]);
      }
    } else if d[i] != 0 {
      PrependTwice(LexString(d, i + 1), s, [d[i]]);
    }
  }

  class Parser {
    const cfg: Config
    const data: bytes
    const tmp: StrBuf
    var index: nat
    /** Whether tmp is allocated. */
    var live: bool

    /** The buffer has room for all of the text, so that what was read always fits. */
    ghost predicate Valid()
      reads this, tmp
    {
      && IsText(data) && index < |data|
      && tmp.Valid() && tmp.size >= |data|
    }

    constructor (cfg: Config, text: bytes)
      ensures Valid() && fresh(tmp) && fresh(tmp.buf)
      ensures this.cfg == cfg && data == text + [0] && index == 0 && live
    {
      this.cfg := cfg;
      this.data := text + [0];
      this.index := 0;
      this.live := true;
      this.tmp := new StrBuf(|text|);
    }

    method DecodeHex(i: nat) returns (r: int)
      requires IsText(data) && i < |data|
      ensures r == DecodeHex4(data, i)
    {
      var digit := new int[4](_ => 0);
      for k := 0 to 4
        invariant i + k < |data|
        invariant forall j :: 0 <= j < k ==> 0 <= digit[j] == HexDigit2Int(data[i + j])
      {
        digit[k] := HexDigit2Int(data[i + k]);
        HexDigits(data[i + k]);
        if digit[k] < 0 { return -1; }
      }
      return 0x1000 * digit[0] + 0x100 * digit[1] + 0x10 * digit[2] + digit[3];
    }

    method AppendUnicodeEscape() returns (ok: bool)
      requires Valid() && index + 2 < |data| && tmp.length <= index
      modifies this`index, tmp`length, tmp.buf
      ensures Valid()
      ensures match UnicodeEscape(data, old(index))
        case Some(u) => ok && index == old(index) + u.len && tmp.Contents() == old(tmp.Contents()) + u.utf8
        case None => !ok && index == old(index) && tmp.Contents() == old(tmp.Contents())
    {
      hide CodepointToUtf8, DecodeHex4;
      var escapeLen := 6;
      var codepoint := DecodeHex(index + 2);
      if codepoint < 0 { return false; }
      SurrogateBits(codepoint);
      if codepoint / 0x800 == 0x1B {
        if (codepoint / 0x400) % 2 != 0 { return false; }
        if data[index + escapeLen] != BACKSLASH { return false; }
        if data[index + escapeLen + 1] != 'u' as int { return false; }
        var surrogateLow := DecodeHex(index + 2 + escapeLen);
        if surrogateLow < 0 { return false; }
        SurrogateBits(surrogateLow);
        if surrogateLow / 0x400 != 0x37 { return false; }
        codepoint := (codepoint % 0x400) * 0x400 + surrogateLow % 0x400 + 0x10000;
        escapeLen := 12;
      }
      var utf8 := CodepointToUtf8(codepoint);
      assert UnicodeEscape(data, index) == Some(Escape(utf8, escapeLen));
      tmp.AppendMemUnsafe(utf8);
      index := index + escapeLen;
      ok := true;
    }

    /** One turn of the loop over the characters of a string; the error is empty if there is none. */
    method NextCharacter() returns (error: string)
      requires Valid() && data[index] != QUOTE && tmp.length <= index
      modifies this`index, tmp`length, tmp.buf
      ensures Valid()
      ensures error != "" ==> index == old(index) && LexString(data, index) == Bad(error, index)
      ensures error == "" ==> index > old(index) && tmp.length - old(tmp.length) <= index - old(index)
      ensures error == "" ==>
        LexString(data, old(index)).Prepend(old(tmp.Contents())) == LexString(data, index).Prepend(tmp.Contents())
    {
      hide UnicodeEscape, Escape2Char, LexString;
      var ch := data[index];
      LexTurn(data, index, tmp.Contents());
      if ch == 0 { return "unexpected end of string"; }
      if ch == BACKSLASH {
        ch := Escape2Char(data[index + 1]);
        if ch == 'u' as int {
          var ok := AppendUnicodeEscape();
          return if ok then "" else "invalid unicode escape code";
        }
        if ch == 0 { return "invalid escape code"; }
        index := index + 1;
      }
      tmp.AppendCharUnsafe(ch);
      index := index + 1;
      error := "";
    }

    method NextStringToken() returns (x: Lexeme)
      requires Valid() && index + 1 < |data| && data[index] == QUOTE
      modifies this`index, tmp`length, tmp.buf
      ensures Valid() && x == NextString(data, old(index)) && index == x.next
      ensures x.token.Str? ==> tmp.Contents() == x.token.s && tmp.buf[tmp.length] == 0
    {
      hide LexString;
      var start := index;
      index := index + 1;
      tmp.Reset();
      PrependTwice(LexString(data, index), [], []);
      while data[index] != QUOTE
        invariant Valid() && start < index && tmp.length < index - start
        invariant LexString(data, start + 1) == LexString(data, index).Prepend(tmp.Contents())
        decreases |data| - index
      {
        var error := NextCharacter();
        if error != "" {
          return Lexeme(Error(error), index, index);
        }
      }
      LexTurn(data, index, tmp.Contents());
      index := index + 1;
      tmp.EnsureNull();
      x := Lexeme(Str(tmp.buf[..tmp.length]), start, index);
    }

    method NextNumberToken() returns (x: Lexeme)
      requires Valid()
      modifies this`index
      ensures Valid() && x == NextNumber(cfg, data, old(index)) && index == x.next
    {
      var start := index;
      var (end, number) := cfg.strtod(data, index);
      var token := NumberToken(number);
      if !(start < end < |data| && 0 !in data[start..end]) {
        return Lexeme(Error("invalid number"), index, index);
      }
      index := index + (end - start);
      x := Lexeme(token, start, index);
    }

    method NextToken() returns (x: Lexeme)
      requires Valid()
      modifies this`index, tmp`length, tmp.buf
      ensures Valid() && x == JsonDecode.NextToken(cfg, data, old(index)) && index == x.next
    {
      hide IsInvalidNumber, NextNumber, NextString, Matches;
      while IsWhitespace(data[index])
        invariant Valid() && SkipWhitespace(data, index) == SkipWhitespace(data, old(index))
        decreases |data| - index
      {
        index := index + 1;
      }
      ghost var at := index;
      assert JsonDecode.NextToken(cfg, data, old(index)) == TokenAt(cfg, data, at);
      var ch := data[index];
      if ch == 0 { return Lexeme(End, index, index); }
      var single := Single(ch);
      if single.Some? {
        index := index + 1;
        return Lexeme(single.value, index - 1, index);
      }
      if !StartsUnknown(ch) { return Lexeme(Error("invalid token"), index, index); }
      if ch == QUOTE {
        x := NextStringToken();
      } else if ch == '-' as int || IsDigit(ch) {
        if cfg.refuseBadnum && IsInvalidNumber(data, index) {
          return Lexeme(Error("invalid number"), index, index);
        }
        x := NextNumberToken();
      } else if Matches(data, index, TRUE) {
        EndsBefore(data, index, TRUE);
        index := index + 4;
        x := Lexeme(Boolean(true), index - 4, index);
      } else if Matches(data, index, FALSE) {
        EndsBefore(data, index, FALSE);
        index := index + 5;
        x := Lexeme(Boolean(false), index - 5, index);
      } else if Matches(data, index, NULL) {
        EndsBefore(data, index, NULL);
        index := index + 4;
        x := Lexeme(NullToken, index - 4, index);
      } else if !cfg.refuseBadnum && IsInvalidNumber(data, index) {
        x := NextNumberToken();
      } else {
        x := Lexeme(Error("invalid token"), index, index);
      }
    }

    /** The error with which the parser gives up; the buffer goes first. */
    method ThrowParseError(expected: string, x: Lexeme) returns (r: Parsed)
      requires live
      modifies this`live
      ensures !live && r == Err(expected, x.token, x.at)
    {
      live := false;
      r := Err(expected, x.token, x.at);
    }

    method CheckStack(slots: nat, n: nat) returns (ok: bool)
      requires live
      modifies this`live
      ensures ok == (slots >= n) && live == ok
    {
      ok := slots >= n;
      live := ok;
    }

    method ParseObject(slots: nat) returns (r: Parsed)
      requires Valid() && live
      modifies this`index, this`live, tmp`length, tmp.buf
      ensures Valid() && r == JsonDecode.ParseObject(cfg, data, old(index), slots)
      ensures live == r.Ok? && (r.Ok? ==> index == r.next)
      decreases |data| - index, 4
    {
      hide JsonDecode.NextToken, JsonDecode.ProcessValue;
      var ok := CheckStack(slots, 3);
      if !ok { return TooManyNested; }
      var table: map<Key, Tree> := map[];
      var x := NextToken();
      if x.token == ObjEnd { return Ok(TTable(table), index); }
      while true
        invariant Valid() && live && x.at <= x.next == index && Advances(x) && x.at >= old(index)
        invariant ParseMembers(cfg, data, x, slots, table) == JsonDecode.ParseObject(cfg, data, old(index), slots)
        decreases |data| - x.at
      {
        if !x.token.Str? {
          r := ThrowParseError("object key string", x);
          return;
        }
        var key := KStr(x.token.s);
        var colon := NextToken();
        if colon.token != Colon {
          r := ThrowParseError("colon", colon);
          return;
        }
        var y := NextToken();
        r := ProcessValue(y, slots - 2);
        if !r.Ok? { return; }
        table := table[key := r.value];
        var sep := NextToken();
        if sep.token == ObjEnd { return Ok(TTable(table), index); }
        if sep.token != Comma {
          r := ThrowParseError("comma or object end", sep);
          return;
        }
        x := NextToken();
      }
    }

    method ParseArray(slots: nat) returns (r: Parsed)
      requires Valid() && live
      modifies this`index, this`live, tmp`length, tmp.buf
      ensures Valid() && r == JsonDecode.ParseArray(cfg, data, old(index), slots)
      ensures live == r.Ok? && (r.Ok? ==> index == r.next)
      decreases |data| - index, 4
    {
      hide JsonDecode.NextToken, JsonDecode.ProcessValue;
      var ok := CheckStack(slots, 2);
      if !ok { return TooManyNested; }
      var table: map<Key, Tree> := map[];
      var x := NextToken();
      if x.token == ArrEnd { return Ok(TTable(table), index); }
      var i := 1;
      while true
        invariant Valid() && live && x.at <= x.next == index && Advances(x) && x.at >= old(index)
        invariant ParseItems(cfg, data, x, slots, i, table) == JsonDecode.ParseArray(cfg, data, old(index), slots)
        decreases |data| - x.at
      {
        r := ProcessValue(x, slots - 1);
        if !r.Ok? { return; }
        table := table[KInt(i) := r.value];
        var sep := NextToken();
        if sep.token == ArrEnd { return Ok(TTable(table), index); }
        if sep.token != Comma {
          r := ThrowParseError("comma or array end", sep);
          return;
        }
        x := NextToken();
        i := i + 1;
      }
    }

    method ProcessValue(x: Lexeme, slots: nat) returns (r: Parsed)
      requires Valid() && live && x.at <= x.next == index && Advances(x)
      modifies this`index, this`live, tmp`length, tmp.buf
      ensures Valid() && r == JsonDecode.ProcessValue(cfg, data, x, slots)
      ensures live == r.Ok? && (r.Ok? ==> index == r.next)
      decreases |data| - x.at, 2
    {
      hide JsonDecode.ParseObject, JsonDecode.ParseArray;
      match x.token
      case Str(s) => r := Ok(TStr(s), index);
      case Number(n) => r := Ok(TNumber(n), index);
      case Integer(i) => r := Ok(TNumber(Finite(i as real)), index);
      case Boolean(b) => r := Ok(TBool(b), index);
      case NullToken => r := Ok(TNull, index);
      case ObjBegin => r := ParseObject(slots);
      case ArrBegin => r := ParseArray(slots);
      case _ => r := ThrowParseError("value", x);
    }
  }

  /**
   json_decode: one buffer for the whole run, which is freed exactly once
   however the run ends, and which no run ever has to enlarge.
   */
  method Decode(cfg: Config, text: bytes, slots: nat) returns (r: Decoded)
    ensures r == JsonDecode.Decode(cfg, text, slots)
  {
    hide JsonDecode.NextToken, JsonDecode.ProcessValue;
    if LooksLikeUtf16(text) { return NotUtf8; }
    var json := new Parser(cfg, text);
    ghost var buf := json.tmp.buf;
    var x := json.NextToken();
    var v := json.ProcessValue(x, slots);
    match v
    case TooManyNested => r := TooDeep;
    case Err(expected, found, at) => r := Failed(expected, found, at);
    case Ok(value, _) =>
      x := json.NextToken();
      if x.token == End {
        r := Value(value);
        json.live := false;
      } else {
        var e := json.ThrowParseError("the end", x);
        r := Failed(e.expected, e.found, e.at);
      }
    assert json.tmp.buf == buf && !json.live;
  }
}
