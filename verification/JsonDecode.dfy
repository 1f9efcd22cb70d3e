/** The tokenizer and the recursive-descent parser of Lua CJSON as functions of the text. */
module JsonDecode {
  import opened Bytes
  import opened Lua
  import opened JsonString
  import opened Wrappers

  datatype Token =
    | ObjBegin | ObjEnd | ArrBegin | ArrEnd
    | Str(s: bytes) | Number(d: Double) | Integer(i: int) | Boolean(b: bool) | NullToken
    | Colon | Comma | End
    | Error(message: string)

  /** A token, where it starts (or where the error is), and the index behind it. */
  datatype Lexeme = Lexeme(token: Token, at: nat, next: nat)

  /** strtod(3): where the number that starts at an index ends, and what it is. */
  type Strtod = (bytes, nat) -> (nat, Double)

  datatype Config = Config(strtod: Strtod, refuseBadnum: bool)

  /** Every token that is neither an error nor the end takes up text. */
  predicate Advances(x: Lexeme) {
    x.token.Error? || x.token == End || x.at < x.next
  }

  // ----- Tokens -----

  predicate IsWhitespace(c: int) {
    c == 0x20 || c == 0x09 || c == 0x0A || c == 0x0D
  }

  predicate IsDigit(c: int) {
    '0' as int <= c <= '9' as int
  }

  function SkipWhitespace(d: bytes, i: nat): (j: nat)
    requires IsText(d) && i < |d|
    ensures i <= j < |d| && !IsWhitespace(d[j])
    ensures forall k :: i <= k < j ==> IsWhitespace(d[k])
    decreases |d| - i
  {
    if IsWhitespace(d[i]) then SkipWhitespace(d, i + 1) else i
  }

  const TRUE: bytes := [0x74, 0x72, 0x75, 0x65]
  const FALSE: bytes := [0x66, 0x61, 0x6C, 0x73, 0x65]
  const NULL: bytes := [0x6E, 0x75, 0x6C, 0x6C]

  /** !strncmp(&d[i], s, |s|), for an s without NUL: a comparison that stops at the first difference. */
  predicate Matches(d: bytes, i: nat, s: bytes) {
    i + |s| <= |d| && d[i..i + |s|] == s
  }

  /** !strncasecmp(&d[i], s, 3) for a lower-case s. */
  predicate MatchesAnyCase(d: bytes, i: nat, s: bytes)
  {
    i + |s| <= |d| && forall k :: 0 <= k < |s| ==> d[i + k] == s[k] || d[i + k] == s[k] - 32
  }

  const INF: bytes := [0x69, 0x6E, 0x66]
  const NAN: bytes := [0x6E, 0x61, 0x6E]

  /** json_is_invalid_number; char is signed, so that a byte from 0x80 on is below '9'. */
  predicate IsInvalidNumber(d: bytes, i: nat)
    requires IsText(d) && i < |d|
  {
    d[i] == '+' as int ||
    var j := if d[i] == '-' as int then i + 1 else i;
    if d[j] == '0' as int then
      SetBit5(d[j + 1]) == 'x' as int || IsDigit(d[j + 1])
    else if d[j] >= 0x80 || d[j] <= '9' as int then false
    else MatchesAnyCase(d, j, INF) || MatchesAnyCase(d, j, NAN)
  }

  function Truncate(r: real): int {
    if r >= 0.0 then r.Floor else -((-r).Floor)
  }

  predicate IsInt32(i: int) {
    -0x8000_0000 <= i <= 0x7FFF_FFFF
  }

  const EPSILON: real := 0.000000001

  /**
   The token of a number. What lies within a billionth of an integer becomes
   that integer. (The cast of a number outside the range of int is not
   defined by C; here such a number stays what it is.)
   */
  function NumberToken(d: Double): Token {
    if d.Finite? && IsInt32(Truncate(d.r)) && -EPSILON < d.r - Truncate(d.r) as real < EPSILON
    then Integer(Truncate(d.r)) else Number(d)
  }

  /** strtod does not look beyond a NUL: an end that lies there is taken for no number at all. */
  function NextNumber(cfg: Config, d: bytes, i: nat): (r: Lexeme)
    requires IsText(d) && i < |d|
    ensures r.at == i && i <= r.next < |d| && Advances(r)
    ensures r.token.Error? || r.token.Number? || r.token.Integer?
  {
    var (end, value) := cfg.strtod(d, i);
    if i < end < |d| && 0 !in d[i..end] then Lexeme(NumberToken(value), i, end)
    else Lexeme(Error("invalid number"), i, i)
  }

  function NextString(d: bytes, i: nat): (r: Lexeme)
    requires IsText(d) && i + 1 < |d|
    ensures i <= r.at <= r.next < |d| && Advances(r)
    ensures r.token.Error? || r.token.Str?
  {
    match LexString(d, i + 1)
    case Lexed(s, next) => Lexeme(Str(s), i, next)
    case Bad(message, at) => Lexeme(Error(message), at, at)
  }

  predicate StartsUnknown(c: int) {
    || c == 'f' as int || c == 'i' as int || c == 'I' as int || c == 'n' as int || c == 'N' as int
    || c == 't' as int || c == QUOTE || c == '+' as int || c == '-' as int || IsDigit(c)
  }

  /** The characters that are tokens by themselves. */
  function Single(c: int): Option<Token> {
    if c == '{' as int then Some(ObjBegin)
    else if c == '}' as int then Some(ObjEnd)
    else if c == '[' as int then Some(ArrBegin)
    else if c == ']' as int then Some(ArrEnd)
    else if c == ',' as int then Some(Comma)
    else if c == ':' as int then Some(Colon)
    else None
  }

  /** The token that starts exactly at i. */
  function TokenAt(cfg: Config, d: bytes, i: nat): (r: Lexeme)
    requires IsText(d) && i < |d| && !IsWhitespace(d[i])
    ensures i <= r.at <= r.next < |d|
    ensures Advances(r)
  {
    var c := d[i];
    if Single(c).Some? then Lexeme(Single(c).value, i, i + 1)
    else if c == 0 then Lexeme(End, i, i)
    else if !StartsUnknown(c) then Lexeme(Error("invalid token"), i, i)
    else if c == QUOTE then NextString(d, i)
    else if c == '-' as int || IsDigit(c) then
      if cfg.refuseBadnum && IsInvalidNumber(d, i) then Lexeme(Error("invalid number"), i, i)
      else NextNumber(cfg, d, i)
    else if Matches(d, i, TRUE) then EndsBefore(d, i, TRUE); Lexeme(Boolean(true), i, i + 4)
    else if Matches(d, i, FALSE) then EndsBefore(d, i, FALSE); Lexeme(Boolean(false), i, i + 5)
    else if Matches(d, i, NULL) then EndsBefore(d, i, NULL); Lexeme(NullToken, i, i + 4)
    else if !cfg.refuseBadnum && IsInvalidNumber(d, i) then NextNumber(cfg, d, i)
    else Lexeme(Error("invalid token"), i, i)
  }

  /** A number is looked for at i: in strict mode not where the test for invalid numbers finds one. */
  predicate TakesNumber(cfg: Config, d: bytes, i: nat)
    requires IsText(d) && i < |d|
  {
    var c := d[i];
    && StartsUnknown(c) && c != QUOTE
    && if c == '-' as int || IsDigit(c) then !(cfg.refuseBadnum && IsInvalidNumber(d, i))
       else !cfg.refuseBadnum && IsInvalidNumber(d, i)
  }

  /** Numbers come from nowhere else. */
  lemma TakesExactly(cfg: Config, d: bytes, i: nat)
    requires IsText(d) && i < |d| && !IsWhitespace(d[i])
    ensures TakesNumber(cfg, d, i) ==> TokenAt(cfg, d, i) == NextNumber(cfg, d, i)
    ensures var t := TokenAt(cfg, d, i).token; t.Number? || t.Integer? ==> TakesNumber(cfg, d, i)
  {
    hide NextNumber, NextString, IsInvalidNumber, Matches;
    NoWordIsInvalid(d, i);
  }

  /** "inf" or "nan" in any mixture of cases. */
  predicate InfOrNan(d: bytes, i: nat) {
    && i + 3 <= |d|
    && ((d[i] in {0x49, 0x69} && d[i + 1] in {0x4E, 0x6E} && d[i + 2] in {0x46, 0x66})
        || (d[i] in {0x4E, 0x6E} && d[i + 1] in {0x41, 0x61} && d[i + 2] in {0x4E, 0x6E}))
  }

  lemma MatchesInfOrNan(d: bytes, i: nat)
    ensures MatchesAnyCase(d, i, INF) || MatchesAnyCase(d, i, NAN) <==> InfOrNan(d, i)
  {
    assert MatchesAnyCase(d, i, INF) ==> d[i + 0] == d[i] && d[i + 1] == d[i + 1] && d[i + 2] == d[i + 2];
    assert INF[0] == 0x69 && INF[1] == 0x6E && INF[2] == 0x66;
    assert NAN[0] == 0x6E && NAN[1] == 0x61 && NAN[2] == 0x6E;
  }

  /**
   Where numbers are looked for: in strict mode at a digit or a minus sign, but
   not at a leading zero, a hexadecimal number, inf or nan, with or without the
   sign; otherwise at any digit or sign, inf or nan.
   */
  lemma {:induction false} NumbersStart(cfg: Config, d: bytes, i: nat)
    requires IsText(d) && i < |d|
    ensures var j := if d[i] == '-' as int then i + 1 else i;
      var digit := '0' as int <= d[i] <= '9' as int;
      TakesNumber(cfg, d, i) <==>
        if cfg.refuseBadnum then
          && (digit || d[i] == '-' as int)
          && !(d[j] == '0' as int && ('0' as int <= d[j + 1] <= '9' as int || d[j + 1] in {'x' as int, 'X' as int}))
          && !InfOrNan(d, j)
        else digit || d[i] == '-' as int || d[i] == '+' as int || InfOrNan(d, i)
  {
    hide MatchesAnyCase;
    MatchesInfOrNan(d, i);
    MatchesInfOrNan(d, if d[i] == '-' as int then i + 1 else i);
  }

  lemma NoWordIsInvalid(d: bytes, i: nat)
    requires IsText(d) && i < |d|
    ensures Matches(d, i, TRUE) || Matches(d, i, FALSE) || Matches(d, i, NULL) ==> !IsInvalidNumber(d, i)
  {
    assert Matches(d, i, TRUE) ==> d[i..i + 4][0] == d[i];
    assert Matches(d, i, FALSE) ==> d[i..i + 5][0] == d[i];
    assert Matches(d, i, NULL) ==> d[i..i + 4][0] == d[i] && d[i..i + 4][1] == d[i + 1];
    assert INF[0] == 0x69 && NAN[0] == 0x6E && NAN[1] == 0x61;
  }

  lemma EndsBefore(d: bytes, i: nat, s: bytes)
    requires IsText(d) && Matches(d, i, s) && s != [] && s[|s| - 1] != 0
    ensures i + |s| < |d|
  {
    assert d[i..i + |s|][|s| - 1] == d[i + |s| - 1];
  }

  function NextToken(cfg: Config, d: bytes, i: nat): (r: Lexeme)
    requires IsText(d) && i < |d|
    ensures i <= r.at <= r.next < |d|
    ensures Advances(r)
  {
    TokenAt(cfg, d, SkipWhitespace(d, i))
  }

  // ----- Values -----

  datatype Parsed =
    | Ok(value: Tree, next: nat)
    | Err(expected: string, found: Token, at: nat)
    | TooManyNested

  /** `slots` is the number of free slots on the Lua stack. */
  function ProcessValue(cfg: Config, d: bytes, x: Lexeme, slots: nat): (r: Parsed)
    requires IsText(d) && x.at <= x.next < |d| && Advances(x)
    ensures r.Ok? ==> x.next <= r.next < |d|
    decreases |d| - x.at, 2
  {
    match x.token
    case Str(s) => Ok(TStr(s), x.next)
    case Number(n) => Ok(TNumber(n), x.next)
    case Integer(i) => Ok(TNumber(Finite(i as real)), x.next)
    case Boolean(b) => Ok(TBool(b), x.next)
    case NullToken => Ok(TNull, x.next)
    case ObjBegin => ParseObject(cfg, d, x.next, slots)
    case ArrBegin => ParseArray(cfg, d, x.next, slots)
    case _ => Err("value", x.token, x.at)
  }

  function ParseObject(cfg: Config, d: bytes, i: nat, slots: nat): (r: Parsed)
    requires IsText(d) && i < |d|
    ensures r.Ok? ==> i <= r.next < |d|
    decreases |d| - i, 4
  {
    if slots < 3 then TooManyNested
    else
      var x := NextToken(cfg, d, i);
      if x.token == ObjEnd then Ok(EmptyTable, x.next) else ParseMembers(cfg, d, x, slots, map[])
  }

  /** The members from the token x on; acc holds those before. */
  function ParseMembers(cfg: Config, d: bytes, x: Lexeme, slots: nat, acc: map<Key, Tree>): (r: Parsed)
    requires IsText(d) && x.at <= x.next < |d| && Advances(x) && slots >= 3
    ensures r.Ok? ==> x.next <= r.next < |d|
    decreases |d| - x.at, 3
  {
    if !x.token.Str? then Err("object key string", x.token, x.at)
    else
      var colon := NextToken(cfg, d, x.next);
      if colon.token != Colon then Err("colon", colon.token, colon.at)
      else
        var v := ProcessValue(cfg, d, NextToken(cfg, d, colon.next), slots - 2);
        if !v.Ok? then v
        else
          var acc' := acc[KStr(x.token.s) := v.value];
          var sep := NextToken(cfg, d, v.next);
          if sep.token == ObjEnd then Ok(TTable(acc'), sep.next)
          else if sep.token != Comma then Err("comma or object end", sep.token, sep.at)
          else ParseMembers(cfg, d, NextToken(cfg, d, sep.next), slots, acc')
  }

  function ParseArray(cfg: Config, d: bytes, i: nat, slots: nat): (r: Parsed)
    requires IsText(d) && i < |d|
    ensures r.Ok? ==> i <= r.next < |d|
    decreases |d| - i, 4
  {
    if slots < 2 then TooManyNested
    else
      var x := NextToken(cfg, d, i);
      if x.token == ArrEnd then Ok(EmptyTable, x.next) else ParseItems(cfg, d, x, slots, 1, map[])
  }

  /** The elements from the token x on, to be stored from index n on; acc holds those before. */
  function ParseItems(cfg: Config, d: bytes, x: Lexeme, slots: nat, n: int, acc: map<Key, Tree>): (r: Parsed)
    requires IsText(d) && x.at <= x.next < |d| && Advances(x) && slots >= 2
    ensures r.Ok? ==> x.next <= r.next < |d|
    decreases |d| - x.at, 3
  {
    var v := ProcessValue(cfg, d, x, slots - 1);
    if !v.Ok? then v
    else
      var acc' := acc[KInt(n) := v.value];
      var sep := NextToken(cfg, d, v.next);
      if sep.token == ArrEnd then Ok(TTable(acc'), sep.next)
      else if sep.token != Comma then Err("comma or array end", sep.token, sep.at)
      else ParseItems(cfg, d, NextToken(cfg, d, sep.next), slots, n + 1, acc')
  }

  datatype Decoded =
    | Value(value: Tree)
    | Failed(expected: string, found: Token, at: nat)
    | TooDeep
    | NotUtf8

  /** A NUL among the first two bytes means UTF-16 or UTF-32, RFC 4627 section 3. */
  predicate LooksLikeUtf16(text: bytes) {
    |text| >= 2 && (text[0] == 0 || text[1] == 0)
  }

  /** The whole of json_decode on a Lua string. */
  function Decode(cfg: Config, text: bytes, slots: nat): Decoded {
    var d := text + [0];
    if LooksLikeUtf16(text) then NotUtf8
    else
      match ProcessValue(cfg, d, NextToken(cfg, d, 0), slots)
      case TooManyNested => TooDeep
      case Err(expected, found, at) => Failed(expected, found, at)
      case Ok(value, next) =>
        var x := NextToken(cfg, d, next);
        if x.token == End then Value(value) else Failed("the end", x.token, x.at)
  }
}
