/** Decoding any rendering of a value gives that value. */
module JsonReads {
  import opened Bytes
  import opened Lua
  import opened JsonString
  import opened JsonDecode
  import opened JsonText
  import opened Wrappers

  // ----- What is expected of strtod -----

  predicate EndsNumber(c: int) {
    IsWhitespace(c) || c == ',' as int || c == ']' as int || c == '}' as int || c == 0
  }

  /** The text t occurs at i, and nothing follows that a number could go on with. */
  ghost predicate StandsAlone(d: bytes, i: nat, t: bytes) {
    IsText(d) && At(d, i, t) && i + |t| < |d| && EndsNumber(d[i + |t|])
  }

  ghost predicate ReadsNumber(f: Strtod, value: bytes -> Double, d: bytes, i: nat, t: bytes) {
    IsJsonNumber(t) && StandsAlone(d, i, t) ==> f(d, i) == (i + |t|, value(t))
  }

  /**
   strtod reads a JSON number to its end, wherever it stands, as the double
   that `value` gives for its text. (So it does in the C locale, with `value`
   rounding the decimal fraction.)
   */
  ghost predicate ReadsNumbers(f: Strtod, value: bytes -> Double) {
    forall d, i: nat, t :: ReadsNumber(f, value, d, i, t)
  }

  ghost predicate ValuesInteger(value: bytes -> Double, negative: bool, digits: bytes) {
    Canonical(digits) && IsInt32(IntValue(negative, digits))
    ==> value(IntegerText(negative, digits)) == Finite(IntValue(negative, digits) as real)
  }

  /** Integers of 31 bits and a sign are not rounded. */
  ghost predicate ValuesIntegers(value: bytes -> Double) {
    forall negative, digits :: ValuesInteger(value, negative, digits)
  }

  // ----- These expectations can be met -----

  predicate InNumber(c: int) {
    IsDigit(c) || c == '.' as int || c == '+' as int || c == '-' as int || c == 'e' as int || c == 'E' as int
  }

  /** The end of the run of such characters from i on. */
  function NumberEnd(d: bytes, i: nat): (end: nat)
    ensures i <= end && (i <= |d| ==> end <= |d|)
    decreases |d| - i
  {
    if i < |d| && InNumber(d[i]) then NumberEnd(d, i + 1) else i
  }

  /** The value of an integer; of other numbers it is not meant to be right. */
  function PlainValue(t: bytes): Double {
    if t != [] && t[0] == '-' as int then Finite(-DigitsValue(t[1..]) as real) else Finite(DigitsValue(t) as real)
  }

  function ReadPlainly(d: bytes, i: nat): (nat, Double) {
    var end := NumberEnd(d, i);
    (end, PlainValue(if end <= |d| then d[i..end] else []))
  }

  lemma {:induction false} NumberEndIs(d: bytes, i: nat, t: bytes)
    requires At(d, i, t) && (forall k :: 0 <= k < |t| ==> InNumber(t[k]))
    requires i + |t| < |d| && !InNumber(d[i + |t|])
    ensures NumberEnd(d, i) == i + |t|
    decreases |t|
  {
    if t != [] {
      assert d[i] == t[0];
      assert t == [t[0]] + t[1..];
      AtSplit(d, i, [t[0]], t[1..]);
      NumberEndIs(d, i + 1, t[1..]);
    }
  }

  ghost predicate AllInNumber(t: bytes) {
    forall k :: 0 <= k < |t| ==> InNumber(t[k])
  }

  lemma AllInNumberSum(s: bytes, t: bytes)
    requires AllInNumber(s) && AllInNumber(t)
    ensures AllInNumber(s + t)
  {
    hide InNumber;
  }

  lemma PartsInNumber(n: Numeral)
    requires LegalNumeral(n)
    ensures AllInNumber(IntegerText(n.negative, n.whole)) && AllInNumber(FractionText(n))
    ensures AllInNumber(ExponentText(n))
  {
  }

  lemma {:induction false} NumeralCharacters(n: Numeral)
    requires LegalNumeral(n)
    ensures AllInNumber(NumeralText(n))
  {
    PartsInNumber(n);
    hide AllInNumber, IntegerText, FractionText, ExponentText;
    AllInNumberSum(IntegerText(n.negative, n.whole), FractionText(n));
    AllInNumberSum(IntegerText(n.negative, n.whole) + FractionText(n), ExponentText(n));
  }

  /** A number begins with a sign or a digit; what follows a leading zero is no digit. */
  lemma {:induction false} NumeralStarts(n: Numeral)
    requires LegalNumeral(n)
    ensures var t := NumeralText(n);
      var j := if n.negative then 1 else 0;
      && j < |t| && IsDigit(t[j]) && (n.negative <==> t[0] == '-' as int)
      && (t[j] == '0' as int && j + 1 < |t| ==> t[j + 1] in ['.' as int, 'e' as int, 'E' as int])
  {
    WholeStarts(n);
    RestStarts(n);
    hide LegalNumeral, IntegerText, FractionText, ExponentText;
    var front, rest := IntegerText(n.negative, n.whole), FractionText(n) + ExponentText(n);
    assert NumeralText(n) == front + rest;
  }

  lemma WholeStarts(n: Numeral)
    requires LegalNumeral(n)
    ensures var t := IntegerText(n.negative, n.whole);
      var j := if n.negative then 1 else 0;
      && j < |t| && IsDigit(t[j]) && (n.negative <==> t[0] == '-' as int)
      && (t[j] == '0' as int ==> |t| == j + 1)
  {
    assert IsDigit(n.whole[0]);
    hide FractionText, ExponentText;
  }

  lemma RestStarts(n: Numeral)
    requires LegalNumeral(n)
    ensures var rest := FractionText(n) + ExponentText(n);
      rest != [] ==> rest[0] in ['.' as int, 'e' as int, 'E' as int]
  {
  }

  /** Some function reads JSON numbers to their ends, and integers exactly. */
  lemma ExpectationsCanBeMet()
    ensures ReadsNumbers(ReadPlainly, PlainValue) && ValuesIntegers(PlainValue)
  {
    forall d, i: nat, t
      ensures ReadsNumber(ReadPlainly, PlainValue, d, i, t)
    {
      if IsJsonNumber(t) && StandsAlone(d, i, t) {
        var n :| LegalNumeral(n) && NumeralText(n) == t;
        NumeralCharacters(n);
        hide LegalNumeral, NumeralText, PlainValue;
        NumberEndIs(d, i, t);
      }
    }
    forall negative, digits
      ensures ValuesInteger(PlainValue, negative, digits)
    {
      if Canonical(digits) {
        assert IsDigit(digits[0]);
        var t := IntegerText(negative, digits);
        if negative { assert t[1..] == digits; } else { assert t == digits; }
      }
    }
  }

  // ----- Strings -----

  lemma {:induction false} SkipBlank(d: bytes, i: nat, w: bytes)
    requires IsText(d) && At(d, i, w) && Blank(w)
    requires i + |w| < |d| && !IsWhitespace(d[i + |w|])
    ensures SkipWhitespace(d, i) == i + |w|
    decreases |w|
  {
    if w != [] {
      assert d[i] == w[0];
      assert d[i + 1..i + 1 + |w[1..]|] == w[1..];
      SkipBlank(d, i + 1, w[1..]);
    }
  }

  lemma ReadsHex(d: bytes, i: nat, h: bytes)
    requires IsText(d) && IsHex4(h) && At(d, i, h) && i + 4 < |d|
    ensures DecodeHex4(d, i) == Hex4Value(h)
  {
    hide HexDigit2Int;
    assert d[i] == h[0] && d[i + 1] == h[1] && d[i + 2] == h[2] && d[i + 3] == h[3];
  }

  /** The table of the decoder is that of RFC 4627 section 2.5: every other letter is refused. */
  lemma EscapeTable(letter: int)
    ensures Escape2Char(letter) == if letter == 'u' as int then 'u' as int else ShortMeaning(letter)
    ensures ShortMeaning(letter) != 'u' as int && ShortMeaning('u' as int) == 0
    ensures ShortMeaning('b' as int) == 8 && ShortMeaning('t' as int) == 9 && ShortMeaning('n' as int) == 10
    ensures ShortMeaning('f' as int) == 12 && ShortMeaning('r' as int) == 13
    ensures letter in {'\"' as int, '\\' as int, '/' as int} ==> ShortMeaning(letter) == letter
    ensures ShortMeaning(letter) != 0 ==>
      letter in {'b' as int, 't' as int, 'n' as int, 'f' as int, 'r' as int, '\"' as int, '\\' as int, '/' as int}
  {
  }

  lemma Sub(d: bytes, i: nat, t: bytes, lo: nat, hi: nat)
    requires At(d, i, t) && lo <= hi <= |t|
    ensures At(d, i + lo, t[lo..hi])
  {
    forall k | 0 <= k < hi - lo
      ensures t[lo..hi][k] == d[i + lo..i + hi][k]
    {
      assert t[lo + k] == d[i..i + |t|][lo + k];
    }
  }

  /** Each spelling of a character is read back as that character. */
  lemma {:induction false} ReadsSpelling(d: bytes, i: nat, c: Spelling)
    requires IsText(d) && ReadableSpelling(c) && At(d, i, SpellingText(c)) && i + |SpellingText(c)| < |d|
    ensures LexString(d, i) == LexString(d, i + |SpellingText(c)|).Prepend(SpellingMeaning(c))
  {
    hide CodepointToUtf8, DecodeHex4, HexDigit2Int, ShortMeaning, Escape2Char;
    var t := SpellingText(c);
    assert d[i] == t[0];
    match c
    case Raw(_) =>
    case Short(letter) =>
      assert d[i + 1] == t[1];
      EscapeTable(letter);
    case Unit(hex) =>
      assert d[i + 1] == t[1] && hex == t[2..6];
      Sub(d, i, t, 2, 6);
      EscapeTable('u' as int);
      ReadsHex(d, i + 2, hex);
    case Pair(_, _) =>
      ReadsPair(d, i, c);
  }

  lemma {:induction false} ReadsPair(d: bytes, i: nat, c: Spelling)
    requires IsText(d) && c.Pair? && ReadableSpelling(c) && At(d, i, SpellingText(c)) && i + 12 < |d|
    ensures |SpellingText(c)| == 12
    ensures LexString(d, i) == LexString(d, i + 12).Prepend(SpellingMeaning(c))
  {
    hide CodepointToUtf8, DecodeHex4, HexDigit2Int, Escape2Char;
    var t := SpellingText(c);
    assert c.high == t[2..6] && c.low == t[8..12];
    assert d[i] == t[0] && d[i + 1] == t[1] && d[i + 6] == t[6] && d[i + 7] == t[7];
    Sub(d, i, t, 2, 6);
    Sub(d, i, t, 8, 12);
    EscapeTable('u' as int);
    ReadsHex(d, i + 2, c.high);
    ReadsHex(d, i + 8, c.low);
  }

  lemma CharsUnfold(cs: seq<Spelling>)
    requires cs != []
    ensures CharsText(cs) == SpellingText(cs[0]) + CharsText(cs[1..])
    ensures StringMeaning(cs) == SpellingMeaning(cs[0]) + StringMeaning(cs[1..])
  {
  }

  lemma ReadsQuote(d: bytes, i: nat)
    requires IsText(d) && At(d, i, CharsText([])) && i + |CharsText([])| < |d|
    ensures LexString(d, i) == Lexed(StringMeaning([]), i + 1) && |CharsText([])| == 1
  {
    assert d[i] == CharsText([])[0];
  }

  /** A string in any mixture of spellings is read back as the characters it spells. */
  lemma {:induction false} ReadsChars(d: bytes, i: nat, cs: seq<Spelling>)
    requires IsText(d) && ReadableString(cs) && At(d, i, CharsText(cs)) && i + |CharsText(cs)| < |d|
    ensures LexString(d, i) == Lexed(StringMeaning(cs), i + |CharsText(cs)|)
    decreases |cs|
  {
    hide LexString, SpellingText, SpellingMeaning, ReadableSpelling, CharsText, StringMeaning;
    if cs == [] {
      ReadsQuote(d, i);
    } else {
      CharsUnfold(cs);
      AtSplit(d, i, SpellingText(cs[0]), CharsText(cs[1..]));
      ReadsSpelling(d, i, cs[0]);
      ReadsChars(d, i + |SpellingText(cs[0])|, cs[1..]);
    }
  }

  // ----- Tokens -----

  /** The token behind blanks w is the one that starts there. */
  lemma SkipsTo(cfg: Config, d: bytes, i: nat, w: bytes)
    requires IsText(d) && At(d, i, w) && Blank(w) && i + |w| < |d| && !IsWhitespace(d[i + |w|])
    ensures NextToken(cfg, d, i) == TokenAt(cfg, d, i + |w|)
  {
    hide TokenAt;
    SkipBlank(d, i, w);
  }

  lemma SkipsToSingle(cfg: Config, d: bytes, i: nat, w: bytes, c: int)
    requires IsText(d) && At(d, i, w + [c]) && Blank(w) && Single(c).Some? && i + |w| + 1 < |d|
    ensures NextToken(cfg, d, i) == Lexeme(Single(c).value, i + |w|, i + |w| + 1)
  {
    AtSplit(d, i, w, [c]);
    assert d[i + |w|] == c;
    SkipsTo(cfg, d, i, w);
  }

  lemma StringToken(cfg: Config, d: bytes, i: nat, cs: seq<Spelling>)
    requires IsText(d) && ReadableString(cs) && At(d, i, [QUOTE] + CharsText(cs)) && i + 1 + |CharsText(cs)| < |d|
    ensures !IsWhitespace(d[i])
    ensures TokenAt(cfg, d, i) == Lexeme(Str(StringMeaning(cs)), i, i + 1 + |CharsText(cs)|)
  {
    AtSplit(d, i, [QUOTE], CharsText(cs));
    assert d[i] == [QUOTE][0];
    ReadsChars(d, i + 1, cs);
  }

  lemma WordToken(cfg: Config, d: bytes, i: nat, word: bytes)
    requires IsText(d) && At(d, i, word) && word in [NULL, TRUE, FALSE]
    ensures i + |word| < |d| && !IsWhitespace(d[i])
    ensures TokenAt(cfg, d, i) ==
      Lexeme(if word == NULL then NullToken else Boolean(word == TRUE), i, i + |word|)
  {
    assert d[i] == word[0];
    EndsBefore(d, i, word);
    if word == NULL {
      assert !Matches(d, i, TRUE) && !Matches(d, i, FALSE);
    } else if word == FALSE {
      assert !Matches(d, i, TRUE);
    }
  }

  // ----- Numbers -----

  /** An integer means itself. */
  lemma IntegerMeans(n: int)
    requires IsInt32(n)
    ensures NumberMeaning(Finite(n as real)) == TNumber(Finite(n as real))
  {
    NumberMeaningIs(n as real, n);
  }

  /** The token of a number is what the number means. */
  lemma TokenMeans(d: Double)
    ensures match NumberToken(d)
      case Integer(i) => NumberMeaning(d) == TNumber(Finite(i as real))
      case t => t == Number(d) && NumberMeaning(d) == TNumber(d)
  {
  }

  lemma AtIndex(d: bytes, i: nat, t: bytes, k: nat)
    requires At(d, i, t) && k < |t|
    ensures i + k < |d| && d[i + k] == t[k]
  {
    assert d[i..i + |t|][k] == d[i + k];
  }

  /** The strict test looks no further than the two characters from the first digit on. */
  lemma DigitIsTaken(cfg: Config, d: bytes, i: nat, j: nat)
    requires IsText(d) && i <= j && j + 1 < |d| && IsDigit(d[j]) && (j == i || (j == i + 1 && d[i] == '-' as int))
    requires d[j] == '0' as int ==> SetBit5(d[j + 1]) != 'x' as int && !IsDigit(d[j + 1])
    ensures TakesNumber(cfg, d, i)
  {
    hide SetBit5, MatchesAnyCase;
  }

  lemma NoHexOrDigit(c: int)
    requires EndsNumber(c) || c == '.' as int || c == 'e' as int || c == 'E' as int
    ensures SetBit5(c) != 'x' as int && !IsDigit(c)
  {
  }

  /** A JSON number passes the strict test, so that one is looked for in both modes. */
  lemma {:induction false} JsonNumberIsTaken(cfg: Config, d: bytes, i: nat, t: bytes)
    requires IsJsonNumber(t) && StandsAlone(d, i, t)
    ensures i < |d| && TakesNumber(cfg, d, i) && t != [] && 0 !in t
  {
    hide TakesNumber, At, EndsNumber, LegalNumeral, NumeralText, SetBit5;
    var n :| LegalNumeral(n) && NumeralText(n) == t;
    NumeralCharacters(n);
    NumeralStarts(n);
    var j := if n.negative then 1 else 0;
    AtIndex(d, i, t, 0);
    AtIndex(d, i, t, j);
    if j + 1 < |t| { AtIndex(d, i, t, j + 1); }
    if t[j] == '0' as int { NoHexOrDigit(d[i + j + 1]); }
    DigitIsTaken(cfg, d, i, i + j);
  }

  /** A number, where one is looked for, is the text that strtod takes. */
  lemma NumberTokenAt(cfg: Config, d: bytes, i: nat, t: bytes, v: Double)
    requires IsText(d) && At(d, i, t) && t != [] && 0 !in t && i + |t| < |d|
    requires TakesNumber(cfg, d, i) && cfg.strtod(d, i) == (i + |t|, v)
    ensures !IsWhitespace(d[i]) && TokenAt(cfg, d, i) == Lexeme(NumberToken(v), i, i + |t|)
  {
    TakesExactly(cfg, d, i);
    hide IsInvalidNumber, NumberToken, TokenAt;
  }

  // ----- Documents -----

  /** Where doc stands in the text at i, strtod takes each of its numbers for what it says. */
  ghost predicate NumbersAt(cfg: Config, d: bytes, i: nat, doc: Doc)
    requires IsText(d)
    decreases doc, 0
  {
    match doc
    case DNumber(text, v) => i < |d| && TakesNumber(cfg, d, i) && cfg.strtod(d, i) == (i + |text|, v)
    case DArray(_, items) => items == [] || ItemsNumbersAt(cfg, d, i + 1, items)
    case DObject(_, members) => members == [] || MembersNumbersAt(cfg, d, i + 1, members)
    case _ => true
  }

  ghost predicate ItemsNumbersAt(cfg: Config, d: bytes, i: nat, items: seq<Item>)
    requires IsText(d) && items != []
    decreases items, 1
  {
    var j := i + |items[0].before|;
    && NumbersAt(cfg, d, j, items[0].value)
    && (|items| > 1 ==> ItemsNumbersAt(cfg, d, j + |Text(items[0].value)| + |items[0].after| + 1, items[1..]))
  }

  ghost predicate MembersNumbersAt(cfg: Config, d: bytes, i: nat, members: seq<Member>)
    requires IsText(d) && members != []
    decreases members, 1
  {
    var x := members[0];
    var j := i + |x.before| + 1 + |CharsText(x.key)| + |x.afterKey| + 1 + |x.beforeValue|;
    && NumbersAt(cfg, d, j, x.value)
    && (|members| > 1 ==> MembersNumbersAt(cfg, d, j + |Text(x.value)| + |x.after| + 1, members[1..]))
  }

  /** doc is the text at i, in this place. */
  ghost predicate Stands(cfg: Config, d: bytes, i: nat, doc: Doc) {
    IsText(d) && At(d, i, Text(doc)) && i + |Text(doc)| < |d| && Readable(doc) && NumbersAt(cfg, d, i, doc)
  }

  ghost predicate ReadableItems(items: seq<Item>) {
    forall k :: 0 <= k < |items| ==> ReadableItem(items[k])
  }

  ghost predicate ReadableMembers(members: seq<Member>) {
    forall k :: 0 <= k < |members| ==> ReadableMember(members[k])
  }

  ghost predicate ItemsStand(cfg: Config, d: bytes, i: nat, items: seq<Item>)
    requires items != []
  {
    && IsText(d) && At(d, i, ItemsText(items)) && i + |ItemsText(items)| < |d|
    && ReadableItems(items) && ItemsNumbersAt(cfg, d, i, items)
  }

  ghost predicate MembersStand(cfg: Config, d: bytes, i: nat, members: seq<Member>)
    requires members != []
  {
    && IsText(d) && At(d, i, MembersText(members)) && i + |MembersText(members)| < |d|
    && ReadableMembers(members) && MembersNumbersAt(cfg, d, i, members)
  }

  ghost predicate Decodes(cfg: Config, d: bytes, i: nat, doc: Doc, slots: nat)
    requires IsText(d) && i < |d| && !IsWhitespace(d[i])
  {
    ProcessValue(cfg, d, TokenAt(cfg, d, i), slots) ==
      if Fits(doc, slots) then Ok(Meaning(doc), i + |Text(doc)|) else TooManyNested
  }

  lemma ReadsScalar(cfg: Config, d: bytes, i: nat, doc: Doc, slots: nat)
    requires Stands(cfg, d, i, doc) && !doc.DArray? && !doc.DObject?
    ensures i < |d| && IsText(d) && !IsWhitespace(d[i]) && Decodes(cfg, d, i, doc, slots)
  {
    hide TokenAt, TakesNumber, CharsText, StringMeaning, NumberToken, NumberMeaning;
    match doc
    case DNull => WordToken(cfg, d, i, NULL);
    case DTrue => WordToken(cfg, d, i, TRUE);
    case DFalse => WordToken(cfg, d, i, FALSE);
    case DNumber(text, v) =>
      NumberTokenAt(cfg, d, i, text, v);
      TokenMeans(v);
    case DString(cs) => StringToken(cfg, d, i, cs);
  }

  /** What a value begins with: neither blank nor one of the characters that end an item. */
  lemma FirstCharacter(cfg: Config, d: bytes, i: nat, doc: Doc)
    requires Stands(cfg, d, i, doc)
    ensures i < |d| && !IsWhitespace(d[i]) && Single(d[i]) in [None, Some(ArrBegin), Some(ObjBegin)]
  {
    hide IsInvalidNumber;
    if !doc.DNumber? { assert d[i] == Text(doc)[0]; }
  }

  lemma OnlyBracketsEnd(cfg: Config, d: bytes, i: nat)
    requires IsText(d) && i < |d| && !IsWhitespace(d[i])
    ensures TokenAt(cfg, d, i).token == ArrEnd ==> Single(d[i]) == Some(ArrEnd)
    ensures TokenAt(cfg, d, i).token == ObjEnd ==> Single(d[i]) == Some(ObjEnd)
  {
    hide IsInvalidNumber, NextString, NextNumber, Matches;
  }

  // ----- Arrays -----

  lemma ValueLayout(d: bytes, i: nat, w: bytes, t: bytes, after: bytes, c: int, rest: bytes) returns (k: nat, m: nat)
    requires IsText(d) && At(d, i, w + (t + ((after + [c]) + rest))) && i + |w| + |t| + |after| + 1 + |rest| <= |d|
    requires Blank(after) && EndsNumber(c)
    ensures k == i + |w| + |t| && m == k + |after|
    ensures At(d, i, w) && StandsAlone(d, i + |w|, t) && At(d, k, after + [c]) && At(d, m + 1, rest)
  {
    hide At, IsText, EndsNumber, Blank;
    k, m := i + |w| + |t|, i + |w| + |t| + |after|;
    AtSplit(d, i, w, t + ((after + [c]) + rest));
    AtSplit(d, i + |w|, t, (after + [c]) + rest);
    AtSplit(d, k, after + [c], rest);
    BlankEnds(d, k, after, c);
  }

  /** The parts of an item in the text, and what follows them. */
  lemma ItemParts(d: bytes, i: nat, items: seq<Item>) returns (j: nat, k: nat, m: nat, c: int)
    requires IsText(d) && items != [] && Blank(items[0].after)
    requires At(d, i, ItemsText(items)) && i + |ItemsText(items)| < |d|
    ensures var x := items[0];
      && j == i + |x.before| && k == j + |Text(x.value)| && m == k + |x.after| && m + 1 < |d|
      && At(d, i, x.before) && StandsAlone(d, j, Text(x.value)) && At(d, k, x.after + [c])
      && c == (if |items| == 1 then ']' as int else ',' as int)
      && (|items| == 1 ==> m + 1 == i + |ItemsText(items)|)
      && (|items| > 1 ==>
            At(d, m + 1, ItemsText(items[1..])) && m + 1 + |ItemsText(items[1..])| == i + |ItemsText(items)|)
  {
    hide *;
    var x := items[0];
    c := if |items| == 1 then ']' as int else ',' as int;
    var rest := ItemsTextUnfolds(items, c);
    Enders();
    j := i + |x.before|;
    k, m := ValueLayout(d, i, x.before, Text(x.value), x.after, c, rest);
  }

  lemma ItemsStandUnfolds(cfg: Config, d: bytes, i: nat, items: seq<Item>)
    requires items != [] && ItemsStand(cfg, d, i, items)
    ensures IsText(d) && At(d, i, ItemsText(items)) && i + |ItemsText(items)| < |d|
    ensures Blank(items[0].before) && Readable(items[0].value) && Blank(items[0].after)
    ensures var j := i + |items[0].before|;
      && NumbersAt(cfg, d, j, items[0].value)
      && (|items| > 1 ==>
            && ReadableItems(items[1..])
            && ItemsNumbersAt(cfg, d, j + |Text(items[0].value)| + |items[0].after| + 1, items[1..]))
  {
    hide NumbersAt, Text, ItemsText, Readable, Blank;
    assert ReadableItem(items[0]);
  }

  lemma StandsAloneFacts(d: bytes, i: nat, t: bytes)
    requires StandsAlone(d, i, t)
    ensures IsText(d) && At(d, i, t) && i + |t| < |d| && EndsNumber(d[i + |t|])
  {
    hide At, EndsNumber, IsText;
  }

  lemma StandsExactly(cfg: Config, d: bytes, i: nat, doc: Doc)
    ensures Stands(cfg, d, i, doc) <==>
      IsText(d) && At(d, i, Text(doc)) && i + |Text(doc)| < |d| && Readable(doc) && NumbersAt(cfg, d, i, doc)
  {
    hide At, IsText, Text, Readable, NumbersAt;
  }

  lemma ItemsStandExactly(cfg: Config, d: bytes, i: nat, items: seq<Item>)
    requires items != []
    ensures ItemsStand(cfg, d, i, items) <==>
      && IsText(d) && At(d, i, ItemsText(items)) && i + |ItemsText(items)| < |d|
      && ReadableItems(items) && ItemsNumbersAt(cfg, d, i, items)
  {
    hide At, IsText, ItemsText, ReadableItems, ItemsNumbersAt;
  }

  lemma ItemLayout(cfg: Config, d: bytes, i: nat, items: seq<Item>) returns (j: nat, k: nat, m: nat, c: int)
    requires items != [] && ItemsStand(cfg, d, i, items)
    ensures var x := items[0];
      && j == i + |x.before| && k == j + |Text(x.value)| && m == k + |x.after| && m + 1 < |d| && IsText(d)
      && Blank(x.before) && Blank(x.after)
      && At(d, i, x.before) && Stands(cfg, d, j, x.value) && At(d, k, x.after + [c])
      && c == (if |items| == 1 then ']' as int else ',' as int)
      && (|items| == 1 ==> m + 1 == i + |ItemsText(items)|)
      && (|items| > 1 ==>
            ItemsStand(cfg, d, m + 1, items[1..]) && m + 1 + |ItemsText(items[1..])| == i + |ItemsText(items)|)
  {
    hide *;
    ItemsStandUnfolds(cfg, d, i, items);
    j, k, m, c := ItemParts(d, i, items);
    StandsAloneFacts(d, j, Text(items[0].value));
    StandsExactly(cfg, d, j, items[0].value);
    if |items| > 1 { ItemsStandExactly(cfg, d, m + 1, items[1..]); }
  }

  lemma {:induction false} ItemsTextUnfolds(items: seq<Item>, c: int) returns (rest: bytes)
    requires items != [] && c == if |items| == 1 then ']' as int else ',' as int
    ensures var x := items[0];
      ItemsText(items) == x.before + (Text(x.value) + ((x.after + [c]) + rest))
    ensures rest == if |items| == 1 then [] else ItemsText(items[1..])
  {
    hide Text;
    rest := if |items| == 1 then [] else ItemsText(items[1..]);
  }

  lemma Enders()
    ensures EndsNumber(',' as int) && EndsNumber(']' as int) && EndsNumber('}' as int) && EndsNumber(0)
  {
  }

  lemma BlankEnds(d: bytes, k: nat, w: bytes, c: int)
    requires At(d, k, w + [c]) && Blank(w) && EndsNumber(c)
    ensures k < |d| && EndsNumber(d[k])
  {
    AtFacts(d, k, w + [c]);
  }

  lemma ItemsUnfold(items: seq<Item>, slots: nat)
    requires items != []
    ensures ItemValues(items) == [Meaning(items[0].value)] + ItemValues(items[1..])
    ensures ItemsFit(items, slots) <==> Fits(items[0].value, slots) && ItemsFit(items[1..], slots)
    ensures ItemsFit([], slots) && ItemValues([]) == [] && FromIndex([], 1) == map[]
  {
    hide Fits, Meaning;
    assert forall k :: 1 <= k < |items| ==> items[k] == items[1..][k - 1];
    if Fits(items[0].value, slots) && ItemsFit(items[1..], slots) {
      forall k | 0 <= k < |items|
        ensures Fits(items[k].value, slots)
      {
        if k > 0 { assert items[k] == items[1..][k - 1]; }
      }
    }
  }

  /** One turn of the array loop, given what its value and its separator are. */
  lemma ItemsTurn(cfg: Config, d: bytes, x: Lexeme, slots: nat, n: int, acc: map<Key, Tree>, v: Parsed, sep: Lexeme)
    requires IsText(d) && x.at <= x.next < |d| && Advances(x) && slots >= 2
    requires v == ProcessValue(cfg, d, x, slots - 1)
    requires v.Ok? ==> sep == NextToken(cfg, d, v.next)
    ensures var r := ParseItems(cfg, d, x, slots, n, acc);
      && (!v.Ok? ==> r == v)
      && (v.Ok? && sep.token == ArrEnd ==> r == Ok(TTable(acc[KInt(n) := v.value]), sep.next))
      && (v.Ok? && sep.token == Comma ==>
            r == ParseItems(cfg, d, NextToken(cfg, d, sep.next), slots, n + 1, acc[KInt(n) := v.value]))
  {
    hide ProcessValue, NextToken;
  }

  lemma {:induction false} ReadsItems(cfg: Config, d: bytes, i: nat, items: seq<Item>, slots: nat, n: int,
                                      acc: map<Key, Tree>)
    requires slots >= 2 && items != [] && ItemsStand(cfg, d, i, items)
    ensures ParseItems(cfg, d, NextToken(cfg, d, i), slots, n, acc) ==
      if ItemsFit(items, slots - 1)
      then Ok(TTable(acc + FromIndex(ItemValues(items), n)), i + |ItemsText(items)|) else TooManyNested
    decreases items, 3
  {
    hide *;
    var x := items[0];
    var j, k, m, c := ItemLayout(cfg, d, i, items);
    ItemsUnfold(items, slots - 1);
    ReadsDoc(cfg, d, j, x.value, slots - 1);
    StandsExactly(cfg, d, j, x.value);
    ItDecodes(cfg, d, j, x.value, slots - 1);
    SkipsTo(cfg, d, i, x.before);
    Singles();
    SkipsToSingle(cfg, d, k, x.after, c);
    var sep := NextToken(cfg, d, k);
    ItemsTurn(cfg, d, TokenAt(cfg, d, j), slots, n, acc, ProcessValue(cfg, d, TokenAt(cfg, d, j), slots - 1), sep);
    FromIndexStep(Meaning(x.value), ItemValues(items[1..]), n, acc);
    if |items| == 1 {
      assert items[1..] == [];
      NoItems(acc[KInt(n) := Meaning(x.value)], n + 1);
    } else {
      ReadsItems(cfg, d, m + 1, items[1..], slots, n + 1, acc[KInt(n) := Meaning(x.value)]);
    }
  }

  lemma NoItems(acc: map<Key, Tree>, n: int)
    ensures ItemValues([]) == [] && acc + FromIndex([], n) == acc && forall slots: nat :: ItemsFit([], slots)
  {
  }

  lemma NoneFit(items: seq<Item>, members: seq<Member>, slots: nat)
    ensures items == [] ==> ItemsFit(items, slots)
    ensures members == [] ==> MembersFit(members, slots)
  {
  }

  lemma Singles()
    ensures Single(']' as int) == Some(ArrEnd) && Single('}' as int) == Some(ObjEnd)
    ensures Single(',' as int) == Some(Comma) && Single(':' as int) == Some(Colon)
    ensures Single('[' as int) == Some(ArrBegin) && Single('{' as int) == Some(ObjBegin)
  {
  }

  lemma ReadsBracket(cfg: Config, d: bytes, i: nat, c: int)
    requires IsText(d) && At(d, i, [c]) && i + 1 < |d| && Single(c).Some?
    ensures !IsWhitespace(d[i]) && TokenAt(cfg, d, i) == Lexeme(Single(c).value, i, i + 1)
  {
    AtFacts(d, i, [c]);
  }

  lemma ArrayTextUnfolds(doc: Doc) returns (inner: bytes)
    requires doc.DArray?
    ensures Text(doc) == ['[' as int] + inner
    ensures inner == if doc.items == [] then doc.pad + [']' as int] else ItemsText(doc.items)
    ensures Readable(doc) ==> Blank(doc.pad) && ReadableItems(doc.items)
    ensures forall value :: Legal(value, doc) ==> Blank(doc.pad) && LegalItems(value, doc.items)
    ensures doc.items == [] ==> Meaning(doc) == EmptyTable
    ensures doc.items != [] ==> Meaning(doc) == TTable(map[] + FromIndex(ItemValues(doc.items), 1))
  {
    inner := if doc.items == [] then doc.pad + [']' as int] else ItemsText(doc.items);
    if doc.items == [] { NoItems(map[], 1); }
    assert map[] + FromIndex(ItemValues(doc.items), 1) == FromIndex(ItemValues(doc.items), 1);
  }

  lemma ArrayStart(cfg: Config, d: bytes, x: Lexeme, slots: nat)
    requires IsText(d) && x.at < x.next < |d| && x.token == ArrBegin
    ensures slots < 2 ==> ProcessValue(cfg, d, x, slots) == TooManyNested
    ensures slots >= 2 ==> var y := NextToken(cfg, d, x.next);
      ProcessValue(cfg, d, x, slots) ==
        if y.token == ArrEnd then Ok(EmptyTable, y.next) else ParseItems(cfg, d, y, slots, 1, map[])
  {
    hide NextToken, ParseItems;
  }

  /** What remains to be shown of a value, once it is known what it is and where it starts. */
  lemma ItDecodes(cfg: Config, d: bytes, i: nat, doc: Doc, slots: nat)
    requires IsText(d) && i < |d| && !IsWhitespace(d[i])
    ensures Decodes(cfg, d, i, doc, slots) <==>
      ProcessValue(cfg, d, TokenAt(cfg, d, i), slots) ==
        if Fits(doc, slots) then Ok(Meaning(doc), i + |Text(doc)|) else TooManyNested
    ensures doc.DArray? ==> (Fits(doc, slots) <==> slots >= 2 && ItemsFit(doc.items, slots - 1))
    ensures doc.DObject? ==> (Fits(doc, slots) <==> slots >= 3 && MembersFit(doc.members, slots - 2))
  {
    hide ProcessValue, TokenAt, Text, Meaning, ItemsFit, MembersFit, IsText;
  }

  /** The brackets of an array, and the items between them. */
  lemma ArrayLayout(cfg: Config, d: bytes, i: nat, doc: Doc)
    requires Stands(cfg, d, i, doc) && doc.DArray?
    ensures IsText(d) && At(d, i, ['[' as int]) && i + 1 < |d|
    ensures doc.items == [] ==>
      && Blank(doc.pad) && At(d, i + 1, doc.pad + [']' as int])
      && i + 1 + |doc.pad| + 1 < |d| && |Text(doc)| == 1 + |doc.pad| + 1
    ensures doc.items != [] ==> ItemsStand(cfg, d, i + 1, doc.items) && |Text(doc)| == 1 + |ItemsText(doc.items)|
  {
    hide *;
    var inner := ArrayTextUnfolds(doc);
    StandsExactly(cfg, d, i, doc);
    AtSplit(d, i, ['[' as int], inner);
    AtBound(d, i + 1, inner);
    ArrayNumbers(cfg, d, i, doc);
    if doc.items != [] { ItemsStandExactly(cfg, d, i + 1, doc.items); }
  }

  lemma AtBound(d: bytes, i: nat, s: bytes)
    requires At(d, i, s)
    ensures i + |s| <= |d|
  {
  }

  lemma ArrayNumbers(cfg: Config, d: bytes, i: nat, doc: Doc)
    requires IsText(d) && doc.DArray?
    ensures NumbersAt(cfg, d, i, doc) <==> doc.items == [] || ItemsNumbersAt(cfg, d, i + 1, doc.items)
  {
    hide ItemsNumbersAt;
  }

  lemma {:induction false} ReadsArray(cfg: Config, d: bytes, i: nat, doc: Doc, slots: nat)
    requires Stands(cfg, d, i, doc) && doc.DArray?
    ensures i < |d| && IsText(d) && !IsWhitespace(d[i]) && Decodes(cfg, d, i, doc, slots)
    decreases doc, 3
  {
    hide *;
    var inner := ArrayTextUnfolds(doc);
    ArrayLayout(cfg, d, i, doc);
    Singles();
    ReadsBracket(cfg, d, i, '[' as int);
    ArrayStart(cfg, d, TokenAt(cfg, d, i), slots);
    ItDecodes(cfg, d, i, doc, slots);
    if slots >= 2 {
      if doc.items == [] {
        SkipsToSingle(cfg, d, i + 1, doc.pad, ']' as int);
        NoneFit(doc.items, [], slots - 1);
      } else {
        FirstItem(cfg, d, i + 1, doc.items);
        ReadsItems(cfg, d, i + 1, doc.items, slots, 1, map[]);
      }
    }
  }

  lemma FirstItem(cfg: Config, d: bytes, i: nat, items: seq<Item>)
    requires items != [] && ItemsStand(cfg, d, i, items)
    ensures IsText(d) && i < |d| && NextToken(cfg, d, i).token != ArrEnd
  {
    hide NextToken, TokenAt, ItemsText, Text, At, Single, Stands, ItemsStand;
    var j, k, m, c := ItemLayout(cfg, d, i, items);
    FirstCharacter(cfg, d, j, items[0].value);
    SkipsTo(cfg, d, i, items[0].before);
    OnlyBracketsEnd(cfg, d, j);
  }

  lemma {:induction false} ReadsDoc(cfg: Config, d: bytes, i: nat, doc: Doc, slots: nat)
    requires Stands(cfg, d, i, doc)
    ensures i < |d| && IsText(d) && !IsWhitespace(d[i]) && Decodes(cfg, d, i, doc, slots)
    decreases doc, 4
  {
    hide *;
    if doc.DArray? {
      ReadsArray(cfg, d, i, doc, slots);
    } else if doc.DObject? {
      ReadsObject(cfg, d, i, doc, slots);
    } else {
      ReadsScalar(cfg, d, i, doc, slots);
    }
  }

  // ----- Objects -----

  /** The parts of a member in the text, and what follows them. */
  lemma {:induction false} MemberParts(d: bytes, i: nat, members: seq<Member>)
    returns (p: nat, q: nat, j: nat, k: nat, m: nat, c: int)
    requires IsText(d) && members != [] && Blank(members[0].after)
    requires At(d, i, MembersText(members)) && i + |MembersText(members)| < |d|
    ensures var x := members[0];
      && p == i + |x.before| && q == p + 1 + |CharsText(x.key)| && j == q + |x.afterKey| + 1 + |x.beforeValue|
      && k == j + |Text(x.value)| && m == k + |x.after| && m + 1 < |d|
      && At(d, i, x.before) && At(d, p, [QUOTE] + CharsText(x.key)) && At(d, q, x.afterKey + [':' as int])
      && At(d, q + |x.afterKey| + 1, x.beforeValue) && StandsAlone(d, j, Text(x.value)) && At(d, k, x.after + [c])
      && c == (if |members| == 1 then '}' as int else ',' as int)
      && (|members| == 1 ==> m + 1 == i + |MembersText(members)|)
      && (|members| > 1 ==>
            && At(d, m + 1, MembersText(members[1..]))
            && m + 1 + |MembersText(members[1..])| == i + |MembersText(members)|)
  {
    hide *;
    var x := members[0];
    var t, key, colon := Text(x.value), [QUOTE] + CharsText(x.key), x.afterKey + [':' as int];
    c := if |members| == 1 then '}' as int else ',' as int;
    var rest := MembersTextUnfolds(members, c);
    var tail := x.beforeValue + (t + ((x.after + [c]) + rest));
    p, q := i + |x.before|, i + |x.before| + |key|;
    j := q + |x.afterKey| + 1 + |x.beforeValue|;
    AtSplit(d, i, x.before, key + (colon + tail));
    AtSplit(d, p, key, colon + tail);
    AtSplit(d, q, colon, tail);
    Enders();
    k, m := ValueLayout(d, q + |colon|, x.beforeValue, t, x.after, c, rest);
  }

  lemma {:induction false} MembersTextUnfolds(members: seq<Member>, c: int) returns (rest: bytes)
    requires members != [] && c == if |members| == 1 then '}' as int else ',' as int
    ensures var x := members[0];
      MembersText(members) ==
        x.before + (([QUOTE] + CharsText(x.key)) + ((x.afterKey + [':' as int])
        + (x.beforeValue + (Text(x.value) + ((x.after + [c]) + rest)))))
    ensures rest == if |members| == 1 then [] else MembersText(members[1..])
  {
    hide Text, CharsText;
    rest := if |members| == 1 then [] else MembersText(members[1..]);
  }

  lemma MembersStandUnfolds(cfg: Config, d: bytes, i: nat, members: seq<Member>)
    requires members != [] && MembersStand(cfg, d, i, members)
    ensures IsText(d) && At(d, i, MembersText(members)) && i + |MembersText(members)| < |d|
    ensures var x := members[0];
      && Blank(x.before) && ReadableString(x.key) && Blank(x.afterKey)
      && Blank(x.beforeValue) && Readable(x.value) && Blank(x.after)
    ensures var x := members[0];
      var j := i + |x.before| + 1 + |CharsText(x.key)| + |x.afterKey| + 1 + |x.beforeValue|;
      && NumbersAt(cfg, d, j, x.value)
      && (|members| > 1 ==>
            && ReadableMembers(members[1..])
            && MembersNumbersAt(cfg, d, j + |Text(x.value)| + |x.after| + 1, members[1..]))
  {
    hide NumbersAt, Text, MembersText, Readable, Blank, ReadableString, CharsText;
    assert ReadableMember(members[0]);
  }

  lemma MembersStandExactly(cfg: Config, d: bytes, i: nat, members: seq<Member>)
    requires members != []
    ensures MembersStand(cfg, d, i, members) <==>
      && IsText(d) && At(d, i, MembersText(members)) && i + |MembersText(members)| < |d|
      && ReadableMembers(members) && MembersNumbersAt(cfg, d, i, members)
  {
    hide At, IsText, MembersText, ReadableMembers, MembersNumbersAt;
  }

  lemma MemberLayout(cfg: Config, d: bytes, i: nat, members: seq<Member>)
    returns (p: nat, q: nat, j: nat, k: nat, m: nat, c: int)
    requires members != [] && MembersStand(cfg, d, i, members)
    ensures var x := members[0];
      && p == i + |x.before| && q == p + 1 + |CharsText(x.key)| && j == q + |x.afterKey| + 1 + |x.beforeValue|
      && k == j + |Text(x.value)| && m == k + |x.after| && m + 1 < |d| && IsText(d)
      && Blank(x.before) && ReadableString(x.key) && Blank(x.afterKey) && Blank(x.beforeValue) && Blank(x.after)
      && At(d, i, x.before) && At(d, p, [QUOTE] + CharsText(x.key)) && At(d, q, x.afterKey + [':' as int])
      && At(d, q + |x.afterKey| + 1, x.beforeValue) && Stands(cfg, d, j, x.value) && At(d, k, x.after + [c])
      && c == (if |members| == 1 then '}' as int else ',' as int)
      && (|members| == 1 ==> m + 1 == i + |MembersText(members)|)
      && (|members| > 1 ==>
            && MembersStand(cfg, d, m + 1, members[1..])
            && m + 1 + |MembersText(members[1..])| == i + |MembersText(members)|)
  {
    hide *;
    MembersStandUnfolds(cfg, d, i, members);
    p, q, j, k, m, c := MemberParts(d, i, members);
    StandsAloneFacts(d, j, Text(members[0].value));
    StandsExactly(cfg, d, j, members[0].value);
    if |members| > 1 { MembersStandExactly(cfg, d, m + 1, members[1..]); }
  }

  lemma MembersUnfold(members: seq<Member>, slots: nat)
    requires members != []
    ensures MemberPairs(members) ==
      [(StringMeaning(members[0].key), Meaning(members[0].value))] + MemberPairs(members[1..])
    ensures MembersFit(members, slots) <==> Fits(members[0].value, slots) && MembersFit(members[1..], slots)
  {
    hide Fits, Meaning, StringMeaning;
    assert forall k :: 1 <= k < |members| ==> members[k] == members[1..][k - 1];
    if Fits(members[0].value, slots) && MembersFit(members[1..], slots) {
      forall k | 0 <= k < |members|
        ensures Fits(members[k].value, slots)
      {
        if k > 0 { assert members[k] == members[1..][k - 1]; }
      }
    }
  }

  /** One turn of the object loop, given what its value and its separator are. */
  lemma MembersTurn(cfg: Config, d: bytes, x: Lexeme, slots: nat, acc: map<Key, Tree>, y: Lexeme, v: Parsed,
                    sep: Lexeme)
    requires IsText(d) && x.at <= x.next < |d| && Advances(x) && slots >= 3 && x.token.Str?
    requires NextToken(cfg, d, x.next).token == Colon
    requires y == NextToken(cfg, d, NextToken(cfg, d, x.next).next)
    requires v == ProcessValue(cfg, d, y, slots - 2)
    requires v.Ok? ==> sep == NextToken(cfg, d, v.next)
    ensures var r := ParseMembers(cfg, d, x, slots, acc);
      && (!v.Ok? ==> r == v)
      && (v.Ok? && sep.token == ObjEnd ==> r == Ok(TTable(acc[KStr(x.token.s) := v.value]), sep.next))
      && (v.Ok? && sep.token == Comma ==>
            r == ParseMembers(cfg, d, NextToken(cfg, d, sep.next), slots, acc[KStr(x.token.s) := v.value]))
  {
    hide ProcessValue, NextToken;
  }

  lemma NoMembers(acc: map<Key, Tree>)
    ensures MemberPairs([]) == [] && acc + Assigned([]) == acc
  {
  }

  lemma {:induction false} ReadsMembers(cfg: Config, d: bytes, i: nat, members: seq<Member>, slots: nat,
                                        acc: map<Key, Tree>)
    requires slots >= 3 && members != [] && MembersStand(cfg, d, i, members)
    ensures NextToken(cfg, d, i).token.Str?
    ensures ParseMembers(cfg, d, NextToken(cfg, d, i), slots, acc) ==
      if MembersFit(members, slots - 2)
      then Ok(TTable(acc + Assigned(MemberPairs(members))), i + |MembersText(members)|) else TooManyNested
    decreases members, 3
  {
    hide *;
    var x := members[0];
    var p, q, j, k, m, c := MemberLayout(cfg, d, i, members);
    MembersUnfold(members, slots - 2);
    StringToken(cfg, d, p, x.key);
    SkipsTo(cfg, d, i, x.before);
    Singles();
    SkipsToSingle(cfg, d, q, x.afterKey, ':' as int);
    ReadsDoc(cfg, d, j, x.value, slots - 2);
    StandsExactly(cfg, d, j, x.value);
    ItDecodes(cfg, d, j, x.value, slots - 2);
    SkipsTo(cfg, d, q + |x.afterKey| + 1, x.beforeValue);
    SkipsToSingle(cfg, d, k, x.after, c);
    var y, sep := TokenAt(cfg, d, j), NextToken(cfg, d, k);
    MembersTurn(cfg, d, TokenAt(cfg, d, p), slots, acc, y, ProcessValue(cfg, d, y, slots - 2), sep);
    var pair := (StringMeaning(x.key), Meaning(x.value));
    AssignedStep(pair, MemberPairs(members[1..]), acc);
    if |members| == 1 {
      assert members[1..] == [];
      NoMembers(acc[KStr(pair.0) := pair.1]);
      NoneFit([], members[1..], slots - 2);
    } else {
      ReadsMembers(cfg, d, m + 1, members[1..], slots, acc[KStr(pair.0) := pair.1]);
    }
  }

  lemma ObjectTextUnfolds(doc: Doc) returns (inner: bytes)
    requires doc.DObject?
    ensures Text(doc) == ['{' as int] + inner
    ensures inner == if doc.members == [] then doc.pad + ['}' as int] else MembersText(doc.members)
    ensures Readable(doc) ==> Blank(doc.pad) && ReadableMembers(doc.members)
    ensures forall value :: Legal(value, doc) ==> Blank(doc.pad) && LegalMembers(value, doc.members)
    ensures doc.members == [] ==> Meaning(doc) == EmptyTable
    ensures doc.members != [] ==> Meaning(doc) == TTable(map[] + Assigned(MemberPairs(doc.members)))
  {
    inner := if doc.members == [] then doc.pad + ['}' as int] else MembersText(doc.members);
    if doc.members == [] { NoMembers(map[]); }
    assert map[] + Assigned(MemberPairs(doc.members)) == Assigned(MemberPairs(doc.members));
  }

  lemma ObjectStart(cfg: Config, d: bytes, x: Lexeme, slots: nat)
    requires IsText(d) && x.at < x.next < |d| && x.token == ObjBegin
    ensures slots < 3 ==> ProcessValue(cfg, d, x, slots) == TooManyNested
    ensures slots >= 3 ==> var y := NextToken(cfg, d, x.next);
      ProcessValue(cfg, d, x, slots) ==
        if y.token == ObjEnd then Ok(EmptyTable, y.next) else ParseMembers(cfg, d, y, slots, map[])
  {
    hide NextToken, ParseMembers;
  }

  /** The braces of an object, and the members between them. */
  lemma ObjectLayout(cfg: Config, d: bytes, i: nat, doc: Doc)
    requires Stands(cfg, d, i, doc) && doc.DObject?
    ensures IsText(d) && At(d, i, ['{' as int]) && i + 1 < |d|
    ensures doc.members == [] ==>
      && Blank(doc.pad) && At(d, i + 1, doc.pad + ['}' as int])
      && i + 1 + |doc.pad| + 1 < |d| && |Text(doc)| == 1 + |doc.pad| + 1
    ensures doc.members != [] ==>
      MembersStand(cfg, d, i + 1, doc.members) && |Text(doc)| == 1 + |MembersText(doc.members)|
  {
    hide *;
    var inner := ObjectTextUnfolds(doc);
    StandsExactly(cfg, d, i, doc);
    AtSplit(d, i, ['{' as int], inner);
    AtBound(d, i + 1, inner);
    ObjectNumbers(cfg, d, i, doc);
    if doc.members != [] { MembersStandExactly(cfg, d, i + 1, doc.members); }
  }

  lemma ObjectNumbers(cfg: Config, d: bytes, i: nat, doc: Doc)
    requires IsText(d) && doc.DObject?
    ensures NumbersAt(cfg, d, i, doc) <==> doc.members == [] || MembersNumbersAt(cfg, d, i + 1, doc.members)
  {
    hide MembersNumbersAt;
  }

  lemma {:induction false} ReadsObject(cfg: Config, d: bytes, i: nat, doc: Doc, slots: nat)
    requires Stands(cfg, d, i, doc) && doc.DObject?
    ensures i < |d| && IsText(d) && !IsWhitespace(d[i]) && Decodes(cfg, d, i, doc, slots)
    decreases doc, 3
  {
    hide *;
    var inner := ObjectTextUnfolds(doc);
    ObjectLayout(cfg, d, i, doc);
    Singles();
    ReadsBracket(cfg, d, i, '{' as int);
    ObjectStart(cfg, d, TokenAt(cfg, d, i), slots);
    ItDecodes(cfg, d, i, doc, slots);
    if slots >= 3 {
      if doc.members == [] {
        SkipsToSingle(cfg, d, i + 1, doc.pad, '}' as int);
        NoneFit([], doc.members, slots - 2);
      } else {
        ReadsMembers(cfg, d, i + 1, doc.members, slots, map[]);
      }
    }
  }

  // ----- Whole texts -----

  /** The text, or the part of it before a NUL. */
  ghost predicate UpToNul(text: bytes, t: bytes) {
    |t| <= |text| && text[..|t|] == t && (|t| == |text| || text[|t|] == 0)
  }

  /** The text is doc with blanks around it, up to a NUL if there is one. */
  ghost predicate IsRendering(cfg: Config, text: bytes, before: bytes, doc: Doc, after: bytes) {
    && UpToNul(text, before + Text(doc) + after) && Blank(before) && Blank(after)
    && Readable(doc) && NumbersAt(cfg, text + [0], |before|, doc)
  }

  lemma RenderingLayout(cfg: Config, text: bytes, before: bytes, doc: Doc, after: bytes) returns (d: bytes, k: nat)
    requires IsRendering(cfg, text, before, doc, after)
    ensures d == text + [0] && IsText(d) && k == |before| + |Text(doc)|
    ensures At(d, 0, before) && Stands(cfg, d, |before|, doc) && At(d, k, after)
    ensures Blank(before) && Blank(after) && k + |after| < |d| && d[k + |after|] == 0
  {
    hide Text, Readable, NumbersAt;
    d, k := text + [0], |before| + |Text(doc)|;
    var t := before + Text(doc) + after;
    assert d[0..0 + |t|] == text[..|t|];
    assert t == before + (Text(doc) + after);
    AtSplit(d, 0, before, Text(doc) + after);
    AtSplit(d, |before|, Text(doc), after);
  }

  /** Every rendering decodes to its value, exactly when the Lua stack has room for its nesting. */
  lemma ReadsRendering(cfg: Config, text: bytes, before: bytes, doc: Doc, after: bytes, slots: nat)
    requires IsRendering(cfg, text, before, doc, after) && !LooksLikeUtf16(text)
    ensures Decode(cfg, text, slots) == if Fits(doc, slots) then Value(Meaning(doc)) else TooDeep
    ensures Decode(cfg, text, slots) == TooDeep <==> Needs(doc) > slots
  {
    FitsExactly(doc, slots);
    hide Needs, LooksLikeUtf16, NextToken, TokenAt, ProcessValue, Text, Meaning, Fits, At, Blank, Stands, IsRendering,
         IsText;
    var d, k := RenderingLayout(cfg, text, before, doc, after);
    ReadsDoc(cfg, d, |before|, doc, slots);
    SkipsTo(cfg, d, 0, before);
    SkipsTo(cfg, d, k, after);
    EndToken(cfg, d, k + |after|);
  }

  /** Where there should be a value and there is none, the error says what is there instead, and where. */
  lemma {:induction false} RefusesStart(cfg: Config, text: bytes, before: bytes, c: int, slots: nat)
    requires !LooksLikeUtf16(text) && Blank(before)
    requires var k := |before|; k <= |text| && text[..k] == before && c == if k < |text| then text[k] else 0
    requires c in {0, ',' as int, ':' as int, ']' as int, '}' as int}
    ensures Decode(cfg, text, slots) == Failed("value",
      if c == 0 then End else if c == ',' as int then Comma else if c == ':' as int then Colon
      else if c == ']' as int then ArrEnd else ObjEnd, |before|)
  {
    hide LooksLikeUtf16, At, Blank, NextToken, TokenAt, IsText, IsWhitespace;
    var d := text + [0];
    TextOf(text);
    PrefixAt(d, before);
    assert d[|before|] == c;
    BeginsNoValue(cfg, d, |before|);
    SkipsTo(cfg, d, 0, before);
  }

  lemma BeginsNoValue(cfg: Config, d: bytes, i: nat)
    requires IsText(d) && i < |d| && d[i] in {0, ',' as int, ':' as int, ']' as int, '}' as int}
    ensures !IsWhitespace(d[i])
    ensures var x := TokenAt(cfg, d, i);
      x.at == i && x.token ==
        if d[i] == 0 then End else if d[i] == ',' as int then Comma else if d[i] == ':' as int then Colon
        else if d[i] == ']' as int then ArrEnd else ObjEnd
  {
  }

  lemma PrefixAt(d: bytes, s: bytes)
    requires |s| <= |d| && d[..|s|] == s
    ensures At(d, 0, s)
  {
  }

  lemma TextOf(text: bytes)
    ensures IsText(text + [0])
  {
  }

  /** A value with something behind it is refused, and the error names what is there and where. */
  lemma {:induction false} RefusesTrailing(cfg: Config, text: bytes, before: bytes, doc: Doc, after: bytes, slots: nat)
    requires !LooksLikeUtf16(text) && Blank(before) && Blank(after) && Fits(doc, slots)
    requires var k := |before + Text(doc) + after|;
      && k < |text| && text[..k] == before + Text(doc) + after && text[k] != 0 && !IsWhitespace(text[k])
    requires Readable(doc) && NumbersAt(cfg, text + [0], |before|, doc)
    ensures var x := TokenAt(cfg, text + [0], |before + Text(doc) + after|);
      Decode(cfg, text, slots) == Failed("the end", x.token, x.at) && x.token != End
  {
    hide LooksLikeUtf16, NextToken, TokenAt, ProcessValue, Text, Meaning, Fits, At, Blank, Stands, IsText, Readable,
         NumbersAt, IsWhitespace;
    var k := |before + Text(doc) + after|;
    var d := TrailingLayout(cfg, text, before, doc, after, k);
    ReadsDoc(cfg, d, |before|, doc, slots);
    SkipsTo(cfg, d, 0, before);
    SkipsTo(cfg, d, |before| + |Text(doc)|, after);
    NoEnd(cfg, d, k);
  }

  lemma TrailingLayout(cfg: Config, text: bytes, before: bytes, doc: Doc, after: bytes, k: nat) returns (d: bytes)
    requires k == |before + Text(doc) + after| < |text| && text[..k] == before + Text(doc) + after
    requires Readable(doc) && NumbersAt(cfg, text + [0], |before|, doc)
    ensures d == text + [0] && IsText(d) && k + 1 < |d| && d[k] == text[k]
    ensures At(d, 0, before) && Stands(cfg, d, |before|, doc) && At(d, |before| + |Text(doc)|, after)
  {
    hide Text, Readable, NumbersAt;
    d := text + [0];
    var t := before + Text(doc) + after;
    assert d[0..0 + |t|] == text[..|t|];
    assert t == before + (Text(doc) + after);
    AtSplit(d, 0, before, Text(doc) + after);
    AtSplit(d, |before|, Text(doc), after);
  }

  lemma NoEnd(cfg: Config, d: bytes, i: nat)
    requires IsText(d) && i < |d| && d[i] != 0 && !IsWhitespace(d[i])
    ensures TokenAt(cfg, d, i).token != End
  {
    hide IsInvalidNumber, NextString, NextNumber, Matches;
  }

  lemma EndToken(cfg: Config, d: bytes, i: nat)
    requires IsText(d) && i < |d| && d[i] == 0
    ensures TokenAt(cfg, d, i).token == End
  {
  }

  // ----- No rendering holds a NUL -----

  lemma {:induction false} CharsHaveNoNul(cs: seq<Spelling>)
    requires ReadableString(cs)
    ensures 0 !in CharsText(cs)
  {
    if cs != [] {
      SpellingHasNoNul(cs[0]);
      CharsHaveNoNul(cs[1..]);
    }
  }

  lemma SpellingHasNoNul(c: Spelling)
    requires ReadableSpelling(c)
    ensures 0 !in SpellingText(c)
  {
    match c
    case Raw(_) =>
    case Short(_) =>
    case Unit(hex) => HexHasNoNul(hex);
    case Pair(high, low) =>
      HexHasNoNul(high);
      HexHasNoNul(low);
  }

  lemma HexHasNoNul(h: bytes)
    requires IsHex4(h)
    ensures 0 !in h
  {
    assert HexDigit2Int(0) < 0;
  }

  lemma BlankHasNoNul(w: bytes)
    requires Blank(w)
    ensures 0 !in w
  {
  }

  lemma {:induction false} TextHasNoNul(doc: Doc)
    requires Readable(doc)
    ensures 0 !in Text(doc)
    decreases doc, 2
  {
    match doc
    case DString(cs) => CharsHaveNoNul(cs);
    case DArray(pad, items) =>
      BlankHasNoNul(pad);
      if items != [] { ItemsHaveNoNul(items); }
    case DObject(pad, members) =>
      BlankHasNoNul(pad);
      if members != [] { MembersHaveNoNul(members); }
    case _ =>
  }

  lemma {:induction false} ItemsHaveNoNul(items: seq<Item>)
    requires items != [] && ReadableItems(items)
    ensures 0 !in ItemsText(items)
    decreases items, 1
  {
    hide Text, Readable, Blank;
    var x := items[0];
    assert ReadableItem(x);
    BlankHasNoNul(x.before);
    BlankHasNoNul(x.after);
    TextHasNoNul(x.value);
    if |items| > 1 { ItemsHaveNoNul(items[1..]); }
  }

  lemma {:induction false} MembersHaveNoNul(members: seq<Member>)
    requires members != [] && ReadableMembers(members)
    ensures 0 !in MembersText(members)
    decreases members, 1
  {
    hide Text, Readable, Blank, CharsText, ReadableString;
    var x := members[0];
    assert ReadableMember(x);
    BlankHasNoNul(x.before);
    BlankHasNoNul(x.afterKey);
    BlankHasNoNul(x.beforeValue);
    BlankHasNoNul(x.after);
    CharsHaveNoNul(x.key);
    TextHasNoNul(x.value);
    if |members| > 1 { MembersHaveNoNul(members[1..]); }
  }

  /** A rendering is the whole of the text exactly if there is no NUL in the text. */
  lemma WholeExactly(cfg: Config, text: bytes, before: bytes, doc: Doc, after: bytes)
    requires IsRendering(cfg, text, before, doc, after)
    ensures before + Text(doc) + after == text <==> 0 !in text
  {
    hide Text, NumbersAt, Readable;
    TextHasNoNul(doc);
    BlankHasNoNul(before);
    BlankHasNoNul(after);
    var t := before + Text(doc) + after;
    assert 0 !in t;
    if |t| < |text| {
      assert text[|t|] == 0;
    } else {
      assert text[..|t|] == text;
    }
  }

  // ----- Texts by the standard -----

  lemma LegalIsReadable(cs: seq<Spelling>)
    requires LegalString(cs)
    ensures ReadableString(cs)
  {
  }

  ghost predicate LegalItems(value: bytes -> Double, items: seq<Item>) {
    forall k :: 0 <= k < |items| ==> LegalItem(value, items[k])
  }

  ghost predicate LegalMembers(value: bytes -> Double, members: seq<Member>) {
    forall k :: 0 <= k < |members| ==> LegalMember(value, members[k])
  }

  lemma LegalItemParts(value: bytes -> Double, items: seq<Item>)
    requires items != [] && LegalItems(value, items)
    ensures Blank(items[0].before) && Blank(items[0].after) && Legal(value, items[0].value)
    ensures LegalItems(value, items[1..])
  {
    hide Blank, Legal;
    assert LegalItem(value, items[0]);
  }

  lemma ItemsStandFold(cfg: Config, d: bytes, i: nat, items: seq<Item>, m: nat)
    requires items != [] && Blank(items[0].before) && Blank(items[0].after)
    requires At(d, i, ItemsText(items)) && i + |ItemsText(items)| < |d|
    requires Stands(cfg, d, i + |items[0].before|, items[0].value)
    requires m == i + |items[0].before| + |Text(items[0].value)| + |items[0].after| + 1
    requires |items| > 1 ==> ItemsStand(cfg, d, m, items[1..])
    ensures ItemsStand(cfg, d, i, items)
  {
    hide NumbersAt, Text, ItemsText, Readable, Blank, At;
    forall k | 0 <= k < |items|
      ensures ReadableItem(items[k])
    {
      if k > 0 { assert items[k] == items[1..][k - 1]; }
    }
  }

  lemma {:induction false} LegalItemsStand(cfg: Config, value: bytes -> Double, d: bytes, i: nat, items: seq<Item>)
    requires ReadsNumbers(cfg.strtod, value) && items != [] && LegalItems(value, items)
    requires IsText(d) && At(d, i, ItemsText(items)) && i + |ItemsText(items)| < |d|
    ensures ItemsStand(cfg, d, i, items)
    decreases items, 1
  {
    hide *;
    LegalItemParts(value, items);
    var j, k, m, c := ItemParts(d, i, items);
    LegalStands(cfg, value, d, j, items[0].value);
    if |items| > 1 { LegalItemsStand(cfg, value, d, m + 1, items[1..]); }
    ItemsStandFold(cfg, d, i, items, m + 1);
  }

  lemma LegalMemberParts(value: bytes -> Double, members: seq<Member>)
    requires members != [] && LegalMembers(value, members)
    ensures var x := members[0];
      && Blank(x.before) && ReadableString(x.key) && Blank(x.afterKey)
      && Blank(x.beforeValue) && Legal(value, x.value) && Blank(x.after)
    ensures LegalMembers(value, members[1..])
  {
    hide Blank, Legal, ReadableSpelling;
    assert LegalMember(value, members[0]);
  }

  lemma MembersStandFold(cfg: Config, d: bytes, i: nat, members: seq<Member>, j: nat, m: nat)
    requires members != []
    requires var x := members[0];
      && Blank(x.before) && ReadableString(x.key) && Blank(x.afterKey) && Blank(x.beforeValue) && Blank(x.after)
      && j == i + |x.before| + 1 + |CharsText(x.key)| + |x.afterKey| + 1 + |x.beforeValue|
      && m == j + |Text(x.value)| + |x.after| + 1 && Stands(cfg, d, j, x.value)
    requires At(d, i, MembersText(members)) && i + |MembersText(members)| < |d|
    requires |members| > 1 ==> MembersStand(cfg, d, m, members[1..])
    ensures MembersStand(cfg, d, i, members)
  {
    hide NumbersAt, Text, MembersText, Readable, Blank, At, ReadableString, CharsText;
    forall k | 0 <= k < |members|
      ensures ReadableMember(members[k])
    {
      if k > 0 { assert members[k] == members[1..][k - 1]; }
    }
  }

  lemma {:induction false} LegalMembersStand(cfg: Config, value: bytes -> Double, d: bytes, i: nat,
                                             members: seq<Member>)
    requires ReadsNumbers(cfg.strtod, value) && members != [] && LegalMembers(value, members)
    requires IsText(d) && At(d, i, MembersText(members)) && i + |MembersText(members)| < |d|
    ensures MembersStand(cfg, d, i, members)
    decreases members, 1
  {
    hide *;
    LegalMemberParts(value, members);
    var p, q, j, k, m, c := MemberParts(d, i, members);
    LegalStands(cfg, value, d, j, members[0].value);
    if |members| > 1 { LegalMembersStand(cfg, value, d, m + 1, members[1..]); }
    MembersStandFold(cfg, d, i, members, j, m + 1);
  }

  lemma LegalScalarStands(cfg: Config, value: bytes -> Double, d: bytes, i: nat, doc: Doc)
    requires ReadsNumbers(cfg.strtod, value) && Legal(value, doc) && StandsAlone(d, i, Text(doc))
    requires !doc.DArray? && !doc.DObject?
    ensures Stands(cfg, d, i, doc)
  {
    hide ReadsNumbers, TakesNumber, CharsText, IsJsonNumber, EndsNumber;
    if doc.DNumber? {
      JsonNumberIsTaken(cfg, d, i, doc.text);
      NumberIsRead(cfg.strtod, value, d, i, doc.text);
    }
  }

  lemma NumberIsRead(f: Strtod, value: bytes -> Double, d: bytes, i: nat, t: bytes)
    requires ReadsNumbers(f, value) && IsJsonNumber(t) && StandsAlone(d, i, t)
    ensures f(d, i) == (i + |t|, value(t))
  {
    hide IsJsonNumber, StandsAlone;
    assert ReadsNumber(f, value, d, i, t);
  }

  /** A text by the standard, where nothing follows that a number could go on with, is read as such. */
  lemma {:induction false} LegalStands(cfg: Config, value: bytes -> Double, d: bytes, i: nat, doc: Doc)
    requires ReadsNumbers(cfg.strtod, value) && Legal(value, doc) && StandsAlone(d, i, Text(doc))
    ensures Stands(cfg, d, i, doc)
    decreases doc, 2
  {
    hide *;
    StandsAloneFacts(d, i, Text(doc));
    StandsExactly(cfg, d, i, doc);
    if doc.DArray? {
      var inner := ArrayTextUnfolds(doc);
      AtSplit(d, i, ['[' as int], inner);
      ArrayNumbers(cfg, d, i, doc);
      if doc.items != [] {
        LegalItemsStand(cfg, value, d, i + 1, doc.items);
        ItemsStandExactly(cfg, d, i + 1, doc.items);
      }
      ArrayIsReadable(doc);
    } else if doc.DObject? {
      var inner := ObjectTextUnfolds(doc);
      AtSplit(d, i, ['{' as int], inner);
      ObjectNumbers(cfg, d, i, doc);
      if doc.members != [] {
        LegalMembersStand(cfg, value, d, i + 1, doc.members);
        MembersStandExactly(cfg, d, i + 1, doc.members);
      }
      ObjectIsReadable(doc);
    } else {
      LegalScalarStands(cfg, value, d, i, doc);
    }
  }

  lemma ArrayIsReadable(doc: Doc)
    requires doc.DArray?
    ensures Readable(doc) <==> Blank(doc.pad) && (doc.items == [] || ReadableItems(doc.items))
  {
    hide ReadableItem;
  }

  lemma ObjectIsReadable(doc: Doc)
    requires doc.DObject?
    ensures Readable(doc) <==> Blank(doc.pad) && (doc.members == [] || ReadableMembers(doc.members))
  {
    hide ReadableMember;
  }

  // ----- The main result -----

  lemma LegalIsRendering(cfg: Config, value: bytes -> Double, before: bytes, doc: Doc, after: bytes)
    requires ReadsNumbers(cfg.strtod, value) && Legal(value, doc) && Blank(before) && Blank(after)
    ensures var text := before + Text(doc) + after;
      IsRendering(cfg, text, before, doc, after) && !LooksLikeUtf16(text)
  {
    hide Text, ReadsNumbers, Legal, At, EndsNumber, Blank, Readable, NumbersAt, Stands;
    var text := before + Text(doc) + after;
    var d := text + [0];
    assert d == before + (Text(doc) + ((after + [0]) + []));
    assert At(d, 0, d) by { WholeAt(d); }
    Enders();
    var k, m := ValueLayout(d, 0, before, Text(doc), after, 0, []);
    LegalStands(cfg, value, d, |before|, doc);
    StandsExactly(cfg, d, |before|, doc);
    assert text[..|text|] == text;
    WholeExactly(cfg, text, before, doc, after);
  }

  lemma WholeAt(d: bytes)
    ensures At(d, 0, d)
  {
  }

  /**
   Every rendering of a value that the standard allows, with blanks around it,
   decodes to that value: exactly when the Lua stack has room for its nesting.
   */
  lemma DecodesEveryRendering(cfg: Config, value: bytes -> Double, before: bytes, doc: Doc, after: bytes, slots: nat)
    requires ReadsNumbers(cfg.strtod, value) && Legal(value, doc) && Blank(before) && Blank(after)
    ensures Decode(cfg, before + Text(doc) + after, slots) ==
      if Fits(doc, slots) then Value(Meaning(doc)) else TooDeep
  {
    hide *;
    LegalIsRendering(cfg, value, before, doc, after);
    ReadsRendering(cfg, before + Text(doc) + after, before, doc, after, slots);
  }
}
