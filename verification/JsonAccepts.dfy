/** What the decoder accepts: exactly the renderings of values, with numbers as strtod takes them where they stand. */
module JsonAccepts {
  import opened Bytes
  import opened Lua
  import opened JsonString
  import opened JsonDecode
  import opened JsonText
  import opened JsonReads
  import opened Wrappers

  // ----- Strings -----

  lemma Cut(d: bytes, a: nat, b: nat, c: nat)
    requires a <= b <= c <= |d|
    ensures d[a..c] == d[a..b] + d[b..c]
  {
  }

  lemma HexAt(d: bytes, i: nat)
    requires IsText(d) && i < |d| && DecodeHex4(d, i) >= 0
    ensures i + 4 < |d| && IsHex4(d[i..i + 4]) && Hex4Value(d[i..i + 4]) == DecodeHex4(d, i)
  {
    hide HexDigit2Int;
    var h := d[i..i + 4];
    assert h[0] == d[i] && h[1] == d[i + 1] && h[2] == d[i + 2] && h[3] == d[i + 3];
  }

  /** An accepted \u escape is one of the two spellings. */
  lemma EscapeAt(d: bytes, i: nat) returns (c: Spelling)
    requires IsText(d) && i + 2 < |d| && d[i] == BACKSLASH && d[i + 1] == 'u' as int && UnicodeEscape(d, i).Some?
    ensures ReadableSpelling(c) && i + |SpellingText(c)| < |d| && d[i..i + |SpellingText(c)|] == SpellingText(c)
    ensures UnicodeEscape(d, i).value == Escape(SpellingMeaning(c), |SpellingText(c)|)
  {
    hide CodepointToUtf8, DecodeHex4, HexDigit2Int;
    HexAt(d, i + 2);
    var first := d[i + 2..i + 6];
    if IsSurrogate(DecodeHex4(d, i + 2)) {
      HexAt(d, i + 8);
      var second := d[i + 8..i + 12];
      c := Pair(first, second);
      assert d[i..i + 12] == [BACKSLASH, 'u' as int] + first + [BACKSLASH, 'u' as int] + second;
    } else {
      c := Unit(first);
      assert d[i..i + 6] == [BACKSLASH, 'u' as int] + first;
    }
  }

  /** The character of an accepted string at i, as it is spelled there. */
  lemma SpellingAt(d: bytes, i: nat) returns (c: Spelling)
    requires IsText(d) && i < |d| && d[i] != QUOTE && LexString(d, i).Lexed?
    ensures ReadableSpelling(c) && 1 <= |SpellingText(c)| && i + |SpellingText(c)| < |d|
    ensures d[i..i + |SpellingText(c)|] == SpellingText(c)
    ensures LexString(d, i) == LexString(d, i + |SpellingText(c)|).Prepend(SpellingMeaning(c))
  {
    hide UnicodeEscape, Escape2Char, ShortMeaning, CodepointToUtf8, HexDigit2Int;
    if d[i] == BACKSLASH {
      EscapeTable(d[i + 1]);
      if d[i + 1] == 'u' as int {
        c := EscapeAt(d, i);
      } else {
        c := Short(d[i + 1]);
      }
    } else {
      c := Raw(d[i]);
    }
  }

  /** A string that is accepted is a run of spellings, and decodes to what it spells. */
  lemma {:induction false} AcceptedString(d: bytes, i: nat) returns (cs: seq<Spelling>)
    requires IsText(d) && i < |d| && LexString(d, i).Lexed?
    ensures var r := LexString(d, i);
      ReadableString(cs) && d[i..r.next] == CharsText(cs) && StringMeaning(cs) == r.s
    decreases |d| - i
  {
    hide LexString, SpellingText, SpellingMeaning, ReadableSpelling, CharsText, StringMeaning;
    if d[i] == QUOTE {
      cs := [];
      QuoteAt(d, i);
    } else {
      var c := SpellingAt(d, i);
      var j := i + |SpellingText(c)|;
      var rest := AcceptedString(d, j);
      cs := [c] + rest;
      assert cs[1..] == rest;
      CharsUnfold(cs);
      Cut(d, i, j, LexString(d, j).next);
    }
  }

  lemma QuoteAt(d: bytes, i: nat)
    requires IsText(d) && i < |d| && d[i] == QUOTE
    ensures i + 1 < |d| && LexString(d, i) == Lexed([], i + 1) && d[i..i + 1] == CharsText([])
    ensures StringMeaning([]) == []
  {
  }

  // ----- Strings of the standard -----

  ghost predicate Unescaped(t: bytes) {
    forall k :: 0 <= k < |t| ==> 0x20 <= t[k] <= 0xFF
  }

  lemma UnescapedSum(a: bytes, b: bytes)
    ensures Unescaped(a + b) <==> Unescaped(a) && Unescaped(b)
  {
    if Unescaped(a + b) {
      forall k | 0 <= k < |a|
        ensures 0x20 <= a[k] <= 0xFF
      {
        assert (a + b)[k] == a[k];
      }
      forall k | 0 <= k < |b|
        ensures 0x20 <= b[k] <= 0xFF
      {
        assert (a + b)[|a| + k] == b[k];
      }
    }
  }

  lemma HexIsUnescaped(h: bytes)
    requires IsHex4(h)
    ensures Unescaped(h)
  {
    HexDigits(h[0]);
    HexDigits(h[1]);
    HexDigits(h[2]);
    HexDigits(h[3]);
  }

  lemma SpellingIsLegalExactly(c: Spelling)
    requires ReadableSpelling(c)
    ensures LegalSpelling(c) <==> Unescaped(SpellingText(c))
  {
    hide HexDigit2Int;
    match c
    case Raw(b) => assert SpellingText(c)[0] == b;
    case Short(_) =>
    case Unit(hex) => HexIsUnescaped(hex);
    case Pair(high, low) =>
      HexIsUnescaped(high);
      HexIsUnescaped(low);
  }

  lemma {:induction false} LegalExactly(cs: seq<Spelling>)
    requires ReadableString(cs)
    ensures LegalString(cs) <==> Unescaped(CharsText(cs))
  {
    hide ReadableSpelling, LegalSpelling, SpellingText;
    if cs != [] {
      SpellingIsLegalExactly(cs[0]);
      LegalExactly(cs[1..]);
      UnescapedSum(SpellingText(cs[0]), CharsText(cs[1..]));
      assert forall k :: 1 <= k < |cs| ==> cs[k] == cs[1..][k - 1];
    }
  }

  /**
   The decoder stops at no control character: a string that is accepted is
   one of RFC 4627 section 2.5 exactly if every byte below 0x20 in it is
   escaped.
   */
  lemma AcceptedIsLegalExactly(d: bytes, i: nat)
    requires IsText(d) && IsBytes(d) && i < |d| && LexString(d, i).Lexed?
    ensures var t := d[i..LexString(d, i).next];
      (exists cs :: LegalString(cs) && CharsText(cs) == t) <==> forall k :: 0 <= k < |t| ==> t[k] >= 0x20
  {
    hide LexString, CharsText, ReadableSpelling, LegalSpelling, StringMeaning;
    var t := d[i..LexString(d, i).next];
    assert Unescaped(t) <==> forall k :: 0 <= k < |t| ==> t[k] >= 0x20;
    var cs := AcceptedString(d, i);
    LegalExactly(cs);
    if Unescaped(t) { assert LegalString(cs) && CharsText(cs) == t; }
    forall other | LegalString(other) && CharsText(other) == t
      ensures Unescaped(t)
    {
      LegalIsReadable(other);
      LegalExactly(other);
    }
  }

  /** A control character that is not escaped is accepted, and no legal string has this text. */
  lemma {:induction false} ControlCharacterIsAccepted(cfg: Config, slots: nat)
    ensures Decode(cfg, [QUOTE, 1, QUOTE], slots) == Value(TStr([1]))
    ensures !exists cs :: LegalString(cs) && [QUOTE] + CharsText(cs) == [QUOTE, 1, QUOTE]
  {
    var doc := DString([Raw(1)]);
    assert CharsText([Raw(1)]) == [1, QUOTE] by { assert [Raw(1)][1..] == []; }
    assert StringMeaning([Raw(1)]) == [1] by { assert [Raw(1)][1..] == []; }
    var text := [QUOTE, 1, QUOTE];
    assert text[..3] == text && [] + Text(doc) + [] == text;
    ReadsRendering(cfg, text, [], doc, [], slots);
    forall cs | LegalString(cs)
      ensures [QUOTE] + CharsText(cs) != text
    {
      LegalIsReadable(cs);
      LegalExactly(cs);
      UnescapedSum([QUOTE], CharsText(cs));
      assert text[1] == 1;
    }
  }

  // ----- Tokens -----

  /** The token at i, when it is one of the characters that are tokens. */
  lemma SingleAt(cfg: Config, d: bytes, i: nat, c: int)
    requires IsText(d) && i < |d| && !IsWhitespace(d[i])
    requires Single(c).Some? && TokenAt(cfg, d, i).token == Single(c).value
    ensures d[i] == c && TokenAt(cfg, d, i) == Lexeme(Single(c).value, i, i + 1) && i + 1 < |d| && d[i..i + 1] == [c]
  {
    hide IsInvalidNumber, NextString, NextNumber, Matches, NumberToken;
  }

  /** Where the next token starts, and the blanks before it. */
  lemma BlanksBefore(cfg: Config, d: bytes, i: nat) returns (j: nat)
    requires IsText(d) && i < |d|
    ensures i <= j < |d| && !IsWhitespace(d[j]) && Blank(d[i..j]) && NextToken(cfg, d, i) == TokenAt(cfg, d, j)
  {
    hide TokenAt;
    j := SkipWhitespace(d, i);
  }

  /** A string token stands where it says. */
  lemma StringAt(cfg: Config, d: bytes, i: nat) returns (cs: seq<Spelling>)
    requires IsText(d) && i < |d| && !IsWhitespace(d[i]) && TokenAt(cfg, d, i).token.Str?
    ensures var x := TokenAt(cfg, d, i);
      && x.at == i && i <= x.next && d[i..x.next] == [QUOTE] + CharsText(cs)
      && ReadableString(cs) && StringMeaning(cs) == x.token.s
  {
    hide IsInvalidNumber, NextNumber, Matches, LexString, ReadableString, CharsText, StringMeaning;
    cs := AcceptedString(d, i + 1);
    Cut(d, i, i + 1, LexString(d, i + 1).next);
    assert d[i..i + 1] == [d[i]];
  }

  /** A value that is a token by itself. */
  lemma ScalarAt(cfg: Config, d: bytes, i: nat, slots: nat) returns (doc: Doc)
    requires IsText(d) && i < |d| && !IsWhitespace(d[i])
    requires var x := TokenAt(cfg, d, i);
      ProcessValue(cfg, d, x, slots).Ok? && x.token != ObjBegin && x.token != ArrBegin
    ensures AcceptedAs(cfg, d, i, slots, doc)
  {
    var x := TokenAt(cfg, d, i);
    if x.token.Str? {
      hide TokenAt, ReadableString, CharsText, StringMeaning;
      var cs := StringAt(cfg, d, i);
      doc := DString(cs);
    } else {
      doc := WordOrNumberAt(cfg, d, i);
    }
  }

  lemma {:induction false} WordOrNumberAt(cfg: Config, d: bytes, i: nat) returns (doc: Doc)
    requires IsText(d) && i < |d| && !IsWhitespace(d[i])
    requires var t := TokenAt(cfg, d, i).token; t.Number? || t.Integer? || t.Boolean? || t == NullToken
    ensures forall slots :: AcceptedAs(cfg, d, i, slots, doc)
  {
    var x := TokenAt(cfg, d, i);
    if x.token.Boolean? || x.token == NullToken {
      doc := WordAt(cfg, d, i);
    } else {
      TakesExactly(cfg, d, i);
      hide TokenAt, TakesNumber, NumberToken, NumberMeaning;
      var (end, value) := cfg.strtod(d, i);
      TokenMeans(value);
      doc := DNumber(d[i..end], value);
    }
  }

  lemma WordAt(cfg: Config, d: bytes, i: nat) returns (doc: Doc)
    requires IsText(d) && i < |d| && !IsWhitespace(d[i])
    requires var t := TokenAt(cfg, d, i).token; t.Boolean? || t == NullToken
    ensures forall slots :: AcceptedAs(cfg, d, i, slots, doc)
  {
    hide IsInvalidNumber, NextString, NumberToken;
    var x := TokenAt(cfg, d, i);
    doc := if x.token == NullToken then DNull else if x.token.b then DTrue else DFalse;
  }

  /** doc is the text of the value at i, in this place, and means that value. */
  ghost predicate AcceptedAs(cfg: Config, d: bytes, i: nat, slots: nat, doc: Doc)
    requires IsText(d) && i < |d| && !IsWhitespace(d[i])
  {
    var r := ProcessValue(cfg, d, TokenAt(cfg, d, i), slots);
    && r.Ok? && i <= r.next && d[i..r.next] == Text(doc)
    && Readable(doc) && NumbersAt(cfg, d, i, doc) && Meaning(doc) == r.value && Fits(doc, slots)
  }

  // ----- Arrays -----

  /** What an array loop that succeeds has read. */
  lemma ItemsOk(cfg: Config, d: bytes, x: Lexeme, slots: nat, n: int, acc: map<Key, Tree>)
    requires IsText(d) && x.at <= x.next < |d| && Advances(x) && slots >= 2 && ParseItems(cfg, d, x, slots, n, acc).Ok?
    ensures var v := ProcessValue(cfg, d, x, slots - 1);
      && v.Ok?
      && var sep := NextToken(cfg, d, v.next);
      && sep.token in {ArrEnd, Comma}
      && ParseItems(cfg, d, x, slots, n, acc) ==
         if sep.token == ArrEnd then Ok(TTable(acc[KInt(n) := v.value]), sep.next)
         else ParseItems(cfg, d, NextToken(cfg, d, sep.next), slots, n + 1, acc[KInt(n) := v.value])
  {
    hide ProcessValue, NextToken;
  }

  /** The separator behind a value, and the blanks before it. */
  lemma SeparatorAt(cfg: Config, d: bytes, i: nat, c: int) returns (k: nat)
    requires IsText(d) && i < |d| && Single(c).Some? && NextToken(cfg, d, i).token == Single(c).value
    ensures i <= k && k + 1 < |d| && Blank(d[i..k]) && d[i..k + 1] == d[i..k] + [c]
    ensures NextToken(cfg, d, i) == Lexeme(Single(c).value, k, k + 1)
  {
    hide TokenAt, NextToken, Single;
    k := BlanksBefore(cfg, d, i);
    SingleAt(cfg, d, k, c);
    Cut(d, i, k, k + 1);
  }

  lemma ItemsTextCons(x: Item, rest: seq<Item>)
    ensures ItemsText([x] + rest) ==
      x.before + (Text(x.value) + ((x.after + [if rest == [] then ']' as int else ',' as int])
        + if rest == [] then [] else ItemsText(rest)))
  {
    hide Text;
    assert ([x] + rest)[1..] == rest;
  }

  lemma ItemsCons(x: Item, rest: seq<Item>)
    ensures ItemValues([x] + rest) == [Meaning(x.value)] + ItemValues(rest)
    ensures ReadableItem(x) && (rest == [] || ReadableItems(rest)) ==> ReadableItems([x] + rest)
    ensures forall n: nat :: Fits(x.value, n) && ItemsFit(rest, n) ==> ItemsFit([x] + rest, n)
  {
    hide Meaning, Fits, ReadableItem;
    assert ([x] + rest)[1..] == rest;
  }

  lemma ItemsNumbersCons(cfg: Config, d: bytes, i: nat, x: Item, rest: seq<Item>)
    requires IsText(d)
    ensures var j := i + |x.before|;
      ItemsNumbersAt(cfg, d, i, [x] + rest) <==>
        && NumbersAt(cfg, d, j, x.value)
        && (rest == [] || ItemsNumbersAt(cfg, d, j + |Text(x.value)| + |x.after| + 1, rest))
  {
    hide NumbersAt, Text;
    assert ([x] + rest)[1..] == rest;
  }

  /** What is known of the items of an accepted array from i on. */
  ghost predicate ItemsAccepted(cfg: Config, d: bytes, i: nat, slots: nat, n: int, acc: map<Key, Tree>,
                                items: seq<Item>)
    requires IsText(d) && i < |d| && slots >= 2
  {
    var r := ParseItems(cfg, d, NextToken(cfg, d, i), slots, n, acc);
    && r.Ok? && i <= r.next && items != [] && d[i..r.next] == ItemsText(items)
    && ReadableItems(items) && ItemsNumbersAt(cfg, d, i, items) && ItemsFit(items, slots - 1)
    && r.value == TTable(acc + FromIndex(ItemValues(items), n))
  }

  /** The text of one item and of the rest. */
  lemma ItemsJoinText(d: bytes, i: nat, j: nat, e: nat, k: nat, next: nat, doc: Doc, rest: seq<Item>)
    requires i <= j <= e <= k && k + 1 <= next <= |d| && d[j..e] == Text(doc)
    requires d[e..k + 1] == d[e..k] + [if rest == [] then ']' as int else ',' as int]
    requires d[k + 1..next] == if rest == [] then [] else ItemsText(rest)
    ensures d[i..next] == ItemsText([Item(d[i..j], doc, d[e..k])] + rest)
  {
    hide *;
    ItemsTextCons(Item(d[i..j], doc, d[e..k]), rest);
    Cut(d, i, j, next);
    Cut(d, j, e, next);
    Cut(d, e, k + 1, next);
  }

  /** One item, and the rest of them if the separator is a comma. */
  lemma ItemsJoin(cfg: Config, d: bytes, i: nat, j: nat, k: nat, slots: nat, n: int, acc: map<Key, Tree>, doc: Doc,
                  rest: seq<Item>)
    requires IsText(d) && slots >= 2 && i <= j < |d| && !IsWhitespace(d[j]) && Blank(d[i..j])
    requires NextToken(cfg, d, i) == TokenAt(cfg, d, j) && AcceptedAs(cfg, d, j, slots - 1, doc)
    requires var v := ProcessValue(cfg, d, TokenAt(cfg, d, j), slots - 1);
      && j <= v.next <= k && k + 1 < |d| && Blank(d[v.next..k])
      && d[v.next..k + 1] == d[v.next..k] + [if rest == [] then ']' as int else ',' as int]
      && var acc' := acc[KInt(n) := v.value];
      && (rest == [] ==> ParseItems(cfg, d, TokenAt(cfg, d, j), slots, n, acc) == Ok(TTable(acc'), k + 1))
      && (rest != [] ==> ItemsAccepted(cfg, d, k + 1, slots, n + 1, acc', rest))
      && (rest != [] ==> ParseItems(cfg, d, TokenAt(cfg, d, j), slots, n, acc) ==
                         ParseItems(cfg, d, NextToken(cfg, d, k + 1), slots, n + 1, acc'))
    ensures var v := ProcessValue(cfg, d, TokenAt(cfg, d, j), slots - 1);
      ItemsAccepted(cfg, d, i, slots, n, acc, [Item(d[i..j], doc, d[v.next..k])] + rest)
  {
    hide *;
    AcceptedNext(cfg, d, j, slots - 1, doc);
    var v := ProcessValue(cfg, d, TokenAt(cfg, d, j), slots - 1);
    var x := Item(d[i..j], doc, d[v.next..k]);
    ItemIsReadable(x);
    ItemsCons(x, rest);
    ItemsNumbersCons(cfg, d, i, x, rest);
    FromIndexStep(v.value, ItemValues(rest), n, acc);
    if rest == [] {
      NoItems(acc[KInt(n) := v.value], n + 1);
      assert d[k + 1..k + 1] == [];
    } else {
      AcceptedItemsFacts(cfg, d, k + 1, slots, n + 1, acc[KInt(n) := v.value], rest);
    }
    ItemsJoinText(d, i, j, v.next, k, ParseItems(cfg, d, TokenAt(cfg, d, j), slots, n, acc).next, doc, rest);
    ItemsAre(cfg, d, i, slots, n, acc, [x] + rest);
  }

  lemma ItemIsReadable(x: Item)
    ensures ReadableItem(x) <==> Blank(x.before) && Readable(x.value) && Blank(x.after)
  {
  }

  lemma ItemsAre(cfg: Config, d: bytes, i: nat, slots: nat, n: int, acc: map<Key, Tree>, items: seq<Item>)
    requires IsText(d) && i < |d| && slots >= 2
    ensures var r := ParseItems(cfg, d, NextToken(cfg, d, i), slots, n, acc);
      && r.Ok? && i <= r.next && items != [] && d[i..r.next] == ItemsText(items)
      && ReadableItems(items) && ItemsNumbersAt(cfg, d, i, items) && ItemsFit(items, slots - 1)
      && r.value == TTable(acc + FromIndex(ItemValues(items), n))
      ==> ItemsAccepted(cfg, d, i, slots, n, acc, items)
  {
    hide NextToken, ParseItems, ItemsText, ReadableItems, ItemsNumbersAt, ItemsFit, FromIndex, ItemValues, IsText;
  }

  lemma {:induction false} AcceptedItems(cfg: Config, d: bytes, i: nat, slots: nat, n: int, acc: map<Key, Tree>)
    returns (items: seq<Item>)
    requires IsText(d) && i < |d| && slots >= 2 && ParseItems(cfg, d, NextToken(cfg, d, i), slots, n, acc).Ok?
    ensures ItemsAccepted(cfg, d, i, slots, n, acc, items)
    decreases |d| - i, 3
  {
    hide *;
    var j := BlanksBefore(cfg, d, i);
    ItemsOk(cfg, d, TokenAt(cfg, d, j), slots, n, acc);
    var v := ProcessValue(cfg, d, TokenAt(cfg, d, j), slots - 1);
    var doc := AcceptedValue(cfg, d, j, slots - 1);
    AcceptedNext(cfg, d, j, slots - 1, doc);
    var sep := NextToken(cfg, d, v.next);
    var c := if sep.token == ArrEnd then ']' as int else ',' as int;
    Singles();
    var k := SeparatorAt(cfg, d, v.next, c);
    var rest := [];
    if sep.token == Comma {
      rest := AcceptedItems(cfg, d, k + 1, slots, n + 1, acc[KInt(n) := v.value]);
      AcceptedItemsFacts(cfg, d, k + 1, slots, n + 1, acc[KInt(n) := v.value], rest);
    }
    ItemsJoin(cfg, d, i, j, k, slots, n, acc, doc, rest);
    items := [Item(d[i..j], doc, d[v.next..k])] + rest;
  }

  lemma AcceptedNext(cfg: Config, d: bytes, i: nat, slots: nat, doc: Doc)
    requires IsText(d) && i < |d| && !IsWhitespace(d[i]) && AcceptedAs(cfg, d, i, slots, doc)
    ensures var r := ProcessValue(cfg, d, TokenAt(cfg, d, i), slots);
      && r.Ok? && i <= r.next < |d| && d[i..r.next] == Text(doc)
      && Readable(doc) && NumbersAt(cfg, d, i, doc) && Meaning(doc) == r.value && Fits(doc, slots)
  {
    hide TokenAt, Text, Readable, NumbersAt, Meaning, Fits;
  }

  lemma AcceptedItemsFacts(cfg: Config, d: bytes, i: nat, slots: nat, n: int, acc: map<Key, Tree>, items: seq<Item>)
    requires IsText(d) && i < |d| && slots >= 2 && ItemsAccepted(cfg, d, i, slots, n, acc, items)
    ensures var r := ParseItems(cfg, d, NextToken(cfg, d, i), slots, n, acc);
      && r.Ok? && i <= r.next && items != [] && d[i..r.next] == ItemsText(items)
      && ReadableItems(items) && ItemsNumbersAt(cfg, d, i, items) && ItemsFit(items, slots - 1)
      && r.value == TTable(acc + FromIndex(ItemValues(items), n))
  {
    hide NextToken, ParseItems, ItemsText, ReadableItems, ItemsNumbersAt, ItemsFit, FromIndex, ItemValues;
  }

  // ----- Objects -----

  /** What an object loop that succeeds has read. */
  lemma MembersOk(cfg: Config, d: bytes, x: Lexeme, slots: nat, acc: map<Key, Tree>)
    requires IsText(d) && x.at <= x.next < |d| && Advances(x) && slots >= 3 && ParseMembers(cfg, d, x, slots, acc).Ok?
    ensures x.token.Str?
    ensures var colon := NextToken(cfg, d, x.next);
      && colon.token == Colon
      && var v := ProcessValue(cfg, d, NextToken(cfg, d, colon.next), slots - 2);
      && v.Ok?
      && var sep := NextToken(cfg, d, v.next);
      && sep.token in {ObjEnd, Comma}
      && ParseMembers(cfg, d, x, slots, acc) ==
         if sep.token == ObjEnd then Ok(TTable(acc[KStr(x.token.s) := v.value]), sep.next)
         else ParseMembers(cfg, d, NextToken(cfg, d, sep.next), slots, acc[KStr(x.token.s) := v.value])
  {
    hide ProcessValue, NextToken;
  }

  lemma MembersTextCons(x: Member, rest: seq<Member>)
    ensures MembersText([x] + rest) ==
      x.before + (([QUOTE] + CharsText(x.key)) + ((x.afterKey + [':' as int]) + (x.beforeValue + (Text(x.value)
      + ((x.after + [if rest == [] then '}' as int else ',' as int]) + if rest == [] then [] else MembersText(rest))))))
  {
    hide Text, CharsText, MembersText;
    assert ([x] + rest)[1..] == rest;
    var tail := MembersTextUnfolds([x] + rest, if rest == [] then '}' as int else ',' as int);
  }

  lemma MembersTextOf(x: Member, rest: seq<Member>, key: bytes, colon: bytes, value: bytes)
    requires key == [QUOTE] + CharsText(x.key) && colon == x.afterKey + [':' as int]
    requires value == Text(x.value)
      + ((x.after + [if rest == [] then '}' as int else ',' as int]) + if rest == [] then [] else MembersText(rest))
    ensures MembersText([x] + rest) == x.before + (key + (colon + (x.beforeValue + value)))
  {
    hide *;
    MembersTextCons(x, rest);
  }

  lemma MembersCons(x: Member, rest: seq<Member>)
    ensures MemberPairs([x] + rest) == [(StringMeaning(x.key), Meaning(x.value))] + MemberPairs(rest)
    ensures ReadableMember(x) && (rest == [] || ReadableMembers(rest)) ==> ReadableMembers([x] + rest)
    ensures forall n: nat :: Fits(x.value, n) && MembersFit(rest, n) ==> MembersFit([x] + rest, n)
  {
    hide Meaning, Fits, ReadableMember, StringMeaning;
    assert ([x] + rest)[1..] == rest;
  }

  lemma MembersNumbersCons(cfg: Config, d: bytes, i: nat, x: Member, rest: seq<Member>)
    requires IsText(d)
    ensures var j := i + |x.before| + 1 + |CharsText(x.key)| + |x.afterKey| + 1 + |x.beforeValue|;
      MembersNumbersAt(cfg, d, i, [x] + rest) <==>
        && NumbersAt(cfg, d, j, x.value)
        && (rest == [] || MembersNumbersAt(cfg, d, j + |Text(x.value)| + |x.after| + 1, rest))
  {
    hide NumbersAt, Text, CharsText;
    assert ([x] + rest)[1..] == rest;
  }

  ghost predicate MembersAccepted(cfg: Config, d: bytes, i: nat, slots: nat, acc: map<Key, Tree>, members: seq<Member>)
    requires IsText(d) && i < |d| && slots >= 3
  {
    var r := ParseMembers(cfg, d, NextToken(cfg, d, i), slots, acc);
    && r.Ok? && i <= r.next && members != [] && d[i..r.next] == MembersText(members)
    && ReadableMembers(members) && MembersNumbersAt(cfg, d, i, members) && MembersFit(members, slots - 2)
    && r.value == TTable(acc + Assigned(MemberPairs(members)))
  }

  /** The text of one member and of the rest. */
  lemma MembersJoinText(d: bytes, i: nat, p: nat, a: nat, q: nat, j: nat, e: nat, k: nat, next: nat,
                        cs: seq<Spelling>, doc: Doc, rest: seq<Member>)
    requires i <= p <= a <= q && q + 1 <= j <= e <= k && k + 1 <= next <= |d|
    requires d[p..a] == [QUOTE] + CharsText(cs) && d[a..q + 1] == d[a..q] + [':' as int] && d[j..e] == Text(doc)
    requires d[e..k + 1] == d[e..k] + [if rest == [] then '}' as int else ',' as int]
    requires d[k + 1..next] == if rest == [] then [] else MembersText(rest)
    ensures d[i..next] == MembersText([Member(d[i..p], cs, d[a..q], d[q + 1..j], doc, d[e..k])] + rest)
  {
    hide *;
    ThreeParts(d, j, e, k + 1, next);
    FiveParts(d, i, p, a, q + 1, j, next);
    MembersTextOf(Member(d[i..p], cs, d[a..q], d[q + 1..j], doc, d[e..k]), rest, d[p..a], d[a..q + 1], d[j..next]);
  }

  /** The numbers of one member and of the rest. */
  lemma MembersJoinNumbers(cfg: Config, d: bytes, i: nat, p: nat, a: nat, q: nat, j: nat, e: nat, k: nat,
                           cs: seq<Spelling>, doc: Doc, rest: seq<Member>)
    requires IsText(d) && i <= p <= a <= q && q + 1 <= j <= e <= k <= |d|
    requires d[p..a] == [QUOTE] + CharsText(cs) && d[j..e] == Text(doc)
    requires NumbersAt(cfg, d, j, doc) && (rest == [] || MembersNumbersAt(cfg, d, k + 1, rest))
    ensures MembersNumbersAt(cfg, d, i, [Member(d[i..p], cs, d[a..q], d[q + 1..j], doc, d[e..k])] + rest)
  {
    hide *;
    var x := Member(d[i..p], cs, d[a..q], d[q + 1..j], doc, d[e..k]);
    MembersNumbersCons(cfg, d, i, x, rest);
    assert |d[p..a]| == 1 + |CharsText(cs)|;
  }

  lemma ThreeParts(d: bytes, j: nat, e: nat, k: nat, next: nat)
    requires j <= e <= k <= next <= |d|
    ensures d[j..next] == d[j..e] + (d[e..k] + d[k..next])
  {
    Cut(d, j, e, next);
    Cut(d, e, k, next);
  }

  lemma FiveParts(d: bytes, i: nat, p: nat, a: nat, b: nat, j: nat, next: nat)
    requires i <= p <= a <= b <= j <= next <= |d|
    ensures d[i..next] == d[i..p] + (d[p..a] + (d[a..b] + (d[b..j] + d[j..next])))
  {
    Cut(d, i, p, next);
    Cut(d, p, a, next);
    Cut(d, a, b, next);
    Cut(d, b, j, next);
  }

  /** One member, and the rest of them if the separator is a comma. */
  lemma MembersJoin(cfg: Config, d: bytes, i: nat, p: nat, q: nat, m: nat, j: nat, k: nat, slots: nat,
                    acc: map<Key, Tree>, cs: seq<Spelling>, doc: Doc, rest: seq<Member>)
    requires IsText(d) && slots >= 3 && i <= p < |d| && !IsWhitespace(d[p]) && Blank(d[i..p])
    requires NextToken(cfg, d, i) == TokenAt(cfg, d, p)
    requires var x := TokenAt(cfg, d, p);
      && x.token.Str? && p <= x.next <= q && d[p..x.next] == [QUOTE] + CharsText(cs)
      && ReadableString(cs) && StringMeaning(cs) == x.token.s
      && q + 1 <= m && m <= j < |d| && Blank(d[x.next..q]) && d[x.next..q + 1] == d[x.next..q] + [':' as int]
      && m == q + 1 && Blank(d[m..j]) && !IsWhitespace(d[j]) && AcceptedAs(cfg, d, j, slots - 2, doc)
    requires var x, v := TokenAt(cfg, d, p), ProcessValue(cfg, d, TokenAt(cfg, d, j), slots - 2);
      && j <= v.next <= k && k + 1 < |d| && Blank(d[v.next..k])
      && d[v.next..k + 1] == d[v.next..k] + [if rest == [] then '}' as int else ',' as int]
      && var acc' := acc[KStr(x.token.s) := v.value];
      && (rest == [] ==> ParseMembers(cfg, d, x, slots, acc) == Ok(TTable(acc'), k + 1))
      && (rest != [] ==> MembersAccepted(cfg, d, k + 1, slots, acc', rest))
      && (rest != [] ==> ParseMembers(cfg, d, x, slots, acc) ==
                         ParseMembers(cfg, d, NextToken(cfg, d, k + 1), slots, acc'))
    ensures var x, v := TokenAt(cfg, d, p), ProcessValue(cfg, d, TokenAt(cfg, d, j), slots - 2);
      MembersAccepted(cfg, d, i, slots, acc, [Member(d[i..p], cs, d[x.next..q], d[m..j], doc, d[v.next..k])] + rest)
  {
    hide *;
    AcceptedNext(cfg, d, j, slots - 2, doc);
    var x, v := TokenAt(cfg, d, p), ProcessValue(cfg, d, TokenAt(cfg, d, j), slots - 2);
    var member := Member(d[i..p], cs, d[x.next..q], d[m..j], doc, d[v.next..k]);
    MemberIsReadable(member);
    MembersCons(member, rest);
    AssignedStep((x.token.s, v.value), MemberPairs(rest), acc);
    if rest == [] {
      NoMembers(acc[KStr(x.token.s) := v.value]);
      NoneFit([], rest, slots - 2);
      assert d[k + 1..k + 1] == [];
    } else {
      AcceptedMembersFacts(cfg, d, k + 1, slots, acc[KStr(x.token.s) := v.value], rest);
    }
    MembersJoinNumbers(cfg, d, i, p, x.next, q, j, v.next, k, cs, doc, rest);
    MembersJoinText(d, i, p, x.next, q, j, v.next, k, ParseMembers(cfg, d, x, slots, acc).next, cs, doc, rest);
    MembersAre(cfg, d, i, slots, acc, [member] + rest);
  }

  lemma MemberIsReadable(x: Member)
    ensures ReadableMember(x) <==>
      && Blank(x.before) && ReadableString(x.key) && Blank(x.afterKey)
      && Blank(x.beforeValue) && Readable(x.value) && Blank(x.after)
  {
  }

  lemma MembersAre(cfg: Config, d: bytes, i: nat, slots: nat, acc: map<Key, Tree>, members: seq<Member>)
    requires IsText(d) && i < |d| && slots >= 3
    ensures var r := ParseMembers(cfg, d, NextToken(cfg, d, i), slots, acc);
      && r.Ok? && i <= r.next && members != [] && d[i..r.next] == MembersText(members)
      && ReadableMembers(members) && MembersNumbersAt(cfg, d, i, members) && MembersFit(members, slots - 2)
      && r.value == TTable(acc + Assigned(MemberPairs(members)))
      ==> MembersAccepted(cfg, d, i, slots, acc, members)
  {
    hide NextToken, ParseMembers, MembersText, ReadableMembers, MembersNumbersAt, MembersFit, Assigned, MemberPairs,
         IsText;
  }

  lemma AcceptedMembersFacts(cfg: Config, d: bytes, i: nat, slots: nat, acc: map<Key, Tree>, members: seq<Member>)
    requires IsText(d) && i < |d| && slots >= 3 && MembersAccepted(cfg, d, i, slots, acc, members)
    ensures var r := ParseMembers(cfg, d, NextToken(cfg, d, i), slots, acc);
      && r.Ok? && i <= r.next && members != [] && d[i..r.next] == MembersText(members)
      && ReadableMembers(members) && MembersNumbersAt(cfg, d, i, members) && MembersFit(members, slots - 2)
      && r.value == TTable(acc + Assigned(MemberPairs(members)))
  {
    hide NextToken, ParseMembers, MembersText, ReadableMembers, MembersNumbersAt, MembersFit, Assigned, MemberPairs;
  }

  lemma {:induction false} AcceptedMembers(cfg: Config, d: bytes, i: nat, slots: nat, acc: map<Key, Tree>)
    returns (members: seq<Member>)
    requires IsText(d) && i < |d| && slots >= 3 && ParseMembers(cfg, d, NextToken(cfg, d, i), slots, acc).Ok?
    ensures MembersAccepted(cfg, d, i, slots, acc, members)
    decreases |d| - i, 3
  {
    hide *;
    var p := BlanksBefore(cfg, d, i);
    var x := TokenAt(cfg, d, p);
    MembersOk(cfg, d, x, slots, acc);
    var cs := StringAt(cfg, d, p);
    Singles();
    var q := SeparatorAt(cfg, d, x.next, ':' as int);
    var m := q + 1;
    var j := BlanksBefore(cfg, d, m);
    var v := ProcessValue(cfg, d, TokenAt(cfg, d, j), slots - 2);
    var doc := AcceptedValue(cfg, d, j, slots - 2);
    AcceptedNext(cfg, d, j, slots - 2, doc);
    var sep := NextToken(cfg, d, v.next);
    var c := if sep.token == ObjEnd then '}' as int else ',' as int;
    var k := SeparatorAt(cfg, d, v.next, c);
    var acc' := acc[KStr(x.token.s) := v.value];
    var rest := [];
    if sep.token == Comma {
      rest := AcceptedMembers(cfg, d, k + 1, slots, acc');
      AcceptedMembersFacts(cfg, d, k + 1, slots, acc', rest);
    }
    MembersJoin(cfg, d, i, p, q, m, j, k, slots, acc, cs, doc, rest);
    members := [Member(d[i..p], cs, d[x.next..q], d[m..j], doc, d[v.next..k])] + rest;
  }

  // ----- Values -----

  lemma {:induction false} AcceptedArray(cfg: Config, d: bytes, i: nat, slots: nat) returns (doc: Doc)
    requires IsText(d) && i < |d| && !IsWhitespace(d[i])
    requires TokenAt(cfg, d, i).token == ArrBegin && ProcessValue(cfg, d, TokenAt(cfg, d, i), slots).Ok?
    ensures AcceptedAs(cfg, d, i, slots, doc)
    decreases |d| - i, 1
  {
    hide *;
    Singles();
    SingleAt(cfg, d, i, '[' as int);
    ArrayStart(cfg, d, TokenAt(cfg, d, i), slots);
    var r := ProcessValue(cfg, d, TokenAt(cfg, d, i), slots);
    if NextToken(cfg, d, i + 1).token == ArrEnd {
      var k := SeparatorAt(cfg, d, i + 1, ']' as int);
      doc := DArray(d[i + 1..k], []);
      EmptyArray(cfg, d, i, k, slots);
    } else {
      var items := AcceptedItems(cfg, d, i + 1, slots, 1, map[]);
      AcceptedItemsFacts(cfg, d, i + 1, slots, 1, map[], items);
      doc := DArray([], items);
      WholeArray(cfg, d, i, slots, items);
    }
  }

  lemma EmptyArray(cfg: Config, d: bytes, i: nat, k: nat, slots: nat)
    requires IsText(d) && i + 1 <= k && k + 1 < |d| && !IsWhitespace(d[i]) && d[i..i + 1] == ['[' as int]
    requires Blank(d[i + 1..k]) && d[i + 1..k + 1] == d[i + 1..k] + [']' as int] && slots >= 2
    requires ProcessValue(cfg, d, TokenAt(cfg, d, i), slots) == Ok(EmptyTable, k + 1)
    ensures AcceptedAs(cfg, d, i, slots, DArray(d[i + 1..k], []))
  {
    hide ProcessValue, TokenAt, Blank, Meaning;
    Cut(d, i, i + 1, k + 1);
    var inner := ArrayTextUnfolds(DArray(d[i + 1..k], []));
    assert Text(DArray(d[i + 1..k], [])) == d[i..k + 1];
    assert Readable(DArray(d[i + 1..k], [])) && NumbersAt(cfg, d, i, DArray(d[i + 1..k], []));
    assert Fits(DArray(d[i + 1..k], []), slots);
  }

  lemma WholeArray(cfg: Config, d: bytes, i: nat, slots: nat, items: seq<Item>)
    requires IsText(d) && i + 1 < |d| && !IsWhitespace(d[i]) && d[i..i + 1] == ['[' as int]
    requires slots >= 2 && items != []
    requires var r := ProcessValue(cfg, d, TokenAt(cfg, d, i), slots);
      && r.Ok? && i + 1 <= r.next <= |d| && d[i + 1..r.next] == ItemsText(items)
      && ReadableItems(items) && ItemsNumbersAt(cfg, d, i + 1, items) && ItemsFit(items, slots - 1)
      && r.value == TTable(map[] + FromIndex(ItemValues(items), 1))
    ensures AcceptedAs(cfg, d, i, slots, DArray([], items))
  {
    hide ProcessValue, TokenAt, ItemsText, ReadableItem, FromIndex, ItemValues;
    var r := ProcessValue(cfg, d, TokenAt(cfg, d, i), slots);
    Cut(d, i, i + 1, r.next);
    assert map[] + FromIndex(ItemValues(items), 1) == FromIndex(ItemValues(items), 1);
  }

  lemma {:induction false} AcceptedObject(cfg: Config, d: bytes, i: nat, slots: nat) returns (doc: Doc)
    requires IsText(d) && i < |d| && !IsWhitespace(d[i])
    requires TokenAt(cfg, d, i).token == ObjBegin && ProcessValue(cfg, d, TokenAt(cfg, d, i), slots).Ok?
    ensures AcceptedAs(cfg, d, i, slots, doc)
    decreases |d| - i, 1
  {
    hide *;
    Singles();
    SingleAt(cfg, d, i, '{' as int);
    ObjectStart(cfg, d, TokenAt(cfg, d, i), slots);
    if NextToken(cfg, d, i + 1).token == ObjEnd {
      var k := SeparatorAt(cfg, d, i + 1, '}' as int);
      doc := DObject(d[i + 1..k], []);
      EmptyObject(cfg, d, i, k, slots);
    } else {
      var members := AcceptedMembers(cfg, d, i + 1, slots, map[]);
      AcceptedMembersFacts(cfg, d, i + 1, slots, map[], members);
      doc := DObject([], members);
      WholeObject(cfg, d, i, slots, members);
    }
  }

  lemma EmptyObject(cfg: Config, d: bytes, i: nat, k: nat, slots: nat)
    requires IsText(d) && i + 1 <= k && k + 1 < |d| && !IsWhitespace(d[i]) && d[i..i + 1] == ['{' as int]
    requires Blank(d[i + 1..k]) && d[i + 1..k + 1] == d[i + 1..k] + ['}' as int] && slots >= 3
    requires ProcessValue(cfg, d, TokenAt(cfg, d, i), slots) == Ok(EmptyTable, k + 1)
    ensures AcceptedAs(cfg, d, i, slots, DObject(d[i + 1..k], []))
  {
    hide ProcessValue, TokenAt, Blank, Meaning;
    Cut(d, i, i + 1, k + 1);
    var inner := ObjectTextUnfolds(DObject(d[i + 1..k], []));
    assert Text(DObject(d[i + 1..k], [])) == d[i..k + 1];
    assert Readable(DObject(d[i + 1..k], [])) && NumbersAt(cfg, d, i, DObject(d[i + 1..k], []));
    assert Fits(DObject(d[i + 1..k], []), slots);
  }

  lemma WholeObject(cfg: Config, d: bytes, i: nat, slots: nat, members: seq<Member>)
    requires IsText(d) && i + 1 < |d| && !IsWhitespace(d[i]) && d[i..i + 1] == ['{' as int]
    requires slots >= 3 && members != []
    requires var r := ProcessValue(cfg, d, TokenAt(cfg, d, i), slots);
      && r.Ok? && i + 1 <= r.next <= |d| && d[i + 1..r.next] == MembersText(members)
      && ReadableMembers(members) && MembersNumbersAt(cfg, d, i + 1, members) && MembersFit(members, slots - 2)
      && r.value == TTable(map[] + Assigned(MemberPairs(members)))
    ensures AcceptedAs(cfg, d, i, slots, DObject([], members))
  {
    hide ProcessValue, TokenAt, MembersText, ReadableMember, Assigned, MemberPairs;
    var r := ProcessValue(cfg, d, TokenAt(cfg, d, i), slots);
    Cut(d, i, i + 1, r.next);
    assert map[] + Assigned(MemberPairs(members)) == Assigned(MemberPairs(members));
  }

  lemma {:induction false} AcceptedValue(cfg: Config, d: bytes, i: nat, slots: nat) returns (doc: Doc)
    requires IsText(d) && i < |d| && !IsWhitespace(d[i]) && ProcessValue(cfg, d, TokenAt(cfg, d, i), slots).Ok?
    ensures AcceptedAs(cfg, d, i, slots, doc)
    decreases |d| - i, 2
  {
    hide *;
    var x := TokenAt(cfg, d, i);
    if x.token == ArrBegin {
      doc := AcceptedArray(cfg, d, i, slots);
    } else if x.token == ObjBegin {
      doc := AcceptedObject(cfg, d, i, slots);
    } else {
      doc := ScalarAt(cfg, d, i, slots);
    }
  }

  // ----- The main result -----

  lemma EndAt(cfg: Config, d: bytes, i: nat)
    requires IsText(d) && i < |d| && !IsWhitespace(d[i]) && TokenAt(cfg, d, i).token == End
    ensures d[i] == 0
  {
    hide IsInvalidNumber, NextString, NextNumber, Matches, NumberToken;
  }

  /**
   What decodes to a value is a rendering of that value: the whole text is,
   exactly if there is no NUL in it, and otherwise the part before a NUL,
   whatever follows.
   */
  lemma {:induction false} AcceptsOnlyRenderings(cfg: Config, text: bytes, slots: nat)
    returns (before: bytes, doc: Doc, after: bytes)
    requires Decode(cfg, text, slots).Value?
    ensures IsRendering(cfg, text, before, doc, after) && Fits(doc, slots)
    ensures Decode(cfg, text, slots) == Value(Meaning(doc))
    ensures before + Text(doc) + after == text <==> 0 !in text
  {
    hide ProcessValue, NextToken, TokenAt, Text, Meaning, Fits, Readable, NumbersAt, Blank, AcceptedAs;
    var d := text + [0];
    var i := BlanksBefore(cfg, d, 0);
    doc := AcceptedValue(cfg, d, i, slots);
    AcceptedNext(cfg, d, i, slots, doc);
    var next := ProcessValue(cfg, d, TokenAt(cfg, d, i), slots).next;
    var k := BlanksBefore(cfg, d, next);
    EndAt(cfg, d, k);
    before, after := d[0..i], d[next..k];
    Cut(d, 0, i, next);
    Cut(d, 0, next, k);
    assert d[0..k] == text[..k];
    WholeExactly(cfg, text, before, doc, after);
  }

  /** Both directions: a text decodes to v exactly if it is a rendering of v that the Lua stack has room for. */
  lemma DecodesExactly(cfg: Config, text: bytes, slots: nat, v: Tree)
    ensures Decode(cfg, text, slots) == Value(v) <==>
      && !LooksLikeUtf16(text)
      && exists before, doc, after ::
           IsRendering(cfg, text, before, doc, after) && Fits(doc, slots) && Meaning(doc) == v
  {
    hide *;
    if Decode(cfg, text, slots) == Value(v) {
      var before, doc, after := AcceptsOnlyRenderings(cfg, text, slots);
      NotUtf16(cfg, text, slots);
    } else if !LooksLikeUtf16(text) {
      forall before, doc, after | IsRendering(cfg, text, before, doc, after) && Fits(doc, slots)
        ensures Meaning(doc) != v
      {
        ReadsRendering(cfg, text, before, doc, after, slots);
      }
    }
  }

  lemma NotUtf16(cfg: Config, text: bytes, slots: nat)
    ensures LooksLikeUtf16(text) ==> Decode(cfg, text, slots) == NotUtf8
  {
  }

  /** A NUL among the first two bytes, and nothing else, is taken for UTF-16 or UTF-32. */
  lemma RefusesUtf16Exactly(cfg: Config, text: bytes, slots: nat)
    ensures Decode(cfg, text, slots) == NotUtf8 <==> |text| >= 2 && (text[0] == 0 || text[1] == 0)
  {
    hide ProcessValue, NextToken;
  }

  /**
   A text that decodes to a number is what strtod reads behind the blanks: the
   number is within a billionth of that, and is that unless it is an integer
   which that lies just beyond.
   */
  lemma {:induction false} DecodesNumber(cfg: Config, text: bytes, slots: nat, x: Double) returns (i: nat, v: Double)
    requires Decode(cfg, text, slots) == Value(TNumber(x))
    ensures i <= |text| && Blank(text[..i]) && cfg.strtod(text + [0], i).1 == v
    ensures !v.Finite? ==> x == v
    ensures v.Finite? ==> x.Finite? && -0.000000001 < v.r - x.r < 0.000000001
    ensures v.Finite? && x != v ==> exists n :: JustBeyond(v.r, n) && x == Finite(n as real)
    ensures v.Finite? ==> forall n :: JustBeyond(v.r, n) ==> x == Finite(n as real)
  {
    hide Decode, Blank, JustBeyond;
    var before, doc, after := AcceptsOnlyRenderings(cfg, text, slots);
    OnlyNumbersMeanNumbers(doc);
    i, v := |before|, doc.d;
    assert text[..i] == (before + Text(doc) + after)[..i] == before;
    hide *;
    if v.Finite? {
      MeansNear(v.r, x);
      forall n | JustBeyond(v.r, n)
        ensures x == Finite(n as real)
      {
        NumberMeaningIs(v.r, n);
      }
    } else {
      MeansItself(v);
    }
  }

  lemma OnlyNumbersMeanNumbers(doc: Doc)
    ensures Meaning(doc).TNumber? <==> doc.DNumber?
    ensures doc.DNumber? ==> Meaning(doc) == NumberMeaning(doc.d)
  {
  }

  lemma MeansItself(v: Double)
    requires !v.Finite?
    ensures NumberMeaning(v) == TNumber(v)
  {
  }

  lemma MeansNear(r: real, x: Double)
    requires NumberMeaning(Finite(r)) == TNumber(x)
    ensures x.Finite? && -0.000000001 < r - x.r < 0.000000001
    ensures x != Finite(r) ==> exists n :: JustBeyond(r, n) && x == Finite(n as real)
  {
    NumberMeaningIs(r, 0);
  }
}
