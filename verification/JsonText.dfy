/**
 JSON texts by the grammar of RFC 4627, and what they mean: every choice a
 writer has (whitespace, the spelling of each character, the order of
 members) is a part of the document tree. Legal is the grammar of the
 standard; Readable is what the decoder goes by, which lets raw control
 characters and any sort of number through.
 */
module JsonText {
  import opened Bytes
  import opened Lua
  import opened JsonString
  import opened JsonDecode
  import opened Wrappers

  /** One character of a string, section 2.5. Raw is a byte of an unescaped character in UTF-8. */
  datatype Spelling =
    | Raw(b: int)
    | Short(letter: int)
    | Unit(hex: bytes)
    | Pair(high: bytes, low: bytes)

  /** A number is its text, and the double that this is taken for. */
  datatype Doc =
    | DNull
    | DTrue
    | DFalse
    | DNumber(text: bytes, d: Double)
    | DString(cs: seq<Spelling>)
    | DArray(pad: bytes, items: seq<Item>)
    | DObject(pad: bytes, members: seq<Member>)

  datatype Item = Item(before: bytes, value: Doc, after: bytes)

  datatype Member =
    Member(before: bytes, key: seq<Spelling>, afterKey: bytes, beforeValue: bytes, value: Doc, after: bytes)

  // ----- Numbers, section 2.4 -----

  datatype Exponent = Exponent(letter: int, sign: bytes, digits: bytes)

  datatype Numeral = Numeral(negative: bool, whole: bytes, fraction: Option<bytes>, exponent: Option<Exponent>)

  ghost predicate AllDigits(digits: bytes) {
    digits != [] && forall k :: 0 <= k < |digits| ==> '0' as int <= digits[k] <= '9' as int
  }

  /** int = zero / ( digit1-9 *DIGIT ) */
  ghost predicate Canonical(digits: bytes) {
    AllDigits(digits) && (digits[0] == '0' as int ==> |digits| == 1)
  }

  ghost predicate LegalExponent(e: Exponent) {
    && (e.letter == 'e' as int || e.letter == 'E' as int)
    && (e.sign == [] || e.sign == ['+' as int] || e.sign == ['-' as int])
    && AllDigits(e.digits)
  }

  ghost predicate LegalNumeral(n: Numeral) {
    && Canonical(n.whole)
    && (n.fraction.Some? ==> AllDigits(n.fraction.value))
    && (n.exponent.Some? ==> LegalExponent(n.exponent.value))
  }

  function IntegerText(negative: bool, digits: bytes): bytes {
    (if negative then ['-' as int] else []) + digits
  }

  function FractionText(n: Numeral): bytes {
    if n.fraction.Some? then ['.' as int] + n.fraction.value else []
  }

  function ExponentText(n: Numeral): bytes {
    if n.exponent.Some? then [n.exponent.value.letter] + n.exponent.value.sign + n.exponent.value.digits else []
  }

  /** number = [ minus ] int [ frac ] [ exp ] */
  function NumeralText(n: Numeral): bytes {
    IntegerText(n.negative, n.whole) + FractionText(n) + ExponentText(n)
  }

  ghost predicate IsJsonNumber(t: bytes) {
    exists n :: LegalNumeral(n) && NumeralText(n) == t
  }

  // ----- Which texts are legal, and which are read -----

  /** ws = *( %x20 / %x09 / %x0A / %x0D ), section 2 */
  ghost predicate Blank(w: bytes) {
    forall k :: 0 <= k < |w| ==> w[k] in {0x20, 0x09, 0x0A, 0x0D}
  }

  predicate IsHex4(h: bytes) {
    && |h| == 4
    && HexDigit2Int(h[0]) >= 0 && HexDigit2Int(h[1]) >= 0 && HexDigit2Int(h[2]) >= 0 && HexDigit2Int(h[3]) >= 0
  }

  function Hex4Value(h: bytes): (r: nat)
    requires IsHex4(h)
    ensures r <= 0xFFFF
  {
    HexDigits(h[0]);
    HexDigits(h[1]);
    HexDigits(h[2]);
    HexDigits(h[3]);
    0x1000 * HexDigit2Int(h[0]) + 0x100 * HexDigit2Int(h[1]) + 0x10 * HexDigit2Int(h[2]) + HexDigit2Int(h[3])
  }

  /** The character a two-character escape stands for, by the table of section 2.5; 0 if there is none. */
  function ShortMeaning(letter: int): int {
    match letter
    case 0x22 => 0x22 // quotation mark
    case 0x5C => 0x5C // reverse solidus
    case 0x2F => 0x2F // solidus
    case 0x62 => 0x08 // backspace
    case 0x66 => 0x0C // form feed
    case 0x6E => 0x0A // line feed
    case 0x72 => 0x0D // carriage return
    case 0x74 => 0x09 // tab
    case _ => 0
  }

  /** What the decoder takes for one character. */
  predicate ReadableSpelling(c: Spelling) {
    match c
    case Raw(b) => b != 0 && b != QUOTE && b != BACKSLASH
    case Short(letter) => ShortMeaning(letter) != 0
    case Unit(hex) => IsHex4(hex) && !IsSurrogate(Hex4Value(hex))
    case Pair(high, low) => IsHex4(high) && IsHex4(low) && IsHigh(Hex4Value(high)) && IsLow(Hex4Value(low))
  }

  /** unescaped = %x20-21 / %x23-5B / %x5D-10FFFF, byte by byte; bytes from 0x80 on are those of UTF-8. */
  predicate LegalSpelling(c: Spelling) {
    ReadableSpelling(c) && (c.Raw? ==> 0x20 <= c.b <= 0xFF)
  }

  ghost predicate ReadableString(cs: seq<Spelling>) {
    forall k :: 0 <= k < |cs| ==> ReadableSpelling(cs[k])
  }

  ghost predicate LegalString(cs: seq<Spelling>) {
    forall k :: 0 <= k < |cs| ==> LegalSpelling(cs[k])
  }

  /** The shape of what is read. Whether its numbers are read as such depends on where they stand. */
  ghost predicate Readable(doc: Doc) {
    match doc
    case DNumber(text, _) => text != [] && 0 !in text
    case DString(cs) => ReadableString(cs)
    case DArray(pad, items) =>
      Blank(pad) && forall k :: 0 <= k < |items| ==> ReadableItem(items[k])
    case DObject(pad, members) =>
      Blank(pad) && forall k :: 0 <= k < |members| ==> ReadableMember(members[k])
    case _ => true
  }

  ghost predicate ReadableItem(x: Item) {
    Blank(x.before) && Readable(x.value) && Blank(x.after)
  }

  ghost predicate ReadableMember(x: Member) {
    && Blank(x.before) && ReadableString(x.key) && Blank(x.afterKey)
    && Blank(x.beforeValue) && Readable(x.value) && Blank(x.after)
  }

  /** A text by the standard, whose numbers are those that `value` gives for their texts. */
  ghost predicate Legal(value: bytes -> Double, doc: Doc) {
    match doc
    case DNumber(text, d) => IsJsonNumber(text) && d == value(text)
    case DString(cs) => LegalString(cs)
    case DArray(pad, items) =>
      Blank(pad) && forall k :: 0 <= k < |items| ==> LegalItem(value, items[k])
    case DObject(pad, members) =>
      Blank(pad) && forall k :: 0 <= k < |members| ==> LegalMember(value, members[k])
    case _ => true
  }

  ghost predicate LegalItem(value: bytes -> Double, x: Item) {
    Blank(x.before) && Legal(value, x.value) && Blank(x.after)
  }

  ghost predicate LegalMember(value: bytes -> Double, x: Member) {
    && Blank(x.before) && LegalString(x.key) && Blank(x.afterKey)
    && Blank(x.beforeValue) && Legal(value, x.value) && Blank(x.after)
  }

  // ----- The text -----

  function SpellingText(c: Spelling): bytes {
    match c
    case Raw(b) => [b]
    case Short(letter) => [BACKSLASH, letter]
    case Unit(hex) => [BACKSLASH, 'u' as int] + hex
    case Pair(high, low) => [BACKSLASH, 'u' as int] + high + [BACKSLASH, 'u' as int] + low
  }

  /** The characters and the closing quote. */
  function CharsText(cs: seq<Spelling>): bytes {
    if cs == [] then [QUOTE] else SpellingText(cs[0]) + CharsText(cs[1..])
  }

  function Text(doc: Doc): bytes
    decreases doc, 0
  {
    match doc
    case DNull => ['n' as int, 'u' as int, 'l' as int, 'l' as int]
    case DTrue => ['t' as int, 'r' as int, 'u' as int, 'e' as int]
    case DFalse => ['f' as int, 'a' as int, 'l' as int, 's' as int, 'e' as int]
    case DNumber(text, _) => text
    case DString(cs) => [QUOTE] + CharsText(cs)
    case DArray(pad, items) => ['[' as int] + (if items == [] then pad + [']' as int] else ItemsText(items))
    case DObject(pad, members) => ['{' as int] + (if members == [] then pad + ['}' as int] else MembersText(members))
  }

  /** The items and the closing bracket. */
  function ItemsText(items: seq<Item>): bytes
    requires items != []
    decreases items, 1
  {
    items[0].before + Text(items[0].value) + items[0].after
    + (if |items| == 1 then [']' as int] else [',' as int] + ItemsText(items[1..]))
  }

  function MembersText(members: seq<Member>): bytes
    requires members != []
    decreases members, 1
  {
    var x := members[0];
    x.before + [QUOTE] + CharsText(x.key) + x.afterKey + [':' as int] + x.beforeValue + Text(x.value) + x.after
    + (if |members| == 1 then ['}' as int] else [',' as int] + MembersText(members[1..]))
  }

  // ----- The meaning -----

  function SpellingMeaning(c: Spelling): bytes {
    match c
    case Raw(b) => [b]
    case Short(letter) => [ShortMeaning(letter)]
    case Unit(hex) => if ReadableSpelling(c) then CodepointToUtf8(Hex4Value(hex)) else []
    case Pair(high, low) =>
      if ReadableSpelling(c) then CodepointToUtf8(Combine(Hex4Value(high), Hex4Value(low))) else []
  }

  function StringMeaning(cs: seq<Spelling>): bytes {
    if cs == [] then [] else SpellingMeaning(cs[0]) + StringMeaning(cs[1..])
  }

  function DigitsValue(digits: bytes): int {
    if digits == [] then 0
    else 10 * DigitsValue(digits[..|digits| - 1]) + digits[|digits| - 1] - '0' as int
  }

  function IntValue(negative: bool, digits: bytes): int {
    if negative then -DigitsValue(digits) else DigitsValue(digits)
  }

  /** A number less than a billionth beyond an integer of 32 bits, away from 0, means that integer. */
  function NumberMeaning(d: Double): Tree {
    if !d.Finite? then TNumber(d)
    else
      var whole := if d.r >= 0.0 then d.r.Floor else -(-d.r).Floor;
      if -2147483648 <= whole <= 2147483647 && -0.000000001 < d.r - whole as real < 0.000000001
      then TNumber(Finite(whole as real)) else TNumber(d)
  }

  /** r lies less than a billionth beyond the integer i, away from 0. */
  ghost predicate JustBeyond(r: real, i: int) {
    || (0 <= i <= 2147483647 && 0.0 <= r - i as real < 0.000000001)
    || (-2147483648 <= i <= 0 && -0.000000001 < r - i as real <= 0.0)
  }

  /** What is just beyond an integer means that integer, and everything else means itself. */
  lemma NumberMeaningIs(r: real, i: int)
    ensures JustBeyond(r, i) ==> NumberMeaning(Finite(r)) == TNumber(Finite(i as real))
    ensures NumberMeaning(Finite(r)) != TNumber(Finite(r)) ==>
      exists j :: JustBeyond(r, j) && NumberMeaning(Finite(r)) == TNumber(Finite(j as real))
  {
    var whole := if r >= 0.0 then r.Floor else -(-r).Floor;
    if NumberMeaning(Finite(r)) != TNumber(Finite(r)) { assert JustBeyond(r, whole); }
    if JustBeyond(r, i) { assert whole == i; }
  }

  /** An array is a table from 1 on; of members with the same name, the last counts. */
  function Meaning(doc: Doc): Tree
    decreases doc, 0
  {
    match doc
    case DNull => TNull
    case DTrue => TBool(true)
    case DFalse => TBool(false)
    case DNumber(_, d) => NumberMeaning(d)
    case DString(cs) => TStr(StringMeaning(cs))
    case DArray(_, items) => TTable(FromIndex(ItemValues(items), 1))
    case DObject(_, members) => TTable(Assigned(MemberPairs(members)))
  }

  function ItemValues(items: seq<Item>): (vs: seq<Tree>)
    ensures |vs| == |items|
    decreases items, 1
  {
    if items == [] then [] else [Meaning(items[0].value)] + ItemValues(items[1..])
  }

  function MemberPairs(members: seq<Member>): (ps: seq<(bytes, Tree)>)
    ensures |ps| == |members|
    decreases members, 1
  {
    if members == [] then []
    else [(StringMeaning(members[0].key), Meaning(members[0].value))] + MemberPairs(members[1..])
  }

  // ----- The room that parsing takes on the Lua stack -----

  /** A table needs itself and a value, and an object its key besides. */
  predicate Fits(doc: Doc, slots: nat) {
    match doc
    case DArray(_, items) => slots >= 2 && ItemsFit(items, slots - 1)
    case DObject(_, members) => slots >= 3 && MembersFit(members, slots - 2)
    case _ => true
  }

  predicate ItemsFit(items: seq<Item>, slots: nat) {
    forall k :: 0 <= k < |items| ==> Fits(items[k].value, slots)
  }

  predicate MembersFit(members: seq<Member>, slots: nat) {
    forall k :: 0 <= k < |members| ==> Fits(members[k].value, slots)
  }

  /** The slots that a document takes: an array itself and an item, an object itself, a key and a value. */
  function Needs(doc: Doc): nat
    decreases doc, 0
  {
    match doc
    case DArray(_, items) => 1 + ItemsNeed(items)
    case DObject(_, members) => 2 + MembersNeed(members)
    case _ => 0
  }

  function ItemsNeed(items: seq<Item>): (n: nat)
    ensures n >= 1
    decreases items, 1
  {
    if items == [] then 1
    else
      var first, rest := Needs(items[0].value), ItemsNeed(items[1..]);
      if first > rest then first else rest
  }

  function MembersNeed(members: seq<Member>): (n: nat)
    ensures n >= 1
    decreases members, 1
  {
    if members == [] then 1
    else
      var first, rest := Needs(members[0].value), MembersNeed(members[1..]);
      if first > rest then first else rest
  }

  /** There is a number of slots that a document needs, and with that many it fits. */
  lemma {:induction false} FitsExactly(doc: Doc, slots: nat)
    ensures Fits(doc, slots) <==> Needs(doc) <= slots
    decreases doc, 2
  {
    match doc
    case DArray(_, items) =>
      if slots >= 1 { ItemsFitExactly(items, slots - 1); }
    case DObject(_, members) =>
      if slots >= 2 { MembersFitExactly(members, slots - 2); }
    case _ =>
  }

  lemma {:induction false} ItemsFitExactly(items: seq<Item>, slots: nat)
    ensures ItemsFit(items, slots) && slots >= 1 <==> ItemsNeed(items) <= slots
    decreases items, 1
  {
    hide Fits, Needs;
    if items != [] {
      FitsExactly(items[0].value, slots);
      ItemsFitExactly(items[1..], slots);
      assert forall k :: 1 <= k < |items| ==> items[k] == items[1..][k - 1];
      assert forall k :: 0 <= k < |items[1..]| ==> items[1..][k] == items[k + 1];
    }
  }

  lemma {:induction false} MembersFitExactly(members: seq<Member>, slots: nat)
    ensures MembersFit(members, slots) && slots >= 1 <==> MembersNeed(members) <= slots
    decreases members, 1
  {
    hide Fits, Needs;
    if members != [] {
      FitsExactly(members[0].value, slots);
      MembersFitExactly(members[1..], slots);
      assert forall k :: 1 <= k < |members| ==> members[k] == members[1..][k - 1];
      assert forall k :: 0 <= k < |members[1..]| ==> members[1..][k] == members[k + 1];
    }
  }
}
