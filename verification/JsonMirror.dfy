/**
 What the encoder writes, as a document: for every value that can be encoded
 there is one that mirrors it, entry by entry and without a blank. What such a
 document means is then said in terms of the value alone.
 */
module JsonMirror {
  import opened Bytes
  import opened Lua
  import opened JsonString
  import D = JsonDecode
  import opened JsonText
  import opened JsonReads
  import opened JsonEncode
  import opened JsonNesting
  import opened Wrappers

  // ----- Strings -----

  lemma SpellByteMeans(b: int)
    requires 0 <= b < 256
    ensures LegalSpelling(SpellByte(b)) && SpellingMeaning(SpellByte(b)) == [b]
  {
    if 0 <= b < 0x20 { HexDigits(LowerHex(b % 0x10)); }
  }

  /** However a string is spelled by the encoder, it is legal and means that string. */
  lemma {:induction false} SpellMeans(s: bytes)
    requires IsBytes(s)
    ensures LegalString(Spell(s)) && StringMeaning(Spell(s)) == s
  {
    hide SpellByte, SpellingMeaning, LegalSpelling;
    if s != [] {
      SpellByteMeans(s[0]);
      SpellMeans(s[1..]);
      var rest := Spell(s[1..]);
      assert ([SpellByte(s[0])] + rest)[1..] == rest;
      CharsUnfold([SpellByte(s[0])] + rest);
    }
  }

  // ----- Values that have a text -----

  /** A string of bytes; or a number that printf writes as a JSON number, as it does with every finite one. */
  ghost predicate Textual(cfg: Config, v: Value) {
    match v
    case VNumber(d) => d.Finite? && IsJsonNumber(cfg.printf(d))
    case VStr(s) => IsBytes(s)
    case _ => true
  }

  /** The keys of an array are not written. */
  ghost predicate TextualTable(cfg: Config, h: Heap, id: nat) {
    var es := EntriesOf(h, id);
    && Distinct(es)
    && (forall k :: 0 <= k < |es| ==> Textual(cfg, es[k].1))
    && (ShapeOf(cfg, es) == Object ==> TextualKeys(cfg, es))
  }

  ghost predicate TextualKeys(cfg: Config, es: Entries) {
    forall k :: 0 <= k < |es| ==> Textual(cfg, es[k].0)
  }

  /** So is all that can be reached from v. */
  ghost predicate AllTextual(cfg: Config, h: Heap, v: Value) {
    Textual(cfg, v) && forall p :: Path(h, v, p) ==> TextualTable(cfg, h, p[|p| - 1])
  }

  lemma {:induction false} TextualParts(cfg: Config, h: Heap, id: nat)
    ensures AllTextual(cfg, h, VTable(id)) <==>
      && TextualTable(cfg, h, id)
      && forall k :: 0 <= k < |EntriesOf(h, id)| ==> AllTextual(cfg, h, EntriesOf(h, id)[k].1)
  {
    hide Textual, IsBytes, ShapeOf, TextualKeys;
    var es := EntriesOf(h, id);
    TableIsTextual(cfg, id);
    assert Path(h, VTable(id), [id]) && [id][|[id]| - 1] == id;
    if AllTextual(cfg, h, VTable(id)) {
      forall k, p | 0 <= k < |es| && Path(h, es[k].1, p)
        ensures TextualTable(cfg, h, p[|p| - 1])
      {
        assert Child(h, id, p[0]);
        var q := [id] + p;
        assert Path(h, VTable(id), q) && q[|q| - 1] == p[|p| - 1];
      }
    }
    if TextualTable(cfg, h, id) && forall k :: 0 <= k < |es| ==> AllTextual(cfg, h, es[k].1) {
      forall p | Path(h, VTable(id), p)
        ensures TextualTable(cfg, h, p[|p| - 1])
      {
        if |p| > 1 {
          PathTail(h, id, p);
          var q := p[1..];
          assert q[|q| - 1] == p[|p| - 1];
        }
      }
    }
  }

  lemma TableIsTextual(cfg: Config, id: nat)
    ensures Textual(cfg, VTable(id))
  {
  }

  lemma PathTail(h: Heap, id: nat, p: seq<nat>)
    requires Path(h, VTable(id), p) && |p| > 1
    ensures exists k :: 0 <= k < |EntriesOf(h, id)| && Path(h, EntriesOf(h, id)[k].1, p[1..])
  {
    assert Child(h, p[0], p[1]);
    forall j | 0 <= j < |p| - 2
      ensures Child(h, p[1..][j], p[1..][j + 1])
    {
      assert Child(h, p[j + 1], p[j + 2]);
    }
    var k :| 0 <= k < |EntriesOf(h, id)| && EntriesOf(h, id)[k].1 == VTable(p[1]);
    assert Path(h, EntriesOf(h, id)[k].1, p[1..]);
  }

  // ----- Keys -----

  /** What a key is called in the text: a number by its digits. */
  function KeyText(cfg: Config, k: Value): bytes {
    match k
    case VStr(s) => s
    case VNumber(d) => cfg.printf(d)
    case _ => []
  }

  /** The characters of a number are written as they are. */
  lemma {:induction false} SpellsPlainly(t: bytes)
    requires AllInNumber(t)
    ensures CharsText(Spell(t)) == t + [QUOTE]
  {
    hide SpellByte;
    if t != [] {
      SpellsPlainly(t[1..]);
      RawInNumber(t[0]);
      var rest := Spell(t[1..]);
      assert ([SpellByte(t[0])] + rest)[1..] == rest;
      assert t == [t[0]] + t[1..];
    }
  }

  lemma RawInNumber(b: int)
    requires InNumber(b)
    ensures SpellByte(b) == Raw(b)
  {
  }

  lemma NumberIsBytes(t: bytes)
    requires IsJsonNumber(t)
    ensures AllInNumber(t) && IsBytes(t)
  {
    var n :| LegalNumeral(n) && NumeralText(n) == t;
    NumeralCharacters(n);
  }

  /** A key is written as a string: its own characters, or the digits of a number, in quotes. */
  lemma {:induction false} KeyIsString(cfg: Config, k: Value)
    requires Textual(cfg, k) && (k.VStr? || k.VNumber?)
    ensures IsBytes(KeyText(cfg, k))
    ensures EncodeKey(cfg, k) == Done([QUOTE] + CharsText(Spell(KeyText(cfg, k))) + [':' as int])
  {
    hide Spell, IsJsonNumber, AllInNumber;
    if k.VNumber? {
      NumberIsBytes(cfg.printf(k.d));
      SpellsPlainly(cfg.printf(k.d));
      assert [QUOTE] + cfg.printf(k.d) + [QUOTE, ':' as int] == [QUOTE] + (cfg.printf(k.d) + [QUOTE]) + [':' as int];
    }
  }

  // ----- Documents that mirror values -----

  /**
   doc is v: numbers as printf writes them, strings in the spelling of the
   encoder, tables without blanks, as arrays from 1 on with null for what is
   absent, or as objects in the order of their entries.
   */
  ghost predicate Mirrors(cfg: Config, value: bytes -> Double, h: Heap, v: Value, doc: Doc)
    decreases doc, 1
  {
    match v
    case VNil => doc == DNull
    case VLight(p) => p == 0 && doc == DNull
    case VBool(b) => doc == if b then DTrue else DFalse
    case VNumber(d) => d.Finite? && doc == DNumber(cfg.printf(d), value(cfg.printf(d)))
    case VStr(s) => IsBytes(s) && doc == DString(Spell(s))
    case VOpaque(_) => false
    case VTable(id) =>
      var es := EntriesOf(h, id);
      match ShapeOf(cfg, es)
      case Sparse => false
      case Array(n) =>
        if n > 0 then doc.DArray? && doc.pad == [] && |doc.items| == n && ItemsMirror(cfg, value, h, es, 1, doc.items)
        else doc == DObject([], [])
      case Object => doc.DObject? && doc.pad == [] && MembersMirror(cfg, value, h, es, 0, doc.members)
  }

  ghost predicate ItemsMirror(cfg: Config, value: bytes -> Double, h: Heap, es: Entries, i: int, items: seq<Item>)
    decreases items, 0
  {
    items != [] ==>
      && items[0].before == [] && items[0].after == []
      && (Absent(es, i) ==> items[0].value == DNull)
      && (forall k :: 0 <= k < |es| && IsInteger(es[k].0, i) ==> Mirrors(cfg, value, h, es[k].1, items[0].value))
      && ItemsMirror(cfg, value, h, es, i + 1, items[1..])
  }

  ghost predicate MembersMirror(cfg: Config, value: bytes -> Double, h: Heap, es: Entries, k: nat,
                                members: seq<Member>)
    decreases members, 0
  {
    && k + |members| == |es|
    && (members != [] ==>
          && (es[k].0.VStr? || es[k].0.VNumber?)
          && members[0] == MemberOf(KeyText(cfg, es[k].0), members[0].value)
          && Mirrors(cfg, value, h, es[k].1, members[0].value)
          && MembersMirror(cfg, value, h, es, k + 1, members[1..]))
  }

  function MemberOf(name: bytes, doc: Doc): Member {
    Member([], Spell(name), [], [], doc, [])
  }

  function ItemOf(doc: Doc): Item {
    Item([], doc, [])
  }

  // ----- There is one -----

  lemma MembersTextStep(name: bytes, doc: Doc, rest: seq<Member>)
    ensures MembersText([MemberOf(name, doc)] + rest) ==
      ([QUOTE] + CharsText(Spell(name)) + [':' as int]) + Text(doc)
      + (if rest == [] then ['}' as int] else [',' as int] + MembersText(rest))
    ensures MembersNeed([MemberOf(name, doc)] + rest) ==
      if Needs(doc) > MembersNeed(rest) then Needs(doc) else MembersNeed(rest)
  {
    hide CharsText, Spell, Text, Needs;
    assert ([MemberOf(name, doc)] + rest)[1..] == rest;
    assert [] + [QUOTE] + CharsText(Spell(name)) + [] + [':' as int] + [] + Text(doc) + []
      == ([QUOTE] + CharsText(Spell(name)) + [':' as int]) + Text(doc);
  }

  lemma ItemsTextStep(doc: Doc, rest: seq<Item>)
    ensures ItemsText([ItemOf(doc)] + rest) ==
      Text(doc) + (if rest == [] then [']' as int] else [',' as int] + ItemsText(rest))
    ensures ItemsNeed([ItemOf(doc)] + rest) ==
      if Needs(doc) > ItemsNeed(rest) then Needs(doc) else ItemsNeed(rest)
  {
    hide Text, Needs;
    assert ([ItemOf(doc)] + rest)[1..] == rest;
    assert [] + Text(doc) + [] == Text(doc);
  }

  lemma RegroupFour(a: bytes, b: bytes, c: bytes, d: bytes)
    ensures a + b + c + d == a + (b + c + d)
  {
  }

  /** The text of the members from entry k on. */
  ghost function MembersTail(members: seq<Member>, k: nat): bytes {
    if members == [] then ['}' as int] else Separator(k == 0) + MembersText(members)
  }

  ghost function ItemsTail(items: seq<Item>, i: int): bytes {
    if items == [] then [']' as int] else Separator(i == 1) + ItemsText(items)
  }

  lemma MembersUnfoldFrom(cfg: Config, h: Heap, es: Entries, k: nat, depth: int)
    requires k < |es| && EncodeMembers(cfg, h, es, k, depth).Done?
    ensures var key, t, tail :=
        EncodeKey(cfg, es[k].0), EncodeValue(cfg, h, es[k].1, depth), EncodeMembers(cfg, h, es, k + 1, depth);
      && key.Done? && t.Done? && tail.Done?
      && EncodeMembers(cfg, h, es, k, depth) == Done(Separator(k == 0) + (key.value + t.value + tail.value))
  {
    hide EncodeKey, EncodeValue, Separator;
    var key, t, tail :=
      EncodeKey(cfg, es[k].0), EncodeValue(cfg, h, es[k].1, depth), EncodeMembers(cfg, h, es, k + 1, depth);
    RegroupFour(Separator(k == 0), key.value, t.value, tail.value);
  }

  lemma ItemsUnfoldFrom(cfg: Config, h: Heap, es: Entries, i: int, n: int, depth: int)
    requires i <= n && EncodeItems(cfg, h, es, i, n, depth).Done?
    ensures var t, tail := EncodeValue(cfg, h, RawGet(es, i), depth), EncodeItems(cfg, h, es, i + 1, n, depth);
      && t.Done? && tail.Done?
      && EncodeItems(cfg, h, es, i, n, depth) == Done(Separator(i == 1) + (t.value + tail.value))
  {
    hide EncodeValue, RawGet, Separator;
    var t, tail := EncodeValue(cfg, h, RawGet(es, i), depth), EncodeItems(cfg, h, es, i + 1, n, depth);
    RegroupFour(Separator(i == 1), t.value, [], tail.value);
    assert t.value + [] == t.value && Separator(i == 1) + t.value + [] == Separator(i == 1) + t.value;
  }

  lemma SeparatorIs()
    ensures Separator(true) == [] && Separator(false) == [',' as int]
  {
  }

  lemma MembersTailStep(name: bytes, doc: Doc, rest: seq<Member>, k: nat)
    ensures MembersTail([MemberOf(name, doc)] + rest, k) ==
      Separator(k == 0) + (([QUOTE] + CharsText(Spell(name)) + [':' as int]) + Text(doc) + MembersTail(rest, k + 1))
  {
    SeparatorIs();
    hide Separator, CharsText, Spell, Text, MembersText;
    MembersTextStep(name, doc, rest);
  }

  lemma ItemsTailStep(doc: Doc, rest: seq<Item>, i: int)
    requires i >= 1
    ensures ItemsTail([ItemOf(doc)] + rest, i) == Separator(i == 1) + (Text(doc) + ItemsTail(rest, i + 1))
  {
    SeparatorIs();
    hide Separator, Text, ItemsText;
    ItemsTextStep(doc, rest);
  }

  /** The room on the Lua stack that a depth allows. */
  function Room(cfg: Config, depth: int): int {
    2 * (cfg.maxDepth - depth) + 1
  }

  lemma MembersMirrorCons(cfg: Config, value: bytes -> Double, h: Heap, es: Entries, k: nat, doc: Doc,
                          rest: seq<Member>)
    requires k < |es| && (es[k].0.VStr? || es[k].0.VNumber?) && Mirrors(cfg, value, h, es[k].1, doc)
    requires MembersMirror(cfg, value, h, es, k + 1, rest)
    ensures MembersMirror(cfg, value, h, es, k, [MemberOf(KeyText(cfg, es[k].0), doc)] + rest)
  {
    hide Mirrors, KeyText, Spell;
    assert ([MemberOf(KeyText(cfg, es[k].0), doc)] + rest)[1..] == rest;
  }

  lemma ItemsMirrorCons(cfg: Config, value: bytes -> Double, h: Heap, es: Entries, i: int, doc: Doc, rest: seq<Item>)
    requires Distinct(es) && Mirrors(cfg, value, h, RawGet(es, i), doc)
    requires ItemsMirror(cfg, value, h, es, i + 1, rest)
    ensures ItemsMirror(cfg, value, h, es, i, [ItemOf(doc)] + rest)
  {
    RawGetFinds(es, i);
    NilMirrored(cfg, value, h, doc);
    hide Mirrors, RawGet, Distinct, Absent;
    assert ([ItemOf(doc)] + rest)[1..] == rest;
  }

  lemma NilMirrored(cfg: Config, value: bytes -> Double, h: Heap, doc: Doc)
    ensures Mirrors(cfg, value, h, VNil, doc) ==> doc == DNull
  {
  }

  lemma {:induction false} MembersDoc(cfg: Config, value: bytes -> Double, h: Heap, es: Entries, k: nat, depth: int)
    returns (members: seq<Member>)
    requires k <= |es| && EncodeMembers(cfg, h, es, k, depth).Done? && depth <= cfg.maxDepth
    requires TextualKeys(cfg, es) && forall j :: 0 <= j < |es| ==> AllTextual(cfg, h, es[j].1)
    ensures MembersMirror(cfg, value, h, es, k, members) && MembersNeed(members) <= Room(cfg, depth)
    ensures EncodeMembers(cfg, h, es, k, depth) == Done(MembersTail(members, k))
    decreases cfg.maxDepth - depth, 4, |es| - k
  {
    hide *;
    if k == |es| {
      members := [];
      NoMembersMirror(cfg, value, h, es, depth);
    } else {
      MembersUnfoldFrom(cfg, h, es, k, depth);
      KeysWritable(cfg, es[k].0);
      KeyIsTextual(cfg, es, k);
      KeyIsString(cfg, es[k].0);
      var doc := ValueDoc(cfg, value, h, es[k].1, depth);
      var rest := MembersDoc(cfg, value, h, es, k + 1, depth);
      members := [MemberOf(KeyText(cfg, es[k].0), doc)] + rest;
      MembersMirrorCons(cfg, value, h, es, k, doc, rest);
      MembersTailStep(KeyText(cfg, es[k].0), doc, rest, k);
      MembersTextStep(KeyText(cfg, es[k].0), doc, rest);
    }
  }

  lemma KeyIsTextual(cfg: Config, es: Entries, k: nat)
    requires TextualKeys(cfg, es) && k < |es|
    ensures Textual(cfg, es[k].0)
  {
  }

  lemma NoMembersMirror(cfg: Config, value: bytes -> Double, h: Heap, es: Entries, depth: int)
    requires depth <= cfg.maxDepth
    ensures MembersMirror(cfg, value, h, es, |es|, []) && MembersNeed([]) <= Room(cfg, depth)
    ensures EncodeMembers(cfg, h, es, |es|, depth) == Done(MembersTail([], |es|))
  {
  }

  lemma NoItemsMirror(cfg: Config, value: bytes -> Double, h: Heap, es: Entries, n: int, depth: int)
    requires depth <= cfg.maxDepth
    ensures ItemsMirror(cfg, value, h, es, n + 1, []) && ItemsNeed([]) <= Room(cfg, depth)
    ensures EncodeItems(cfg, h, es, n + 1, n, depth) == Done(ItemsTail([], n + 1))
  {
  }

  lemma {:induction false} ItemsDoc(cfg: Config, value: bytes -> Double, h: Heap, es: Entries, i: int, n: int,
                                    depth: int)
    returns (items: seq<Item>)
    requires 1 <= i <= n + 1 && EncodeItems(cfg, h, es, i, n, depth).Done? && depth <= cfg.maxDepth && Distinct(es)
    requires forall j :: 0 <= j < |es| ==> AllTextual(cfg, h, es[j].1)
    ensures |items| == n + 1 - i && ItemsMirror(cfg, value, h, es, i, items) && ItemsNeed(items) <= Room(cfg, depth)
    ensures EncodeItems(cfg, h, es, i, n, depth) == Done(ItemsTail(items, i))
    decreases cfg.maxDepth - depth, 4, n + 1 - i
  {
    hide *;
    if i == n + 1 {
      items := [];
      NoItemsMirror(cfg, value, h, es, n, depth);
    } else {
      ItemsUnfoldFrom(cfg, h, es, i, n, depth);
      GetTextual(cfg, h, es, i);
      var doc := ValueDoc(cfg, value, h, RawGet(es, i), depth);
      var rest := ItemsDoc(cfg, value, h, es, i + 1, n, depth);
      items := [ItemOf(doc)] + rest;
      ItemsMirrorCons(cfg, value, h, es, i, doc, rest);
      ItemsTailStep(doc, rest, i);
      ItemsTextStep(doc, rest);
    }
  }

  lemma GetTextual(cfg: Config, h: Heap, es: Entries, i: int)
    requires forall j :: 0 <= j < |es| ==> AllTextual(cfg, h, es[j].1)
    ensures AllTextual(cfg, h, RawGet(es, i))
  {
    hide Textual, TextualTable;
    RawGetFinds(es, i);
    assert Textual(cfg, VNil) by { NilTextual(cfg); }
    hide RawGet;
  }

  lemma NilTextual(cfg: Config)
    ensures Textual(cfg, VNil)
  {
  }

  lemma EncodesTable(cfg: Config, h: Heap, id: nat, depth: int)
    requires EncodeValue(cfg, h, VTable(id), depth).Done?
    ensures var es, shape := EntriesOf(h, id), ShapeOf(cfg, EntriesOf(h, id));
      && !shape.Sparse? && depth + 1 <= cfg.maxDepth
      && EncodeValue(cfg, h, VTable(id), depth) ==
         if shape.Array? && shape.n > 0 then Behind(['[' as int], EncodeItems(cfg, h, es, 1, shape.n, depth + 1))
         else Behind(['{' as int], EncodeMembers(cfg, h, es, 0, depth + 1))
  {
    hide ShapeOf, EncodeItems, EncodeMembers;
  }

  lemma BehindIs(front: bytes, o: Outcome<bytes>)
    ensures Behind(front, o) == if o.Done? then Done(front + o.value) else o
  {
  }

  lemma ArrayMirrors(cfg: Config, value: bytes -> Double, h: Heap, id: nat, items: seq<Item>)
    requires var es := EntriesOf(h, id);
      items != [] && ShapeOf(cfg, es) == Array(|items|) && ItemsMirror(cfg, value, h, es, 1, items)
    ensures Mirrors(cfg, value, h, VTable(id), DArray([], items))
    ensures Text(DArray([], items)) == ['[' as int] + ItemsTail(items, 1)
    ensures Needs(DArray([], items)) == 1 + ItemsNeed(items)
  {
    hide ShapeOf, ItemsMirror, ItemsText, ItemsNeed;
  }

  lemma ObjectMirrors(cfg: Config, value: bytes -> Double, h: Heap, id: nat, members: seq<Member>)
    requires var es := EntriesOf(h, id);
      && (ShapeOf(cfg, es) == Object || ShapeOf(cfg, es) == Array(0)) && MembersMirror(cfg, value, h, es, 0, members)
    ensures Mirrors(cfg, value, h, VTable(id), DObject([], members))
    ensures Text(DObject([], members)) == ['{' as int] + MembersTail(members, 0)
    ensures Needs(DObject([], members)) == 2 + MembersNeed(members)
  {
    var es := EntriesOf(h, id);
    EmptyArray(cfg, es);
    assert |members| == |es|;
    hide ShapeOf, MembersMirror, MembersText, MembersNeed;
  }

  lemma EmptyArray(cfg: Config, es: Entries)
    ensures ShapeOf(cfg, es) == Array(0) ==> es == []
  {
    hide RawGet;
  }

  lemma ScalarDoc(cfg: Config, value: bytes -> Double, h: Heap, v: Value, depth: int) returns (doc: Doc)
    requires EncodeValue(cfg, h, v, depth).Done? && Textual(cfg, v) && !v.VTable?
    ensures Mirrors(cfg, value, h, v, doc) && EncodeValue(cfg, h, v, depth) == Done(Text(doc)) && Needs(doc) == 0
  {
    hide Spell;
    match v
    case VNil => doc := DNull;
    case VLight(_) => doc := DNull;
    case VBool(b) => doc := if b then DTrue else DFalse;
    case VNumber(d) => doc := DNumber(cfg.printf(d), value(cfg.printf(d)));
    case VStr(s) => doc := DString(Spell(s));
  }

  /** What is encoded of a value is the text of a document that mirrors it. */
  lemma {:induction false} ValueDoc(cfg: Config, value: bytes -> Double, h: Heap, v: Value, depth: int)
    returns (doc: Doc)
    requires EncodeValue(cfg, h, v, depth).Done? && AllTextual(cfg, h, v)
    ensures Mirrors(cfg, value, h, v, doc) && EncodeValue(cfg, h, v, depth) == Done(Text(doc))
    ensures Needs(doc) <= if v.VTable? then Room(cfg, depth) else 0
    decreases cfg.maxDepth - depth, 3, 0
  {
    hide *;
    if v.VTable? {
      var es, shape := EntriesOf(h, v.id), ShapeOf(cfg, EntriesOf(h, v.id));
      EncodesTable(cfg, h, v.id, depth);
      TextualParts(cfg, h, v.id);
      TextualFacts(cfg, h, v.id);
      RoomShrinks(cfg, depth);
      if shape.Array? && shape.n > 0 {
        BehindIs(['[' as int], EncodeItems(cfg, h, es, 1, shape.n, depth + 1));
        var items := ItemsDoc(cfg, value, h, es, 1, shape.n, depth + 1);
        ArrayMirrors(cfg, value, h, v.id, items);
        doc := DArray([], items);
      } else {
        BehindIs(['{' as int], EncodeMembers(cfg, h, es, 0, depth + 1));
        EmptyArray(cfg, es);
        var members := MembersDoc(cfg, value, h, es, 0, depth + 1);
        ObjectMirrors(cfg, value, h, v.id, members);
        doc := DObject([], members);
      }
    } else {
      TextualItself(cfg, h, v);
      doc := ScalarDoc(cfg, value, h, v, depth);
    }
  }

  lemma TextualItself(cfg: Config, h: Heap, v: Value)
    ensures AllTextual(cfg, h, v) ==> Textual(cfg, v)
  {
  }

  lemma TextualFacts(cfg: Config, h: Heap, id: nat)
    requires TextualTable(cfg, h, id)
    ensures var es := EntriesOf(h, id);
      Distinct(es) && (ShapeOf(cfg, es) == Object || es == [] ==> TextualKeys(cfg, es))
  {
    hide ShapeOf, Textual;
  }

  lemma RoomShrinks(cfg: Config, depth: int)
    ensures Room(cfg, depth + 1) + 2 == Room(cfg, depth)
    ensures depth <= cfg.maxDepth ==> Room(cfg, depth) >= 1
  {
  }

  // ----- It is legal -----

  lemma {:induction false} MirrorIsLegal(cfg: Config, value: bytes -> Double, h: Heap, v: Value, doc: Doc)
    requires Mirrors(cfg, value, h, v, doc) && AllTextual(cfg, h, v)
    ensures Legal(value, doc)
    decreases doc, 1
  {
    hide IsJsonNumber, Spell, ShapeOf, LegalSpelling, Path, TextualTable;
    match v
    case VNumber(_) =>
    case VStr(s) => SpellMeans(s);
    case VTable(id) =>
      TextualParts(cfg, h, id);
      if doc.DArray? {
        ItemsAreLegal(cfg, value, h, EntriesOf(h, id), 1, doc.items);
      } else if doc.members != [] {
        TextualFacts(cfg, h, id);
        MembersAreLegal(cfg, value, h, EntriesOf(h, id), 0, doc.members);
      }
    case _ =>
  }

  lemma {:induction false} ItemsAreLegal(cfg: Config, value: bytes -> Double, h: Heap, es: Entries, i: int,
                                         items: seq<Item>)
    requires ItemsMirror(cfg, value, h, es, i, items)
    requires forall k :: 0 <= k < |es| ==> AllTextual(cfg, h, es[k].1)
    ensures LegalItems(value, items)
    decreases items, 0
  {
    hide Mirrors, AllTextual, Legal;
    if items != [] {
      var x := items[0];
      if Absent(es, i) {
        NullIsLegal(value);
      } else {
        var k :| 0 <= k < |es| && IsInteger(es[k].0, i);
        MirrorIsLegal(cfg, value, h, es[k].1, x.value);
      }
      ItemsAreLegal(cfg, value, h, es, i + 1, items[1..]);
      assert forall k :: 1 <= k < |items| ==> items[k] == items[1..][k - 1];
    }
  }

  lemma NullIsLegal(value: bytes -> Double)
    ensures Legal(value, DNull)
  {
  }

  lemma {:induction false} MembersAreLegal(cfg: Config, value: bytes -> Double, h: Heap, es: Entries, k: nat,
                                           members: seq<Member>)
    requires MembersMirror(cfg, value, h, es, k, members)
    requires TextualKeys(cfg, es) && forall j :: 0 <= j < |es| ==> AllTextual(cfg, h, es[j].1)
    ensures LegalMembers(value, members)
    decreases members, 0
  {
    hide Mirrors, AllTextual, Legal, LegalString, Spell, KeyText, Textual;
    if members != [] {
      KeyIsString(cfg, es[k].0);
      SpellMeans(KeyText(cfg, es[k].0));
      MirrorIsLegal(cfg, value, h, es[k].1, members[0].value);
      MembersAreLegal(cfg, value, h, es, k + 1, members[1..]);
      assert forall j :: 1 <= j < |members| ==> members[j] == members[1..][j - 1];
    }
  }

  // ----- What it means -----

  /** No entry behind the k-th has a key of the same name. */
  ghost predicate Counts(cfg: Config, es: Entries, k: nat) {
    forall j :: k < j < |es| ==> KeyText(cfg, es[j].0) != KeyText(cfg, es[k].0)
  }

  /**
   v is read back as t: a number as what printf writes of it is read, a table
   whose keys are positive integers, unless it is empty or sparse, from 1 to
   the largest with null for what is absent, and any other table by the names
   of its keys, of which the last of the same name counts.
   */
  ghost predicate Denotes(cfg: Config, value: bytes -> Double, h: Heap, v: Value, t: Tree)
    decreases t, 1
  {
    match v
    case VNil => t == TNull
    case VLight(p) => p == 0 && t == TNull
    case VBool(b) => t == TBool(b)
    case VNumber(d) => t == NumberMeaning(value(cfg.printf(d)))
    case VStr(s) => t == TStr(s)
    case VOpaque(_) => false
    case VTable(id) =>
      var es := EntriesOf(h, id);
      match ShapeOf(cfg, es)
      case Sparse => false
      case Array(n) => if n > 0 then ArrayDenotes(cfg, value, h, es, n, t) else t == TTable(map[])
      case Object => ObjectDenotes(cfg, value, h, es, t)
  }

  ghost predicate ArrayDenotes(cfg: Config, value: bytes -> Double, h: Heap, es: Entries, n: nat, t: Tree)
    decreases t, 0
  {
    && t.TTable? && t.m.Keys == Indices(1, n + 1)
    && forall i :: 1 <= i <= n ==>
         && KInt(i) in t.m
         && (Absent(es, i) ==> t.m[KInt(i)] == TNull)
         && forall k :: 0 <= k < |es| && IsInteger(es[k].0, i) ==> Denotes(cfg, value, h, es[k].1, t.m[KInt(i)])
  }

  ghost function Names(cfg: Config, es: Entries): set<Key> {
    set k | 0 <= k < |es| :: KStr(KeyText(cfg, es[k].0))
  }

  ghost predicate ObjectDenotes(cfg: Config, value: bytes -> Double, h: Heap, es: Entries, t: Tree)
    decreases t, 0
  {
    && t.TTable? && t.m.Keys == Names(cfg, es)
    && forall k :: 0 <= k < |es| && Counts(cfg, es, k) ==>
         KStr(KeyText(cfg, es[k].0)) in t.m && Denotes(cfg, value, h, es[k].1, t.m[KStr(KeyText(cfg, es[k].0))])
  }

  /** A name has a last entry. */
  lemma {:induction false} LastOfName(cfg: Config, es: Entries, k: nat) returns (j: nat)
    requires k < |es|
    ensures k <= j < |es| && KeyText(cfg, es[j].0) == KeyText(cfg, es[k].0) && Counts(cfg, es, j)
    decreases |es| - k
  {
    hide KeyText;
    if Counts(cfg, es, k) {
      j := k;
    } else {
      var m :| k < m < |es| && KeyText(cfg, es[m].0) == KeyText(cfg, es[k].0);
      j := LastOfName(cfg, es, m);
    }
  }

  /** A value is read back as one tree only. */
  lemma {:induction false} DenotesOne(cfg: Config, value: bytes -> Double, h: Heap, v: Value, t: Tree, u: Tree)
    requires Denotes(cfg, value, h, v, t) && Denotes(cfg, value, h, v, u)
    ensures t == u
    decreases t
  {
    hide ShapeOf, NumberMeaning, KeyText, Indices, IsInteger, Absent;
    if v.VTable? && t != TTable(map[]) {
      var es := EntriesOf(h, v.id);
      assert t.m.Keys == u.m.Keys;
      forall key | key in t.m
        ensures t.m[key] == u.m[key]
      {
        if ShapeOf(cfg, es).Array? {
          SameItem(cfg, value, h, es, ShapeOf(cfg, es).n, t, u, key);
        } else {
          SameMember(cfg, value, h, es, t, u, key);
        }
      }
      assert t.m == u.m;
    }
  }

  lemma SameItem(cfg: Config, value: bytes -> Double, h: Heap, es: Entries, n: nat, t: Tree, u: Tree, key: Key)
    requires ArrayDenotes(cfg, value, h, es, n, t) && ArrayDenotes(cfg, value, h, es, n, u) && key in t.m
    ensures key in u.m && t.m[key] == u.m[key]
    decreases t, 0
  {
    hide Denotes;
    assert key in Indices(1, n + 1);
    var i := key.i;
    assert key == KInt(i) && 1 <= i <= n;
    hide Indices;
    if !Absent(es, i) {
      var k :| 0 <= k < |es| && IsInteger(es[k].0, i);
      DenotesOne(cfg, value, h, es[k].1, t.m[key], u.m[key]);
    }
  }

  lemma SameMember(cfg: Config, value: bytes -> Double, h: Heap, es: Entries, t: Tree, u: Tree, key: Key)
    requires ObjectDenotes(cfg, value, h, es, t) && ObjectDenotes(cfg, value, h, es, u) && key in t.m
    ensures key in u.m && t.m[key] == u.m[key]
    decreases t, 0
  {
    hide Denotes, KeyText, Counts;
    assert key in Names(cfg, es);
    var k :| 0 <= k < |es| && key == KStr(KeyText(cfg, es[k].0));
    var j := LastOfName(cfg, es, k);
    DenotesOne(cfg, value, h, es[j].1, t.m[key], u.m[key]);
  }

  // ----- A document that mirrors a value means it -----

  lemma {:induction false} ItemsMirrorAt(cfg: Config, value: bytes -> Double, h: Heap, es: Entries, i: int,
                                         items: seq<Item>, j: nat)
    requires ItemsMirror(cfg, value, h, es, i, items) && j < |items|
    ensures ItemValues(items)[j] == Meaning(items[j].value)
    ensures Absent(es, i + j) ==> items[j].value == DNull
    ensures forall k :: 0 <= k < |es| && IsInteger(es[k].0, i + j) ==> Mirrors(cfg, value, h, es[k].1, items[j].value)
    decreases j
  {
    hide Mirrors, Absent, IsInteger, Meaning;
    if j > 0 {
      ItemsMirrorAt(cfg, value, h, es, i + 1, items[1..], j - 1);
      assert items[j] == items[1..][j - 1];
    }
  }

  lemma {:induction false} MembersMirrorAt(cfg: Config, value: bytes -> Double, h: Heap, es: Entries, k: nat,
                                           members: seq<Member>, j: nat)
    requires MembersMirror(cfg, value, h, es, k, members) && j < |members|
    requires TextualKeys(cfg, es)
    ensures k + j < |es| && Mirrors(cfg, value, h, es[k + j].1, members[j].value)
    ensures MemberPairs(members)[j] == (KeyText(cfg, es[k + j].0), Meaning(members[j].value))
    decreases j
  {
    hide Mirrors, Meaning, Textual, KeyText, Spell, StringMeaning;
    if j > 0 {
      MembersMirrorAt(cfg, value, h, es, k + 1, members[1..], j - 1);
      assert members[j] == members[1..][j - 1];
    } else {
      KeyIsString(cfg, es[k].0);
      SpellMeans(KeyText(cfg, es[k].0));
    }
  }

  /** Of several assignments to a key, the last counts. */
  lemma {:induction false} AssignedLast(ps: seq<(bytes, Tree)>, k: nat)
    requires k < |ps| && forall j :: k < j < |ps| ==> ps[j].0 != ps[k].0
    ensures KStr(ps[k].0) in Assigned(ps) && Assigned(ps)[KStr(ps[k].0)] == ps[k].1
  {
    if k < |ps| - 1 { AssignedLast(ps[..|ps| - 1], k); }
  }

  lemma {:induction false} AssignedKeys(ps: seq<(bytes, Tree)>)
    ensures Assigned(ps).Keys == set k | 0 <= k < |ps| :: KStr(ps[k].0)
  {
    if ps != [] {
      var front := ps[..|ps| - 1];
      AssignedKeys(front);
      assert (set k | 0 <= k < |ps| :: KStr(ps[k].0)) ==
        (set k | 0 <= k < |front| :: KStr(front[k].0)) + {KStr(ps[|ps| - 1].0)};
    }
  }

  lemma ArrayMeans(cfg: Config, value: bytes -> Double, h: Heap, es: Entries, n: nat, items: seq<Item>)
    requires |items| == n && ItemsMirror(cfg, value, h, es, 1, items)
    requires forall k :: 0 <= k < |es| ==> AllTextual(cfg, h, es[k].1)
    ensures ArrayDenotes(cfg, value, h, es, n, TTable(FromIndex(ItemValues(items), 1)))
    decreases items, 0
  {
    hide Mirrors, Denotes, AllTextual, IsInteger, Absent, ItemsMirror, ItemValues;
    var m := FromIndex(ItemValues(items), 1);
    forall i | 1 <= i <= n
      ensures KInt(i) in m && (Absent(es, i) ==> m[KInt(i)] == TNull)
      ensures forall k :: 0 <= k < |es| && IsInteger(es[k].0, i) ==> Denotes(cfg, value, h, es[k].1, m[KInt(i)])
    {
      ItemsMirrorAt(cfg, value, h, es, 1, items, i - 1);
      assert m[KInt(i)] == ItemValues(items)[i - 1];
      NullMeans();
      forall k | 0 <= k < |es| && IsInteger(es[k].0, i)
        ensures Denotes(cfg, value, h, es[k].1, m[KInt(i)])
      {
        MirrorMeans(cfg, value, h, es[k].1, items[i - 1].value);
      }
    }
  }

  lemma NullMeans()
    ensures Meaning(DNull) == TNull
  {
  }

  lemma ObjectMeans(cfg: Config, value: bytes -> Double, h: Heap, es: Entries, members: seq<Member>)
    requires MembersMirror(cfg, value, h, es, 0, members)
    requires TextualKeys(cfg, es) && forall k :: 0 <= k < |es| ==> AllTextual(cfg, h, es[k].1)
    ensures ObjectDenotes(cfg, value, h, es, TTable(Assigned(MemberPairs(members))))
    decreases members, 0
  {
    hide Mirrors, Denotes, AllTextual, TextualKeys, KeyText, Assigned, MemberPairs;
    var ps := MemberPairs(members);
    assert |members| == |es|;
    hide MembersMirror;
    forall k | 0 <= k < |es|
      ensures ps[k].0 == KeyText(cfg, es[k].0) && Denotes(cfg, value, h, es[k].1, ps[k].1)
    {
      MembersMirrorAt(cfg, value, h, es, 0, members, k);
      MirrorMeans(cfg, value, h, es[k].1, members[k].value);
    }
    AssignedKeys(ps);
    forall k | 0 <= k < |es| && Counts(cfg, es, k)
      ensures KStr(KeyText(cfg, es[k].0)) in Assigned(ps)
      ensures Denotes(cfg, value, h, es[k].1, Assigned(ps)[KStr(KeyText(cfg, es[k].0))])
    {
      AssignedLast(ps, k);
    }
  }

  /** A document that mirrors a value means what the value is read back as. */
  lemma {:induction false} MirrorMeans(cfg: Config, value: bytes -> Double, h: Heap, v: Value, doc: Doc)
    requires Mirrors(cfg, value, h, v, doc) && AllTextual(cfg, h, v)
    ensures Denotes(cfg, value, h, v, Meaning(doc))
    decreases doc, 1
  {
    hide Spell, ShapeOf, Path, TextualTable, NumberMeaning, FromIndex, Assigned, ItemsMirror, MembersMirror,
         ArrayDenotes, ObjectDenotes;
    match v
    case VStr(s) => SpellMeans(s);
    case VTable(id) =>
      TextualParts(cfg, h, id);
      TextualFacts(cfg, h, id);
      if doc.DArray? {
        ArrayMeans(cfg, value, h, EntriesOf(h, id), |doc.items|, doc.items);
      } else if ShapeOf(cfg, EntriesOf(h, id)) == Object {
        ObjectMeans(cfg, value, h, EntriesOf(h, id), doc.members);
      } else {
        NothingAssigned();
      }
    case _ =>
  }

  lemma NothingAssigned()
    ensures Assigned([]) == map[]
  {
  }

  // ----- The main result -----

  /**
   Whatever can be encoded is read back as what it denotes: every number as
   printf and strtod make it, holes as null, and number keys by their digits;
   in every order of the entries, for every configuration of the sparse arrays,
   and with 2 slots of Lua stack for each level.
   */
  lemma DecodesEveryEncoding(cfg: Config, dcfg: D.Config, value: bytes -> Double, h: Heap, v: Value, slots: nat)
    returns (t: Tree)
    requires ReadsNumbers(dcfg.strtod, value) && AllTextual(cfg, h, v)
    requires EncodeValue(cfg, h, v, 0).Done? && slots >= 2 * cfg.maxDepth + 1
    ensures Denotes(cfg, value, h, v, t) && D.Decode(dcfg, EncodeValue(cfg, h, v, 0).value, slots) == D.Value(t)
  {
    hide *;
    var doc := ValueDoc(cfg, value, h, v, 0);
    MirrorIsLegal(cfg, value, h, v, doc);
    MirrorMeans(cfg, value, h, v, doc);
    RoomAtStart(cfg);
    FitsExactly(doc, slots);
    assert [] + Text(doc) + [] == Text(doc);
    NothingIsBlank();
    DecodesEveryRendering(dcfg, value, [], doc, [], slots);
    t := Meaning(doc);
  }

  lemma NothingIsBlank()
    ensures Blank([])
  {
  }

  lemma RoomAtStart(cfg: Config)
    ensures Room(cfg, 0) == 2 * cfg.maxDepth + 1
  {
  }

  // ----- What has no text -----

  /** "%.14g" writes every finite number as JSON has it. */
  ghost predicate PrintsJson(f: Double -> bytes) {
    forall d: Double :: d.Finite? ==> IsJsonNumber(f(d))
  }

  ghost predicate BytesIn(v: Value) {
    v.VStr? ==> IsBytes(v.s)
  }

  /** Strings are byte strings, and no key occurs twice, as in Lua. */
  ghost predicate LuaHeap(h: Heap) {
    WellFormed(h) && forall id, k :: id in h && 0 <= k < |h[id]| ==> BytesIn(h[id][k].0) && BytesIn(h[id][k].1)
  }

  /** As long as NaN and the infinities are refused, what is encoded has a text. */
  lemma {:induction false} EncodedIsTextual(cfg: Config, h: Heap, v: Value, depth: int)
    requires PrintsJson(cfg.printf) && cfg.refuseBadnum && LuaHeap(h) && BytesIn(v)
    requires EncodeValue(cfg, h, v, depth).Done?
    ensures AllTextual(cfg, h, v)
  {
    hide EncodeValue, Clean, AllShort, IsJsonNumber, IsBytes, TextualTable, PrintsJson, EncodeKey, LuaHeap;
    HeapIsWellFormed(h);
    SucceedsExactly(cfg, h, v, depth);
    PlainIsTextual(cfg, v);
    forall p | Path(h, v, p)
      ensures TextualTable(cfg, h, p[|p| - 1])
    {
      CleanIsTextual(cfg, h, p[|p| - 1]);
    }
  }

  lemma HeapIsWellFormed(h: Heap)
    ensures LuaHeap(h) ==> WellFormed(h)
  {
  }

  lemma PlainIsTextual(cfg: Config, v: Value)
    requires PrintsJson(cfg.printf) && cfg.refuseBadnum && Plain(cfg, v) && BytesIn(v)
    ensures Textual(cfg, v)
  {
    hide IsJsonNumber;
  }

  lemma CleanIsTextual(cfg: Config, h: Heap, id: nat)
    requires PrintsJson(cfg.printf) && cfg.refuseBadnum && LuaHeap(h) && Clean(cfg, h, id)
    ensures TextualTable(cfg, h, id)
  {
    hide IsJsonNumber, IsBytes, ShapeOf, EncodeKey, Textual, PrintsJson, Plain, BytesIn;
    var es := EntriesOf(h, id);
    forall k | 0 <= k < |es|
      ensures Textual(cfg, es[k].0) && Textual(cfg, es[k].1)
    {
      KeysWritable(cfg, es[k].0);
      KeyIsPlain(cfg, es[k].0);
      PlainIsTextual(cfg, es[k].0);
      PlainIsTextual(cfg, es[k].1);
    }
  }

  lemma KeyIsPlain(cfg: Config, k: Value)
    requires k.VStr? || (k.VNumber? && (!cfg.refuseBadnum || k.d.Finite?))
    ensures Plain(cfg, k)
  {
  }
}
