/**
 The encoder of Lua CJSON, on any graph of tables: what it writes or why it
 refuses, as a function; and the code, which appends to a buffer and counts
 its depth in the configuration.
 */
module JsonEncode {
  import opened Bytes
  import opened Lua
  import opened JsonString
  import D = JsonDecode
  import opened JsonText
  import opened StrBuf

  /** The entries of a table in the order in which lua_next yields them. */
  type Entries = seq<(Value, Value)>

  /** The tables by reference. A reference to no table is taken for one to an empty table. */
  type Heap = map<nat, Entries>

  function EntriesOf(h: Heap, id: nat): Entries {
    if id in h then h[id] else []
  }

  /** `printf` is "%.14g" of the C library. */
  datatype Config = Config(
    printf: Double -> bytes,
    sparseConvert: bool, sparseRatio: int, sparseSafe: int,
    maxDepth: int, refuseBadnum: bool, keepBuffer: bool)

  datatype Outcome<+T> = Done(value: T) | Refused(reason: string) | TooNested(depth: int)

  function Behind(front: bytes, o: Outcome<bytes>): Outcome<bytes> {
    if o.Done? then Done(front + o.value) else o
  }

  // ----- Strings and numbers -----

  /** The encoding table: how a byte of a string is written. */
  function SpellByte(b: int): Spelling {
    if b == 0x08 then Short('b' as int)
    else if b == 0x09 then Short('t' as int)
    else if b == 0x0A then Short('n' as int)
    else if b == 0x0C then Short('f' as int)
    else if b == 0x0D then Short('r' as int)
    else if b == 0x22 || b == 0x2F || b == 0x5C then Short(b)
    else if 0 <= b < 0x10 then Unit(['0' as int, '0' as int, '0' as int, LowerHex(b)])
    else if 0x10 <= b < 0x20 then Unit(['0' as int, '0' as int, '1' as int, LowerHex(b - 0x10)])
    else if b == 0x7F then Unit(['0' as int, '0' as int, '7' as int, 'f' as int])
    else Raw(b)
  }

  /**
   Escaped are exactly the control characters, the quote, the two slashes and
   DEL; in two characters if the standard has a form for it, and otherwise with
   lower-case digits.
   */
  lemma EscapesExactly(b: int)
    requires 0 <= b < 256
    ensures SpellByte(b).Raw? <==> !(b < 0x20 || b in {QUOTE, BACKSLASH, '/' as int, 0x7F})
    ensures SpellByte(b).Short? <==> b != 0 && exists letter :: ShortMeaning(letter) == b
    ensures !SpellByte(b).Pair?
    ensures SpellByte(b).Unit? ==> forall c :: c in SpellByte(b).hex ==>
      '0' as int <= c <= '9' as int || 'a' as int <= c <= 'f' as int
  {
    if SpellByte(b).Short? {
      assert ShortMeaning(SpellByte(b).letter) == b;
    }
  }

  function LowerHex(v: int): int {
    if v < 10 then '0' as int + v else 'a' as int + (v - 10)
  }

  function Spell(s: bytes): seq<Spelling> {
    if s == [] then [] else [SpellByte(s[0])] + Spell(s[1..])
  }

  function StringText(s: bytes): bytes {
    [QUOTE] + CharsText(Spell(s))
  }

  lemma {:induction false} CharsArePrintable(s: bytes)
    requires IsBytes(s)
    ensures forall k :: 0 <= k < |CharsText(Spell(s))| ==> 0x20 <= CharsText(Spell(s))[k] != 0x7F
  {
    if s != [] {
      CharsArePrintable(s[1..]);
      assert ([SpellByte(s[0])] + Spell(s[1..]))[1..] == Spell(s[1..]);
      ByteIsPrintable(s[0]);
      hide SpellByte, SpellingText;
    }
  }

  lemma ByteIsPrintable(b: int)
    requires 0 <= b < 256
    ensures var t := SpellingText(SpellByte(b)); forall k :: 0 <= k < |t| ==> 0x20 <= t[k] != 0x7F
  {
  }

  /** No control character gets into the text of a string, as RFC 4627 section 2.5 demands. */
  lemma StringsArePrintable(s: bytes)
    requires IsBytes(s)
    ensures forall k :: 0 <= k < |StringText(s)| ==> 0x20 <= StringText(s)[k] != 0x7F
  {
    CharsArePrintable(s);
  }

  // ----- Arrays or objects -----

  predicate IsIndex(k: Value) {
    k.VNumber? && k.d.Finite? && k.d.r.Floor as real == k.d.r && k.d.r >= 1.0
  }

  /** The index that a key is, or 0. */
  function Index(k: Value): (i: int)
    ensures i >= 0 && (i > 0 <==> IsIndex(k))
    ensures IsIndex(k) ==> k == VNumber(Finite(i as real))
  {
    if IsIndex(k) then k.d.r.Floor else 0
  }

  ghost predicate AllIndices(es: Entries) {
    forall k :: 0 <= k < |es| ==> IsIndex(es[k].0)
  }

  function MaxIndex(es: Entries): (m: int)
    ensures m >= 0
    ensures forall k :: 0 <= k < |es| ==> Index(es[k].0) <= m
    ensures m == 0 || exists k :: 0 <= k < |es| && Index(es[k].0) == m
  {
    if es == [] then 0
    else
      var m, last := MaxIndex(es[..|es| - 1]), Index(es[|es| - 1].0);
      if last > m then last else m
  }

  datatype Shape = Object | Array(n: nat) | Sparse

  /** An array if every key is an index, unless its largest is out of proportion. */
  ghost function ShapeOf(cfg: Config, es: Entries): Shape {
    if !AllIndices(es) then Object
    else
      var max := MaxIndex(es);
      if cfg.sparseRatio > 0 && max > |es| * cfg.sparseRatio && max > cfg.sparseSafe then
        if cfg.sparseConvert then Object else Sparse
      else Array(max)
  }

  ghost predicate IsInteger(v: Value, n: int) {
    v == VNumber(Finite(n as real))
  }

  /**
   The keys of es are the positive integers ns, of which max is the largest: an
   array of that size, unless there are more than sparseRatio places for each
   item and more than sparseSafe in all.
   */
  lemma ShapeIs(cfg: Config, es: Entries, ns: seq<int>, max: nat)
    requires |ns| == |es| && forall k :: 0 <= k < |es| ==> ns[k] >= 1 && IsInteger(es[k].0, ns[k])
    requires (forall k :: 0 <= k < |ns| ==> ns[k] <= max) && (max in ns || (max == 0 && ns == []))
    ensures ShapeOf(cfg, es) ==
      if cfg.sparseRatio > 0 && max > |es| * cfg.sparseRatio && max > cfg.sparseSafe
      then if cfg.sparseConvert then Object else Sparse
      else Array(max)
  {
    hide MaxIndex;
    forall k | 0 <= k < |es|
      ensures IsIndex(es[k].0) && Index(es[k].0) == ns[k]
    {
      assert (ns[k] as real).Floor == ns[k];
    }
    if ns != [] {
      var k :| 0 <= k < |ns| && ns[k] == max;
      assert Index(es[k].0) == max;
    }
  }

  /** With any other key, a table is an object. */
  lemma OtherKeysMakeObjects(cfg: Config, es: Entries, k: nat)
    requires k < |es| && forall n :: n >= 1 ==> !IsInteger(es[k].0, n)
    ensures ShapeOf(cfg, es) == Object
  {
    assert IsIndex(es[k].0) ==> IsInteger(es[k].0, Index(es[k].0));
  }

  /** lua_rawgeti: nil if the index is absent. */
  function RawGet(es: Entries, i: int): Value {
    if es == [] then VNil
    else if es[0].0 == VNumber(Finite(i as real)) then es[0].1
    else RawGet(es[1..], i)
  }

  // ----- What is written -----

  ghost function EncodeNumber(cfg: Config, d: Double): Outcome<bytes> {
    if cfg.refuseBadnum && !d.Finite? then Refused("must not be NaN or Inf") else Done(cfg.printf(d))
  }

  /** A key and its colon. */
  ghost function EncodeKey(cfg: Config, k: Value): Outcome<bytes> {
    match k
    case VNumber(d) =>
      var t := EncodeNumber(cfg, d);
      if t.Done? then Done([QUOTE] + t.value + [QUOTE, ':' as int]) else t
    case VStr(s) => Done(StringText(s) + [':' as int])
    case _ => Refused("table key must be a number or string")
  }

  ghost function Separator(first: bool): bytes {
    if first then [] else [',' as int]
  }

  /** What a value is encoded as at a depth. The depth ends every descent, through cycles too. */
  ghost function EncodeValue(cfg: Config, h: Heap, v: Value, depth: int): Outcome<bytes>
    decreases cfg.maxDepth - depth, 3, 0
  {
    match v
    case VNil => Done(D.NULL)
    case VBool(b) => Done(if b then D.TRUE else D.FALSE)
    case VNumber(d) => EncodeNumber(cfg, d)
    case VStr(s) => Done(StringText(s))
    case VLight(p) => if p == 0 then Done(D.NULL) else Refused("type not supported")
    case VOpaque(_) => Refused("type not supported")
    case VTable(id) =>
      var es := EntriesOf(h, id);
      var shape := ShapeOf(cfg, es);
      if shape.Sparse? then Refused("excessively sparse array")
      else if depth + 1 > cfg.maxDepth then TooNested(depth + 1)
      else if shape.Array? && shape.n > 0 then
        Behind(['[' as int], EncodeItems(cfg, h, es, 1, shape.n, depth + 1))
      else
        Behind(['{' as int], EncodeMembers(cfg, h, es, 0, depth + 1))
  }

  /** What is written of a value that is no table, or why it is refused. */
  lemma ScalarsAreWritten(cfg: Config, h: Heap, v: Value, depth: int)
    requires !v.VTable?
    ensures EncodeValue(cfg, h, v, depth) == match v
      case VNil => Done(['n' as int, 'u' as int, 'l' as int, 'l' as int])
      case VBool(true) => Done(['t' as int, 'r' as int, 'u' as int, 'e' as int])
      case VBool(false) => Done(['f' as int, 'a' as int, 'l' as int, 's' as int, 'e' as int])
      case VNumber(d) =>
        if cfg.refuseBadnum && (d == NaN || d.Infinite?) then Refused("must not be NaN or Inf") else Done(cfg.printf(d))
      case VStr(s) => Done(['\"' as int] + CharsText(Spell(s)))
      case VLight(0) => Done(['n' as int, 'u' as int, 'l' as int, 'l' as int])
      case _ => Refused("type not supported")
  {
    hide Spell, CharsText;
  }

  /** The items from i to n and the closing bracket. */
  ghost function EncodeItems(cfg: Config, h: Heap, es: Entries, i: int, n: int, depth: int): Outcome<bytes>
    decreases cfg.maxDepth - depth, 4, n - i
  {
    if i > n then Done([']' as int])
    else
      var t := EncodeValue(cfg, h, RawGet(es, i), depth);
      if t.Done? then Behind(Separator(i == 1) + t.value, EncodeItems(cfg, h, es, i + 1, n, depth)) else t
  }

  /** The members from entry k on and the closing brace. */
  ghost function EncodeMembers(cfg: Config, h: Heap, es: Entries, k: nat, depth: int): Outcome<bytes>
    decreases cfg.maxDepth - depth, 4, |es| - k
  {
    if k >= |es| then Done(['}' as int])
    else
      var key := EncodeKey(cfg, es[k].0);
      if !key.Done? then key
      else
        var t := EncodeValue(cfg, h, es[k].1, depth);
        if t.Done?
        then Behind(Separator(k == 0) + key.value + t.value, EncodeMembers(cfg, h, es, k + 1, depth))
        else t
  }

  // ----- The code -----

  ghost predicate PrintsShort(f: Double -> bytes) {
    forall d :: |f(d)| < 32
  }

  function Fault(o: Outcome<bytes>): Outcome<()> {
    match o
    case Done(_) => Done(())
    case Refused(reason) => Refused(reason)
    case TooNested(depth) => TooNested(depth)
  }

  /** Whether a call did to the buffer and to the depth what o says. */
  ghost predicate Did(o: Outcome<bytes>, r: Outcome<()>, before: bytes, after: bytes, depth0: int, depth: int) {
    r == Fault(o) && (o.Done? ==> after == before + o.value && depth == depth0)
  }

  /** To append all to `before` comes to appending the rest to `now`. */
  ghost predicate Remains(all: Outcome<bytes>, before: bytes, rest: Outcome<bytes>, now: bytes) {
    Fault(all) == Fault(rest) && (rest.Done? ==> before + all.value == now + rest.value)
  }

  lemma RemainsAll(front: bytes, o: Outcome<bytes>, before: bytes)
    ensures Remains(Behind(front, o), before, o, before + front)
  {
    if o.Done? { assert before + (front + o.value) == (before + front) + o.value; }
  }

  lemma RemainsNext(all: Outcome<bytes>, before: bytes, front: bytes, o: Outcome<bytes>, now: bytes)
    requires Remains(all, before, Behind(front, o), now)
    ensures Remains(all, before, o, now + front)
  {
    if o.Done? { assert now + (front + o.value) == (now + front) + o.value; }
  }

  lemma NextItem(cfg: Config, h: Heap, es: Entries, i: int, n: int, depth: int, all: Outcome<bytes>, before: bytes,
                 now: bytes)
    requires i <= n && Remains(all, before, EncodeItems(cfg, h, es, i, n, depth), now)
    ensures var t := EncodeValue(cfg, h, RawGet(es, i), depth);
      if t.Done?
      then Remains(all, before, EncodeItems(cfg, h, es, i + 1, n, depth), now + (Separator(i == 1) + t.value))
      else Fault(all) == Fault(t)
  {
    hide EncodeValue, RawGet, Separator;
    var t := EncodeValue(cfg, h, RawGet(es, i), depth);
    if t.Done? {
      RemainsNext(all, before, Separator(i == 1) + t.value, EncodeItems(cfg, h, es, i + 1, n, depth), now);
    }
  }

  lemma NextMember(cfg: Config, h: Heap, es: Entries, k: nat, depth: int, all: Outcome<bytes>, before: bytes,
                   now: bytes)
    requires k < |es| && Remains(all, before, EncodeMembers(cfg, h, es, k, depth), now)
    ensures var key, t := EncodeKey(cfg, es[k].0), EncodeValue(cfg, h, es[k].1, depth);
      if !key.Done? then Fault(all) == Fault(key)
      else if t.Done?
      then Remains(all, before, EncodeMembers(cfg, h, es, k + 1, depth),
                   now + (Separator(k == 0) + key.value + t.value))
      else Fault(all) == Fault(t)
  {
    hide EncodeValue, EncodeKey, Separator;
    var key, t := EncodeKey(cfg, es[k].0), EncodeValue(cfg, h, es[k].1, depth);
    if key.Done? && t.Done? {
      RemainsNext(all, before, Separator(k == 0) + key.value + t.value, EncodeMembers(cfg, h, es, k + 1, depth), now);
    }
  }

  lemma NoMore(cfg: Config, h: Heap, es: Entries, n: int, depth: int, all: Outcome<bytes>, before: bytes, now: bytes)
    ensures Remains(all, before, EncodeItems(cfg, h, es, n + 1, n, depth), now) ==>
      all == Done(all.value) && now + [']' as int] == before + all.value
    ensures Remains(all, before, EncodeMembers(cfg, h, es, |es|, depth), now) ==>
      all == Done(all.value) && now + ['}' as int] == before + all.value
  {
  }

  lemma SpellStep(s: bytes, i: nat)
    requires i < |s|
    ensures CharsText(Spell(s[i..])) == SpellingText(SpellByte(s[i])) + CharsText(Spell(s[i + 1..]))
    ensures 1 <= |SpellingText(SpellByte(s[i]))| <= 6
    ensures SpellByte(s[i]).Raw? ==> SpellingText(SpellByte(s[i])) == [s[i]]
  {
    assert s[i..][1..] == s[i + 1..];
    assert ([SpellByte(s[i])] + Spell(s[i + 1..]))[1..] == Spell(s[i + 1..]);
  }

  method ArrayLength(cfg: Config, es: Entries) returns (shape: Shape)
    ensures shape == ShapeOf(cfg, es)
  {
    var max, items := 0, 0;
    assert es[..|es|] == es;
    for i := 0 to |es|
      invariant items == i && max == MaxIndex(es[..i])
      invariant forall k :: 0 <= k < i ==> IsIndex(es[k].0)
    {
      assert es[..i + 1][..i] == es[..i];
      var k := es[i].0;
      if !IsIndex(k) { return Object; }
      if k.d.r > max as real { max := k.d.r.Floor; }
      items := items + 1;
    }
    if cfg.sparseRatio > 0 && max > items * cfg.sparseRatio && max > cfg.sparseSafe {
      return if cfg.sparseConvert then Object else Sparse;
    }
    return Array(max);
  }

  class Encoder {
    const cfg: Config
    var encodeBuf: StrBuf
    var currentDepth: int
    /** Whether encodeBuf is allocated. */
    var live: bool

    constructor (cfg: Config)
      ensures this.cfg == cfg && live && fresh(encodeBuf) && fresh(encodeBuf.buf)
      ensures encodeBuf.Valid() && encodeBuf.Amortised()
    {
      this.cfg := cfg;
      currentDepth := 0;
      encodeBuf := new StrBuf(0);
      live := true;
    }

    method EncodeException(reason: string) returns (r: Outcome<()>)
      modifies this`live
      ensures r == Refused(reason) && live == (old(live) && cfg.keepBuffer)
    {
      if !cfg.keepBuffer { live := false; }
      r := Refused(reason);
    }

    method EncodeDescend() returns (r: Outcome<()>)
      modifies this`live, this`currentDepth
      ensures currentDepth == old(currentDepth) + 1
      ensures r == if currentDepth > cfg.maxDepth then TooNested(currentDepth) else Done(())
      ensures live == (old(live) && (r.Done? || cfg.keepBuffer))
    {
      currentDepth := currentDepth + 1;
      if currentDepth > cfg.maxDepth {
        if !cfg.keepBuffer { live := false; }
        return TooNested(currentDepth);
      }
      r := Done(());
    }

    /** A byte of a string, or its escape, for which there is room. */
    method AppendEscaped(json: StrBuf, c: int)
      requires json.Valid() && json.length + |SpellingText(SpellByte(c))| < json.size
      modifies json`buf, json`size, json`reallocs, json`length, json.buf
      ensures json.Valid() && json.Contents() == old(json.Contents()) + SpellingText(SpellByte(c))
      ensures json.buf == old(json.buf) && json.size == old(json.size)
      ensures old(json.Amortised()) ==> json.Amortised()
    {
      var escape := SpellByte(c);
      hide SpellByte;
      if !escape.Raw? {
        json.AppendString(SpellingText(escape));
      } else {
        RawIsItself(c);
        json.AppendCharUnsafe(c);
      }
    }

    /** One reservation of 6 * len + 2 covers all that follows: the buffer is not moved again. */
    method AppendString(json: StrBuf, s: bytes)
      requires json.Valid()
      modifies json`buf, json`size, json`reallocs, json`length, json.buf
      ensures json.Valid() && json.Contents() == old(json.Contents()) + StringText(s)
      ensures json.buf == old(json.buf) || fresh(json.buf)
      ensures old(json.length) + 6 * |s| + 2 < old(json.size) ==> json.buf == old(json.buf)
      ensures old(json.Amortised()) ==> json.Amortised()
    {
      hide CharsText, Spell, SpellByte, SpellingText;
      json.EnsureEmptyLength(|s| * 6 + 2);
      ghost var reserved := json.buf;
      json.AppendCharUnsafe(QUOTE);
      assert s[0..] == s && s[|s|..] == [];
      for i := 0 to |s|
        invariant json.Valid() && json.buf == reserved
        invariant json.length + 6 * (|s| - i) + 1 < json.size
        invariant json.Contents() + CharsText(Spell(s[i..])) == old(json.Contents()) + StringText(s)
        invariant old(json.Amortised()) ==> json.Amortised()
      {
        ghost var was := json.Contents();
        SpellStep(s, i);
        AppendEscaped(json, s[i]);
        Regroup(was, SpellingText(SpellByte(s[i])), CharsText(Spell(s[i + 1..])));
      }
      SpellNothing();
      json.AppendCharUnsafe(QUOTE);
    }

    method AppendNumber(json: StrBuf, d: Double) returns (r: Outcome<()>)
      requires json.Valid() && PrintsShort(cfg.printf)
      modifies this`live, json`buf, json`size, json`reallocs, json`length, json.buf
      ensures json.Valid() && (json.buf == old(json.buf) || fresh(json.buf))
      ensures old(json.Amortised()) ==> json.Amortised()
      ensures Did(EncodeNumber(cfg, d), r, old(json.Contents()), json.Contents(), currentDepth, currentDepth)
      ensures live == (old(live) && (r.Done? || cfg.keepBuffer))
    {
      if cfg.refuseBadnum && !d.Finite? {
        r := EncodeException("must not be NaN or Inf");
        return;
      }
      json.AppendFmt(32, cfg.printf(d));
      r := Done(());
    }

    method AppendKey(json: StrBuf, k: Value) returns (r: Outcome<()>)
      requires json.Valid() && PrintsShort(cfg.printf)
      modifies this`live, json`buf, json`size, json`reallocs, json`length, json.buf
      ensures json.Valid() && (json.buf == old(json.buf) || fresh(json.buf))
      ensures old(json.Amortised()) ==> json.Amortised()
      ensures Did(EncodeKey(cfg, k), r, old(json.Contents()), json.Contents(), currentDepth, currentDepth)
      ensures live == (old(live) && (r.Done? || cfg.keepBuffer))
    {
      hide StringText;
      if k.VNumber? {
        json.AppendChar(QUOTE);
        r := AppendNumber(json, k.d);
        if !r.Done? { return; }
        json.AppendMem([QUOTE, ':' as int]);
        assert json.Contents() == old(json.Contents()) + EncodeKey(cfg, k).value;
      } else if k.VStr? {
        AppendString(json, k.s);
        json.AppendChar(':' as int);
        assert json.Contents() == old(json.Contents()) + EncodeKey(cfg, k).value;
        r := Done(());
      } else {
        r := EncodeException("table key must be a number or string");
      }
    }

    method AppendItem(json: StrBuf, h: Heap, es: Entries, i: int) returns (r: Outcome<()>)
      requires json.Valid() && PrintsShort(cfg.printf)
      modifies this`currentDepth, this`live, json`buf, json`size, json`reallocs, json`length, json.buf
      ensures json.Valid() && (json.buf == old(json.buf) || fresh(json.buf))
      ensures old(json.Amortised()) ==> json.Amortised()
      ensures var t := EncodeValue(cfg, h, RawGet(es, i), old(currentDepth));
        && r == Fault(t)
        && (t.Done? ==> json.Contents() == old(json.Contents()) + (Separator(i == 1) + t.value)
                        && currentDepth == old(currentDepth))
      ensures live == (old(live) && (r.Done? || cfg.keepBuffer))
      decreases cfg.maxDepth - currentDepth, 4
    {
      hide EncodeValue, RawGet;
      if i != 1 { json.AppendChar(',' as int); }
      r := AppendData(json, h, RawGet(es, i));
    }

    method AppendMember(json: StrBuf, h: Heap, es: Entries, k: nat) returns (r: Outcome<()>)
      requires json.Valid() && PrintsShort(cfg.printf) && k < |es|
      modifies this`currentDepth, this`live, json`buf, json`size, json`reallocs, json`length, json.buf
      ensures json.Valid() && (json.buf == old(json.buf) || fresh(json.buf))
      ensures old(json.Amortised()) ==> json.Amortised()
      ensures var key, t := EncodeKey(cfg, es[k].0), EncodeValue(cfg, h, es[k].1, old(currentDepth));
        && r == (if key.Done? then Fault(t) else Fault(key))
        && (r.Done? ==> json.Contents() == old(json.Contents()) + (Separator(k == 0) + key.value + t.value)
                        && currentDepth == old(currentDepth))
      ensures live == (old(live) && (r.Done? || cfg.keepBuffer))
      decreases cfg.maxDepth - currentDepth, 4
    {
      hide StrBuf.Valid, StrBuf.Amortised, StrBuf.Contents, EncodeValue, EncodeKey;
      if k != 0 { json.AppendChar(',' as int); }
      r := AppendKey(json, es[k].0);
      if !r.Done? { return; }
      r := AppendData(json, h, es[k].1);
    }

    method AppendArray(json: StrBuf, h: Heap, es: Entries, n: nat) returns (r: Outcome<()>)
      requires json.Valid() && PrintsShort(cfg.printf)
      modifies this`currentDepth, this`live, json`buf, json`size, json`reallocs, json`length, json.buf
      ensures json.Valid() && (json.buf == old(json.buf) || fresh(json.buf))
      ensures old(json.Amortised()) ==> json.Amortised()
      ensures Did(if old(currentDepth) + 1 > cfg.maxDepth then TooNested(old(currentDepth) + 1)
                  else Behind(['[' as int], EncodeItems(cfg, h, es, 1, n, old(currentDepth) + 1)),
                  r, old(json.Contents()), json.Contents(), old(currentDepth), currentDepth)
      ensures live == (old(live) && (r.Done? || cfg.keepBuffer))
      decreases cfg.maxDepth - currentDepth, 2
    {
      hide StrBuf.Valid, StrBuf.Amortised, StrBuf.Contents, EncodeValue, RawGet, EncodeItems, Behind, Remains,
           Separator;
      r := EncodeDescend();
      if !r.Done? { return; }
      json.AppendChar('[' as int);
      ghost var depth, before := currentDepth, old(json.Contents());
      ghost var all := Behind(['[' as int], EncodeItems(cfg, h, es, 1, n, depth));
      RemainsAll(['[' as int], EncodeItems(cfg, h, es, 1, n, depth), before);
      var i := 1;
      while i <= n
        invariant 1 <= i <= n + 1 && currentDepth == depth && live == old(live)
        invariant json.Valid() && (json.buf == old(json.buf) || fresh(json.buf))
        invariant old(json.Amortised()) ==> json.Amortised()
        invariant Remains(all, before, EncodeItems(cfg, h, es, i, n, depth), json.Contents())
      {
        NextItem(cfg, h, es, i, n, depth, all, before, json.Contents());
        r := AppendItem(json, h, es, i);
        if !r.Done? { return; }
        i := i + 1;
      }
      NoMore(cfg, h, es, n, depth, all, before, json.Contents());
      json.AppendChar(']' as int);
      currentDepth := currentDepth - 1;
      r := Done(());
    }

    method AppendObject(json: StrBuf, h: Heap, es: Entries) returns (r: Outcome<()>)
      requires json.Valid() && PrintsShort(cfg.printf)
      modifies this`currentDepth, this`live, json`buf, json`size, json`reallocs, json`length, json.buf
      ensures json.Valid() && (json.buf == old(json.buf) || fresh(json.buf))
      ensures old(json.Amortised()) ==> json.Amortised()
      ensures Did(if old(currentDepth) + 1 > cfg.maxDepth then TooNested(old(currentDepth) + 1)
                  else Behind(['{' as int], EncodeMembers(cfg, h, es, 0, old(currentDepth) + 1)),
                  r, old(json.Contents()), json.Contents(), old(currentDepth), currentDepth)
      ensures live == (old(live) && (r.Done? || cfg.keepBuffer))
      decreases cfg.maxDepth - currentDepth, 2
    {
      hide StrBuf.Valid, StrBuf.Amortised, StrBuf.Contents, EncodeValue, EncodeKey, EncodeMembers, Behind, Remains,
           Separator;
      r := EncodeDescend();
      if !r.Done? { return; }
      json.AppendChar('{' as int);
      ghost var depth, before := currentDepth, old(json.Contents());
      ghost var all := Behind(['{' as int], EncodeMembers(cfg, h, es, 0, depth));
      RemainsAll(['{' as int], EncodeMembers(cfg, h, es, 0, depth), before);
      for k := 0 to |es|
        invariant currentDepth == depth && live == old(live)
        invariant json.Valid() && (json.buf == old(json.buf) || fresh(json.buf))
        invariant old(json.Amortised()) ==> json.Amortised()
        invariant Remains(all, before, EncodeMembers(cfg, h, es, k, depth), json.Contents())
      {
        NextMember(cfg, h, es, k, depth, all, before, json.Contents());
        r := AppendMember(json, h, es, k);
        if !r.Done? { return; }
      }
      NoMore(cfg, h, es, 0, depth, all, before, json.Contents());
      json.AppendChar('}' as int);
      currentDepth := currentDepth - 1;
      r := Done(());
    }

    /** Appends the text of v, and comes back to the depth it started at; or stops with the error. */
    method AppendData(json: StrBuf, h: Heap, v: Value) returns (r: Outcome<()>)
      requires json.Valid() && PrintsShort(cfg.printf)
      modifies this`currentDepth, this`live, json`buf, json`size, json`reallocs, json`length, json.buf
      ensures json.Valid() && (json.buf == old(json.buf) || fresh(json.buf))
      ensures old(json.Amortised()) ==> json.Amortised()
      ensures Did(EncodeValue(cfg, h, v, old(currentDepth)), r, old(json.Contents()), json.Contents(),
                  old(currentDepth), currentDepth)
      ensures live == (old(live) && (r.Done? || cfg.keepBuffer))
      decreases cfg.maxDepth - currentDepth, 3
    {
      hide ShapeOf, StringText, EncodeItems, EncodeMembers;
      r := Done(());
      match v
      case VStr(s) => AppendString(json, s);
      case VNumber(d) => r := AppendNumber(json, d);
      case VBool(b) => json.AppendMem(if b then D.TRUE else D.FALSE);
      case VTable(id) =>
        var shape := ArrayLength(cfg, EntriesOf(h, id));
        if shape.Sparse? {
          r := EncodeException("excessively sparse array");
        } else if shape.Array? && shape.n > 0 {
          r := AppendArray(json, h, EntriesOf(h, id), shape.n);
        } else {
          r := AppendObject(json, h, EntriesOf(h, id));
        }
      case VNil => json.AppendMem(D.NULL);
      case VLight(p) =>
        if p == 0 { json.AppendMem(D.NULL); } else { r := EncodeException("type not supported"); }
      case VOpaque(_) => r := EncodeException("type not supported");
    }

    /** The persistent buffer is emptied if it exists, and allocated otherwise. */
    method PrepareBuffer()
      requires encodeBuf.Valid()
      modifies this`live, this`encodeBuf, encodeBuf`length
      ensures live && encodeBuf.Valid() && encodeBuf.Contents() == []
      ensures || (encodeBuf == old(encodeBuf) && encodeBuf.buf == old(encodeBuf.buf))
              || (fresh(encodeBuf) && fresh(encodeBuf.buf))
    {
      if live {
        encodeBuf.Reset();
      } else {
        encodeBuf := new StrBuf(0);
        live := true;
      }
    }

    /** json_encode: what an earlier call left in the buffer does not show; it is freed exactly if it is not kept. */
    method Encode(h: Heap, v: Value) returns (r: Outcome<bytes>)
      requires PrintsShort(cfg.printf) && encodeBuf.Valid()
      modifies this, encodeBuf, encodeBuf.buf
      ensures encodeBuf.Valid() && r == EncodeValue(cfg, h, v, 0)
      ensures live == cfg.keepBuffer && (r.Done? ==> currentDepth == 0)
    {
      hide StrBuf.Amortised, EncodeValue;
      currentDepth := 0;
      PrepareBuffer();
      var json := encodeBuf;
      var done := AppendData(json, h, v);
      if done.Done? {
        assert [] + EncodeValue(cfg, h, v, 0).value == EncodeValue(cfg, h, v, 0).value;
        r := Done(json.buf[..json.length]);
        if !cfg.keepBuffer { live := false; }
      } else {
        r := if done.Refused? then Refused(done.reason) else TooNested(done.depth);
      }
    }
  }

  lemma RawIsItself(b: int)
    requires SpellByte(b).Raw?
    ensures SpellByte(b).b == b
  {
  }

  lemma Regroup(a: bytes, b: bytes, c: bytes)
    ensures (a + b) + c == a + (b + c)
  {
  }

  lemma SpellNothing()
    ensures CharsText(Spell([])) == [QUOTE]
  {
  }
}
