/** Trees of null, booleans, integers, byte strings, dense arrays and objects come back from the encoder as they are. */
module JsonRoundTrip {
  import opened Bytes
  import opened Lua
  import opened JsonString
  import D = JsonDecode
  import opened JsonText
  import opened JsonReads
  import opened JsonEncode
  import opened JsonNesting
  import opened JsonMirror
  import opened Wrappers

  // ----- The tree that a value is -----

  function KeyOf(v: Value): Key {
    if v.VStr? then KStr(v.s) else KInt(Index(v))
  }

  ghost function KeysOf(es: Entries): set<Key> {
    set k | 0 <= k < |es| :: KeyOf(es[k].0)
  }

  ghost predicate Named(es: Entries) {
    forall k :: 0 <= k < |es| ==> es[k].0.VStr? && IsBytes(es[k].0.s)
  }

  ghost predicate Dense(es: Entries) {
    es != [] && AllIndices(es) && KeysOf(es) == Indices(1, |es| + 1)
  }

  /**
   The value v is the tree t: null, a boolean, an integer of 31 bits and
   a sign, a byte string, a table with names for keys (or none), or a table
   with the keys 1, ..., n. In a table with cycles, v is no tree.
   */
  ghost predicate IsTree(h: Heap, v: Value, t: Tree)
    decreases t
  {
    match t
    case TNull => v == VNil || v == VLight(0)
    case TBool(b) => v == VBool(b)
    case TNumber(d) => v == VNumber(d) && exists n :: D.IsInt32(n) && d == Finite(n as real)
    case TStr(s) => v == VStr(s) && IsBytes(s)
    case TTable(m) =>
      && v.VTable?
      && var es := EntriesOf(h, v.id);
      && Distinct(es) && (Named(es) || Dense(es)) && m.Keys == KeysOf(es)
      && forall k :: 0 <= k < |es| ==> KeyOf(es[k].0) in m && IsTree(h, es[k].1, m[KeyOf(es[k].0)])
  }

  ghost predicate NestedWithin(t: Tree, n: int)
    decreases t
  {
    t.TTable? ==> n >= 1 && forall key :: key in t.m ==> NestedWithin(t.m[key], n - 1)
  }

  // ----- Numbers -----

  /** The decimal digits of n. */
  function Digits(n: nat): (ds: bytes)
    ensures Canonical(ds) && DigitsValue(ds) == n
    ensures n > 0 ==> ds[0] != '0' as int
  {
    if n < 10 then
      var ds := ['0' as int + n];
      assert ds[..0] == [];
      ds
    else
      var ds := Digits(n / 10) + ['0' as int + n % 10];
      assert ds[..|ds| - 1] == Digits(n / 10);
      ds
  }

  function Abs(n: int): nat {
    if n < 0 then -n else n
  }

  /** "%.14g" writes an integer of this size with all its digits and nothing else. */
  ghost predicate PrintsIntegers(f: Double -> bytes) {
    forall n :: D.IsInt32(n) ==> f(Finite(n as real)) == DecimalText(n)
  }

  function DecimalText(n: int): bytes {
    IntegerText(n < 0, Digits(Abs(n)))
  }

  /** The text of an integer is a JSON number, and has that integer for its value. */
  lemma {:induction false} DecimalIsNumber(value: bytes -> Double, n: int)
    requires ValuesIntegers(value) && D.IsInt32(n)
    ensures IsJsonNumber(DecimalText(n)) && value(DecimalText(n)) == Finite(n as real)
  {
    hide Digits, DigitsValue, Canonical;
    var numeral := Numeral(n < 0, Digits(Abs(n)), None, None);
    assert NumeralText(numeral) == DecimalText(n) && LegalNumeral(numeral);
    assert ValuesInteger(value, n < 0, Digits(Abs(n)));
  }

  // ----- Shapes -----

  lemma DenseHolds(es: Entries, i: int) returns (k: int)
    requires Dense(es) && Distinct(es) && 1 <= i <= |es|
    ensures 0 <= k < |es| && KeyOf(es[k].0) == KInt(i) && RawGet(es, i) == es[k].1
  {
    assert KInt(i) in KeysOf(es);
    k :| 0 <= k < |es| && KeyOf(es[k].0) == KInt(i);
    assert IsIndex(es[k].0);
    RawGetFinds(es, i);
  }

  lemma MaxOfDense(es: Entries)
    requires Dense(es) && Distinct(es)
    ensures MaxIndex(es) == |es|
  {
    hide RawGet;
    var k := DenseHolds(es, |es|);
    forall k | 0 <= k < |es|
      ensures Index(es[k].0) <= |es|
    {
      assert KeyOf(es[k].0) in KeysOf(es);
    }
  }

  lemma TimesGrows(a: nat, b: int)
    requires b >= 1
    ensures a * b >= a
  {
  }

  /** A dense array is never excessively sparse. */
  lemma DenseShape(cfg: Config, es: Entries)
    requires Dense(es) && Distinct(es)
    ensures ShapeOf(cfg, es) == Array(|es|)
  {
    hide MaxIndex, KeysOf, Indices;
    MaxOfDense(es);
    if cfg.sparseRatio > 0 { TimesGrows(|es|, cfg.sparseRatio); }
  }

  lemma NamedShape(cfg: Config, es: Entries)
    requires Named(es)
    ensures es != [] ==> ShapeOf(cfg, es) == Object
    ensures es == [] ==> !ShapeOf(cfg, es).Sparse? && (ShapeOf(cfg, es).Array? ==> ShapeOf(cfg, es).n == 0)
  {
  }

  // ----- Trees can be encoded -----

  lemma TableParts(h: Heap, v: Value, t: Tree, n: int)
    requires IsTree(h, v, t) && NestedWithin(t, n) && t.TTable?
    ensures v.VTable? && n >= 1 && forall key :: key in t.m ==> NestedWithin(t.m[key], n - 1)
    ensures var es := EntriesOf(h, v.id);
      && Distinct(es) && t.m.Keys == KeysOf(es)
      && (Named(es) || (Dense(es) && es != [] && t.m.Keys == Indices(1, |es| + 1)))
      && forall k :: 0 <= k < |es| ==> KeyOf(es[k].0) in t.m && IsTree(h, es[k].1, t.m[KeyOf(es[k].0)])
  {
  }

  lemma ScalarIsTextual(cfg: Config, value: bytes -> Double, h: Heap, v: Value, t: Tree)
    requires PrintsIntegers(cfg.printf) && ValuesIntegers(value) && IsTree(h, v, t) && !t.TTable?
    ensures Textual(cfg, v) && !v.VTable?
  {
    hide DecimalText, IsJsonNumber, ValuesIntegers;
    if t.TNumber? {
      var n :| D.IsInt32(n) && t.d == Finite(n as real);
      DecimalIsNumber(value, n);
    }
  }

  /** A tree has a text. */
  lemma {:induction false} TreeIsTextual(cfg: Config, value: bytes -> Double, h: Heap, v: Value, t: Tree)
    requires PrintsIntegers(cfg.printf) && ValuesIntegers(value) && IsTree(h, v, t)
    ensures AllTextual(cfg, h, v)
    decreases t
  {
    hide *;
    if t.TTable? {
      TableIsTree(h, v, t);
      var es := EntriesOf(h, v.id);
      TextualParts(cfg, h, v.id);
      forall k | 0 <= k < |es|
        ensures Textual(cfg, es[k].1) && AllTextual(cfg, h, es[k].1)
      {
        TreeIsTextual(cfg, value, h, es[k].1, t.m[KeyOf(es[k].0)]);
        TextualItself(cfg, h, es[k].1);
      }
      AllAreTextual(cfg, h, v.id);
    } else {
      ScalarIsTextual(cfg, value, h, v, t);
      NoPathsFrom(cfg, h, v);
    }
  }

  lemma TableIsTree(h: Heap, v: Value, t: Tree)
    requires IsTree(h, v, t) && t.TTable?
    ensures v.VTable?
    ensures var es := EntriesOf(h, v.id);
      && Distinct(es) && (Named(es) || Dense(es)) && t.m.Keys == KeysOf(es)
      && forall k :: 0 <= k < |es| ==> KeyOf(es[k].0) in t.m && IsTree(h, es[k].1, t.m[KeyOf(es[k].0)])
  {
  }

  lemma AllAreTextual(cfg: Config, h: Heap, id: nat)
    requires var es := EntriesOf(h, id);
      && Distinct(es) && (Named(es) || Dense(es)) && forall k :: 0 <= k < |es| ==> Textual(cfg, es[k].1)
    ensures TextualTable(cfg, h, id)
  {
    hide MaxIndex, KeysOf, Indices, IsJsonNumber;
    var es := EntriesOf(h, id);
    if Dense(es) { DenseShape(cfg, es); }
  }

  lemma NoPathsFrom(cfg: Config, h: Heap, v: Value)
    requires !v.VTable? && Textual(cfg, v)
    ensures AllTextual(cfg, h, v)
  {
    hide Textual;
  }

  lemma ScalarIsDone(cfg: Config, h: Heap, v: Value, t: Tree, depth: int)
    requires IsTree(h, v, t) && !t.TTable?
    ensures EncodeValue(cfg, h, v, depth).Done? && Plain(cfg, v)
  {
  }

  lemma TableIsClean(cfg: Config, h: Heap, id: nat)
    requires var es := EntriesOf(h, id);
      && Distinct(es) && (Named(es) || Dense(es)) && forall k :: 0 <= k < |es| ==> Plain(cfg, es[k].1)
    ensures Clean(cfg, h, id)
  {
    hide MaxIndex, KeysOf, Indices, Plain;
    var es := EntriesOf(h, id);
    if Dense(es) { DenseShape(cfg, es); } else { NamedShape(cfg, es); }
  }

  /** A tree within the depth allowed is encoded. */
  lemma {:induction false} TreeIsDone(cfg: Config, h: Heap, v: Value, t: Tree, depth: int)
    requires IsTree(h, v, t) && NestedWithin(t, cfg.maxDepth - depth)
    ensures EncodeValue(cfg, h, v, depth).Done?
    decreases t
  {
    hide *;
    if t.TTable? {
      TableParts(h, v, t, cfg.maxDepth - depth);
      var es := EntriesOf(h, v.id);
      forall k | 0 <= k < |es|
        ensures EncodeValue(cfg, h, es[k].1, depth + 1).Done? && Plain(cfg, es[k].1)
      {
        TreeIsDone(cfg, h, es[k].1, t.m[KeyOf(es[k].0)], depth + 1);
        DoneIsPlain(cfg, h, es[k].1, depth + 1);
      }
      TableIsClean(cfg, h, v.id);
      AllDone(cfg, h, es, depth + 1);
      TableDone(cfg, h, v.id, depth);
    } else {
      ScalarIsDone(cfg, h, v, t, depth);
    }
  }

  lemma AllDone(cfg: Config, h: Heap, es: Entries, depth: int)
    requires forall k :: 0 <= k < |es| ==> EncodeValue(cfg, h, es[k].1, depth).Done?
    ensures ValuesDone(cfg, h, es, depth)
  {
    hide EncodeValue;
  }

  // ----- And denote themselves -----

  lemma ScalarDenotes(cfg: Config, value: bytes -> Double, h: Heap, v: Value, t: Tree)
    requires PrintsIntegers(cfg.printf) && ValuesIntegers(value) && IsTree(h, v, t) && !t.TTable?
    ensures Denotes(cfg, value, h, v, t)
  {
    hide DecimalText, IsJsonNumber, ValuesIntegers, NumberMeaning;
    if t.TNumber? {
      var n :| D.IsInt32(n) && t.d == Finite(n as real);
      DecimalIsNumber(value, n);
      IntegerMeans(n);
    }
  }

  lemma NamedDenotes(cfg: Config, value: bytes -> Double, h: Heap, es: Entries, t: Tree)
    requires t.TTable? && Distinct(es) && Named(es) && t.m.Keys == KeysOf(es)
    requires forall k :: 0 <= k < |es| ==>
      KeyOf(es[k].0) in t.m && Denotes(cfg, value, h, es[k].1, t.m[KeyOf(es[k].0)])
    ensures ObjectDenotes(cfg, value, h, es, t)
  {
    hide Denotes, IsBytes;
    forall k | 0 <= k < |es|
      ensures KStr(KeyText(cfg, es[k].0)) == KeyOf(es[k].0)
    {
    }
    assert Names(cfg, es) == KeysOf(es);
  }

  lemma DenseDenotes(cfg: Config, value: bytes -> Double, h: Heap, es: Entries, t: Tree)
    requires t.TTable? && Distinct(es) && Dense(es) && t.m.Keys == KeysOf(es)
    requires forall k :: 0 <= k < |es| ==>
      KeyOf(es[k].0) in t.m && Denotes(cfg, value, h, es[k].1, t.m[KeyOf(es[k].0)])
    ensures ArrayDenotes(cfg, value, h, es, |es|, t)
  {
    hide Denotes, RawGet;
    forall i | 1 <= i <= |es|
      ensures KInt(i) in t.m && !Absent(es, i)
      ensures forall k :: 0 <= k < |es| && IsInteger(es[k].0, i) ==> Denotes(cfg, value, h, es[k].1, t.m[KInt(i)])
    {
      var j := DenseHolds(es, i);
      assert es[j].0 == VNumber(Finite(i as real));
      forall k | 0 <= k < |es| && IsInteger(es[k].0, i)
        ensures Denotes(cfg, value, h, es[k].1, t.m[KInt(i)])
      {
        assert k == j;
      }
    }
  }

  lemma TableDenotes(cfg: Config, value: bytes -> Double, h: Heap, id: nat, t: Tree)
    requires ShapeOf(cfg, EntriesOf(h, id)) == Object ==> ObjectDenotes(cfg, value, h, EntriesOf(h, id), t)
    requires ShapeOf(cfg, EntriesOf(h, id)) == Array(0) ==> t == TTable(map[])
    requires ShapeOf(cfg, EntriesOf(h, id)).Array? ==>
      ArrayDenotes(cfg, value, h, EntriesOf(h, id), ShapeOf(cfg, EntriesOf(h, id)).n, t)
    requires !ShapeOf(cfg, EntriesOf(h, id)).Sparse?
    ensures Denotes(cfg, value, h, VTable(id), t)
  {
    hide ShapeOf, ArrayDenotes, ObjectDenotes;
  }

  /** A tree is read back as itself. */
  lemma {:induction false} TreeDenotes(cfg: Config, value: bytes -> Double, h: Heap, v: Value, t: Tree)
    requires PrintsIntegers(cfg.printf) && ValuesIntegers(value) && IsTree(h, v, t)
    ensures Denotes(cfg, value, h, v, t)
    decreases t
  {
    hide *;
    if t.TTable? {
      TableIsTree(h, v, t);
      var es := EntriesOf(h, v.id);
      forall k | 0 <= k < |es|
        ensures KeyOf(es[k].0) in t.m && Denotes(cfg, value, h, es[k].1, t.m[KeyOf(es[k].0)])
      {
        TreeDenotes(cfg, value, h, es[k].1, t.m[KeyOf(es[k].0)]);
      }
      if Named(es) {
        NamedShape(cfg, es);
        NamedDenotes(cfg, value, h, es, t);
        EmptyTree(cfg, value, h, es, t);
      } else {
        DenseShape(cfg, es);
        DenseIsNotEmpty(es);
        DenseDenotes(cfg, value, h, es, t);
      }
      TableDenotes(cfg, value, h, v.id, t);
    } else {
      ScalarDenotes(cfg, value, h, v, t);
    }
  }

  lemma DenseIsNotEmpty(es: Entries)
    ensures Dense(es) ==> es != []
  {
  }

  lemma EmptyTree(cfg: Config, value: bytes -> Double, h: Heap, es: Entries, t: Tree)
    requires t.TTable? && t.m.Keys == KeysOf(es)
    ensures es == [] ==> t == TTable(map[]) && ArrayDenotes(cfg, value, h, es, 0, t)
  {
    if es == [] {
      assert t.m.Keys == {};
      assert Indices(1, 1) == {};
    }
  }

  // ----- The main result -----

  /**
   Whatever tree a value is, within the depth allowed, encoding the value
   succeeds and decoding the text gives that tree: in every order of the
   entries, for every configuration of the sparse arrays, and with 2 slots of
   Lua stack for each level.
   */
  lemma DecodesWhatWasEncoded(cfg: Config, dcfg: D.Config, value: bytes -> Double, h: Heap, v: Value, t: Tree,
                              slots: nat)
    requires PrintsIntegers(cfg.printf) && ReadsNumbers(dcfg.strtod, value) && ValuesIntegers(value)
    requires IsTree(h, v, t) && NestedWithin(t, cfg.maxDepth) && slots >= 2 * cfg.maxDepth + 1
    ensures var text := EncodeValue(cfg, h, v, 0); text.Done? && D.Decode(dcfg, text.value, slots) == D.Value(t)
  {
    hide *;
    TreeIsTextual(cfg, value, h, v, t);
    TreeIsDone(cfg, h, v, t, 0);
    TreeDenotes(cfg, value, h, v, t);
    var u := DecodesEveryEncoding(cfg, dcfg, value, h, v, slots);
    DenotesOne(cfg, value, h, v, t, u);
  }

  // ----- These expectations can be met -----

  /** The integer that a double is, if it is one; otherwise 0. */
  function IntegerOf(d: Double): int {
    if d.Finite? && d.r.Floor as real == d.r then d.r.Floor else 0
  }

  function PrintPlainly(d: Double): bytes {
    DecimalText(IntegerOf(d))
  }

  /** There are functions that print and read as DecodesWhatWasEncoded asks. */
  lemma PrintingCanBeMet()
    ensures PrintsIntegers(PrintPlainly) && ReadsNumbers(ReadPlainly, PlainValue) && ValuesIntegers(PlainValue)
  {
    hide DecimalText;
    ExpectationsCanBeMet();
  }
}
