/**
 The tagged wire format of sproto, for integers below 0x7fff, booleans and
 byte strings: the header of records with its skips, the data section that is
 moved down behind it, and readers with another version of the schema.
 */
module SprotoCodec {
  import opened Bytes
  import opened Wrappers

  datatype Kind = TInteger | TBoolean | TString

  datatype Field = Field(name: string, tag: int, kind: Kind)

  datatype Schema = Schema(f: seq<Field>, maxn: int, base: int)

  /** A value of a field. A decoder yields no Flag: a boolean comes back as 0 or 1. */
  datatype Val = Num(n: int) | Flag(b: bool) | Text(s: bytes)

  type Message = map<string, Val>

  const SIZEOF_LENGTH := 4
  const SIZEOF_HEADER := 2
  const SIZEOF_FIELD := 2

  /** The largest tag that a schema can give to a field: it is itself an inline integer. */
  const MAX_TAG := 0x7FFE

  // ----- Schemas -----

  ghost predicate Increasing(fs: seq<Field>) {
    && (forall i :: 0 <= i < |fs| ==> 0 <= fs[i].tag <= MAX_TAG)
    && (forall i, j :: 0 <= i < j < |fs| ==> fs[i].tag < fs[j].tag)
  }

  ghost predicate DistinctNames(fs: seq<Field>) {
    forall i, j :: 0 <= i < j < |fs| ==> fs[i].name != fs[j].name
  }

  /** The tag before the i-th field. */
  function Before(fs: seq<Field>, i: nat): int
    requires i <= |fs|
  {
    if i == 0 then -1 else fs[i - 1].tag
  }

  /** How many of the fields from i on do not follow immediately upon the one before. */
  function Gaps(fs: seq<Field>, i: nat): nat
    requires i <= |fs|
    decreases |fs| - i
  {
    if i == |fs| then 0 else (if fs[i].tag > Before(fs, i) + 1 then 1 else 0) + Gaps(fs, i + 1)
  }

  ghost predicate Contiguous(fs: seq<Field>) {
    forall i :: 0 <= i < |fs| ==> fs[i].tag == fs[0].tag + i
  }

  /** The schema as import_type sets it up. */
  ghost function Imported(fs: seq<Field>): Schema
    requires fs != []
  {
    Schema(fs, |fs| + Gaps(fs, 0), if fs[|fs| - 1].tag - fs[0].tag + 1 == |fs| then fs[0].tag else -1)
  }

  method ImportType(fs: seq<Field>) returns (st: Option<Schema>)
    requires fs != [] && forall i :: 0 <= i < |fs| ==> fs[i].tag >= 0
    ensures st.Some? <==> forall i :: 0 < i < |fs| ==> fs[i - 1].tag <= fs[i].tag
    ensures st.Some? ==> st.value == Imported(fs)
  {
    var maxn, last := |fs|, -1;
    for i := 0 to |fs|
      invariant last == Before(fs, i) && maxn + Gaps(fs, i) == |fs| + Gaps(fs, 0)
      invariant forall k :: 0 < k < i ==> fs[k - 1].tag <= fs[k].tag
    {
      var tag := fs[i].tag;
      if tag < last { return None; }
      if tag > last + 1 { maxn := maxn + 1; }
      last := tag;
    }
    var base := fs[0].tag;
    var n := fs[|fs| - 1].tag - base + 1;
    if n != |fs| { base := -1; }
    return Some(Schema(fs, maxn, base));
  }

  lemma {:induction false} TagsSpread(fs: seq<Field>, i: nat, j: nat)
    requires Increasing(fs) && i <= j < |fs|
    ensures fs[j].tag - fs[i].tag >= j - i
    decreases j
  {
    if i < j { TagsSpread(fs, i, j - 1); }
  }

  /** The base of a schema tells whether its tags have no gaps. */
  lemma BaseMeansContiguous(fs: seq<Field>)
    requires Increasing(fs) && fs != []
    ensures Imported(fs).base >= 0 <==> Contiguous(fs)
  {
    assert Contiguous(fs) ==> fs[|fs| - 1].tag == fs[0].tag + (|fs| - 1);
    if Imported(fs).base >= 0 {
      forall i | 0 <= i < |fs|
        ensures fs[i].tag == fs[0].tag + i
      {
        TagsSpread(fs, 0, i);
        TagsSpread(fs, i, |fs| - 1);
      }
    }
  }

  // ----- Finding a field by its tag -----

  /** Crash is the exception of JavaScript when a property of undefined is read. */
  datatype Found = NoField | FieldAt(i: nat) | Crash

  /**
   The binary search, with mid rounded down or, as it is written, not: then a
   mid between two indices finds `undefined`, and its tag cannot be read.
   */
  function Search(fs: seq<Field>, tag: int, begin: nat, end: nat, floored: bool): (r: Found)
    requires begin <= end <= |fs|
    ensures r.FieldAt? ==> r.i < |fs| && fs[r.i].tag == tag
    decreases end - begin
  {
    if begin >= end then NoField
    else if !floored && (begin + end) % 2 != 0 then Crash
    else
      var mid := (begin + end) / 2;
      var t := fs[mid].tag;
      if t == tag then FieldAt(mid)
      else if tag > t then Search(fs, tag, mid + 1, end, floored)
      else Search(fs, tag, begin, mid, floored)
  }

  function Lookup(st: Schema, tag: int, floored: bool): (r: Found)
    ensures r.FieldAt? ==> r.i < |st.f|
  {
    if st.base >= 0 then
      if tag - st.base < 0 || tag - st.base >= |st.f| then NoField else FieldAt(tag - st.base)
    else Search(st.f, tag, 0, |st.f|, floored)
  }

  method FindTag(st: Schema, tag: int, floored: bool) returns (r: Found)
    ensures r == Lookup(st, tag, floored)
  {
    if st.base >= 0 {
      var k := tag - st.base;
      if k < 0 || k >= |st.f| { return NoField; }
      return FieldAt(k);
    }
    var begin, end := 0, |st.f|;
    while begin < end
      invariant begin <= end <= |st.f|
      invariant Search(st.f, tag, begin, end, floored) == Search(st.f, tag, 0, |st.f|, floored)
    {
      if !floored && (begin + end) % 2 != 0 { return Crash; }
      var mid := (begin + end) / 2;
      var t := st.f[mid].tag;
      if t == tag { return FieldAt(mid); }
      if tag > t { begin := mid + 1; } else { end := mid; }
    }
    return NoField;
  }

  lemma {:induction false} SearchFinds(fs: seq<Field>, tag: int, begin: nat, end: nat)
    requires Increasing(fs) && begin <= end <= |fs|
    ensures var r := Search(fs, tag, begin, end, true);
      && r != Crash
      && (r == NoField ==> forall i :: begin <= i < end ==> fs[i].tag != tag)
    decreases end - begin
  {
    if begin < end {
      var mid := (begin + end) / 2;
      SearchFinds(fs, tag, mid + 1, end);
      SearchFinds(fs, tag, begin, mid);
    }
  }

  /** Without rounding, the search for the first field always ends between two indices. */
  lemma {:induction false} FirstFieldCrashes(fs: seq<Field>, end: nat)
    requires Increasing(fs) && 1 <= end <= |fs|
    ensures Search(fs, fs[0].tag, 0, end, false) == Crash
    decreases end
  {
    if end % 2 == 0 { FirstFieldCrashes(fs, end / 2); }
  }

  /** Whether the reader finds each field that the schema has, and no other. */
  ghost predicate FindsAll(fs: seq<Field>, floored: bool)
    requires fs != []
  {
    forall tag :: match Lookup(Imported(fs), tag, floored)
      case NoField => forall i :: 0 <= i < |fs| ==> fs[i].tag != tag
      case FieldAt(i) => fs[i].tag == tag
      case Crash => false
  }

  /** As it is written, the search works exactly for schemas without gaps. */
  lemma FindsAllExactly(fs: seq<Field>, floored: bool)
    requires Increasing(fs) && fs != []
    ensures FindsAll(fs, floored) <==> floored || Contiguous(fs)
  {
    BaseMeansContiguous(fs);
    var st := Imported(fs);
    hide Search, Gaps;
    if st.base >= 0 {
      assert forall tag :: Lookup(st, tag, floored) == NoField ==> forall i :: 0 <= i < |fs| ==> fs[i].tag != tag;
    } else if floored {
      forall tag
        ensures Lookup(st, tag, true) != Crash
        ensures Lookup(st, tag, true) == NoField ==> forall i :: 0 <= i < |fs| ==> fs[i].tag != tag
      {
        SearchFinds(fs, tag, 0, |fs|);
      }
    } else {
      FirstFieldCrashes(fs, |fs|);
      assert Lookup(st, fs[0].tag, false) == Crash;
    }
  }

  // ----- The wire format -----

  /** JavaScript strings are shorter than this. */
  const MAX_STRING := 0x4000_0000

  function Word(w: int): (b: bytes)
    requires 0 <= w <= 0xFFFF
    ensures |b| == 2
  {
    [w % 0x100, w / 0x100]
  }

  function DWord(n: int): (b: bytes)
    requires 0 <= n < 0x8000_0000
    ensures |b| == 4
  {
    [n % 0x100, (n / 0x100) % 0x100, (n / 0x1_0000) % 0x100, n / 0x100_0000]
  }

  /** A record of the header: tags left out, a value of its own, or a reference to the next piece of data. */
  datatype Record = Skip(tags: int) | Inline(n: int) | Data(s: bytes)

  ghost predicate ValidRecord(r: Record) {
    match r
    case Skip(t) => 1 <= t <= 0x8000
    case Inline(n) => 0 <= n < 0x7FFF
    case Data(s) => |s| < MAX_STRING && IsBytes(s)
  }

  function RecordWord(r: Record): (w: int)
    requires ValidRecord(r)
    ensures 0 <= w <= 0xFFFF
  {
    match r
    case Skip(t) => (t - 1) * 2 + 1
    case Inline(n) => (n + 1) * 2
    case Data(_) => 0
  }

  function RecordData(r: Record): bytes
    requires r.Data? ==> |r.s| < MAX_STRING
  {
    if r.Data? then DWord(|r.s|) + r.s else []
  }

  ghost predicate ValidRecords(rs: seq<Record>) {
    forall k :: 0 <= k < |rs| ==> ValidRecord(rs[k])
  }

  function Words(rs: seq<Record>): (b: bytes)
    requires forall k :: 0 <= k < |rs| ==> ValidRecord(rs[k])
    ensures |b| == 2 * |rs|
  {
    if rs == [] then [] else Word(RecordWord(rs[0])) + Words(rs[1..])
  }

  function DataOf(rs: seq<Record>): bytes
    requires forall k :: 0 <= k < |rs| ==> ValidRecord(rs[k])
  {
    if rs == [] then [] else
      assert ValidRecord(rs[0]);
      RecordData(rs[0]) + DataOf(rs[1..])
  }

  /** A message on the wire: the number of records, the records, the data. */
  ghost function Wire(rs: seq<Record>): bytes
    requires ValidRecords(rs) && |rs| <= 0xFFFF
  {
    Word(|rs|) + Words(rs) + DataOf(rs)
  }

  lemma WordsCons(r: Record, rs: seq<Record>)
    requires ValidRecord(r) && ValidRecords(rs)
    ensures ValidRecords([r] + rs)
    ensures Words([r] + rs) == Word(RecordWord(r)) + Words(rs) && DataOf([r] + rs) == RecordData(r) + DataOf(rs)
    ensures Words([]) == [] && DataOf([]) == []
  {
    hide Word, RecordWord, RecordData;
    assert ([r] + rs)[1..] == rs;
  }

  lemma {:induction false} WordsSnoc(rs: seq<Record>, r: Record)
    requires ValidRecords(rs) && ValidRecord(r)
    ensures ValidRecords(rs + [r])
    ensures Words(rs + [r]) == Words(rs) + Word(RecordWord(r))
    ensures DataOf(rs + [r]) == DataOf(rs) + RecordData(r)
    decreases |rs|
  {
    hide Words, DataOf, Word, RecordWord, RecordData, ValidRecord;
    WordsCons(r, []);
    if rs == [] {
      assert [] + [r] == [r] == [r] + [];
    } else {
      WordsSnoc(rs[1..], r);
      WordsCons(rs[0], rs[1..]);
      WordsCons(rs[0], rs[1..] + [r]);
      assert rs == [rs[0]] + rs[1..] && rs + [r] == [rs[0]] + (rs[1..] + [r]);
    }
  }

  // ----- What a message is encoded as -----

  /** A value that its field can have. */
  ghost predicate HasKind(v: Val, kind: Kind) {
    match kind
    case TInteger => v.Num? && v.n >= 0
    case TBoolean => v.Flag?
    case TString => v.Text? && IsBytes(v.s) && |v.s| < MAX_STRING
  }

  ghost predicate Typed(fs: seq<Field>, msg: Message) {
    forall i :: 0 <= i < |fs| && fs[i].name in msg ==> HasKind(msg[fs[i].name], fs[i].kind)
  }

  /** Integers from 0x7fff on are not supported: the code refers to a variable that does not exist. */
  ghost predicate IsSmall(f: Field, msg: Message) {
    f.name in msg && f.kind == TInteger ==> msg[f.name].Num? && msg[f.name].n < 0x7FFF
  }

  ghost predicate Small(fs: seq<Field>, msg: Message) {
    forall i :: 0 <= i < |fs| ==> IsSmall(fs[i], msg)
  }

  function RecordOf(v: Val): Record {
    match v
    case Num(n) => Inline(n)
    case Flag(b) => Inline(if b then 1 else 0)
    case Text(s) => Data(s)
  }

  /** The records of the fields from i on that are present, when the last one present had the tag `last`. */
  function Records(fs: seq<Field>, msg: Message, i: nat, last: int): seq<Record>
    requires i <= |fs|
    decreases |fs| - i
  {
    if i == |fs| then []
    else if fs[i].name !in msg then Records(fs, msg, i + 1, last)
    else
      var skipped := fs[i].tag - last - 1;
      (if skipped > 0 then [Skip(skipped)] else []) + [RecordOf(msg[fs[i].name])]
      + Records(fs, msg, i + 1, fs[i].tag)
  }

  lemma {:induction false} RecordsValid(fs: seq<Field>, msg: Message, i: nat, last: int)
    requires Increasing(fs) && Typed(fs, msg) && Small(fs, msg) && i <= |fs| && -1 <= last <= Before(fs, i)
    ensures ValidRecords(Records(fs, msg, i, last))
    decreases |fs| - i
  {
    if i < |fs| {
      RecordsValid(fs, msg, i + 1, if fs[i].name in msg then fs[i].tag else last);
    }
  }

  /**
   There are never more records than the schema reserves room for: a skip is
   due to a gap in the schema, or to a field that is absent and needs none.
   */
  lemma {:induction false} RecordsFit(fs: seq<Field>, msg: Message, i: nat, last: int)
    requires Increasing(fs) && i <= |fs| && -1 <= last <= Before(fs, i)
    ensures |Records(fs, msg, i, last)| <= |fs| - i + Gaps(fs, i) + (if last < Before(fs, i) then 1 else 0)
    decreases |fs| - i
  {
    if i < |fs| {
      RecordsFit(fs, msg, i + 1, if fs[i].name in msg then fs[i].tag else last);
    }
  }

  /** With all fields present, there are as many: no room is reserved in vain. */
  lemma {:induction false} RecordsFill(fs: seq<Field>, msg: Message, i: nat)
    requires i <= |fs| && forall k :: 0 <= k < |fs| ==> fs[k].name in msg
    ensures |Records(fs, msg, i, Before(fs, i))| == |fs| - i + Gaps(fs, i)
    decreases |fs| - i
  {
    if i < |fs| { RecordsFill(fs, msg, i + 1); }
  }

  /** And never more than there are tags, so that their number fits a word. */
  lemma {:induction false} RecordsFitTags(fs: seq<Field>, msg: Message, i: nat, last: int)
    requires Increasing(fs) && i <= |fs| && -1 <= last <= Before(fs, i)
    ensures |Records(fs, msg, i, last)| <= MAX_TAG - last
    decreases |fs| - i
  {
    if i < |fs| {
      RecordsFitTags(fs, msg, i + 1, if fs[i].name in msg then fs[i].tag else last);
    }
  }

  // ----- The encoder -----

  lemma WindowJoins(a: JsArray, i: nat, s: bytes, t: bytes)
    requires Window(a, i, s) && Window(a, i + |s|, t)
    ensures Window(a, i, s + t)
  {
    forall k: nat | k < |s + t|
      ensures Element(a, i + k) == (s + t)[k]
    {
      if k >= |s| { assert Element(a, i + |s| + (k - |s|)) == t[k - |s|]; }
    }
  }

  lemma WindowStays(a: JsArray, b: JsArray, i: nat, s: bytes, lo: int, hi: int)
    requires Window(a, i, s) && SameOutside(a, b, lo, hi) && (i + |s| <= lo || hi <= i)
    ensures Window(b, i, s)
  {
  }

  /** The length of an array: one more than its last index. */
  ghost predicate IsLength(a: JsArray, n: nat) {
    && (forall k: nat :: n <= k ==> Element(a, k) == HOLE)
    && (n > 0 ==> Element(a, n - 1) != HOLE)
  }

  lemma LengthIsUnique(a: JsArray, m: nat, n: nat)
    requires IsLength(a, m) && IsLength(a, n)
    ensures m == n
  {
  }

  lemma WriteLength(a: JsArray, n: nat, i: nat, v: int)
    requires IsLength(a, n) && v != HOLE
    ensures IsLength(a[i := v], if i >= n then i + 1 else n)
  {
    var b, m := a[i := v], if i >= n then i + 1 else n;
    forall k: nat | m <= k
      ensures Element(b, k) == HOLE
    {
      assert Element(a, k) == HOLE;
    }
    assert Element(b, m - 1) == if i == m - 1 then v else Element(a, m - 1);
  }

  /** Nothing but the header up to headerEnd and the data up to dataEnd was written since. */
  ghost predicate Untouched(before: JsArray, now: JsArray, header: nat, headerEnd: nat, data: nat, dataEnd: nat) {
    forall k: nat :: !(header <= k < headerEnd) && !(data <= k < dataEnd) ==> Element(now, k) == Element(before, k)
  }

  function Holes(n: nat): (r: bytes)
    ensures |r| == n && forall k :: 0 <= k < n ==> r[k] == HOLE
  {
    seq(n, _ => HOLE)
  }

  /**
   What an array that was empty holds behind the message: the rest of the room
   for the records of absent fields, never written; and the data section as it
   was before it moved.
   */
  ghost function Stale(rs: seq<Record>, headerSz: nat): bytes
    requires ValidRecords(rs) && |rs| <= 0xFFFF && SIZEOF_HEADER + SIZEOF_FIELD * |rs| <= headerSz
  {
    var wire, data := |Wire(rs)|, DataOf(rs);
    if data == [] then [] else if wire <= headerSz then Holes(headerSz - wire) + data else data[wire - headerSz..]
  }

  /** The array has holes exactly if there is data, and less of it than room for records that is left over. */
  lemma HolesExactly(rs: seq<Record>, headerSz: nat)
    requires ValidRecords(rs) && |rs| <= 0xFFFF && SIZEOF_HEADER + SIZEOF_FIELD * |rs| <= headerSz
    ensures HOLE in Stale(rs, headerSz) <==>
      DataOf(rs) != [] && SIZEOF_HEADER + SIZEOF_FIELD * |rs| + |DataOf(rs)| < headerSz
    ensures AreElements(Stale(rs, headerSz))
  {
    DataIsBytes(rs);
    hide Words, DataOf, Word;
    StoredBytes(DataOf(rs));
    var wire := |Wire(rs)|;
    if wire < headerSz { assert Holes(headerSz - wire)[0] == HOLE; }
  }

  lemma {:induction false} DataIsBytes(rs: seq<Record>)
    requires ValidRecords(rs)
    ensures IsBytes(DataOf(rs)) && IsBytes(Words(rs))
    ensures |rs| <= 0xFFFF ==> IsBytes(Wire(rs))
  {
    if rs != [] {
      DataIsBytes(rs[1..]);
      assert ValidRecord(rs[0]);
    }
  }

  /** Encoded to so many bytes; -1; or the exception for a variable that does not exist. */
  datatype Encoding = Size(n: nat) | Failed | Thrown

  class Encoder {
    var enbuffer: JsArray
    /** enbuffer.length */
    var length: nat

    ghost predicate Valid()
      reads this
    {
      IsLength(enbuffer, length)
    }

    constructor ()
      ensures Valid() && enbuffer == map[]
    {
      enbuffer, length := map[], 0;
    }

    /** enbuffer[i] = v */
    method Write(i: nat, v: int)
      requires Valid() && v != HOLE
      modifies this
      ensures Valid() && enbuffer == old(enbuffer)[i := v]
    {
      WriteLength(enbuffer, length, i, v);
      enbuffer := enbuffer[i := v];
      if i >= length { length := i + 1; }
    }

    method PutWord(idx: nat, w: int)
      requires Valid() && 0 <= w <= 0xFFFF
      modifies this
      ensures Valid() && Window(enbuffer, idx, Word(w)) && SameOutside(old(enbuffer), enbuffer, idx, idx + 2)
    {
      hide IsLength;
      Write(idx, w % 0x100);
      Write(idx + 1, w / 0x100);
    }

    method FillSize(dataIdx: nat, sz: nat) returns (r: nat)
      requires Valid() && sz < 0x8000_0000
      modifies this
      ensures Valid() && Window(enbuffer, dataIdx, DWord(sz))
      ensures SameOutside(old(enbuffer), enbuffer, dataIdx, dataIdx + 4)
      ensures r == sz + SIZEOF_LENGTH
    {
      hide IsLength;
      Write(dataIdx, sz % 0x100);
      Write(dataIdx + 1, (sz / 0x100) % 0x100);
      Write(dataIdx + 2, (sz / 0x1_0000) % 0x100);
      Write(dataIdx + 3, sz / 0x100_0000);
      return sz + SIZEOF_LENGTH;
    }

    /** encode_object on a string: its characters, and in front of them its size. */
    method EncodeString(str: bytes, dataIdx: nat) returns (sz: nat)
      requires Valid() && |str| < MAX_STRING && IsBytes(str)
      modifies this
      ensures Valid() && Window(enbuffer, dataIdx, DWord(|str|) + str) && sz == |DWord(|str|) + str|
      ensures SameOutside(old(enbuffer), enbuffer, dataIdx, dataIdx + sz)
    {
      hide DWord, IsLength;
      var value := dataIdx + SIZEOF_LENGTH;
      for i := 0 to |str|
        invariant Valid()
        invariant Window(enbuffer, value, str[..i]) && SameOutside(old(enbuffer), enbuffer, value, value + i)
      {
        ghost var was := enbuffer;
        Write(value + i, str[i]);
        WriteNext(old(enbuffer), was, enbuffer, value, str, i);
      }
      assert str[..|str|] == str;
      ghost var was := enbuffer;
      sz := |str| + 1;
      sz := FillSize(dataIdx, sz - 1);
      WindowStays(was, enbuffer, value, str, dataIdx, dataIdx + 4);
      WindowJoins(enbuffer, dataIdx, DWord(|str|), str);
    }

    /** The data section, which is s, moves down to where the records end. */
    method Compact(source: nat, datasz: nat, target: nat, ghost s: bytes)
      requires Valid() && target <= source && Window(enbuffer, source, s) && |s| == datasz && IsBytes(s)
      modifies this
      ensures Valid() && Window(enbuffer, target, s) && SameOutside(old(enbuffer), enbuffer, target, target + datasz)
    {
      hide IsLength;
      var a := enbuffer;
      var v := seq(datasz, k requires 0 <= k => Element(a, source + k));
      assert v == s;
      for i := 0 to |v|
        invariant Valid()
        invariant Window(enbuffer, target, s[..i]) && SameOutside(a, enbuffer, target, target + i)
      {
        ghost var was := enbuffer;
        Write(target + i, v[i]);
        WriteNext(a, was, enbuffer, target, s, i);
      }
      assert s[..|s|] == s;
    }

    /**
     What has been written after some fields: the records rs in the header,
     and their data behind its end; and nothing else, but for data up to dataEnd.
     */
    ghost predicate Written(headerIdx: nat, headerSz: nat, rs: seq<Record>, dataEnd: nat, before: JsArray)
      reads this
      requires ValidRecords(rs)
    {
      && Window(enbuffer, headerIdx + SIZEOF_HEADER, Words(rs))
      && Window(enbuffer, headerIdx + headerSz, DataOf(rs))
      && Untouched(before, enbuffer, headerIdx + SIZEOF_HEADER, headerIdx + SIZEOF_HEADER + |Words(rs)|,
                   headerIdx + headerSz, dataEnd)
    }

    /** A record goes into the header, for which there is room, after its data went behind the data so far. */
    method PutRecord(headerIdx: nat, headerSz: nat, index: nat, value: int, ghost rs: seq<Record>, ghost r: Record,
                     ghost dataEnd: nat, ghost before: JsArray)
      requires Valid() && ValidRecords(rs) && ValidRecord(r) && Written(headerIdx, headerSz, rs, dataEnd, before)
      requires index == |rs| && SIZEOF_HEADER + SIZEOF_FIELD * (index + 1) <= headerSz && value == RecordWord(r)
      requires Window(enbuffer, headerIdx + headerSz + |DataOf(rs)|, RecordData(r))
      modifies this
      ensures Valid() && ValidRecords(rs + [r]) && Written(headerIdx, headerSz, rs + [r], dataEnd, before)
      ensures |DataOf(rs + [r])| == |DataOf(rs)| + |RecordData(r)|
      ensures SameOutside(old(enbuffer), enbuffer, headerIdx, headerIdx + headerSz)
    {
      hide IsLength, Word, RecordWord, RecordData, Words, DataOf, Untouched;
      WordsSnoc(rs, r);
      var recordIdx := headerIdx + SIZEOF_HEADER + SIZEOF_FIELD * index;
      ghost var was := enbuffer;
      PutWord(recordIdx, value);
      WindowStays(was, enbuffer, headerIdx + SIZEOF_HEADER, Words(rs), recordIdx, recordIdx + 2);
      WindowJoins(enbuffer, headerIdx + SIZEOF_HEADER, Words(rs), Word(value));
      WindowJoins(was, headerIdx + headerSz, DataOf(rs), RecordData(r));
      WindowStays(was, enbuffer, headerIdx + headerSz, DataOf(rs + [r]), recordIdx, recordIdx + 2);
      HeaderTouched(before, was, enbuffer, headerIdx + SIZEOF_HEADER, recordIdx, headerIdx + headerSz, dataEnd);
    }

    /** The value of a field as the loop over the fields handles it: what to put into the record, and the size. */
    method PutValue(v: Val, dataIdx: nat) returns (r: Encoding, value: int)
      requires Valid() && (HasKind(v, TInteger) || HasKind(v, TBoolean) || HasKind(v, TString))
      modifies this
      ensures Valid()
      ensures r == if v.Num? && v.n >= 0x7FFF then Thrown else Size(if v.Text? then 4 + |v.s| else 2)
      ensures r.Size? ==> ValidRecord(RecordOf(v)) && value == RecordWord(RecordOf(v))
      ensures r.Size? ==> Window(enbuffer, dataIdx, RecordData(RecordOf(v)))
      ensures SameOutside(old(enbuffer), enbuffer, dataIdx, dataIdx + |RecordData(RecordOf(v))|)
    {
      hide DWord, IsLength;
      value := 0;
      match v
      case Text(s) =>
        var sz := EncodeString(s, dataIdx);
        r := Size(sz);
      case Flag(b) =>
        value := ((if b then 1 else 0) + 1) * 2;
        r := Size(2);
      case Num(n) =>
        if n < 0x7FFF {
          value := (n + 1) * 2;
          r := Size(2);
        } else {
          r := Thrown;
        }
    }

    /** A field that is present: its data, a skip if tags are left out, and its record. */
    method PutField(v: Val, skipped: int, headerIdx: nat, headerSz: nat, index: nat, dataIdx: nat,
                    ghost rs: seq<Record>, ghost before: JsArray)
      returns (r: Encoding, index': nat, dataIdx': nat)
      requires Valid() && (HasKind(v, TInteger) || HasKind(v, TBoolean) || HasKind(v, TString))
      requires skipped <= MAX_TAG && ValidRecords(rs) && Written(headerIdx, headerSz, rs, dataIdx, before)
      requires index == |rs| && SIZEOF_HEADER + SIZEOF_FIELD * (index + if skipped > 0 then 2 else 1) <= headerSz
      requires dataIdx == headerIdx + headerSz + |DataOf(rs)|
      modifies this
      ensures Valid()
      ensures r == if v.Num? && v.n >= 0x7FFF then Thrown else Size(if v.Text? then 4 + |v.s| else 2)
      ensures r.Size? ==>
        var rs' := rs + ((if skipped > 0 then [Skip(skipped)] else []) + [RecordOf(v)]);
        && ValidRecords(rs') && Written(headerIdx, headerSz, rs', dataIdx', before)
        && index' == |rs'| && dataIdx' == headerIdx + headerSz + |DataOf(rs')|
      ensures forall k: nat :: k < headerIdx ==> Element(enbuffer, k) == old(Element(enbuffer, k))
    {
      hide IsLength, Word, DWord, RecordWord, Words, DataOf, RecordData, Untouched;
      index', dataIdx' := index, dataIdx;
      ghost var rs', was := rs, enbuffer;
      var value;
      r, value := PutValue(v, dataIdx);
      if r == Thrown { return; }
      ValueSize(v);
      if value == 0 { dataIdx' := dataIdx + r.n; }
      WindowStays(was, enbuffer, headerIdx + SIZEOF_HEADER, Words(rs), dataIdx, dataIdx + |RecordData(RecordOf(v))|);
      WindowStays(was, enbuffer, headerIdx + headerSz, DataOf(rs), dataIdx, dataIdx + |RecordData(RecordOf(v))|);
      DataTouched(before, was, enbuffer, headerIdx + SIZEOF_HEADER, headerIdx + SIZEOF_HEADER + |Words(rs)|,
                  headerIdx + headerSz, dataIdx, dataIdx');
      if skipped > 0 {
        var tag := (skipped - 1) * 2 + 1;
        if tag > 0xFFFF { return Failed, index, dataIdx; }
        was := enbuffer;
        SkipRecord(skipped);
        PutRecord(headerIdx, headerSz, index', tag, rs', Skip(skipped), dataIdx', before);
        WindowStays(was, enbuffer, dataIdx, RecordData(RecordOf(v)), headerIdx, headerIdx + headerSz);
        rs' := rs' + [Skip(skipped)];
        index' := index' + 1;
      }
      PutRecord(headerIdx, headerSz, index', value, rs', RecordOf(v), dataIdx', before);
      index' := index' + 1;
      assert rs + ((if skipped > 0 then [Skip(skipped)] else []) + [RecordOf(v)]) == rs' + [RecordOf(v)];
    }

    lemma ValueSize(v: Val)
      requires ValidRecord(RecordOf(v))
      ensures RecordWord(RecordOf(v)) == 0 <==> v.Text?
      ensures |RecordData(RecordOf(v))| == if v.Text? then 4 + |v.s| else 0
    {
    }

    lemma SkipRecord(t: int)
      requires 0 < t <= MAX_TAG
      ensures ValidRecord(Skip(t)) && RecordWord(Skip(t)) == (t - 1) * 2 + 1 && RecordData(Skip(t)) == []
    {
    }

    /**
     sproto_encode: the message as it is on the wire, and behind it the data
     section as it was before it moved; an exception exactly if an integer is
     too large. Nothing else has changed.
     */
    method Encode(st: Schema, bufferIdx: nat, msg: Message) returns (r: Encoding)
      requires Valid() && st.f != [] && Increasing(st.f) && st == Imported(st.f) && Typed(st.f, msg)
      modifies this
      ensures Valid()
      ensures Small(st.f, msg) ==>
        && ValidRecords(Records(st.f, msg, 0, -1)) && |Records(st.f, msg, 0, -1)| <= 0xFFFF
        && var rs := Records(st.f, msg, 0, -1);
        && r == Size(|Wire(rs)|)
        && Leaves(old(enbuffer), enbuffer, bufferIdx, SIZEOF_HEADER + SIZEOF_FIELD * st.maxn, rs)
      ensures !Small(st.f, msg) ==> r == Thrown
      ensures forall k: nat :: k < bufferIdx ==> Element(enbuffer, k) == old(Element(enbuffer, k))
    {
      hide IsLength, Small, IsSmall, Typed, HasKind, Gaps, Words, DataOf, Word, RecordWord, ValidRecord, Window,
           SameOutside, Untouched, Leaves, Wire, Records, RecordOf, Before, Increasing;
      var headerSz: nat := SIZEOF_HEADER + st.maxn * SIZEOF_FIELD;
      var dataIdx: nat, index: nat, last := bufferIdx + headerSz, 0, -1;
      ghost var all, rs: seq<Record> := Records(st.f, msg, 0, -1), [];
      FirstTag(st.f);
      RecordsFit(st.f, msg, 0, -1);
      NothingWritten(enbuffer, bufferIdx, headerSz);
      for i := 0 to |st.f|
        invariant Valid() && -1 <= last <= Before(st.f, i)
        invariant forall k :: 0 <= k < i ==> IsSmall(st.f[k], msg)
        invariant ValidRecords(rs) && Written(bufferIdx, headerSz, rs, dataIdx, old(enbuffer))
        invariant index == |rs| && dataIdx == bufferIdx + headerSz + |DataOf(rs)|
        invariant all == rs + Records(st.f, msg, i, last)
      {
        var f := st.f[i];
        FieldIsSmall(st.f, msg, i);
        RecordsUnfold(st.f, msg, i, last);
        if f.name !in msg { continue; }
        ghost var next := (if f.tag - last - 1 > 0 then [Skip(f.tag - last - 1)] else []) + [RecordOf(msg[f.name])];
        Regroup(rs, next, Records(st.f, msg, i + 1, f.tag));
        var r;
        FrontUntouched(old(enbuffer), enbuffer, bufferIdx, headerSz, rs, dataIdx);
        r, index, dataIdx :=
          PutField(msg[f.name], f.tag - last - 1, bufferIdx, headerSz, index, dataIdx, rs, old(enbuffer));
        if r == Thrown {
          NotSmall(st.f, msg, i);
          return Thrown;
        }
        rs := rs + next;
        last := f.tag;
      }
      NoRecordsLeft(st.f, msg, last);
      assert rs == all;
      AllSmall(st.f, msg);
      RecordsFitTags(st.f, msg, 0, -1);
      r := Finish(bufferIdx, headerSz, index, dataIdx, rs, old(enbuffer));
      FrontLeft(old(enbuffer), enbuffer, bufferIdx, headerSz, rs);
    }

    /** The number of records goes to the front, and the data behind the last record. */
    method Finish(headerIdx: nat, headerSz: nat, index: nat, dataIdx: nat, ghost rs: seq<Record>, ghost before: JsArray)
      returns (r: Encoding)
      requires Valid() && ValidRecords(rs) && Written(headerIdx, headerSz, rs, dataIdx, before)
      requires index == |rs| <= 0xFFFF && SIZEOF_HEADER + SIZEOF_FIELD * index <= headerSz
      requires dataIdx == headerIdx + headerSz + |DataOf(rs)|
      modifies this
      ensures Valid() && r == Size(|Wire(rs)|) && Leaves(before, enbuffer, headerIdx, headerSz, rs)
    {
      hide IsLength, Word, Words, DataOf, Untouched, Leaves;
      var start, target := headerIdx + headerSz, headerIdx + SIZEOF_HEADER + SIZEOF_FIELD * index;
      ghost var was, written := enbuffer, enbuffer;
      DataIsBytes(rs);
      PutWord(headerIdx, index);
      WindowStays(was, enbuffer, headerIdx + SIZEOF_HEADER, Words(rs), headerIdx, headerIdx + 2);
      WindowStays(was, enbuffer, start, DataOf(rs), headerIdx, headerIdx + 2);
      WindowJoins(enbuffer, headerIdx, Word(index), Words(rs));
      var datasz := dataIdx - start;
      if target != start {
        was := enbuffer;
        Compact(start, datasz, target, DataOf(rs));
        WindowStays(was, enbuffer, headerIdx, Word(index) + Words(rs), target, target + datasz);
      }
      WindowJoins(enbuffer, headerIdx, Word(index) + Words(rs), DataOf(rs));
      LeavesThese(before, written, enbuffer, headerIdx, headerSz, rs);
      return Size(SIZEOF_HEADER + index * SIZEOF_FIELD + datasz);
    }

    /** sproto.encode: the message in an array of its own, and the length of that array. */
    method SprotoEncode(st: Schema, msg: Message) returns (r: Encoding, buf: JsArray, sz: nat)
      requires st.f != [] && Increasing(st.f) && st == Imported(st.f) && Typed(st.f, msg)
      modifies this
      ensures !Small(st.f, msg) ==> r == Thrown
      ensures r == Thrown <==>
        exists i :: 0 <= i < |st.f| && st.f[i].name in msg && msg[st.f[i].name].Num? && msg[st.f[i].name].n > 32766
      ensures Small(st.f, msg) ==>
        && ValidRecords(Records(st.f, msg, 0, -1)) && |Records(st.f, msg, 0, -1)| <= 0xFFFF
        && var rs := Records(st.f, msg, 0, -1);
        && SIZEOF_HEADER + SIZEOF_FIELD * |rs| <= SIZEOF_HEADER + SIZEOF_FIELD * st.maxn
        && r == Size(|Wire(rs)|) && IsLength(buf, sz)
        && Elements(buf, sz) == Wire(rs) + Stale(rs, SIZEOF_HEADER + SIZEOF_FIELD * st.maxn)
    {
      hide IsLength, Small, Typed, Increasing, Gaps, Leaves, Wire, Stale, Words, Records;
      enbuffer, length := map[], 0;
      EmptyLength();
      SmallExactly(st.f, msg);
      RecordsFit(st.f, msg, 0, -1);
      r := Encode(st, 0, msg);
      buf, sz := enbuffer, length;
      if r != Thrown {
        ghost var rs := Records(st.f, msg, 0, -1);
        LeavesElements(enbuffer, length, SIZEOF_HEADER + SIZEOF_FIELD * st.maxn, rs);
      }
    }
  }

  /** What sproto_encode makes of an array from idx on, where it is given what was there before. */
  ghost predicate Leaves(before: JsArray, now: JsArray, idx: nat, headerSz: nat, rs: seq<Record>)
    requires ValidRecords(rs) && |rs| <= 0xFFFF
  {
    && Window(now, idx, Wire(rs))
    && forall k: nat :: k < idx || idx + |Wire(rs)| <= k ==>
         Element(now, k) ==
           if idx + headerSz <= k < idx + headerSz + |DataOf(rs)| then DataOf(rs)[k - idx - headerSz]
           else Element(before, k)
  }

  lemma NothingWritten(a: JsArray, headerIdx: nat, headerSz: nat)
    ensures Words([]) == [] && DataOf([]) == []
    ensures Window(a, headerIdx + SIZEOF_HEADER, []) && Window(a, headerIdx + headerSz, [])
    ensures Untouched(a, a, headerIdx + SIZEOF_HEADER, headerIdx + SIZEOF_HEADER, headerIdx + headerSz,
                      headerIdx + headerSz)
  {
  }

  lemma FrontUntouched(before: JsArray, now: JsArray, headerIdx: nat, headerSz: nat, rs: seq<Record>, dataEnd: nat)
    requires ValidRecords(rs)
    requires Untouched(before, now, headerIdx + SIZEOF_HEADER, headerIdx + SIZEOF_HEADER + |Words(rs)|,
                       headerIdx + headerSz, dataEnd)
    ensures forall k: nat :: k < headerIdx ==> Element(now, k) == Element(before, k)
  {
  }

  lemma FrontLeft(before: JsArray, now: JsArray, idx: nat, headerSz: nat, rs: seq<Record>)
    requires ValidRecords(rs) && |rs| <= 0xFFFF && Leaves(before, now, idx, headerSz, rs)
    ensures forall k: nat :: k < idx ==> Element(now, k) == Element(before, k)
  {
    hide Words, DataOf, Wire;
  }

  lemma HeaderTouched(before: JsArray, was: JsArray, now: JsArray, header: nat, recordIdx: nat, data: nat, dataEnd: nat)
    requires Untouched(before, was, header, recordIdx, data, dataEnd) && header <= recordIdx
    requires SameOutside(was, now, recordIdx, recordIdx + 2)
    ensures Untouched(before, now, header, recordIdx + 2, data, dataEnd)
  {
  }

  lemma DataTouched(before: JsArray, was: JsArray, now: JsArray, header: nat, headerEnd: nat, data: nat, dataEnd: nat,
                    dataEnd': nat)
    requires Untouched(before, was, header, headerEnd, data, dataEnd) && data <= dataEnd <= dataEnd'
    requires SameOutside(was, now, dataEnd, dataEnd')
    ensures Untouched(before, now, header, headerEnd, data, dataEnd')
  {
  }

  lemma LeavesThese(before: JsArray, written: JsArray, now: JsArray, idx: nat, headerSz: nat, rs: seq<Record>)
    requires ValidRecords(rs) && |rs| <= 0xFFFF && SIZEOF_HEADER + SIZEOF_FIELD * |rs| <= headerSz
    requires Window(written, idx + headerSz, DataOf(rs)) && Window(now, idx, Wire(rs))
    requires Untouched(before, written, idx + SIZEOF_HEADER, idx + SIZEOF_HEADER + |Words(rs)|, idx + headerSz,
                       idx + headerSz + |DataOf(rs)|)
    requires SameOutside(written, now, idx, idx + |Wire(rs)|)
    ensures Leaves(before, now, idx, headerSz, rs)
  {
    hide Words, DataOf, Word;
    forall k: nat | k < idx || idx + |Wire(rs)| <= k
      ensures Element(now, k) ==
        if idx + headerSz <= k < idx + headerSz + |DataOf(rs)| then DataOf(rs)[k - idx - headerSz]
        else Element(before, k)
    {
      if idx + headerSz <= k < idx + headerSz + |DataOf(rs)| {
        assert Element(written, idx + headerSz + (k - idx - headerSz)) == DataOf(rs)[k - idx - headerSz];
      }
    }
  }

  lemma EmptyLength()
    ensures IsLength(map[], 0)
  {
  }

  /** An array that was empty, and its length. */
  lemma LeavesElements(a: JsArray, n: nat, headerSz: nat, rs: seq<Record>)
    requires ValidRecords(rs) && |rs| <= 0xFFFF && SIZEOF_HEADER + SIZEOF_FIELD * |rs| <= headerSz
    requires Leaves(map[], a, 0, headerSz, rs) && IsLength(a, n)
    ensures Elements(a, n) == Wire(rs) + Stale(rs, headerSz)
  {
    DataIsBytes(rs);
    hide Words, DataOf, Word, IsLength;
    var wire, data := Wire(rs), DataOf(rs);
    var all := wire + Stale(rs, headerSz);
    assert |all| == if data == [] then |wire| else headerSz + |data|;
    forall k: nat | k < |all|
      ensures Element(a, k) == all[k]
    {
      if k < |wire| { assert Element(a, 0 + k) == wire[k]; }
    }
    assert Element(a, |all| - 1) == all[|all| - 1] != HOLE;
    assert IsLength(a, |all|);
    LengthIsUnique(a, n, |all|);
  }

  lemma FirstTag(fs: seq<Field>)
    ensures Before(fs, 0) == -1
  {
  }

  lemma NoRecordsLeft(fs: seq<Field>, msg: Message, last: int)
    ensures Records(fs, msg, |fs|, last) == []
  {
  }

  /** The next field: absent, or recorded behind a skip of the tags left out. */
  lemma RecordsUnfold(fs: seq<Field>, msg: Message, i: nat, last: int)
    requires Increasing(fs) && i < |fs| && -1 <= last <= Before(fs, i)
    ensures last < fs[i].tag == Before(fs, i + 1) && fs[i].tag - last - 1 <= MAX_TAG
    ensures fs[i].name !in msg ==> Records(fs, msg, i, last) == Records(fs, msg, i + 1, last)
    ensures fs[i].name in msg ==>
      var skipped := fs[i].tag - last - 1;
      Records(fs, msg, i, last) ==
        ((if skipped > 0 then [Skip(skipped)] else []) + [RecordOf(msg[fs[i].name])])
        + Records(fs, msg, i + 1, fs[i].tag)
  {
  }

  lemma Regroup(a: seq<Record>, b: seq<Record>, c: seq<Record>)
    ensures a + (b + c) == (a + b) + c
  {
  }

  lemma FieldIsSmall(fs: seq<Field>, msg: Message, i: nat)
    requires i < |fs| && Typed(fs, msg)
    ensures IsSmall(fs[i], msg) <==> !(fs[i].name in msg && msg[fs[i].name].Num? && msg[fs[i].name].n >= 0x7FFF)
    ensures fs[i].name in msg ==> HasKind(msg[fs[i].name], fs[i].kind)
  {
  }

  /** What can be encoded has no integer above 32766. */
  lemma SmallExactly(fs: seq<Field>, msg: Message)
    requires Typed(fs, msg)
    ensures !Small(fs, msg) <==>
      exists i :: 0 <= i < |fs| && fs[i].name in msg && msg[fs[i].name].Num? && msg[fs[i].name].n > 32766
  {
    if !Small(fs, msg) {
      var i :| 0 <= i < |fs| && !IsSmall(fs[i], msg);
      FieldIsSmall(fs, msg, i);
    }
    if i :| 0 <= i < |fs| && fs[i].name in msg && msg[fs[i].name].Num? && msg[fs[i].name].n > 32766 {
      NotSmall(fs, msg, i);
    }
  }

  lemma NotSmall(fs: seq<Field>, msg: Message, i: nat)
    requires i < |fs| && Typed(fs, msg) && fs[i].name in msg
    requires msg[fs[i].name].Num? && msg[fs[i].name].n >= 0x7FFF
    ensures !Small(fs, msg)
  {
    assert !IsSmall(fs[i], msg);
  }

  lemma AllSmall(fs: seq<Field>, msg: Message)
    requires forall k :: 0 <= k < |fs| ==> IsSmall(fs[k], msg)
    ensures Small(fs, msg)
  {
    hide IsSmall;
  }

  // ----- The decoder -----

  /** toword on a stream. */
  function ToWord(d: bytes, p: nat): (w: int)
    requires p + 2 <= |d|
    ensures 0 <= w <= 0xFFFF
  {
    d[p] % 0x100 + (d[p + 1] % 0x100) * 0x100
  }

  /** todword on a stream: the top bit is a sign. */
  function ToDword(d: bytes, p: nat): (n: int)
    requires p + 4 <= |d|
    ensures -0x8000_0000 <= n < 0x8000_0000
  {
    var low := d[p] % 0x100 + (d[p + 1] % 0x100) * 0x100;
    var n := low + (d[p + 2] % 0x100) * 0x1_0000 + (d[p + 3] % 0x100) * 0x100_0000;
    if n < 0x8000_0000 then n else n - 0x1_0000_0000
  }

  /**
   A message and the number of bytes that it took; -1; or the exception of a
   failed search. Outside are the cases that are not part of this model: a
   length with the top bit set, and a boolean in the data section, which the
   code takes for an array.
   */
  datatype Decoding = Decoded(msg: Message, size: nat) | Malformed | Threw | Outside

  /** The piece of data at p, of which there are `size` bytes left, ends here; -1 if it does not fit. */
  function PieceEnd(d: bytes, p: nat, size: int): (e: int)
    requires 0 <= size && p + size <= |d|
    ensures e == -1 || e == -2 || p + 4 <= e <= p + size
  {
    if size < SIZEOF_LENGTH then -1
    else
      var sz := ToDword(d, p);
      if sz < 0 then -2 else if size < sz + SIZEOF_LENGTH then -1 else p + SIZEOF_LENGTH + sz
  }

  datatype Step = Keep(msg: Message) | Stop(r: Decoding)

  /** What a record does to the message: value < 0 says that its value is the piece of data from p to e. */
  function Apply(st: Schema, d: bytes, tag: int, value: int, p: nat, e: nat, floored: bool, msg: Message): Step
    requires value < 0 ==> p + 4 <= e <= |d|
  {
    match Lookup(st, tag, floored)
    case Crash => Stop(Threw)
    case NoField => Keep(msg)
    case FieldAt(k) =>
      var f := st.f[k];
      if value < 0 then
        match f.kind
        case TString => Keep(msg[f.name := Text(d[p + 4..e])])
        case TInteger =>
          if e == p + 8 then Keep(msg[f.name := Num(ToDword(d, p + 4))]) else Stop(Malformed)
        case TBoolean => Stop(Outside)
      else if f.kind == TString then Stop(Malformed)
      else Keep(msg[f.name := Num(value)])
  }

  /** The records from the i-th of fn on; p is where the rest of the data starts, of which size bytes are left. */
  function DecodeFrom(st: Schema, d: bytes, floored: bool, fn: nat, i: nat, tag: int, p: nat, size: nat,
                      msg: Message): Decoding
    requires i <= fn && 2 + 2 * fn <= |d| && p + size <= |d|
    decreases fn - i
  {
    if i == fn then Decoded(msg, p)
    else
      var word := ToWord(d, 2 + 2 * i);
      if word % 2 == 1 then DecodeFrom(st, d, floored, fn, i + 1, tag + 1 + word / 2, p, size, msg)
      else
        var e := if word == 0 then PieceEnd(d, p, size) else p;
        if e == -1 then Malformed
        else if e == -2 then Outside
        else
          match Apply(st, d, tag + 1, word / 2 - 1, p, e, floored, msg)
          case Stop(r) => r
          case Keep(msg') => DecodeFrom(st, d, floored, fn, i + 1, tag + 1, e, size - (e - p), msg')
  }

  /** sproto_decode of the first `size` bytes. */
  function Decodes(st: Schema, d: bytes, floored: bool): Decoding {
    if |d| < SIZEOF_HEADER then Malformed
    else
      var fn := ToWord(d, 0);
      var p := SIZEOF_HEADER + fn * SIZEOF_FIELD;
      if |d| < p then Malformed else DecodeFrom(st, d, floored, fn, 0, -1, p, |d| - p, map[])
  }

  method Decode(st: Schema, d: bytes, floored: bool) returns (r: Decoding)
    ensures r == Decodes(st, d, floored)
  {
    hide ToWord, ToDword, Lookup;
    var size := |d|;
    if size < SIZEOF_HEADER { return Malformed; }
    var fn := ToWord(d, 0);
    size := size - SIZEOF_HEADER;
    if size < fn * SIZEOF_FIELD { return Malformed; }
    var datastream := SIZEOF_HEADER + fn * SIZEOF_FIELD;
    size := size - fn * SIZEOF_FIELD;
    var tag, msg: Message := -1, map[];
    for i := 0 to fn
      invariant datastream >= 0 && size >= 0 && datastream + size == |d|
      invariant DecodeFrom(st, d, floored, fn, i, tag, datastream, size, msg) == Decodes(st, d, floored)
    {
      var value := ToWord(d, SIZEOF_HEADER + i * SIZEOF_FIELD);
      tag := tag + 1;
      if value % 2 == 1 {
        tag := tag + value / 2;
        continue;
      }
      value := value / 2 - 1;
      var currentdata := datastream;
      if value < 0 {
        if size < SIZEOF_LENGTH { return Malformed; }
        var sz := ToDword(d, datastream);
        if sz < 0 { return Outside; }
        if size < sz + SIZEOF_LENGTH { return Malformed; }
        datastream := datastream + sz + SIZEOF_LENGTH;
        size := size - (sz + SIZEOF_LENGTH);
      }
      var found := FindTag(st, tag, floored);
      if found == Crash { return Threw; }
      if found == NoField { continue; }
      var f := st.f[found.i];
      if value < 0 {
        match f.kind
        case TBoolean => return Outside;
        case TInteger =>
          if ToDword(d, currentdata) != 4 { return Malformed; }
          msg := msg[f.name := Num(ToDword(d, currentdata + SIZEOF_LENGTH))];
        case TString =>
          var sz := ToDword(d, currentdata);
          msg := msg[f.name := Text(d[currentdata + SIZEOF_LENGTH..currentdata + SIZEOF_LENGTH + sz])];
      } else if f.kind != TInteger && f.kind != TBoolean {
        return Malformed;
      } else {
        msg := msg[f.name := Num(value)];
      }
    }
    return Decoded(msg, |d| - size);
  }
}
