/** Decoding what sproto_encode wrote, with the same schema or with an older or a newer one. */
module SprotoRoundTrip {
  import opened Bytes
  import opened SprotoCodec
  import P = SprotoPack

  // ----- Reading numbers back -----

  lemma WordBack(d: bytes, p: nat, w: int)
    requires 0 <= w <= 0xFFFF && At(d, p, Word(w))
    ensures ToWord(d, p) == w
  {
    var b := Word(w);
    assert d[p..p + 2][0] == d[p] && d[p..p + 2][1] == d[p + 1];
    assert b[0] == w % 0x100 && b[1] == w / 0x100 && w / 0x100 < 0x100;
  }

  lemma FourBytes(n: int)
    requires 0 <= n < 0x8000_0000
    ensures n == n % 0x100 + ((n / 0x100) % 0x100) * 0x100 + ((n / 0x1_0000) % 0x100) * 0x1_0000
              + (n / 0x100_0000) * 0x100_0000
    ensures 0 <= n / 0x100_0000 < 0x80
  {
    assert (n / 0x100) / 0x100 == n / 0x1_0000 && (n / 0x1_0000) / 0x100 == n / 0x100_0000;
  }

  lemma DwordOf(d: bytes, p: nat, a: int, b: int, c: int, e: int)
    requires p + 4 <= |d| && d[p] == a && d[p + 1] == b && d[p + 2] == c && d[p + 3] == e
    requires 0 <= a < 0x100 && 0 <= b < 0x100 && 0 <= c < 0x100 && 0 <= e < 0x80
    ensures ToDword(d, p) == a + b * 0x100 + c * 0x1_0000 + e * 0x100_0000
  {
  }

  lemma {:induction false} DwordBack(d: bytes, p: nat, n: int)
    requires 0 <= n < 0x8000_0000 && At(d, p, DWord(n))
    ensures ToDword(d, p) == n
  {
    var b := DWord(n);
    var q := d[p..p + 4];
    assert q[0] == d[p] && q[1] == d[p + 1] && q[2] == d[p + 2] && q[3] == d[p + 3];
    FourBytes(n);
    DwordOf(d, p, b[0], b[1], b[2], b[3]);
  }

  // ----- Records without bytes -----

  /** What the value of a record does to the message. */
  function Take(st: Schema, floored: bool, tag: int, r: Record, msg: Message): Step {
    match Lookup(st, tag, floored)
    case Crash => Stop(Threw)
    case NoField => Keep(msg)
    case FieldAt(k) =>
      var f := st.f[k];
      match r
      case Data(s) =>
        if f.kind == TString then Keep(msg[f.name := Text(s)])
        else if f.kind == TBoolean then Stop(Outside)
        else if |s| == 4 then Keep(msg[f.name := Num(ToDword(s, 0))])
        else Stop(Malformed)
      case Inline(n) => if f.kind == TString then Stop(Malformed) else Keep(msg[f.name := Num(n)])
      case Skip(_) => Keep(msg)
  }

  /** What records do to the message, when the last tag was `tag`. */
  function Replay(st: Schema, floored: bool, rs: seq<Record>, tag: int, msg: Message): Step {
    if rs == [] then Keep(msg)
    else if rs[0].Skip? then Replay(st, floored, rs[1..], tag + rs[0].tags, msg)
    else
      match Take(st, floored, tag + 1, rs[0], msg)
      case Stop(r) => Stop(r)
      case Keep(msg') => Replay(st, floored, rs[1..], tag + 1, msg')
  }

  function Ended(s: Step, size: nat): Decoding {
    if s.Keep? then Decoded(s.msg, size) else s.r
  }

  lemma RecordWords(r: Record)
    requires ValidRecord(r)
    ensures var w := RecordWord(r);
      match r
      case Skip(t) => w % 2 == 1 && w / 2 == t - 1
      case Inline(n) => w % 2 == 0 && w / 2 - 1 == n && w != 0
      case Data(_) => w == 0
  {
  }

  lemma PieceBack(d: bytes, p: nat, s: bytes)
    requires |s| < MAX_STRING && At(d, p, DWord(|s|) + s)
    ensures PieceEnd(d, p, |d| - p) == p + 4 + |s| && d[p + 4..p + 4 + |s|] == s
    ensures |s| == 4 ==> ToDword(d, p + 4) == ToDword(s, 0)
  {
    hide DWord, ToDword;
    AtSplit(d, p, DWord(|s|), s);
    DwordBack(d, p, |s|);
    if |s| == 4 { SameDword(d, p + 4, s); }
  }

  lemma SameDword(d: bytes, p: nat, s: bytes)
    requires |s| == 4 && At(d, p, s)
    ensures ToDword(d, p) == ToDword(s, 0)
  {
    var q := d[p..p + 4];
    assert q[0] == d[p] && q[1] == d[p + 1] && q[2] == d[p + 2] && q[3] == d[p + 3];
  }

  lemma DecodeSkip(st: Schema, d: bytes, floored: bool, fn: nat, i: nat, tag: int, p: nat, t: int, msg: Message)
    requires i < fn && 2 + 2 * fn <= |d| && p <= |d| && ValidRecord(Skip(t))
    requires ToWord(d, 2 + 2 * i) == RecordWord(Skip(t))
    ensures DecodeFrom(st, d, floored, fn, i, tag, p, |d| - p, msg) ==
      DecodeFrom(st, d, floored, fn, i + 1, tag + t, p, |d| - p, msg)
  {
    RecordWords(Skip(t));
    hide RecordWord, ToWord, Apply, PieceEnd;
  }

  lemma DecodeInline(st: Schema, d: bytes, floored: bool, fn: nat, i: nat, tag: int, p: nat, n: int, msg: Message)
    requires i < fn && 2 + 2 * fn <= |d| && p <= |d| && ValidRecord(Inline(n))
    requires ToWord(d, 2 + 2 * i) == RecordWord(Inline(n))
    ensures DecodeFrom(st, d, floored, fn, i, tag, p, |d| - p, msg) ==
      match Take(st, floored, tag + 1, Inline(n), msg)
      case Stop(x) => x
      case Keep(msg') => DecodeFrom(st, d, floored, fn, i + 1, tag + 1, p, |d| - p, msg')
  {
    RecordWords(Inline(n));
    hide RecordWord, ToWord, ToDword, Lookup, PieceEnd;
  }

  lemma {:induction false} DecodeData(st: Schema, d: bytes, floored: bool, fn: nat, i: nat, tag: int, p: nat,
                                      s: bytes, msg: Message)
    requires i < fn && 2 + 2 * fn <= |d| && ValidRecord(Data(s))
    requires ToWord(d, 2 + 2 * i) == RecordWord(Data(s)) && At(d, p, DWord(|s|) + s)
    ensures p + 4 + |s| <= |d|
    ensures DecodeFrom(st, d, floored, fn, i, tag, p, |d| - p, msg) ==
      match Take(st, floored, tag + 1, Data(s), msg)
      case Stop(x) => x
      case Keep(msg') => DecodeFrom(st, d, floored, fn, i + 1, tag + 1, p + 4 + |s|, |d| - (p + 4 + |s|), msg')
  {
    RecordWords(Data(s));
    PieceBack(d, p, s);
    hide RecordWord, ToWord, ToDword, Lookup, PieceEnd, DWord, IsBytes, At;
  }

  lemma WordsStep(d: bytes, i: nat, p: nat, rs: seq<Record>)
    requires ValidRecords(rs) && rs != [] && At(d, 2 + 2 * i, Words(rs)) && At(d, p, DataOf(rs))
    ensures ValidRecord(rs[0]) && ValidRecords(rs[1..]) && (rs[0].Data? ==> |rs[0].s| < MAX_STRING)
    ensures At(d, 2 + 2 * i, Word(RecordWord(rs[0]))) && At(d, 2 + 2 * (i + 1), Words(rs[1..]))
    ensures At(d, p, RecordData(rs[0])) && At(d, p + |RecordData(rs[0])|, DataOf(rs[1..]))
    ensures |DataOf(rs)| == |RecordData(rs[0])| + |DataOf(rs[1..])|
  {
    hide At, Word, RecordData, RecordWord;
    AtSplit(d, 2 + 2 * i, Word(RecordWord(rs[0])), Words(rs[1..]));
    AtSplit(d, p, RecordData(rs[0]), DataOf(rs[1..]));
  }

  /** Decoding follows the records that were written, to the end of their data. */
  lemma {:induction false} DecodeReplays(st: Schema, d: bytes, floored: bool, fn: nat, i: nat, tag: int, p: nat,
                                         rs: seq<Record>, msg: Message)
    requires ValidRecords(rs) && fn == i + |rs| && 2 + 2 * fn <= |d| && p <= |d|
    requires At(d, 2 + 2 * i, Words(rs)) && At(d, p, DataOf(rs))
    ensures DecodeFrom(st, d, floored, fn, i, tag, p, |d| - p, msg) ==
      Ended(Replay(st, floored, rs, tag, msg), p + |DataOf(rs)|)
    decreases |rs|
  {
    hide At, Words, DataOf, Take, DecodeFrom, RecordWord, Word, DWord, ValidRecord;
    if rs == [] {
      NoRecords(st, d, floored, fn, tag, p, msg);
    } else {
      WordsStep(d, i, p, rs);
      WordBack(d, 2 + 2 * i, RecordWord(rs[0]));
      match rs[0]
      case Skip(t) =>
        DecodeSkip(st, d, floored, fn, i, tag, p, t, msg);
        DecodeReplays(st, d, floored, fn, i + 1, tag + t, p, rs[1..], msg);
      case Inline(n) =>
        DecodeInline(st, d, floored, fn, i, tag, p, n, msg);
        var x := Take(st, floored, tag + 1, rs[0], msg);
        if x.Keep? { DecodeReplays(st, d, floored, fn, i + 1, tag + 1, p, rs[1..], x.msg); }
      case Data(s) =>
        DecodeData(st, d, floored, fn, i, tag, p, s, msg);
        var x := Take(st, floored, tag + 1, rs[0], msg);
        if x.Keep? { DecodeReplays(st, d, floored, fn, i + 1, tag + 1, p + 4 + |s|, rs[1..], x.msg); }
    }
  }

  lemma NoRecords(st: Schema, d: bytes, floored: bool, fn: nat, tag: int, p: nat, msg: Message)
    requires 2 + 2 * fn <= |d| && p <= |d|
    ensures DataOf([]) == [] && DecodeFrom(st, d, floored, fn, fn, tag, p, |d| - p, msg) == Decoded(msg, p)
  {
  }

  lemma WireReplays(st: Schema, rs: seq<Record>, trailing: bytes, floored: bool)
    requires ValidRecords(rs) && |rs| <= 0xFFFF
    ensures Decodes(st, Wire(rs) + trailing, floored) == Ended(Replay(st, floored, rs, -1, map[]), |Wire(rs)|)
  {
    hide At, Word, Words, DataOf, Replay, DecodeFrom, ToWord;
    var d := Wire(rs) + trailing;
    assert d == Word(|rs|) + (Words(rs) + (DataOf(rs) + trailing));
    assert At(d, 0, d) by { WholeAt(d); }
    AtSplit(d, 0, Word(|rs|), Words(rs) + (DataOf(rs) + trailing));
    AtSplit(d, 2, Words(rs), DataOf(rs) + trailing);
    AtSplit(d, 2 + 2 * |rs|, DataOf(rs), trailing);
    WordBack(d, 0, |rs|);
    DecodeReplays(st, d, floored, |rs|, 0, -1, 2 + 2 * |rs|, rs, map[]);
  }

  lemma WholeAt(d: bytes)
    ensures At(d, 0, d)
  {
  }

  // ----- Two schemas -----

  /** What tags the schemas share, they mean alike. */
  ghost predicate Agree(fs: seq<Field>, gs: seq<Field>) {
    forall i, j :: 0 <= i < |fs| && 0 <= j < |gs| && fs[i].tag == gs[j].tag ==> fs[i] == gs[j]
  }

  /** A value as it comes back. */
  function Returned(v: Val): Val {
    if v.Flag? then Num(if v.b then 1 else 0) else v
  }

  /** The message, restricted to the fields that both schemas declare. */
  ghost function Shared(fs: seq<Field>, gs: seq<Field>, msg: Message): Message {
    map f | f in fs && f in gs && f.name in msg :: f.name := Returned(msg[f.name])
  }

  ghost function SharedFrom(fs: seq<Field>, gs: seq<Field>, msg: Message, i: nat): Message
    requires i <= |fs|
    decreases |fs| - i
  {
    if i == |fs| then map[]
    else if fs[i].name in msg && fs[i] in gs
    then map[fs[i].name := Returned(msg[fs[i].name])] + SharedFrom(fs, gs, msg, i + 1)
    else SharedFrom(fs, gs, msg, i + 1)
  }

  lemma {:induction false} SharedFromHolds(fs: seq<Field>, gs: seq<Field>, msg: Message, i: nat)
    requires i <= |fs|
    ensures forall name :: name in SharedFrom(fs, gs, msg, i) <==>
      name in msg && exists k :: i <= k < |fs| && fs[k].name == name && fs[k] in gs
    ensures forall name :: name in SharedFrom(fs, gs, msg, i) ==>
      SharedFrom(fs, gs, msg, i)[name] == Returned(msg[name])
    decreases |fs| - i
  {
    hide Returned;
    if i < |fs| { SharedFromHolds(fs, gs, msg, i + 1); }
  }

  lemma SharedFromIs(fs: seq<Field>, gs: seq<Field>, msg: Message)
    ensures SharedFrom(fs, gs, msg, 0) == Shared(fs, gs, msg)
  {
    SharedFromHolds(fs, gs, msg, 0);
    hide SharedFrom, Returned;
    forall name
      ensures name in Shared(fs, gs, msg) <==> name in SharedFrom(fs, gs, msg, 0)
    {
      if name in SharedFrom(fs, gs, msg, 0) {
        var k :| 0 <= k < |fs| && fs[k].name == name && fs[k] in gs;
        assert fs[k] in fs;
      }
    }
  }

  /** A present field, read by the other schema. */
  lemma TakeShared(f: Field, gs: seq<Field>, floored: bool, v: Val, msg: Message)
    requires gs != [] && FindsAll(gs, floored) && HasKind(v, f.kind)
    requires forall j :: 0 <= j < |gs| && f.tag == gs[j].tag ==> f == gs[j]
    ensures Take(Imported(gs), floored, f.tag, RecordOf(v), msg) ==
      Keep(if f in gs then msg[f.name := Returned(v)] else msg)
  {
    hide Lookup, Gaps;
    match Lookup(Imported(gs), f.tag, floored)
    case FieldAt(k) =>
      assert gs[k] == f;
    case NoField =>
      assert f !in gs;
    case Crash =>
      assert false;
  }

  lemma ReplayField(st: Schema, floored: bool, last: int, tag: int, r: Record, rest: seq<Record>, msg: Message)
    requires tag > last && !r.Skip?
    ensures var skipped := tag - last - 1;
      Replay(st, floored, (if skipped > 0 then [Skip(skipped)] else []) + [r] + rest, last, msg) ==
        match Take(st, floored, tag, r, msg)
        case Stop(x) => Stop(x)
        case Keep(msg') => Replay(st, floored, rest, tag, msg')
  {
    hide Take;
    var skipped := tag - last - 1;
    assert ([r] + rest)[1..] == rest;
    if skipped > 0 {
      assert ([Skip(skipped)] + [r] + rest)[1..] == [r] + rest;
    } else {
      assert [] + [r] + rest == [r] + rest;
    }
  }

  lemma {:induction false} ReplaysShared(fs: seq<Field>, gs: seq<Field>, floored: bool, msg: Message, i: nat,
                                         last: int, acc: Message)
    requires Increasing(fs) && Typed(fs, msg) && i <= |fs| && -1 <= last <= Before(fs, i)
    requires gs != [] && FindsAll(gs, floored) && Agree(fs, gs)
    ensures Replay(Imported(gs), floored, Records(fs, msg, i, last), last, acc) ==
      Keep(acc + SharedFrom(fs, gs, msg, i))
    decreases |fs| - i
  {
    hide Lookup, Gaps, FindsAll, Take, Replay, Imported;
    if i == |fs| {
      NothingReplays(Imported(gs), floored, last, acc);
    } else if fs[i].name !in msg {
      ReplaysShared(fs, gs, floored, msg, i + 1, last, acc);
    } else {
      var f, v := fs[i], msg[fs[i].name];
      TakeShared(f, gs, floored, v, acc);
      ReplayField(Imported(gs), floored, last, f.tag, RecordOf(v), Records(fs, msg, i + 1, f.tag), acc);
      var acc' := if f in gs then acc[f.name := Returned(v)] else acc;
      ReplaysShared(fs, gs, floored, msg, i + 1, f.tag, acc');
      assert acc' + SharedFrom(fs, gs, msg, i + 1) == acc + SharedFrom(fs, gs, msg, i);
    }
  }

  lemma NothingReplays(st: Schema, floored: bool, tag: int, acc: Message)
    ensures Replay(st, floored, [], tag, acc) == Keep(acc) && acc + map[] == acc
  {
  }

  // ----- The main results -----

  /** What a message is encoded as. */
  ghost function Encoded(fs: seq<Field>, msg: Message): bytes
    requires Increasing(fs) && Typed(fs, msg) && Small(fs, msg)
  {
    RecordsValid(fs, msg, 0, -1);
    RecordsFitTags(fs, msg, 0, -1);
    Wire(Records(fs, msg, 0, -1))
  }

  /**
   A message that was encoded with the schema fs and is decoded with gs comes
   back restricted to the fields that both have, whichever of them is newer,
   and takes up exactly the bytes it was encoded to.
   */
  lemma Evolves(fs: seq<Field>, gs: seq<Field>, msg: Message, trailing: bytes, floored: bool)
    requires Increasing(fs) && Typed(fs, msg) && Small(fs, msg)
    requires Increasing(gs) && gs != [] && Agree(fs, gs) && (floored || Contiguous(gs))
    ensures Decodes(Imported(gs), Encoded(fs, msg) + trailing, floored) ==
      Decoded(Shared(fs, gs, msg), |Encoded(fs, msg)|)
  {
    hide Wire, Records, Replay, Decodes, Small, Typed, Increasing, Gaps, Imported, Contiguous, Shared;
    FindsAllExactly(gs, floored);
    RecordsValid(fs, msg, 0, -1);
    RecordsFitTags(fs, msg, 0, -1);
    WireReplays(Imported(gs), Records(fs, msg, 0, -1), trailing, floored);
    ReplaysShared(fs, gs, floored, msg, 0, -1, map[]);
    SharedFromIs(fs, gs, msg);
    assert map[] + SharedFrom(fs, gs, msg, 0) == SharedFrom(fs, gs, msg, 0);
  }

  /** The fields of the schema that are present, as they come back. */
  ghost function Declared(fs: seq<Field>, msg: Message): Message {
    map f | f in fs && f.name in msg :: f.name := Returned(msg[f.name])
  }

  ghost predicate RoundTrips(fs: seq<Field>, floored: bool, msg: Message, trailing: bytes)
    requires Increasing(fs) && Typed(fs, msg) && Small(fs, msg) && fs != []
  {
    Decodes(Imported(fs), Encoded(fs, msg) + trailing, floored) == Decoded(Declared(fs, msg), |Encoded(fs, msg)|)
  }

  /** With one schema, exactly the fields that were present come back. */
  lemma {:induction false} RoundTrip(fs: seq<Field>, floored: bool, msg: Message, trailing: bytes)
    requires Increasing(fs) && Typed(fs, msg) && Small(fs, msg) && fs != [] && (floored || Contiguous(fs))
    ensures RoundTrips(fs, floored, msg, trailing)
  {
    hide Decodes, Encoded, Imported, Small, Typed, Contiguous;
    assert Agree(fs, fs);
    Evolves(fs, fs, msg, trailing, floored);
    assert Shared(fs, fs, msg) == Declared(fs, msg);
  }

  /** A value for a field. */
  function Default(kind: Kind): Val {
    match kind
    case TInteger => Num(0)
    case TBoolean => Flag(false)
    case TString => Text([])
  }

  /** As the search is written, a message with the first field of a schema with gaps cannot be decoded. */
  lemma FirstFieldThrows(fs: seq<Field>, trailing: bytes) returns (msg: Message)
    requires Increasing(fs) && fs != [] && DistinctNames(fs) && !Contiguous(fs)
    ensures Typed(fs, msg) && Small(fs, msg)
    ensures Decodes(Imported(fs), Encoded(fs, msg) + trailing, false) == Threw
  {
    var f, v := fs[0], Default(fs[0].kind);
    msg := map[f.name := v];
    BaseMeansContiguous(fs);
    FirstFieldCrashes(fs, |fs|);
    RecordsValid(fs, msg, 0, -1);
    RecordsFitTags(fs, msg, 0, -1);
    hide Wire, Decodes, Gaps, Search, Contiguous;
    WireReplays(Imported(fs), Records(fs, msg, 0, -1), trailing, false);
    ReplayField(Imported(fs), false, -1, f.tag, RecordOf(v), Records(fs, msg, 1, f.tag), map[]);
  }

  /** As the search is written, all messages come back exactly for the schemas without gaps. */
  lemma {:induction false} RoundTripsExactly(fs: seq<Field>)
    requires Increasing(fs) && fs != [] && DistinctNames(fs)
    ensures Contiguous(fs) <==>
      forall msg, trailing :: Typed(fs, msg) && Small(fs, msg) ==> RoundTrips(fs, false, msg, trailing)
  {
    hide Increasing, Typed, Small, Contiguous, Decodes, Encoded, Imported;
    if Contiguous(fs) {
      forall msg, trailing | Typed(fs, msg) && Small(fs, msg)
        ensures RoundTrips(fs, false, msg, trailing)
      {
        RoundTrip(fs, false, msg, trailing);
      }
    } else {
      var msg := FirstFieldThrows(fs, []);
      assert !RoundTrips(fs, false, msg, []);
    }
  }

  // ----- On the wire -----

  /**
   The encoder's array is packed as a whole, with whatever elements and holes
   are behind the message, and sent; unpacking adds zeros. The message is read
   all the same.
   */
  lemma {:induction false} SurvivesPacking(fs: seq<Field>, gs: seq<Field>, msg: Message, rest: bytes, floored: bool)
    requires Increasing(fs) && Typed(fs, msg) && Small(fs, msg)
    requires Increasing(gs) && gs != [] && Agree(fs, gs) && (floored || Contiguous(gs))
    ensures match P.Unpacked(Stored(P.Packed(Encoded(fs, msg) + rest)))
      case Done(data) =>
        && data == P.Padded(Stored(Encoded(fs, msg) + rest))
        && Decodes(Imported(gs), data, floored) == Decoded(Shared(fs, gs, msg), |Encoded(fs, msg)|)
      case _ => false
  {
    hide *;
    var x := Encoded(fs, msg) + rest;
    P.RoundTrip(x);
    var zeros := ArrivesWhole(fs, msg, rest);
    Evolves(fs, gs, msg, Stored(rest) + zeros, floored);
  }

  /** The message arrives as it is: it has no holes. */
  lemma ArrivesWhole(fs: seq<Field>, msg: Message, rest: bytes) returns (zeros: bytes)
    requires Increasing(fs) && Typed(fs, msg) && Small(fs, msg)
    ensures P.Padded(Stored(Encoded(fs, msg) + rest)) == Encoded(fs, msg) + (Stored(rest) + zeros)
  {
    EncodedIsBytes(fs, msg);
    hide Encoded, Stored;
    var x := Encoded(fs, msg) + rest;
    StoredSum(Encoded(fs, msg), rest);
    StoredBytes(Encoded(fs, msg));
    zeros := Zeros((8 - |Stored(x)| % 8) % 8);
    assert P.Padded(Stored(x)) == (Encoded(fs, msg) + Stored(rest)) + zeros;
  }

  lemma EncodedIsBytes(fs: seq<Field>, msg: Message)
    requires Increasing(fs) && Typed(fs, msg) && Small(fs, msg)
    ensures IsBytes(Encoded(fs, msg))
  {
    hide Increasing, Typed, Small, Wire;
    RecordsValid(fs, msg, 0, -1);
    RecordsFitTags(fs, msg, 0, -1);
    DataIsBytes(Records(fs, msg, 0, -1));
  }

  /** The room that the encoder reserves for records. */
  function HeaderSize(fs: seq<Field>): nat {
    SIZEOF_HEADER + SIZEOF_FIELD * (|fs| + Gaps(fs, 0))
  }

  /** What is known of the array that sproto.encode returns. */
  lemma ArrayOf(fs: seq<Field>, msg: Message, buf: JsArray, sz: nat) returns (rest: bytes)
    requires Increasing(fs) && Typed(fs, msg) && Small(fs, msg)
    requires ValidRecords(Records(fs, msg, 0, -1)) && |Records(fs, msg, 0, -1)| <= 0xFFFF
    requires SIZEOF_HEADER + SIZEOF_FIELD * |Records(fs, msg, 0, -1)| <= HeaderSize(fs)
    requires Elements(buf, sz) == Wire(Records(fs, msg, 0, -1)) + Stale(Records(fs, msg, 0, -1), HeaderSize(fs))
    ensures Elements(buf, sz) == Encoded(fs, msg) + rest && AreElements(Elements(buf, sz))
    ensures sz <= HeaderSize(fs) + |Encoded(fs, msg)|
  {
    hide *;
    var rs := Records(fs, msg, 0, -1);
    EncodedIs(fs, msg);
    EncodedIsBytes(fs, msg);
    HolesExactly(rs, HeaderSize(fs));
    StaleSize(rs, HeaderSize(fs));
    rest := Stale(rs, HeaderSize(fs));
    StoredBytes(Encoded(fs, msg));
    ElementsJoin(Encoded(fs, msg), rest);
    assert |Elements(buf, sz)| == sz;
  }

  lemma EncodedIs(fs: seq<Field>, msg: Message)
    requires Increasing(fs) && Typed(fs, msg) && Small(fs, msg)
    requires ValidRecords(Records(fs, msg, 0, -1)) && |Records(fs, msg, 0, -1)| <= 0xFFFF
    ensures Encoded(fs, msg) == Wire(Records(fs, msg, 0, -1))
  {
  }

  lemma ElementsJoin(s: bytes, t: bytes)
    requires AreElements(s) && AreElements(t)
    ensures AreElements(s + t)
  {
  }

  lemma StaleSize(rs: seq<Record>, headerSz: nat)
    requires ValidRecords(rs) && |rs| <= 0xFFFF && SIZEOF_HEADER + SIZEOF_FIELD * |rs| <= headerSz
    ensures |Stale(rs, headerSz)| <= headerSz
  {
    hide Words, DataOf, Word;
  }

  lemma CapacityGrows(m: nat, n: nat)
    requires m <= n
    ensures P.MostPacked(m) <= P.MostPacked(n)
  {
  }

  lemma ImportedFacts(fs: seq<Field>)
    requires fs != [] && Increasing(fs)
    ensures forall i :: 0 <= i < |fs| ==> fs[i].tag >= 0
    ensures forall i :: 0 < i < |fs| ==> fs[i - 1].tag <= fs[i].tag
    ensures Imported(fs).f == fs && SIZEOF_HEADER + SIZEOF_FIELD * Imported(fs).maxn == HeaderSize(fs)
  {
  }

  /**
   From one client to another: pencode on one side, which encodes and packs;
   the array is sent as bytes; pdecode on the other, which unpacks and decodes,
   with its own version of the schema. The fields that both versions have
   arrive, and nothing else.
   */
  method Exchange(fs: seq<Field>, gs: seq<Field>, msg: Message, floored: bool) returns (r: Decoding)
    requires fs != [] && Increasing(fs) && Typed(fs, msg) && Small(fs, msg)
    requires gs != [] && Increasing(gs) && Agree(fs, gs) && (floored || Contiguous(gs))
    requires P.MostPacked(HeaderSize(fs) + |Encoded(fs, msg)|) <= P.CAPACITY
    ensures r == Decoded(Shared(fs, gs, msg), |Encoded(fs, msg)|)
  {
    hide *;
    ImportedFacts(fs);
    ImportedFacts(gs);
    var writer := ImportType(fs);
    var encoder := new Encoder();
    var outcome, buf, sz := encoder.SprotoEncode(writer.value, msg);
    ghost var rest := ArrayOf(fs, msg, buf, sz);
    CapacityGrows(sz, HeaderSize(fs) + |Encoded(fs, msg)|);
    var received := P.Transmit(buf, sz);
    P.SentIs(buf, sz);
    SurvivesPacking(fs, gs, msg, rest, floored);
    var reader := ImportType(gs);
    r := Decode(reader.value, Sent(received.buffer, received.size), floored);
  }
}
