/** The messages of sproto byte by byte: what the encoder writes, and what the decoder makes of any bytes. */
module SprotoWire {
  import opened Bytes
  import opened SprotoCodec
  import R = SprotoRoundTrip

  // ----- Numbers: the less significant byte comes first -----

  function Word16(d: bytes, p: nat): int
    requires p + 2 <= |d|
  {
    d[p] + 256 * d[p + 1]
  }

  function Word32(d: bytes, p: nat): int
    requires p + 4 <= |d|
  {
    d[p] + 256 * d[p + 1] + 65536 * d[p + 2] + 16777216 * d[p + 3]
  }

  lemma BytesOf(d: bytes, p: nat)
    requires IsBytes(d) && p < |d|
    ensures 0 <= d[p] < 256
  {
  }

  lemma WordIs(d: bytes, p: nat)
    requires IsBytes(d) && p + 2 <= |d|
    ensures ToWord(d, p) == d[p] + 256 * d[p + 1]
  {
    BytesOf(d, p);
    BytesOf(d, p + 1);
  }

  /** Four bytes are read as the number of 32 bits, with its sign, that is congruent to them. */
  lemma DwordIs(d: bytes, p: nat)
    requires IsBytes(d) && p + 4 <= |d|
    ensures -2147483648 <= ToDword(d, p) < 2147483648
    ensures var n := d[p] + 256 * d[p + 1] + 65536 * d[p + 2] + 16777216 * d[p + 3];
      ToDword(d, p) == n || ToDword(d, p) == n - 4294967296
  {
    BytesOf(d, p);
    BytesOf(d, p + 1);
    BytesOf(d, p + 2);
    BytesOf(d, p + 3);
  }

  // ----- What is written -----

  /** The two bytes of a record. */
  ghost predicate RecordAt(t: bytes, p: nat, r: Record) {
    && p + 2 <= |t|
    && Word16(t, p) == match r case Skip(n) => 2 * n - 1 case Inline(n) => 2 * n + 2 case Data(_) => 0
  }

  /** A piece of data: its size in four bytes, and its bytes. */
  ghost predicate PieceAt(t: bytes, p: nat, s: bytes) {
    p + 4 + |s| <= |t| && Word32(t, p) == |s| && t[p + 4..p + 4 + |s|] == s
  }

  /** The size of the pieces of the first k records. */
  function DataSize(rs: seq<Record>, k: nat): nat
    requires k <= |rs|
  {
    if k == 0 then 0 else DataSize(rs, k - 1) + (if rs[k - 1].Data? then 4 + |rs[k - 1].s| else 0)
  }

  /** t is the number of the records, the records, and the pieces of data in the order of their records. */
  ghost predicate IsWire(t: bytes, rs: seq<Record>) {
    && IsBytes(t) && |t| == 2 + 2 * |rs| + DataSize(rs, |rs|)
    && Word16(t, 0) == |rs|
    && (forall k :: 0 <= k < |rs| ==> RecordAt(t, 2 + 2 * k, rs[k]))
    && (forall k :: 0 <= k < |rs| && rs[k].Data? ==> PieceAt(t, 2 + 2 * |rs| + DataSize(rs, k), rs[k].s))
  }

  /** How many tags the first k records pass. */
  function Passed(rs: seq<Record>, k: nat): int
    requires k <= |rs|
  {
    if k == 0 then 0 else Passed(rs, k - 1) + (if rs[k - 1].Skip? then rs[k - 1].tags else 1)
  }

  ghost predicate Carries(r: Record, v: Val) {
    match v
    case Num(n) => r == Inline(n)
    case Flag(b) => r == Inline(if b then 1 else 0)
    case Text(s) => r == Data(s)
  }

  /** The k-th record is the value of the i-th field. The records begin at the tag `first`. */
  ghost predicate Stands(rs: seq<Record>, k: nat, first: int, fs: seq<Field>, i: nat, msg: Message)
    requires k < |rs| && i < |fs|
  {
    fs[i].name in msg && first + Passed(rs, k) == fs[i].tag && Carries(rs[k], msg[fs[i].name])
  }

  /** A skip is not empty, and stands before a value. */
  ghost predicate Skips(rs: seq<Record>, k: nat)
    requires k < |rs|
  {
    rs[k].Skip? ==> rs[k].tags >= 1 && k + 1 < |rs| && !rs[k + 1].Skip?
  }

  /**
   The records are one for each field from the given one on that is present,
   at its tag, and skips before these.
   */
  ghost predicate Places(rs: seq<Record>, first: int, fs: seq<Field>, from: nat, msg: Message) {
    && (forall i: nat :: from <= i < |fs| && fs[i].name in msg ==>
          exists k: nat :: k < |rs| && Stands(rs, k, first, fs, i, msg))
    && (forall k: nat :: k < |rs| && !rs[k].Skip? ==>
          exists i: nat :: from <= i < |fs| && Stands(rs, k, first, fs, i, msg))
    && (forall k: nat :: k < |rs| ==> Skips(rs, k))
  }

  // ----- ... is written so -----

  lemma WordAt(d: bytes, p: nat, w: int)
    requires 0 <= w <= 0xFFFF && At(d, p, Word(w))
    ensures p + 2 <= |d| && Word16(d, p) == w
  {
    var b := Word(w);
    assert d[p..p + 2][0] == d[p] && d[p..p + 2][1] == d[p + 1];
    assert b[0] == w % 0x100 && b[1] == w / 0x100;
  }

  lemma DwordAt(d: bytes, p: nat, n: int)
    requires 0 <= n < 0x8000_0000 && At(d, p, DWord(n))
    ensures p + 4 <= |d| && Word32(d, p) == n
  {
    var b := DWord(n);
    var q := d[p..p + 4];
    assert q[0] == d[p] && q[1] == d[p + 1] && q[2] == d[p + 2] && q[3] == d[p + 3];
    R.FourBytes(n);
  }

  lemma RecordIsAt(t: bytes, p: nat, r: Record)
    requires ValidRecord(r) && At(t, p, Word(RecordWord(r)))
    ensures RecordAt(t, p, r)
  {
    hide Word, Word16;
    WordAt(t, p, RecordWord(r));
  }

  lemma PieceIsAt(t: bytes, p: nat, r: Record)
    requires ValidRecord(r) && r.Data? && At(t, p, RecordData(r))
    ensures PieceAt(t, p, r.s)
  {
    hide DWord, Word32;
    AtSplit(t, p, DWord(|r.s|), r.s);
    DwordAt(t, p, |r.s|);
  }

  /** The records from the k-th on, and their data. */
  lemma {:induction false} Writes(t: bytes, all: seq<Record>, k: nat, p: nat, q: nat)
    requires k <= |all| && ValidRecords(all)
    requires At(t, p + 2 * k, Words(all[k..])) && At(t, q + DataSize(all, k), DataOf(all[k..]))
    ensures forall j :: k <= j < |all| ==> RecordAt(t, p + 2 * j, all[j])
    ensures forall j :: k <= j < |all| && all[j].Data? ==> PieceAt(t, q + DataSize(all, j), all[j].s)
    ensures DataSize(all, k) + |DataOf(all[k..])| == DataSize(all, |all|)
    decreases |all| - k
  {
    hide At, RecordAt, PieceAt, Word, RecordWord, Words, DataOf, IsBytes;
    if k == |all| {
      NoData();
    } else {
      var r := all[k];
      assert all[k..] == [r] + all[k + 1..];
      WordsCons(r, all[k + 1..]);
      AtSplit(t, p + 2 * k, Word(RecordWord(r)), Words(all[k + 1..]));
      AtSplit(t, q + DataSize(all, k), RecordData(r), DataOf(all[k + 1..]));
      RecordIsAt(t, p + 2 * k, r);
      if r.Data? { PieceIsAt(t, q + DataSize(all, k), r); }
      DataSizeStep(all, k);
      Writes(t, all, k + 1, p, q);
    }
  }

  lemma NoData()
    ensures DataOf([]) == []
  {
  }

  lemma NoneYet(rs: seq<Record>)
    ensures DataSize(rs, 0) == 0
  {
  }

  lemma DataSizeStep(rs: seq<Record>, k: nat)
    requires k < |rs| && ValidRecord(rs[k])
    ensures DataSize(rs, k + 1) == DataSize(rs, k) + |RecordData(rs[k])|
    ensures |Word(RecordWord(rs[k]))| == 2
  {
  }

  lemma {:induction false} WireIsWire(rs: seq<Record>)
    requires ValidRecords(rs) && |rs| <= 0xFFFF
    ensures IsWire(Wire(rs), rs)
  {
    hide At, Word, Words, DataOf, RecordAt, PieceAt, Word16, IsBytes, ValidRecord, DataSize;
    NoneYet(rs);
    var t := Wire(rs);
    DataIsBytes(rs);
    assert t == Word(|rs|) + (Words(rs) + DataOf(rs));
    R.WholeAt(t);
    AtSplit(t, 0, Word(|rs|), Words(rs) + DataOf(rs));
    AtSplit(t, 2, Words(rs), DataOf(rs));
    WordAt(t, 0, |rs|);
    assert rs[0..] == rs;
    Writes(t, rs, 0, 2, 2 + 2 * |rs|);
  }

  lemma {:induction false} PassedSum(a: seq<Record>, b: seq<Record>, k: nat)
    requires k <= |b|
    ensures Passed(a + b, |a| + k) == Passed(a, |a|) + Passed(b, k)
    decreases k
  {
    if k == 0 {
      PassedFront(a, b, |a|);
    } else {
      PassedSum(a, b, k - 1);
    }
  }

  lemma {:induction false} PassedFront(a: seq<Record>, b: seq<Record>, k: nat)
    requires k <= |a|
    ensures Passed(a + b, k) == Passed(a, k)
  {
    if k > 0 { PassedFront(a, b, k - 1); }
  }

  /** The record of one field, with the skip before it. */
  lemma FrontPlaced(skipped: int, r: Record, rest: seq<Record>)
    requires skipped >= 0 && !r.Skip?
    ensures var front := (if skipped > 0 then [Skip(skipped)] else []) + [r];
      && Passed(front + rest, |front| - 1) == skipped && Passed(front, |front|) == skipped + 1
      && (front + rest)[|front| - 1] == r
  {
    var front := (if skipped > 0 then [Skip(skipped)] else []) + [r];
    PassedFront(front, rest, |front| - 1);
    if skipped > 0 { assert front[0] == Skip(skipped) && Passed(front, 1) == skipped; }
  }

  lemma {:induction false} StandsBehind(front: seq<Record>, rest: seq<Record>, k: nat, first: int, fs: seq<Field>,
                                        i: nat, msg: Message)
    requires k < |rest| && i < |fs|
    ensures Stands(front + rest, |front| + k, first, fs, i, msg)
      <==> Stands(rest, k, first + Passed(front, |front|), fs, i, msg)
  {
    PassedSum(front, rest, k);
  }

  lemma {:induction false} PlacesStep(front: seq<Record>, rest: seq<Record>, first: int, fs: seq<Field>, from: nat,
                                      msg: Message)
    requires from < |fs| && Places(rest, first + Passed(front, |front|), fs, from + 1, msg)
    requires front != [] && Stands(front + rest, |front| - 1, first, fs, from, msg) && !front[|front| - 1].Skip?
    requires |front| == 1 || (|front| == 2 && front[0].Skip? && front[0].tags >= 1)
    ensures Places(front + rest, first, fs, from, msg)
  {
    hide Passed, Carries, Stands;
    var rs, n := front + rest, |front|;
    forall i: nat | from <= i < |fs| && fs[i].name in msg
      ensures exists k: nat :: k < |rs| && Stands(rs, k, first, fs, i, msg)
    {
      if i > from {
        var k: nat :| k < |rest| && Stands(rest, k, first + Passed(front, n), fs, i, msg);
        StandsBehind(front, rest, k, first, fs, i, msg);
      }
    }
    forall k: nat | k < |rs| && !rs[k].Skip?
      ensures exists i: nat :: from <= i < |fs| && Stands(rs, k, first, fs, i, msg)
    {
      if k >= n {
        var i: nat :| from + 1 <= i < |fs| && Stands(rest, k - n, first + Passed(front, n), fs, i, msg);
        StandsBehind(front, rest, k - n, first, fs, i, msg);
      }
    }
    forall k: nat | k < |rs|
      ensures Skips(rs, k)
    {
      if k >= n { assert Skips(rest, k - n); }
    }
  }

  lemma {:induction false} RecordsPlaced(fs: seq<Field>, msg: Message, i: nat, last: int)
    requires Increasing(fs) && i <= |fs| && -1 <= last <= Before(fs, i)
    ensures Places(Records(fs, msg, i, last), last + 1, fs, i, msg)
    decreases |fs| - i
  {
    hide Passed, Places, Records, Increasing;
    if i == |fs| {
      NothingPlaced(fs, msg, last);
    } else {
      RecordsUnfold(fs, msg, i, last);
      if fs[i].name !in msg {
        RecordsPlaced(fs, msg, i + 1, last);
        AbsentPlaced(Records(fs, msg, i + 1, last), last + 1, fs, i, msg);
      } else {
        var skipped, r, rest := fs[i].tag - last - 1, RecordOf(msg[fs[i].name]), Records(fs, msg, i + 1, fs[i].tag);
        RecordsPlaced(fs, msg, i + 1, fs[i].tag);
        FrontPlaced(skipped, r, rest);
        PlacesStep((if skipped > 0 then [Skip(skipped)] else []) + [r], rest, last + 1, fs, i, msg);
      }
    }
  }

  lemma NothingPlaced(fs: seq<Field>, msg: Message, last: int)
    ensures Places(Records(fs, msg, |fs|, last), last + 1, fs, |fs|, msg)
  {
  }

  lemma AbsentPlaced(rs: seq<Record>, first: int, fs: seq<Field>, i: nat, msg: Message)
    requires i < |fs| && fs[i].name !in msg && Places(rs, first, fs, i + 1, msg)
    ensures Places(rs, first, fs, i, msg)
  {
    hide Passed, Carries, Skips;
  }

  /**
   What a message is encoded as: records for exactly the fields that are
   present, each at its tag, and the numbers in these bytes.
   */
  lemma {:induction false} EncodedIs(fs: seq<Field>, msg: Message) returns (rs: seq<Record>)
    requires Increasing(fs) && Typed(fs, msg) && Small(fs, msg)
    ensures IsWire(R.Encoded(fs, msg), rs) && Places(rs, 0, fs, 0, msg)
  {
    hide Typed, Small, Increasing, Records, Wire, IsWire, Places;
    rs := Records(fs, msg, 0, -1);
    RecordsValid(fs, msg, 0, -1);
    RecordsFitTags(fs, msg, 0, -1);
    FirstTag(fs);
    WireIsWire(rs);
    RecordsPlaced(fs, msg, 0, -1);
  }
}
