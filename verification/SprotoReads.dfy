/** What the decoder of sproto makes of any bytes, record by record. */
module SprotoReads {
  import opened Bytes
  import opened SprotoCodec
  import opened SprotoWire
  import R = SprotoRoundTrip

  // ----- The records of a message -----

  /** The tag that the k-th record stands for, if it is a value; a skip has an odd number. */
  function TagAt(d: bytes, k: nat): int
    requires 2 + 2 * k <= |d|
  {
    if k == 0 then 0
    else
      var w := Word16(d, 2 * k);
      TagAt(d, k - 1) + (if w % 2 == 1 then (w + 1) / 2 else 1)
  }

  /** Where the piece of data of the k-th of n records begins: behind those of the records before. */
  ghost function PieceOf(d: bytes, n: nat, k: nat): (p: nat)
    requires IsBytes(d) && 2 + 2 * k <= |d|
    ensures p >= 2 + 2 * n
  {
    if k == 0 then 2 + 2 * n
    else
      var p := PieceOf(d, n, k - 1);
      if Word16(d, 2 * k) == 0 && p + 4 <= |d| then PositiveAt(d, p); p + 4 + Word32(d, p) else p
  }

  lemma PositiveAt(d: bytes, p: nat)
    requires IsBytes(d) && p + 4 <= |d|
    ensures Word32(d, p) >= 0
  {
    BytesOf(d, p);
    BytesOf(d, p + 1);
    BytesOf(d, p + 2);
    BytesOf(d, p + 3);
  }

  ghost predicate IsPiece(d: bytes, p: nat) {
    p + 4 <= |d| && Word32(d, p) < 2147483648 && p + 4 + Word32(d, p) <= |d|
  }

  /** The k-th record is for the field f. */
  ghost predicate For(d: bytes, k: nat, f: Field)
    requires 4 + 2 * k <= |d|
  {
    Word16(d, 2 + 2 * k) % 2 == 0 && TagAt(d, k) == f.tag
  }

  /**
   The k-th record can be read: a piece of data that it refers to is there,
   and a field that it is for, if there is one, is of that kind. An integer
   may also be a piece of four bytes.
   */
  ghost predicate Fine(fs: seq<Field>, d: bytes, n: nat, k: nat)
    requires IsBytes(d) && 4 + 2 * k <= |d|
  {
    var w, p := Word16(d, 2 + 2 * k), PieceOf(d, n, k);
    && (w == 0 ==> IsPiece(d, p))
    && forall f :: f in fs && For(d, k, f) ==>
         if w != 0 then f.kind != TString
         else f.kind == TString || (f.kind == TInteger && Word32(d, p) == 4)
  }

  /** What is not part of this model: a size with the top bit set, and a piece of data for a boolean. */
  ghost predicate Strange(fs: seq<Field>, d: bytes, n: nat, k: nat)
    requires IsBytes(d) && 4 + 2 * k <= |d|
  {
    var p := PieceOf(d, n, k);
    && Word16(d, 2 + 2 * k) == 0 && p + 4 <= |d|
    && (Word32(d, p) >= 2147483648
        || (IsPiece(d, p) && exists f :: f in fs && For(d, k, f) && f.kind == TBoolean))
  }

  /** v is the value of a record: the number in it, the bytes of a piece, or the number of 32 bits in a piece. */
  ghost predicate ValueIs(d: bytes, w: int, p: nat, kind: Kind, v: Val) {
    if w != 0 then v == Num(w / 2 - 1)
    else
      && IsPiece(d, p) && Word32(d, p) >= 0
      && if kind == TString then v == Text(d[p + 4..p + 4 + Word32(d, p)])
         else
           && v.Num? && -2147483648 <= v.n < 2147483648 && Word32(d, p) == 4
           && (v.n == Word32(d, p + 4) || v.n == Word32(d, p + 4) - 4294967296)
  }

  /** If the i-th record is for the field, then the message has its value. */
  ghost predicate Told(d: bytes, n: nat, i: nat, f: Field, msg: Message)
    requires IsBytes(d) && 4 + 2 * i <= |d|
  {
    For(d, i, f) ==>
      f.name in msg && ValueIs(d, Word16(d, 2 + 2 * i), PieceOf(d, n, i), f.kind, msg[f.name])
  }

  /** One of the first k records is for a field of this name. */
  ghost predicate Named(fs: seq<Field>, d: bytes, k: nat, name: string)
    requires 2 + 2 * k <= |d|
  {
    exists i: nat, f :: i < k && f in fs && For(d, i, f) && f.name == name
  }

  /** The message is what the first k records say of the fields, and nothing else. */
  ghost predicate Says(fs: seq<Field>, d: bytes, n: nat, k: nat, msg: Message)
    requires IsBytes(d) && 2 + 2 * k <= |d|
  {
    && (forall i: nat, f :: i < k && f in fs ==> Told(d, n, i, f, msg))
    && (forall name :: name in msg ==> Named(fs, d, k, name))
  }

  // ----- One record -----

  /** What a record does to the message. */
  ghost predicate Adds(fs: seq<Field>, d: bytes, n: nat, k: nat, msg: Message, msg': Message)
    requires IsBytes(d) && 4 + 2 * k <= |d|
  {
    && (forall f :: f in fs && For(d, k, f) ==>
          Told(d, n, k, f, msg') && f.name in msg' && msg' == msg[f.name := msg'[f.name]])
    && ((forall f :: f in fs ==> !For(d, k, f)) ==> msg' == msg)
  }

  lemma {:induction false} TagsGrow(d: bytes, i: nat, k: nat)
    requires IsBytes(d) && i < k && 2 + 2 * k <= |d|
    ensures TagAt(d, i) + 1 <= TagAt(d, k)
    decreases k
  {
    BytesOf(d, 2 * k);
    BytesOf(d, 2 * k + 1);
    OddHalf(Word16(d, 2 * k));
    if i < k - 1 { TagsGrow(d, i, k - 1); }
  }

  lemma OddHalf(w: int)
    requires w >= 0
    ensures w % 2 == 1 ==> (w + 1) / 2 == w / 2 + 1 >= 1
    ensures w % 2 == 0 && w != 0 ==> w / 2 - 1 >= 0
    ensures w / 2 - 1 < 0 && w % 2 == 0 ==> w == 0
  {
  }

  lemma SaysMore(fs: seq<Field>, d: bytes, n: nat, k: nat, msg: Message, msg': Message)
    requires Increasing(fs) && DistinctNames(fs) && IsBytes(d) && 4 + 2 * k <= |d|
    requires Says(fs, d, n, k, msg) && Adds(fs, d, n, k, msg, msg')
    ensures Says(fs, d, n, k + 1, msg')
  {
    hide ValueIs, Word16, PieceOf, IsBytes, TagAt;
    forall i: nat, f | i < k + 1 && f in fs
      ensures Told(d, n, i, f, msg')
    {
      if i < k && For(d, i, f) {
        assert Told(d, n, i, f, msg);
        TagsGrow(d, i, k);
        OtherField(fs, d, n, k, msg, msg', f);
      } else if i == k && For(d, k, f) {
        assert Told(d, n, k, f, msg');
      }
    }
    forall name | name in msg'
      ensures Named(fs, d, k + 1, name)
    {
      if name in msg {
        assert Named(fs, d, k, name);
      } else {
        var f :| f in fs && For(d, k, f);
        assert f.name == name;
      }
    }
  }

  /** A record leaves the fields of other tags as they are. */
  lemma OtherField(fs: seq<Field>, d: bytes, n: nat, k: nat, msg: Message, msg': Message, f: Field)
    requires Increasing(fs) && DistinctNames(fs) && IsBytes(d) && 4 + 2 * k <= |d|
    requires Adds(fs, d, n, k, msg, msg') && f in fs && f.name in msg && f.tag != TagAt(d, k)
    ensures f.name in msg' && msg'[f.name] == msg[f.name]
  {
    hide ValueIs, Word16, PieceOf, IsBytes, TagAt, Told;
    if g :| g in fs && For(d, k, g) {
      var i, j :| 0 <= i < |fs| && 0 <= j < |fs| && fs[i] == f && fs[j] == g;
      assert f.name != g.name;
    }
  }

  /** The field of a tag, as it is looked up. */
  lemma LookedUp(fs: seq<Field>, floored: bool, tag: int)
    requires fs != [] && FindsAll(fs, floored)
    ensures Lookup(Imported(fs), tag, floored) != Crash
    ensures Lookup(Imported(fs), tag, floored) == NoField ==> forall f :: f in fs ==> f.tag != tag
    ensures Lookup(Imported(fs), tag, floored).FieldAt? ==> fs[Lookup(Imported(fs), tag, floored).i].tag == tag
    ensures Imported(fs).f == fs
  {
    hide Lookup, Gaps;
  }

  lemma PieceEndIs(d: bytes, p: nat)
    requires IsBytes(d) && p <= |d|
    ensures PieceEnd(d, p, |d| - p) ==
      if p + 4 > |d| then -1
      else if Word32(d, p) >= 2147483648 then -2
      else if p + 4 + Word32(d, p) > |d| then -1
      else p + 4 + Word32(d, p)
    ensures p + 4 <= |d| ==> 0 <= Word32(d, p) < 4294967296
  {
    hide ToDword;
    if p + 4 <= |d| {
      BytesOf(d, p);
      BytesOf(d, p + 1);
      BytesOf(d, p + 2);
      BytesOf(d, p + 3);
      DwordIs(d, p);
    }
  }

  /** Decoding from the k-th record on. */
  ghost function Rest(fs: seq<Field>, d: bytes, floored: bool, n: nat, k: nat, msg: Message): Decoding
    requires fs != [] && IsBytes(d) && k <= n && 2 + 2 * n <= |d| && PieceOf(d, n, k) <= |d|
  {
    DecodeFrom(Imported(fs), d, floored, n, k, TagAt(d, k) - 1, PieceOf(d, n, k), |d| - PieceOf(d, n, k), msg)
  }

  ghost predicate Reading(fs: seq<Field>, d: bytes, floored: bool, n: nat, k: nat) {
    && fs != [] && Increasing(fs) && FindsAll(fs, floored)
    && IsBytes(d) && k < n && 2 + 2 * n <= |d| && PieceOf(d, n, k) <= |d|
  }

  /** The position, the tag and the kind of the k-th record. */
  lemma PlaceStep(d: bytes, n: nat, k: nat)
    requires IsBytes(d) && k < n && 2 + 2 * n <= |d|
    ensures var w, p := ToWord(d, 2 + 2 * k), PieceOf(d, n, k);
      && w == Word16(d, 2 + 2 * k) && w >= 0
      && (w % 2 == 1 ==> TagAt(d, k + 1) == TagAt(d, k) + 1 + w / 2 && w != 0)
      && (w % 2 == 0 ==> TagAt(d, k + 1) == TagAt(d, k) + 1)
      && (w != 0 ==> PieceOf(d, n, k + 1) == p)
      && (w == 0 && p + 4 <= |d| ==> PieceOf(d, n, k + 1) == p + 4 + Word32(d, p))
  {
    WordIs(d, 2 + 2 * k);
    OddHalf(Word16(d, 2 + 2 * k));
    hide ToWord;
  }

  lemma SkipStep(fs: seq<Field>, d: bytes, floored: bool, n: nat, k: nat, msg: Message)
    requires Reading(fs, d, floored, n, k) && Word16(d, 2 + 2 * k) % 2 == 1
    ensures Fine(fs, d, n, k) && Adds(fs, d, n, k, msg, msg)
    ensures PieceOf(d, n, k + 1) <= |d| && Rest(fs, d, floored, n, k, msg) == Rest(fs, d, floored, n, k + 1, msg)
  {
    PlaceStep(d, n, k);
    hide PieceOf, TagAt, Word16, ToWord, Apply, PieceEnd, Imported, FindsAll, IsBytes, Told;
  }

  lemma InlineUnfold(fs: seq<Field>, d: bytes, floored: bool, n: nat, k: nat, msg: Message)
    requires Reading(fs, d, floored, n, k)
    requires var w := Word16(d, 2 + 2 * k); w % 2 == 0 && w != 0
    ensures PieceOf(d, n, k + 1) == PieceOf(d, n, k) <= |d|
    ensures var w, found := Word16(d, 2 + 2 * k), Lookup(Imported(fs), TagAt(d, k), floored);
      Imported(fs).f == fs && Rest(fs, d, floored, n, k, msg) ==
        match found
        case Crash => Threw
        case NoField => Rest(fs, d, floored, n, k + 1, msg)
        case FieldAt(j) =>
          if fs[j].kind == TString then Malformed
          else Rest(fs, d, floored, n, k + 1, msg[fs[j].name := Num(w / 2 - 1)])
  {
    PlaceStep(d, n, k);
    LookedUp(fs, floored, TagAt(d, k));
    OddHalf(Word16(d, 2 + 2 * k));
    hide PieceOf, TagAt, Word16, ToWord, PieceEnd, Imported, FindsAll, IsBytes, Lookup, Increasing;
  }

  /** What a record with a number in it says, when it is for a field. */
  lemma InlineFor(fs: seq<Field>, d: bytes, n: nat, k: nat, j: nat, msg: Message)
    requires Increasing(fs) && IsBytes(d) && 4 + 2 * k <= |d| && j < |fs| && For(d, k, fs[j])
    requires Word16(d, 2 + 2 * k) != 0
    ensures !Strange(fs, d, n, k) && (Fine(fs, d, n, k) <==> fs[j].kind != TString)
    ensures Adds(fs, d, n, k, msg, msg[fs[j].name := Num(Word16(d, 2 + 2 * k) / 2 - 1)])
  {
    OneField(fs, j);
    hide PieceOf, TagAt, Word16, Word32, IsBytes, Increasing;
  }

  lemma InlineForNone(fs: seq<Field>, d: bytes, n: nat, k: nat, msg: Message)
    requires IsBytes(d) && 4 + 2 * k <= |d| && forall f :: f in fs ==> !For(d, k, f)
    requires Word16(d, 2 + 2 * k) != 0
    ensures !Strange(fs, d, n, k) && Fine(fs, d, n, k) && Adds(fs, d, n, k, msg, msg)
  {
    hide PieceOf, TagAt, Word16, Word32, IsBytes;
  }

  lemma InlineStep(fs: seq<Field>, d: bytes, floored: bool, n: nat, k: nat, msg: Message) returns (msg': Message)
    requires Reading(fs, d, floored, n, k)
    requires var w := Word16(d, 2 + 2 * k); w % 2 == 0 && w != 0
    ensures !Strange(fs, d, n, k)
    ensures Fine(fs, d, n, k) ==>
      && Adds(fs, d, n, k, msg, msg') && PieceOf(d, n, k + 1) <= |d|
      && Rest(fs, d, floored, n, k, msg) == Rest(fs, d, floored, n, k + 1, msg')
    ensures !Fine(fs, d, n, k) ==> Rest(fs, d, floored, n, k, msg) == Malformed
  {
    hide PieceOf, TagAt, Word16, Word32, Imported, FindsAll, IsBytes, Lookup, Increasing, Rest, Fine, Strange, Adds;
    InlineUnfold(fs, d, floored, n, k, msg);
    LookedUp(fs, floored, TagAt(d, k));
    msg' := msg;
    var found := Lookup(Imported(fs), TagAt(d, k), floored);
    if found == NoField {
      InlineForNone(fs, d, n, k, msg);
    } else {
      InlineFor(fs, d, n, k, found.i, msg);
      msg' := msg[fs[found.i].name := Num(Word16(d, 2 + 2 * k) / 2 - 1)];
    }
  }

  lemma OneField(fs: seq<Field>, j: nat)
    requires Increasing(fs) && j < |fs|
    ensures fs[j] in fs && forall f :: f in fs && f.tag == fs[j].tag ==> f == fs[j]
  {
  }

  /** What a record that refers to a piece of data says, when it is for a field. */
  lemma DataFor(fs: seq<Field>, d: bytes, n: nat, k: nat, j: nat, msg: Message, v: Val)
    requires Increasing(fs) && IsBytes(d) && 4 + 2 * k <= |d| && j < |fs| && For(d, k, fs[j])
    requires Word16(d, 2 + 2 * k) == 0 && IsPiece(d, PieceOf(d, n, k))
    ensures Fine(fs, d, n, k) <==>
      fs[j].kind == TString || (fs[j].kind == TInteger && Word32(d, PieceOf(d, n, k)) == 4)
    ensures Strange(fs, d, n, k) <==> fs[j].kind == TBoolean
    ensures ValueIs(d, 0, PieceOf(d, n, k), fs[j].kind, v) ==> Adds(fs, d, n, k, msg, msg[fs[j].name := v])
  {
    OneField(fs, j);
    hide PieceOf, TagAt, Word16, Word32, IsBytes, Increasing;
  }

  lemma DataForNone(fs: seq<Field>, d: bytes, n: nat, k: nat, msg: Message)
    requires IsBytes(d) && 4 + 2 * k <= |d| && forall f :: f in fs ==> !For(d, k, f)
    requires Word16(d, 2 + 2 * k) == 0 && IsPiece(d, PieceOf(d, n, k))
    ensures Fine(fs, d, n, k) && Adds(fs, d, n, k, msg, msg)
  {
    hide PieceOf, TagAt, Word16, Word32, IsBytes;
  }

  lemma DataUnfold(fs: seq<Field>, d: bytes, floored: bool, n: nat, k: nat, msg: Message)
    requires Reading(fs, d, floored, n, k) && Word16(d, 2 + 2 * k) == 0 && IsPiece(d, PieceOf(d, n, k))
    ensures PieceOf(d, n, k + 1) == PieceOf(d, n, k) + 4 + Word32(d, PieceOf(d, n, k)) <= |d|
    ensures PieceOf(d, n, k) + 4 <= PieceOf(d, n, k + 1)
    ensures Rest(fs, d, floored, n, k, msg) ==
      match Apply(Imported(fs), d, TagAt(d, k), -1, PieceOf(d, n, k), PieceOf(d, n, k + 1), floored, msg)
      case Stop(r) => r
      case Keep(msg') => Rest(fs, d, floored, n, k + 1, msg')
  {
    PlaceStep(d, n, k);
    PieceEndIs(d, PieceOf(d, n, k));
    hide PieceOf, TagAt, Word16, Word32, ToWord, PieceEnd, Apply, Imported, FindsAll, IsBytes, Increasing;
  }

  /** What a piece of data does to the field at j. */
  lemma PieceApplied(fs: seq<Field>, d: bytes, floored: bool, tag: int, p: nat, j: nat, msg: Message) returns (v: Val)
    requires fs != [] && IsBytes(d) && IsPiece(d, p) && Word32(d, p) >= 0
    requires Imported(fs).f == fs && j < |fs| && Lookup(Imported(fs), tag, floored) == FieldAt(j)
    ensures var f, e := fs[j], p + 4 + Word32(d, p);
      && (f.kind == TString || (f.kind == TInteger && Word32(d, p) == 4) ==> ValueIs(d, 0, p, f.kind, v))
      && Apply(Imported(fs), d, tag, -1, p, e, floored, msg) ==
           if f.kind == TString || (f.kind == TInteger && Word32(d, p) == 4) then Keep(msg[f.name := v])
           else Stop(if f.kind == TBoolean then Outside else Malformed)
  {
    var e := p + 4 + Word32(d, p);
    if p + 8 <= |d| { DwordIs(d, p + 4); }
    hide Word32, ToDword, Imported, IsBytes, Lookup;
    v := match fs[j].kind
      case TString => Text(d[p + 4..e])
      case TInteger => if p + 8 <= |d| then Num(ToDword(d, p + 4)) else Num(0)
      case TBoolean => Num(0);
  }

  /** A record that refers to a piece of data which is there. */
  lemma DataStep(fs: seq<Field>, d: bytes, floored: bool, n: nat, k: nat, msg: Message) returns (msg': Message)
    requires Reading(fs, d, floored, n, k) && Word16(d, 2 + 2 * k) == 0 && IsPiece(d, PieceOf(d, n, k))
    ensures Fine(fs, d, n, k) ==>
      && Adds(fs, d, n, k, msg, msg') && PieceOf(d, n, k + 1) <= |d|
      && Rest(fs, d, floored, n, k, msg) == Rest(fs, d, floored, n, k + 1, msg')
    ensures !Fine(fs, d, n, k) ==>
      Rest(fs, d, floored, n, k, msg) == if Strange(fs, d, n, k) then Outside else Malformed
  {
    hide PieceOf, TagAt, Word16, Word32, Imported, FindsAll, IsBytes, Lookup, Increasing, Rest, Fine, Strange, Adds,
         ValueIs, Apply;
    var p := PieceOf(d, n, k);
    DataUnfold(fs, d, floored, n, k, msg);
    LookedUp(fs, floored, TagAt(d, k));
    PositiveAt(d, p);
    msg' := msg;
    var found := Lookup(Imported(fs), TagAt(d, k), floored);
    if found == NoField {
      NotApplied(fs, d, TagAt(d, k), p, PieceOf(d, n, k + 1), floored, msg);
      DataForNone(fs, d, n, k, msg);
    } else {
      var v := PieceApplied(fs, d, floored, TagAt(d, k), p, found.i, msg);
      DataFor(fs, d, n, k, found.i, msg, v);
      msg' := msg[fs[found.i].name := v];
    }
  }

  lemma NotApplied(fs: seq<Field>, d: bytes, tag: int, p: nat, e: nat, floored: bool, msg: Message)
    requires fs != [] && p + 4 <= e <= |d| && Lookup(Imported(fs), tag, floored) == NoField
    ensures Apply(Imported(fs), d, tag, -1, p, e, floored, msg) == Keep(msg)
  {
    hide Lookup, Imported, ToDword;
  }

  lemma NoPieceStep(fs: seq<Field>, d: bytes, floored: bool, n: nat, k: nat, msg: Message)
    requires Reading(fs, d, floored, n, k) && Word16(d, 2 + 2 * k) == 0 && !IsPiece(d, PieceOf(d, n, k))
    ensures !Fine(fs, d, n, k)
    ensures Rest(fs, d, floored, n, k, msg) == if Strange(fs, d, n, k) then Outside else Malformed
  {
    PlaceStep(d, n, k);
    PieceEndIs(d, PieceOf(d, n, k));
    hide PieceOf, TagAt, Word16, Word32, ToWord, ToDword, PieceEnd, Apply, Imported, FindsAll, IsBytes, Increasing;
  }

  /** One record is added to the message, or decoding ends. */
  lemma RecordStep(fs: seq<Field>, d: bytes, floored: bool, n: nat, k: nat, msg: Message) returns (msg': Message)
    requires Reading(fs, d, floored, n, k)
    ensures Fine(fs, d, n, k) ==>
      && Adds(fs, d, n, k, msg, msg') && PieceOf(d, n, k + 1) <= |d|
      && Rest(fs, d, floored, n, k, msg) == Rest(fs, d, floored, n, k + 1, msg')
    ensures !Fine(fs, d, n, k) ==>
      Rest(fs, d, floored, n, k, msg) == if Strange(fs, d, n, k) then Outside else Malformed
  {
    hide PieceOf, TagAt, Word16, Word32, Rest, Fine, Strange, Adds, Imported, FindsAll, IsBytes, Increasing;
    msg' := msg;
    if Word16(d, 2 + 2 * k) % 2 == 1 {
      SkipStep(fs, d, floored, n, k, msg);
    } else if Word16(d, 2 + 2 * k) != 0 {
      msg' := InlineStep(fs, d, floored, n, k, msg);
    } else if IsPiece(d, PieceOf(d, n, k)) {
      msg' := DataStep(fs, d, floored, n, k, msg);
    } else {
      NoPieceStep(fs, d, floored, n, k, msg);
    }
  }

  // ----- All records -----

  /** The outcome for n records, of which the first k can be read. */
  ghost predicate Comes(fs: seq<Field>, d: bytes, n: nat, k: nat, r: Decoding)
    requires IsBytes(d) && k <= n && 2 + 2 * n <= |d|
  {
    match r
    case Decoded(msg, size) =>
      && (forall i: nat :: k <= i < n ==> Fine(fs, d, n, i))
      && Says(fs, d, n, n, msg) && size == PieceOf(d, n, n) <= |d|
    case Malformed => exists i: nat :: k <= i < n && FailsAt(fs, d, n, k, i) && !Strange(fs, d, n, i)
    case Outside => exists i: nat :: k <= i < n && FailsAt(fs, d, n, k, i) && Strange(fs, d, n, i)
    case Threw => false
  }

  /** The i-th record is the first from the k-th on that cannot be read. */
  ghost predicate FailsAt(fs: seq<Field>, d: bytes, n: nat, k: nat, i: nat)
    requires IsBytes(d) && i < n && 2 + 2 * n <= |d|
  {
    !Fine(fs, d, n, i) && forall j: nat :: k <= j < i ==> Fine(fs, d, n, j)
  }

  lemma {:induction false} ReadsFrom(fs: seq<Field>, d: bytes, floored: bool, n: nat, k: nat, msg: Message)
    requires fs != [] && Increasing(fs) && DistinctNames(fs) && FindsAll(fs, floored)
    requires IsBytes(d) && k <= n && 2 + 2 * n <= |d| && PieceOf(d, n, k) <= |d|
    requires Says(fs, d, n, k, msg)
    ensures Comes(fs, d, n, k, Rest(fs, d, floored, n, k, msg))
    decreases n - k
  {
    hide PieceOf, Rest, Fine, Strange, Adds, Says, Imported, FindsAll, IsBytes, Increasing, DistinctNames;
    if k == n {
      NothingLeft(fs, d, floored, n, msg);
    } else {
      var msg' := RecordStep(fs, d, floored, n, k, msg);
      if Fine(fs, d, n, k) {
        SaysMore(fs, d, n, k, msg, msg');
        ReadsFrom(fs, d, floored, n, k + 1, msg');
        ComesFrom(fs, d, n, k, Rest(fs, d, floored, n, k + 1, msg'));
      } else {
        assert FailsAt(fs, d, n, k, k);
      }
    }
  }

  lemma NothingLeft(fs: seq<Field>, d: bytes, floored: bool, n: nat, msg: Message)
    requires fs != [] && IsBytes(d) && 2 + 2 * n <= |d| && PieceOf(d, n, n) <= |d|
    ensures Rest(fs, d, floored, n, n, msg) == Decoded(msg, PieceOf(d, n, n))
  {
    hide PieceOf;
  }

  lemma ComesFrom(fs: seq<Field>, d: bytes, n: nat, k: nat, r: Decoding)
    requires IsBytes(d) && k < n && 2 + 2 * n <= |d| && Fine(fs, d, n, k) && Comes(fs, d, n, k + 1, r)
    ensures Comes(fs, d, n, k, r)
  {
    hide PieceOf, Fine, Strange, Says;
    match r
    case Malformed =>
      var i: nat :| k + 1 <= i < n && FailsAt(fs, d, n, k + 1, i) && !Strange(fs, d, n, i);
      assert FailsAt(fs, d, n, k, i);
    case Outside =>
      var i: nat :| k + 1 <= i < n && FailsAt(fs, d, n, k + 1, i) && Strange(fs, d, n, i);
      assert FailsAt(fs, d, n, k, i);
    case _ =>
  }

  /**
   What any bytes are decoded to: too short for the records that they announce,
   or what comes of these.
   */
  lemma {:induction false} DecodesAny(fs: seq<Field>, d: bytes, floored: bool)
    requires fs != [] && Increasing(fs) && DistinctNames(fs) && (floored || Contiguous(fs)) && IsBytes(d)
    ensures var r := Decodes(Imported(fs), d, floored);
      if |d| < 2 || |d| < 2 + 2 * Word16(d, 0) then r == Malformed
      else Word16(d, 0) >= 0 && Comes(fs, d, Word16(d, 0), 0, r)
  {
    hide *;
    FindsAllExactly(fs, floored);
    Announced(fs, d, floored);
    if |d| >= 2 && |d| >= 2 + 2 * Word16(d, 0) {
      var n := Word16(d, 0);
      AtFirst(fs, d, floored, n);
      ReadsFrom(fs, d, floored, n, 0, map[]);
    }
  }

  lemma Announced(fs: seq<Field>, d: bytes, floored: bool)
    requires fs != [] && IsBytes(d)
    ensures |d| >= 2 ==> Word16(d, 0) >= 0
    ensures Decodes(Imported(fs), d, floored) ==
      if |d| < 2 || |d| < 2 + 2 * Word16(d, 0) then Malformed
      else DecodeFrom(Imported(fs), d, floored, Word16(d, 0), 0, -1, 2 + 2 * Word16(d, 0),
                      |d| - (2 + 2 * Word16(d, 0)), map[])
  {
    if |d| >= 2 { WordIs(d, 0); }
    hide DecodeFrom, Imported, ToWord;
  }

  lemma AtFirst(fs: seq<Field>, d: bytes, floored: bool, n: nat)
    requires fs != [] && IsBytes(d) && 2 + 2 * n <= |d|
    ensures PieceOf(d, n, 0) == 2 + 2 * n && Says(fs, d, n, 0, map[])
    ensures Rest(fs, d, floored, n, 0, map[]) ==
      DecodeFrom(Imported(fs), d, floored, n, 0, -1, 2 + 2 * n, |d| - (2 + 2 * n), map[])
  {
    hide DecodeFrom;
  }
}
