/** The packed form of sproto element by element, and what unpacking makes of a header bit by bit. */
module SprotoForm {
  import opened Bytes
  import opened SprotoPack

  // ----- A segment with a header -----

  /** How many elements are not 0. */
  ghost function Kept(s: bytes): (n: nat) {
    |s| - multiset(s)[0]
  }

  /** r is the elements of s that are not 0, in their order. */
  ghost predicate KeptAre(s: bytes, r: bytes) {
    |r| == Kept(s) && forall i :: 0 <= i < |s| && s[i] != 0 ==> Kept(s[..i]) < |r| && r[Kept(s[..i])] == s[i]
  }

  function One(v: int): int {
    if v != 0 then 1 else 0
  }

  /** c is the header of the segment, with the lowest bit for the first element, and the elements that are not 0. */
  ghost predicate HeadedIs(seg: bytes, c: bytes) {
    && |seg| == 8 && c != [] && KeptAre(seg, c[1..])
    && c[0] == One(seg[0]) + 2 * One(seg[1]) + 4 * One(seg[2]) + 8 * One(seg[3]) + 16 * One(seg[4])
               + 32 * One(seg[5]) + 64 * One(seg[6]) + 128 * One(seg[7])
  }

  lemma KeptSnoc(s: bytes, b: int)
    ensures Kept(s + [b]) == Kept(s) + One(b) && Kept([]) == 0
  {
  }

  lemma KeptGrows(s: bytes, i: nat)
    requires i <= |s|
    ensures Kept(s[..i]) <= Kept(s)
    ensures i < |s| && s[i] != 0 ==> Kept(s[..i]) < Kept(s)
    decreases |s| - i
  {
    if i < |s| {
      assert s[..i + 1] == s[..i] + [s[i]];
      KeptSnoc(s[..i], s[i]);
      KeptGrows(s, i + 1);
    } else {
      assert s[..i] == s;
    }
  }

  /** NonZero is the elements that are not 0, and nothing else is. */
  lemma {:induction false} NonZeroExactly(s: bytes, r: bytes)
    ensures r == NonZero(s) <==> KeptAre(s, r)
    decreases |s|
  {
    hide *;
    if s == [] {
      NothingKept(r);
    } else {
      var t, b := s[..|s| - 1], s[|s| - 1];
      assert s == t + [b];
      HeaderSnoc(t, b);
      NonZeroExactly(t, NonZero(t));
      KeptOfSnoc(t, b, NonZero(t));
      if KeptAre(s, r) {
        KeptFront(t, b, r);
        var front := if b != 0 && r != [] then r[..|r| - 1] else r;
        NonZeroExactly(t, front);
        assert r == front + if b != 0 then [b] else [];
      }
    }
  }

  lemma NothingKept(r: bytes)
    ensures r == NonZero([]) <==> KeptAre([], r)
  {
  }

  lemma KeptOfSnoc(t: bytes, b: int, r: bytes)
    requires KeptAre(t, r)
    ensures KeptAre(t + [b], r + if b != 0 then [b] else [])
  {
    KeptSnoc(t, b);
    hide Kept;
    var s := t + [b];
    forall i | 0 <= i < |s| && s[i] != 0
      ensures Kept(s[..i]) < |r| + One(b) && (r + if b != 0 then [b] else [])[Kept(s[..i])] == s[i]
    {
      assert s[..i] == t[..i];
      if i == |t| { assert t[..i] == t; }
    }
  }

  lemma KeptFront(t: bytes, b: int, r: bytes)
    requires KeptAre(t + [b], r)
    ensures b != 0 ==> r != [] && r[|r| - 1] == b
    ensures KeptAre(t, if b != 0 && r != [] then r[..|r| - 1] else r)
  {
    var s := t + [b];
    KeptSnoc(t, b);
    assert s[..|t|] == t;
    forall i | 0 <= i < |t| && t[i] != 0
      ensures s[i] == t[i] && s[..i] == t[..i] && Kept(t[..i]) < Kept(t)
    {
      KeptGrows(t, i);
    }
    hide Kept;
    if b != 0 { assert s[|t|] == b; }
  }

  /** The header of a segment. */
  lemma {:induction false} HeaderIs(s: bytes)
    requires |s| == 8
    ensures Header(s) == One(s[0]) + 2 * One(s[1]) + 4 * One(s[2]) + 8 * One(s[3]) + 16 * One(s[4])
                         + 32 * One(s[5]) + 64 * One(s[6]) + 128 * One(s[7])
  {
    hide Header;
    HeaderTail(s, 0);
    HeaderTail(s, 1);
    HeaderTail(s, 2);
    HeaderTail(s, 3);
    HeaderTail(s, 4);
    HeaderTail(s, 5);
    HeaderTail(s, 6);
    HeaderTail(s, 7);
    NothingCollected();
    assert s[0..] == s && s[8..] == [];
  }

  lemma HeaderTail(s: bytes, i: nat)
    requires i < |s|
    ensures Header(s[i..]) == One(s[i]) + 2 * Header(s[i + 1..])
  {
    hide Header;
    HeaderCons(s[i], s[i + 1..]);
    assert s[i..] == [s[i]] + s[i + 1..];
  }

  lemma HeadedExactly(seg: bytes, c: bytes)
    requires |seg| == 8
    ensures c == [Header(seg)] + NonZero(seg) <==> HeadedIs(seg, c)
  {
    HeaderIs(seg);
    hide Header, NonZero, KeptAre;
    if c != [] {
      NonZeroExactly(seg, c[1..]);
      assert c == [c[0]] + c[1..];
    }
  }

  // ----- Chunks and runs -----

  /** How many elements of the g-th segment are 0. */
  ghost function ZerosOf(p: bytes, g: nat): nat
    requires 8 * g + 8 <= |p|
  {
    multiset(p[8 * g..8 * g + 8])[0]
  }

  /**
   c is what r segments from the g-th on are packed to. A segment without
   zeros opens a run, which goes on over segments with at most two zeros, until
   it has 256 of them.
   */
  ghost predicate ChunkIs(p: bytes, g: nat, r: nat, c: bytes)
    requires 8 * g + 8 <= |p|
  {
    && r >= 1 && 8 * (g + r) <= |p|
    && if ZerosOf(p, g) == 0 then
         && r <= 256 && c == [255, r - 1] + p[8 * g..8 * (g + r)]
         && (forall k :: g < k < g + r ==> ZerosOf(p, k) <= 2)
         && (r < 256 && 8 * (g + r) + 8 <= |p| ==> ZerosOf(p, g + r) > 2)
       else r == 1 && HeadedIs(p[8 * g..8 * g + 8], c)
  }

  /** t is what p is packed to from the g-th segment on. */
  ghost predicate IsPacked(p: bytes, g: nat, t: bytes)
    decreases |p| - 8 * g
  {
    if 8 * g + 8 > |p| then t == []
    else exists r: nat, c, rest :: ChunkIs(p, g, r, c) && t == c + rest && IsPacked(p, g + r, rest)
  }

  lemma SegmentCounts(p: bytes, g: nat)
    requires 8 * g + 8 <= |p|
    ensures Full(Seg(p, g)) <==> ZerosOf(p, g) == 0
    ensures Joins(Seg(p, g)) <==> ZerosOf(p, g) <= 2
  {
    NonZeroExactly(Seg(p, g), NonZero(Seg(p, g)));
    hide NonZero;
  }

  lemma {:induction false} RunJoins(p: bytes, g: nat, room: nat)
    ensures var r := RunLength(p, g, room);
      && (forall k: nat :: g <= k < g + r ==> 8 * k + 8 <= |p| && ZerosOf(p, k) <= 2)
      && (r < room && 8 * (g + r) + 8 <= |p| ==> ZerosOf(p, g + r) > 2)
    decreases room
  {
    hide ZerosOf;
    if room > 0 && 8 * g + 8 <= |p| {
      SegmentCounts(p, g);
      if Joins(Seg(p, g)) { RunJoins(p, g + 1, room - 1); }
    }
  }

  lemma ChunkIsEmitted(p: bytes, g: nat)
    requires 8 * g + 8 <= |p|
    ensures ChunkIs(p, g, Chunk(p, g), Emit(p, g, Chunk(p, g)))
  {
    hide ZerosOf, HeadedIs, Header, NonZero, Full, RunLength, Chunk, Joins;
    SegmentCounts(p, g);
    ChunkGoes(p, g);
    if !Full(Seg(p, g)) { HeadedExactly(Seg(p, g), [Header(Seg(p, g))] + NonZero(Seg(p, g))); }
  }

  /** How many segments a chunk has. */
  lemma ChunkGoes(p: bytes, g: nat)
    requires 8 * g + 8 <= |p|
    ensures var r := Chunk(p, g);
      if Full(Seg(p, g)) then
        && (forall k: nat :: g < k < g + r ==> 8 * k + 8 <= |p| && ZerosOf(p, k) <= 2)
        && (r < 256 && 8 * (g + r) + 8 <= |p| ==> ZerosOf(p, g + r) > 2)
      else r == 1
  {
    hide ZerosOf, Full, RunLength;
    RunJoins(p, g + 1, 255);
  }

  lemma ChunkIsUnique(p: bytes, g: nat, r: nat, c: bytes, r': nat, c': bytes)
    requires 8 * g + 8 <= |p| && ChunkIs(p, g, r, c) && ChunkIs(p, g, r', c')
    ensures r == r' && c == c'
  {
    hide ZerosOf, HeadedIs, Header, NonZero;
    HeadedExactly(p[8 * g..8 * g + 8], c);
    HeadedExactly(p[8 * g..8 * g + 8], c');
  }

  /** What is packed is so, and nothing else is. */
  lemma {:induction false} PackedExactly(p: bytes, g: nat, t: bytes)
    ensures t == PackedFrom(p, g) <==> IsPacked(p, g, t)
    decreases |p| - 8 * g
  {
    hide ChunkIs, Chunk, Emit, PackedFrom;
    if 8 * g + 8 > |p| {
      PackedEnds(p, g);
    } else {
      PackedGoesOn(p, g);
      var r := Chunk(p, g);
      var c, rest := Emit(p, g, r), PackedFrom(p, g + r);
      ChunkIsEmitted(p, g);
      PackedExactly(p, g + r, rest);
      if IsPacked(p, g, t) {
        var r': nat, c', rest' :| ChunkIs(p, g, r', c') && t == c' + rest' && IsPacked(p, g + r', rest');
        ChunkIsUnique(p, g, r, c, r', c');
        PackedExactly(p, g + r', rest');
      }
    }
  }

  /** p is the array with zeros behind it to the next multiple of 8. */
  ghost predicate IsPadded(x: bytes, p: bytes) {
    && |p| % 8 == 0 && |x| <= |p| < |x| + 8 && p[..|x|] == x
    && forall k :: |x| <= k < |p| ==> p[k] == 0
  }

  /** pack, for any array: the packed form of the array with its padding. */
  lemma PackIs(x: bytes) returns (p: bytes)
    ensures IsPadded(x, p) && p == Padded(x)
    ensures IsPacked(p, 0, Packed(x))
  {
    hide *;
    p := Padded(x);
    PaddedIs(x);
    PackedStarts(x);
    PackedExactly(p, 0, Packed(x));
  }

  lemma PackedStarts(x: bytes)
    ensures Packed(x) == PackedFrom(Padded(x), 0)
  {
    hide Padded, PackedFrom;
  }

  lemma PaddedIs(x: bytes)
    ensures IsPadded(x, Padded(x))
  {
    var m := PaddedLength(x);
    var n := (8 - |x| % 8) % 8;
    assert Padded(x) == x + Zeros(n);
    hide Padded;
  }

  // ----- Unpacking -----

  const PLACES: seq<int> := [1, 2, 4, 8, 16, 32, 64, 128]

  /** Bit i of the header is set: the next byte is sent for the i-th element. */
  predicate Sends(h: int, i: nat) {
    i < 8 && h / PLACES[i] % 2 == 1
  }

  /** For how many of the first k elements a byte is sent. */
  ghost function Before(h: int, k: nat): nat {
    |set i: nat | i < k && Sends(h, i)|
  }

  /** o is the segment that a header makes of the bytes behind it. */
  ghost predicate ExpandsTo(h: int, rest: bytes, o: bytes) {
    && |o| == 8
    && forall i: nat :: i < 8 ==>
         if Sends(h, i) then Before(h, i) < |rest| && o[i] == rest[Before(h, i)] else o[i] == 0
  }

  lemma {:induction false} ShiftOnce(h: nat, i: nat)
    ensures ShiftRight(h, i + 1) == ShiftRight(h, i) / 2
    decreases i
  {
    if i > 0 { ShiftOnce(h / 2, i - 1); }
  }

  lemma Halves(h: nat)
    ensures h / 2 / 2 == h / 4 && h / 4 / 2 == h / 8 && h / 8 / 2 == h / 16
    ensures h / 16 / 2 == h / 32 && h / 32 / 2 == h / 64 && h / 64 / 2 == h / 128
  {
  }

  lemma {:induction false} ShiftIs(h: nat, i: nat)
    requires i < 8
    ensures ShiftRight(h, i) == h / PLACES[i]
  {
    Halves(h);
    if i > 0 {
      ShiftIs(h, i - 1);
      hide ShiftRight;
      ShiftOnce(h, i - 1);
    }
  }

  lemma BitSends(h: nat, i: nat)
    requires i < 8
    ensures Bits(h, 8)[i] <==> Sends(h, i)
  {
    hide Bits, ShiftRight;
    BitAt(h, 8, i);
    ShiftIs(h, i);
  }

  lemma {:induction false} OnesBefore(h: nat, k: nat)
    requires k <= 8
    ensures Ones(Bits(h, 8)[..k]) == Before(h, k)
  {
    hide Bits, Ones, Sends;
    var bits := Bits(h, 8);
    if k == 0 {
      NoBits([]);
      assert bits[..0] == [] && (set i: nat | i < 0 && Sends(h, i)) == {};
    } else {
      OnesBefore(h, k - 1);
      OnesSnoc(bits[..k - 1], bits[k - 1]);
      assert bits[..k] == bits[..k - 1] + [bits[k - 1]];
      BitSends(h, k - 1);
      var before, now := set i: nat | i < k - 1 && Sends(h, i), set i: nat | i < k && Sends(h, i);
      assert now == if Sends(h, k - 1) then before + {k - 1} else before;
    }
  }

  lemma {:induction false} ExpandAt(bits: seq<bool>, rest: bytes, i: nat)
    requires Ones(bits) <= |rest| && i < |bits|
    ensures bits[i] ==> Ones(bits[..i]) < |rest| && Expand(bits, rest)[i] == rest[Ones(bits[..i])]
    ensures !bits[i] ==> Expand(bits, rest)[i] == 0
    decreases |bits|
  {
    var front, b := bits[..|bits| - 1], bits[|bits| - 1];
    assert bits == front + [b];
    OnesSnoc(front, b);
    ExpandSnoc(front, b, rest);
    assert bits[..i] == front[..i];
    hide Expand, Ones;
    if i < |front| {
      ExpandAt(front, rest, i);
    } else {
      assert front[..i] == front;
    }
  }

  lemma {:induction false} ExpandIs(h: nat, rest: bytes)
    requires Before(h, 8) <= |rest|
    ensures Ones(Bits(h, 8)) == Before(h, 8) && ExpandsTo(h, rest, Expand(Bits(h, 8), rest))
  {
    hide Bits, Ones, Expand, Sends, Before;
    OnesBefore(h, 8);
    assert Bits(h, 8)[..8] == Bits(h, 8);
    forall i: nat | i < 8
      ensures var o := Expand(Bits(h, 8), rest)[i];
        if Sends(h, i) then Before(h, i) < |rest| && o == rest[Before(h, i)] else o == 0
    {
      BitSends(h, i);
      OnesBefore(h, i);
      ExpandAt(Bits(h, 8), rest, i);
    }
  }

  /** What follows a segment, if it is unpacked, comes behind it. */
  ghost predicate Continues(r: Unpacking, o: bytes, rest: bytes) {
    match Unpacked(rest)
    case Done(data) => r == Done(o + data)
    case u => r == u
  }

  /**
   unpack, chunk by chunk: a run is its bytes, as many as the second byte says,
   and a header selects bytes bit by bit. Of what is too short, null comes, but
   a lone 255 gives a size that is not a number, and where only one byte is
   missing a zero is put for it.
   */
  lemma {:induction false} UnpackIs(s: bytes)
    requires IsBytes(s)
    ensures s == [] ==> Unpacked(s) == Done([])
    ensures s == [255] ==> Unpacked(s) == NotANumber
    ensures |s| >= 2 && s[0] == 255 ==>
      var n := 8 * (s[1] + 1);
      if |s| < 2 + n then Unpacked(s) == Null else Continues(Unpacked(s), s[2..2 + n], s[2 + n..])
    ensures s != [] && s[0] < 255 ==>
      var n := Before(s[0], 8);
      && (|s| < n ==> Unpacked(s) == Null)
      && (|s| == n ==> Unpacked(s).Done? && ExpandsTo(s[0], s[1..] + [0], Unpacked(s).data))
      && (|s| > n ==> exists o :: ExpandsTo(s[0], s[1..], o) && Continues(Unpacked(s), o, s[1 + n..]))
  {
    hide Unpacked, Bits, Ones, Expand, Before, ExpandsTo;
    UnpackNothing();
    if s == [255] { UnpackedLoneMark(s); }
    if |s| >= 2 && s[0] == 255 { UnpackedRun(s); }
    if s != [] && s[0] < 255 {
      var h, n, rest := s[0], Before(s[0], 8), s[1..];
      UnpackedSegment(s);
      assert Bits(h, 8)[..8] == Bits(h, 8);
      OnesBefore(h, 8);
      if n <= |s| { ExpandIs(h, rest + [0]); }
      if n < |s| {
        ExpandIs(h, rest);
        ExpandIgnores(Bits(h, 8), rest, [0]);
        assert rest[n..] == s[1 + n..];
        assert Continues(Unpacked(s), Expand(Bits(h, 8), rest), s[1 + n..]);
      }
    }
  }
}
