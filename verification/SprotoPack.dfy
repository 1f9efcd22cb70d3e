/**
 The zero-byte compressor of the sproto client: `pack` and `unpack`.

 A segment is eight elements of an array. `Packed` says which elements `pack`
 must produce, segment by segment and run by run, with no late writing;
 `Unpacked` says what `unpack` makes of any byte string.

 An array may have holes. A hole is not equal to 0, so that `pack` keeps it as
 if it were a byte; it becomes a 0 when the packed array is sent.
 */
module SprotoPack {
  import opened Bytes

  const CAPACITY: int := 0x4000_0000

  // ----- What the packed form is -----

  /** The input as `pack` sees it: zeros up to the next multiple of eight. */
  function Padded(x: bytes): bytes {
    x + Zeros((8 - |x| % 8) % 8)
  }

  lemma PaddedLength(x: bytes) returns (m: nat)
    ensures |Padded(x)| == 8 * m && m == (|x| + 7) / 8 && |x| <= 8 * m < |x| + 8
  {
    m := (|x| + 7) / 8;
  }

  /** Segment g of p. */
  function Seg(p: bytes, g: nat): (s: bytes)
    requires 8 * g + 8 <= |p|
    ensures |s| == 8
  {
    p[8 * g..8 * g + 8]
  }

  function NonZero(s: bytes): (r: bytes)
    ensures |r| <= |s|
  {
    if s == [] then [] else (if s[0] != 0 then [s[0]] else []) + NonZero(s[1..])
  }

  /** One bit per byte, the first byte in the lowest bit. */
  function Header(s: bytes): (h: nat)
  {
    if s == [] then 0 else (if s[0] != 0 then 1 else 0) + 2 * Header(s[1..])
  }

  predicate Full(seg: bytes) {
    |NonZero(seg)| == 8
  }

  /** A segment a run may absorb. */
  predicate Joins(seg: bytes) {
    |NonZero(seg)| >= 6
  }

  /** How many segments from g on join a run that has room for `room` more. */
  function RunLength(p: bytes, g: nat, room: nat): (r: nat)
    ensures r <= room && (r > 0 ==> 8 * (g + r) <= |p|)
    decreases |p| - 8 * g
  {
    if room == 0 || 8 * g + 8 > |p| || !Joins(Seg(p, g)) then 0 else 1 + RunLength(p, g + 1, room - 1)
  }

  /** The segments of the chunk that begins at g: a whole run, or one headed segment. */
  function Chunk(p: bytes, g: nat): (r: nat)
    requires 8 * g + 8 <= |p|
    ensures 1 <= r <= 256 && 8 * (g + r) <= |p|
  {
    if Full(Seg(p, g)) then 1 + RunLength(p, g + 1, 255) else 1
  }

  /** The packed form of r segments from g on. */
  function Emit(p: bytes, g: nat, r: nat): bytes
    requires r >= 1 && 8 * (g + r) <= |p|
  {
    if Full(Seg(p, g)) then [0xff, r - 1] + p[8 * g..8 * (g + r)]
    else [Header(Seg(p, g))] + NonZero(Seg(p, g))
  }

  /** The packed form of p from segment g on. */
  function PackedFrom(p: bytes, g: nat): bytes
    decreases |p| - 8 * g
  {
    if 8 * g + 8 > |p| then []
    else
      var r := Chunk(p, g);
      Emit(p, g, r) + PackedFrom(p, g + r)
  }

  function Packed(x: bytes): bytes {
    PackedFrom(Padded(x), 0)
  }

  lemma PackedEnds(p: bytes, g: nat)
    requires 8 * g + 8 > |p|
    ensures PackedFrom(p, g) == []
  {
  }

  lemma PackedGoesOn(p: bytes, g: nat)
    requires 8 * g + 8 <= |p|
    ensures PackedFrom(p, g) == Emit(p, g, Chunk(p, g)) + PackedFrom(p, g + Chunk(p, g))
  {
  }

  // ----- What unpacking means -----

  datatype Unpacking = Null | NotANumber | Done(data: bytes)
  {
    function Prepend(front: bytes): Unpacking {
      if Done? then Done(front + data) else this
    }
  }

  /** The bits (h >>> i) & 1 for i = 0, 1, ..., k - 1. */
  function Bits(h: int, k: nat): (r: seq<bool>)
    ensures |r| == k
    decreases k
  {
    if k == 0 then [] else [h % 2 == 1] + Bits(h / 2, k - 1)
  }

  function Ones(bits: seq<bool>): (r: nat)
    ensures r <= |bits|
  {
    if bits == [] then 0 else (if bits[0] then 1 else 0) + Ones(bits[1..])
  }

  /** The bytes a header selects: the next source byte for a one, else zero. */
  function Expand(bits: seq<bool>, rest: bytes): (r: bytes)
    requires Ones(bits) <= |rest|
    ensures |r| == |bits|
  {
    if bits == [] then []
    else if bits[0] then [rest[0]] + Expand(bits[1..], rest[1..])
    else [0] + Expand(bits[1..], rest)
  }

  /**
   The outcome of `unpack` on s. The tests for a short input are one off: a
   segment that lacks exactly one byte is completed with `undefined`, and a
   0xff that ends the input gives a result whose size is not a number.
   */
  function Unpacked(s: bytes): Unpacking {
    if s == [] then Done([])
    else if s[0] == 0xff then
      if |s| == 1 then NotANumber
      else
        var n := 8 * (s[1] + 1);
        if n < 0 || |s| < n + 2 then Null else Unpacked(s[n + 2..]).Prepend(s[2..n + 2])
    else
      var bits, rest := Bits(s[0], 8), s[1..];
      var need := Ones(bits);
      if need > |rest| + 1 then Null
      else if need == |rest| + 1 then Done(Expand(bits, rest + [0]))
      else Unpacked(rest[need..]).Prepend(Expand(bits, rest))
  }

  // ----- Headers -----

  lemma NothingCollected()
    ensures Pow2(0) == 1 && Header([]) == 0 && NonZero([]) == []
  {
  }

  lemma PowerStep(i: nat)
    ensures Pow2(i + 1) == 2 * Pow2(i)
  {
  }

  lemma {:induction false} HeaderBound(s: bytes)
    requires |s| <= 8
    ensures Header(s) < Pow2(|s|)
    ensures |s| == 8 ==> Pow2(|s|) == 256
    ensures |NonZero(s)| < |s| ==> Header(s) < Pow2(|s|) - 1
  {
    if s != [] { HeaderBound(s[1..]); }
  }

  lemma HeaderCons(b: int, s: bytes)
    ensures Header([b] + s) == (if b != 0 then 1 else 0) + 2 * Header(s)
    ensures NonZero([b] + s) == (if b != 0 then [b] else []) + NonZero(s)
  {
    assert ([b] + s)[1..] == s;
  }

  lemma {:induction false} HeaderSnoc(s: bytes, b: int)
    ensures Header(s + [b]) == Header(s) + if b != 0 then Pow2(|s|) else 0
    ensures NonZero(s + [b]) == NonZero(s) + if b != 0 then [b] else []
  {
    hide Header, NonZero, Pow2;
    if s == [] {
      HeaderCons(b, []);
      NothingCollected();
      assert s + [b] == [b] + [];
    } else {
      var t := s[1..];
      HeaderSnoc(t, b);
      HeaderCons(s[0], t);
      HeaderCons(s[0], t + [b]);
      PowerStep(|t|);
      assert s == [s[0]] + t && s + [b] == [s[0]] + (t + [b]);
    }
  }

  function Flags(s: bytes): (r: seq<bool>)
    ensures |r| == |s|
  {
    if s == [] then [] else [s[0] != 0] + Flags(s[1..])
  }

  lemma {:induction false} HeaderBits(s: bytes)
    ensures Bits(Header(s), |s|) == Flags(s)
  {
    if s != [] {
      HeaderBits(s[1..]);
      assert Header(s) / 2 == Header(s[1..]);
    }
  }

  lemma ExpandZero(flags: seq<bool>, kept: bytes)
    requires Ones(flags) <= |kept|
    ensures Ones([false] + flags) == Ones(flags)
    ensures Expand([false] + flags, [] + kept) == [0] + Expand(flags, kept)
  {
    assert ([false] + flags)[1..] == flags && [] + kept == kept;
  }

  lemma ExpandOne(b: int, flags: seq<bool>, kept: bytes)
    requires Ones(flags) <= |kept|
    ensures Ones([true] + flags) == 1 + Ones(flags)
    ensures Expand([true] + flags, [b] + kept) == [b] + Expand(flags, kept)
  {
    assert ([true] + flags)[1..] == flags && ([b] + kept)[1..] == kept;
  }

  /** A header selects exactly the bytes that NonZero kept. */
  lemma {:induction false} ExpandInverts(s: bytes, rest: bytes)
    ensures Ones(Flags(s)) == |NonZero(s)|
    ensures Expand(Flags(s), Stored(NonZero(s)) + rest) == Stored(s)
  {
    hide NonZero, Expand, Ones, StoredAs;
    if s == [] {
      NoFlags(rest);
    } else {
      ExpandInverts(s[1..], rest);
      var flags, kept := Flags(s[1..]), Stored(NonZero(s[1..])) + rest;
      FlagsCons(s, rest);
      assert Stored(s) == [StoredAs(s[0])] + Stored(s[1..]);
      if s[0] == 0 {
        ExpandZero(flags, kept);
      } else {
        ExpandOne(StoredAs(s[0]), flags, kept);
      }
    }
  }

  lemma NoFlags(rest: bytes)
    ensures Ones(Flags([])) == |NonZero([])| && Expand(Flags([]), Stored(NonZero([])) + rest) == Stored([])
  {
  }

  lemma Unfold(s: bytes)
    requires s != []
    ensures Flags(s) == [s[0] != 0] + Flags(s[1..])
    ensures NonZero(s) == (if s[0] != 0 then [s[0]] else []) + NonZero(s[1..])
    ensures Ones(Flags(s)) == (if s[0] != 0 then 1 else 0) + Ones(Flags(s[1..]))
  {
    assert Flags(s)[1..] == Flags(s[1..]);
  }

  /** The first element, and what is kept of it. */
  lemma FlagsCons(s: bytes, rest: bytes)
    requires s != []
    ensures Flags(s) == [s[0] != 0] + Flags(s[1..])
    ensures Ones(Flags(s)) == (if s[0] != 0 then 1 else 0) + Ones(Flags(s[1..]))
    ensures |NonZero(s)| == (if s[0] != 0 then 1 else 0) + |NonZero(s[1..])|
    ensures Stored(NonZero(s)) + rest ==
      (if s[0] != 0 then [StoredAs(s[0])] else []) + (Stored(NonZero(s[1..])) + rest)
    ensures s[0] == 0 ==> StoredAs(s[0]) == 0
  {
    hide Flags, NonZero, Ones, Stored;
    Unfold(s);
    var front := if s[0] != 0 then [s[0]] else [];
    StoredSum(front, NonZero(s[1..]));
    assert Stored(front) == if s[0] != 0 then [StoredAs(s[0])] else [];
    assert (Stored(front) + Stored(NonZero(s[1..]))) + rest == Stored(front) + (Stored(NonZero(s[1..])) + rest);
  }

  // ----- The two main properties of the format -----

  lemma UnpackNothing()
    ensures Unpacked([]) == Done([])
  {
  }

  lemma UnpackRun(c: bytes, r: nat, tail: bytes)
    requires |c| == 8 * r && 1 <= r <= 256
    ensures Unpacked([0xff, r - 1] + c + tail) == Unpacked(tail).Prepend(c)
  {
    var s := [0xff, r - 1] + c + tail;
    assert s[2..8 * r + 2] == c;
    assert s[8 * r + 2..] == tail;
  }

  lemma UnpackSegment(seg: bytes, tail: bytes)
    requires |seg| == 8 && !Full(seg)
    ensures 0 <= Header(seg) < 255
    ensures Unpacked([Header(seg)] + Stored(NonZero(seg)) + tail) == Unpacked(tail).Prepend(Stored(seg))
  {
    hide Header, NonZero, Expand, Ones, Bits, Flags, Unpacked;
    HeaderBound(seg);
    HeaderBits(seg);
    ExpandInverts(seg, tail);
    var h, kept := Header(seg), Stored(NonZero(seg));
    assert ([h] + kept + tail)[1..] == kept + tail;
    UnpackHeaded([h] + kept + tail);
    assert (kept + tail)[|kept|..] == tail;
  }

  lemma UnpackHeaded(s: bytes)
    requires s != [] && s[0] != 0xff && Ones(Bits(s[0], 8)) < |s|
    ensures var bits, rest := Bits(s[0], 8), s[1..];
      Unpacked(s) == Unpacked(rest[Ones(bits)..]).Prepend(Expand(bits, rest))
  {
    hide Expand, Ones, Bits;
  }

  /** Unpacking one chunk, as it is sent, gives its elements back, whatever follows. */
  lemma {:induction false} UnpackChunk(p: bytes, g: nat, tail: bytes)
    requires 8 * g + 8 <= |p|
    ensures var r := Chunk(p, g);
      Unpacked(Stored(Emit(p, g, r)) + tail) == Unpacked(tail).Prepend(Stored(p[8 * g..8 * (g + r)]))
  {
    hide Unpacked, Header, NonZero, RunLength, Stored;
    var r := Chunk(p, g);
    if Full(Seg(p, g)) {
      var c := p[8 * g..8 * (g + r)];
      StoredSum([0xff, r - 1], c);
      StoredFront([0xff, r - 1]);
      UnpackRun(Stored(c), r, tail);
    } else {
      var seg := Seg(p, g);
      StoredSum([Header(seg)], NonZero(seg));
      StoredFront([Header(seg)]);
      UnpackSegment(seg, tail);
    }
  }

  /** What is not an element of the input is no hole. */
  lemma StoredFront(s: bytes)
    requires forall k :: 0 <= k < |s| ==> s[k] >= 0
    ensures Stored(s) == s
  {
  }

  /** Unpacking inverts packing on every padded input, with any run structure. */
  lemma {:induction false} UnpackInvertsPack(p: bytes, g: nat, m: nat)
    requires |p| == 8 * m && g <= m
    ensures Unpacked(Stored(PackedFrom(p, g))) == Done(Stored(p[8 * g..]))
    decreases m - g
  {
    hide PackedFrom, Emit, Chunk, Unpacked, Stored;
    if g == m {
      PackedEnds(p, g);
      UnpackNothing();
      StoredFront([]);
      assert p[8 * g..] == [];
    } else {
      var r := Chunk(p, g);
      PackedGoesOn(p, g);
      StoredSum(Emit(p, g, r), PackedFrom(p, g + r));
      UnpackInvertsPack(p, g + r, m);
      UnpackChunk(p, g, Stored(PackedFrom(p, g + r)));
      assert p[8 * g..] == p[8 * g..8 * (g + r)] + p[8 * (g + r)..];
      StoredSum(p[8 * g..8 * (g + r)], p[8 * (g + r)..]);
    }
  }

  /** A run that has room left stops only at the end or at a segment with at most five non-zero bytes. */
  lemma {:induction false} RunStops(p: bytes, g: nat, room: nat)
    ensures var r := RunLength(p, g, room);
            r < room && 8 * (g + r) + 8 <= |p| ==> !Joins(Seg(p, g + r))
    decreases |p| - 8 * g
  {
    if !(room == 0 || 8 * g + 8 > |p| || !Joins(Seg(p, g))) {
      RunStops(p, g + 1, room - 1);
    }
  }

  /** Two bytes for every 256 segments begun. */
  function Overhead(segments: nat): nat {
    2 * ((segments + 255) / 256)
  }

  lemma OverheadGrows(a: nat, b: nat)
    requires a <= b
    ensures Overhead(a) <= Overhead(b)
    ensures a + 256 <= b ==> Overhead(a) + 2 <= Overhead(b)
    ensures a < b && a == 0 ==> Overhead(b) >= 2
  {
  }

  lemma EmitSize(p: bytes, g: nat)
    requires 8 * g + 8 <= |p|
    ensures var r := Chunk(p, g);
      && |Emit(p, g, r)| <= 8 * r + 2
      && (!Full(Seg(p, g)) ==> r == 1 && |Emit(p, g, r)| <= 8)
      && (!Joins(Seg(p, g)) ==> r == 1 && |Emit(p, g, r)| <= 6)
  {
    hide RunLength;
  }

  lemma BrokenBy(p: bytes, g: nat)
    requires 8 * g + 8 <= |p| && Full(Seg(p, g))
    requires Chunk(p, g) < 256 && 8 * (g + Chunk(p, g)) + 8 <= |p|
    ensures !Joins(Seg(p, g + Chunk(p, g)))
  {
    RunStops(p, g + 1, 255);
  }

  /** The segments j after which the account of a chunk is balanced: the chunk, or also the segment that broke it. */
  lemma ChunkCost(p: bytes, g: nat, m: nat) returns (j: nat)
    requires |p| == 8 * m && g < m
    ensures 1 <= j && g + j <= m
    ensures |PackedFrom(p, g)| <= 8 * j + |PackedFrom(p, g + j)|
         || (|PackedFrom(p, g)| <= 8 * j + 2 + |PackedFrom(p, g + j)| && (g + j == m || j == 256))
  {
    hide PackedFrom, Emit, Chunk, Joins, Full, Seg;
    PackedGoesOn(p, g);
    EmitSize(p, g);
    j := Chunk(p, g);
    if Full(Seg(p, g)) && j < 256 && g + j < m {
      BrokenBy(p, g);
      PackedGoesOn(p, g + j);
      EmitSize(p, g + j);
      j := j + 1;
    }
  }

  lemma BalancedCost(m: nat, j: nat, cost: nat, rest: nat)
    requires 1 <= j <= m
    requires cost <= 8 * j + rest || (cost <= 8 * j + 2 + rest && (j == m || j == 256))
    requires rest <= 8 * (m - j) + Overhead(m - j)
    ensures cost <= 8 * m + Overhead(m)
  {
    OverheadGrows(m - j, m);
  }

  /**
   Packing never costs more than two bytes per 256 segments: the overhead of
   a shorter run is repaid by the segment that breaks it.
   */
  lemma {:induction false} PackedSize(p: bytes, g: nat, m: nat)
    requires |p| == 8 * m && g <= m
    ensures |PackedFrom(p, g)| <= 8 * (m - g) + Overhead(m - g)
    decreases m - g
  {
    hide PackedFrom;
    if g == m {
      PackedEnds(p, g);
    } else {
      var j := ChunkCost(p, g, m);
      PackedSize(p, g + j, m);
      BalancedCost(m - g, j, |PackedFrom(p, g)|, |PackedFrom(p, g + j)|);
    }
  }

  /**
   `unpack` inverts `pack`: the input comes back, followed by zeros to the next
   multiple of eight, and with zeros for its holes.
   */
  lemma {:induction false} RoundTrip(x: bytes)
    ensures Unpacked(Stored(Packed(x))) == Done(Padded(Stored(x)))
  {
    var p := Padded(x);
    var m := PaddedLength(x);
    PaddedStored(x);
    hide Padded, PackedFrom, Unpacked, Stored;
    UnpackInvertsPack(p, 0, m);
    assert p[0..] == p;
  }

  lemma PaddedStored(x: bytes)
    ensures Padded(Stored(x)) == Stored(Padded(x))
  {
    StoredSum(x, Zeros((8 - |x| % 8) % 8));
    StoredFront(Zeros((8 - |x| % 8) % 8));
  }

  lemma {:induction false} NonZeroElements(s: bytes)
    ensures AreElements(s) ==> AreElements(NonZero(s))
    ensures HOLE !in s ==> HOLE !in NonZero(s)
  {
    if s != [] { NonZeroElements(s[1..]); }
  }

  lemma EmitElements(p: bytes, g: nat)
    requires 8 * g + 8 <= |p|
    ensures AreElements(p) ==> AreElements(Emit(p, g, Chunk(p, g)))
    ensures HOLE !in p ==> HOLE !in Emit(p, g, Chunk(p, g))
  {
    hide RunLength, Header, NonZero;
    var seg := Seg(p, g);
    HeaderBound(seg);
    NonZeroElements(seg);
    assert AreElements(p) ==> AreElements(seg);
  }

  lemma {:induction false} PackedFromElements(p: bytes, g: nat, m: nat)
    requires |p| == 8 * m && g <= m
    ensures AreElements(p) ==> AreElements(PackedFrom(p, g))
    ensures HOLE !in p ==> HOLE !in PackedFrom(p, g)
    decreases m - g
  {
    hide PackedFrom, Emit, Chunk;
    if g == m {
      PackedEnds(p, g);
    } else {
      PackedGoesOn(p, g);
      EmitElements(p, g);
      PackedFromElements(p, g + Chunk(p, g), m);
    }
  }

  /** What is packed is as much of an array of bytes as the input. */
  lemma PackedElements(x: bytes)
    ensures AreElements(x) ==> AreElements(Packed(x))
    ensures HOLE !in x ==> HOLE !in Packed(x)
    ensures IsBytes(x) ==> IsBytes(Packed(x))
  {
    var p := Padded(x);
    var m := PaddedLength(x);
    assert HOLE !in x ==> HOLE !in p;
    assert AreElements(x) ==> AreElements(p);
    hide Padded, PackedFrom;
    PackedFromElements(p, 0, m);
    StoredBytes(x);
  }

  /** Without holes, packing and unpacking need no sending in between. */
  lemma RoundTripOfBytes(x: bytes)
    requires HOLE !in x
    ensures Unpacked(Packed(x)) == Done(Padded(x))
  {
    hide Padded, Packed, Unpacked, Stored;
    RoundTrip(x);
    PackedElements(x);
    StoredBytes(x);
    StoredBytes(Packed(x));
  }

  /** The most that n bytes may be packed to. */
  function MostPacked(n: nat): nat {
    8 * ((n + 7) / 8) + 2 * ((n + 2047) / 2048)
  }

  /** The size of the packed form in terms of the n input bytes. */
  lemma PackedSizeOfInput(x: bytes)
    ensures |Packed(x)| <= 8 * ((|x| + 7) / 8) + 2 * ((|x| + 2047) / 2048) == MostPacked(|x|)
  {
    var m := PaddedLength(x);
    hide Padded, PackedFrom;
    PackedSize(Padded(x), 0, m);
    assert (m + 255) / 256 == (|x| + 2047) / 2048;
  }

  // ----- `pack`: what the loop keeps -----

  /** A run of n segments with the first nn bytes of `from`; what is missing is written as zero. */
  function RunBytes(from: bytes, nn: nat, n: nat): (r: bytes)
    ensures |r| == 2 + 8 * n
  {
    [0xff, n - 1] + seq(8 * n, k requires 0 <= k => if k < nn && k < |from| then from[k] else 0)
  }

  lemma RunBytesAt(from: bytes, nn: nat, n: nat)
    ensures var run := RunBytes(from, nn, n);
      && run[0] == 0xff && run[1] == n - 1
      && forall j: nat :: 2 <= j < 2 + 8 * n ==> run[j] == if j - 2 < nn && j - 2 < |from| then from[j - 2] else 0
  {
  }

  /** ff_n, ff_srcstart, ff_srcstart_idx and ff_desstart: the run being collected. */
  datatype Run = Run(n: nat, from: bytes, fromIdx: nat, des: nat)

  /** Where a run that begins at segment g takes its bytes from: the input, or the filled-up last segment. */
  ghost predicate RunSource(x: bytes, g: nat, run: Run) {
    var p := Padded(x);
    || (8 * g < |x| && run.from == x[8 * g..] && run.fromIdx == 8 * g)
    || (run.n <= 1 && |p| == 8 * g + 8 && run.from == p[8 * g..] && run.fromIdx == 0)
  }

  /** The elements up to `done` are stored as the packed form of the segments before g. */
  ghost predicate Progress(p: bytes, buffer: JsArray, done: nat, g: nat) {
    && done + |PackedFrom(p, g)| == |PackedFrom(p, 0)|
    && (|PackedFrom(p, 0)| <= CAPACITY ==> Sent(buffer, done) + Stored(PackedFrom(p, g)) == Stored(PackedFrom(p, 0)))
  }

  /**
   Everything before segment `start` is done, and a run of run.n segments is
   being collected, for which the space from run.des on is reserved.
   */
  ghost predicate Collecting(x: bytes, buffer: JsArray, bufferIdx: nat, start: nat, run: Run) {
    var p, g := Padded(x), start + run.n;
    && 0 < run.n <= 256 && 8 * g <= |p|
    && bufferIdx == run.des + 2 + 8 * run.n
    && Progress(p, buffer, run.des, start)
    && Full(Seg(p, start))
    && RunLength(p, start + 1, 255) == run.n - 1 + RunLength(p, g, 256 - run.n)
    && RunSource(x, start, run)
  }

  ghost predicate Collected(x: bytes, buffer: JsArray, bufferIdx: nat, start: nat, run: Run) {
    if run.n == 0 then Progress(Padded(x), buffer, bufferIdx, start)
    else run.n < 256 && Collecting(x, buffer, bufferIdx, start, run)
  }

  lemma {:induction false} ProgressStep(p: bytes, a: JsArray, b: JsArray, done: nat, g: nat, s: bytes, next: nat,
                                        hi: nat)
    requires Progress(p, a, done, g)
    requires PackedFrom(p, g) == s + PackedFrom(p, next)
    requires |PackedFrom(p, 0)| <= CAPACITY ==> Shows(b, done, s)
    requires SameOutside(a, b, done, hi)
    ensures Progress(p, b, done + |s|, next)
  {
    hide PackedFrom, Element, Shows, Sent, Stored;
    if |PackedFrom(p, 0)| <= CAPACITY {
      SentExtends(a, b, done, s);
      StoredSum(s, PackedFrom(p, next));
      assert Sent(b, done + |s|) + Stored(PackedFrom(p, next))
        == Sent(a, done) + (Stored(s) + Stored(PackedFrom(p, next)));
    }
  }

  lemma ProgressKept(p: bytes, a: JsArray, b: JsArray, done: nat, g: nat, lo: nat, hi: nat)
    requires Progress(p, a, done, g) && SameOutside(a, b, lo, hi) && done <= lo
    ensures Progress(p, b, done, g)
  {
    hide PackedFrom, Stored;
    assert Elements(a, done) == Elements(b, done);
  }

  /** Any way a run may be written out gives the run of the format. */
  lemma RunBytesAreEmit(x: bytes, start: nat, run: Run, nn: nat)
    requires var p := Padded(x);
      && 0 < run.n && 8 * (start + run.n) <= |p| && Full(Seg(p, start))
      && nn <= 8 * run.n
      && (nn == 8 * run.n || (run.n > 1 && 8 * start + nn == |x|))
    requires RunSource(x, start, run)
    ensures RunBytes(run.from, nn, run.n) == Emit(Padded(x), start, run.n)
  {
    hide Full;
    var p := Padded(x);
    var c := p[8 * start..8 * (start + run.n)];
    assert RunBytes(run.from, nn, run.n)[2..] == c;
  }

  lemma JoinsIfFull(seg: bytes)
    ensures Full(seg) ==> Joins(seg)
  {
  }

  lemma RunGoesOn(p: bytes, g: nat, room: nat)
    requires 8 * g + 8 <= |p| && room > 0
    ensures RunLength(p, g, room) == if Joins(Seg(p, g)) then 1 + RunLength(p, g + 1, room - 1) else 0
  {
  }

  lemma OpenStep(x: bytes, was: JsArray, now: JsArray, bufferIdx: nat, g: nat, run: Run)
    requires var p := Padded(x); 8 * g + 8 <= |p| && Progress(p, was, bufferIdx, g) && Full(Seg(p, g))
    requires SameOutside(was, now, bufferIdx, bufferIdx + 9)
    requires RunSource(x, g, run) && run.n == 1 && run.des == bufferIdx
    ensures Collecting(x, now, bufferIdx + 10, g, run)
  {
    hide Progress, Full, SameOutside, RunLength;
    ProgressKept(Padded(x), was, now, bufferIdx, g, bufferIdx, bufferIdx + 9);
  }

  lemma {:induction false} CollectingKept(x: bytes, was: JsArray, now: JsArray, bufferIdx: nat, start: nat, run: Run)
    requires Collecting(x, was, bufferIdx, start, run)
    requires SameOutside(was, now, bufferIdx, bufferIdx + 9)
    ensures Collecting(x, now, bufferIdx, start, run)
  {
    hide Progress, RunLength, Full, SameOutside, RunSource, Padded;
    ProgressKept(Padded(x), was, now, run.des, start, bufferIdx, bufferIdx + 9);
  }

  lemma {:induction false} JoinStep(x: bytes, was: JsArray, now: JsArray, bufferIdx: nat, start: nat, run: Run)
    requires Collecting(x, was, bufferIdx, start, run) && run.n < 256
    requires var g := start + run.n; 8 * g < |x| && 8 * g + 8 <= |Padded(x)| && Joins(Seg(Padded(x), g))
    requires SameOutside(was, now, bufferIdx, bufferIdx + 9)
    ensures Collecting(x, now, bufferIdx + 8, start, run.(n := run.n + 1))
  {
    hide Progress, Joins, Full, RunLength, Padded;
    CollectingKept(x, was, now, bufferIdx, start, run);
    RunGoesOn(Padded(x), start + run.n, 256 - run.n);
  }

  lemma {:induction false} CollectingChunk(x: bytes, buffer: JsArray, bufferIdx: nat, start: nat, run: Run)
    requires Collecting(x, buffer, bufferIdx, start, run)
    requires RunLength(Padded(x), start + run.n, 256 - run.n) == 0
    ensures var p := Padded(x);
      && PackedFrom(p, start) == Emit(p, start, run.n) + PackedFrom(p, start + run.n)
      && |Emit(p, start, run.n)| == 2 + 8 * run.n
      && |PackedFrom(p, 0)| == bufferIdx + |PackedFrom(p, start + run.n)|
  {
    hide PackedFrom, RunLength, Full, Padded;
    var p := Padded(x);
    assert Chunk(p, start) == run.n;
    PackedGoesOn(p, start);
  }

  /** A run that cannot be extended is written over its reserved space. */
  lemma {:induction false} RunStep(x: bytes, was: JsArray, now: JsArray, bufferIdx: nat, start: nat, run: Run,
                                   nn: nat, extra: nat)
    requires Collecting(x, was, bufferIdx, start, run)
    requires RunLength(Padded(x), start + run.n, 256 - run.n) == 0
    requires nn <= 8 * run.n && (nn == 8 * run.n || (run.n > 1 && 8 * start + nn == |x|))
    requires SameOutside(was, now, run.des, bufferIdx)
    requires extra <= |PackedFrom(Padded(x), start + run.n)|
    requires CAPACITY - bufferIdx - extra >= 0 ==> Shows(now, run.des, RunBytes(run.from, nn, run.n))
    ensures Progress(Padded(x), now, bufferIdx, start + run.n)
  {
    hide PackedFrom, RunLength, Full, RunBytes, RunSource, Progress, Shows, SameOutside, Padded, Emit, Seg;
    CollectingChunk(x, was, bufferIdx, start, run);
    RunBytesAreEmit(x, start, run, nn);
    ProgressStep(Padded(x), was, now, run.des, start, RunBytes(run.from, nn, run.n), start + run.n, bufferIdx);
  }

  lemma {:induction false} SegmentIsChunk(p: bytes, g: nat)
    requires 8 * g + 8 <= |p| && !Full(Seg(p, g))
    ensures PackedFrom(p, g) == Emit(p, g, 1) + PackedFrom(p, g + 1)
  {
    hide PackedFrom;
    PackedGoesOn(p, g);
  }

  lemma {:induction false} SegmentStep(p: bytes, was: JsArray, now: JsArray, bufferIdx: nat, g: nat)
    requires 8 * g + 8 <= |p| && !Full(Seg(p, g)) && Progress(p, was, bufferIdx, g)
    requires SameOutside(was, now, bufferIdx, bufferIdx + 9)
    requires bufferIdx + |Emit(p, g, 1)| <= CAPACITY ==> Shows(now, bufferIdx, Emit(p, g, 1))
    ensures Progress(p, now, bufferIdx + |Emit(p, g, 1)|, g + 1)
  {
    hide PackedFrom, Full, Emit, Shows, SameOutside;
    SegmentIsChunk(p, g);
    ProgressStep(p, was, now, bufferIdx, g, Emit(p, g, 1), g + 1, bufferIdx + 9);
  }

  lemma ShowsKept(a: JsArray, b: JsArray, lo: nat, i: nat, s: bytes)
    requires SameOutside(a, b, lo, i)
    ensures Shows(a, i, s) ==> Shows(b, i, s)
    ensures SameOutside(b, b, i, i + 9)
  {
  }

  /** A segment that does not join closes the run: the run is written last, although it lies before the segment. */
  lemma {:induction false} BreakStep(x: bytes, was: JsArray, mid: JsArray, now: JsArray, bufferIdx: nat, start: nat,
                                     run: Run)
    requires Collecting(x, was, bufferIdx, start, run) && run.n < 256
    requires var p, g := Padded(x), start + run.n;
      && 8 * g + 8 <= |p| && !Joins(Seg(p, g)) && SameOutside(was, mid, bufferIdx, bufferIdx + 9)
      && (bufferIdx + |Emit(p, g, 1)| <= CAPACITY ==> Shows(mid, bufferIdx, Emit(p, g, 1)))
      && (CAPACITY - bufferIdx - |Emit(p, g, 1)| >= 0 ==> Shows(now, run.des, RunBytes(run.from, 8 * run.n, run.n)))
    requires SameOutside(mid, now, run.des, bufferIdx)
    ensures var p, g := Padded(x), start + run.n;
      Progress(p, now, bufferIdx + |Emit(p, g, 1)|, g + 1)
  {
    hide PackedFrom, RunLength, Joins, Full, RunBytes, Emit, Progress, Collecting, Shows, SameOutside, Padded, Seg;
    var p, g := Padded(x), start + run.n;
    JoinsIfFull(Seg(p, g));
    RunGoesOn(p, g, 256 - run.n);
    SegmentIsChunk(p, g);
    CollectingKept(x, was, mid, bufferIdx, start, run);
    RunStep(x, mid, now, bufferIdx, start, run, 8 * run.n, |Emit(p, g, 1)|);
    ShowsKept(mid, now, run.des, bufferIdx, Emit(p, g, 1));
    SegmentStep(p, now, now, bufferIdx, g);
  }

  lemma ProgressDone(p: bytes, buffer: JsArray, done: nat, m: nat)
    requires |p| == 8 * m && Progress(p, buffer, done, m)
    ensures done == |PackedFrom(p, 0)| && (done <= CAPACITY ==> Sent(buffer, done) == Stored(PackedFrom(p, 0)))
  {
    hide PackedFrom;
    PackedEnds(p, m);
    assert Stored([]) == [];
  }

  lemma PaddedSegment(x: bytes, g: nat)
    requires 8 * g < |x|
    ensures var p := Padded(x);
      && 8 * g + 8 <= |p|
      && (8 * g + 8 <= |x| ==> Seg(p, g) == x[8 * g..8 * g + 8])
      && (8 * g + 8 > |x| ==> 8 * g + 8 == |p| && p[8 * g..] == Seg(p, g) == x[8 * g..] + Zeros(8 * g + 8 - |x|))
  {
  }

  // ----- `pack` -----

  /** pack's variables that its nested functions share: `src` and `buffer`. */
  class Packer {
    var src: bytes
    var buffer: JsArray

    /** The array is inbuf.buf; its length is inbuf.sz, as with all callers. */
    constructor (buf: JsArray, sz: nat)
      ensures src == Elements(buf, sz) && buffer == map[]
    {
      src, buffer := Elements(buf, sz), map[];
    }

    /** Writes a run over the space that was reserved for it. */
    method WriteFf(from: bytes, des: nat, nn: nat, ghost n: nat)
      requires 0 < nn <= 8 * n < nn + 8
      modifies this`buffer
      ensures SameOutside(old(buffer), buffer, des, des + 2 + 8 * n)
      ensures Shows(buffer, des, RunBytes(from, nn, n))
    {
      hide RunBytes, Shows, SameOutside;
      ghost var was, run := buffer, RunBytes(from, nn, n);
      var blocks := (nn + 7) / 8;
      assert blocks == n;
      RunBytesAt(from, nn, n);
      WindowStarts(buffer, des);
      assert run[..0] == [] && run[..|run|] == run;
      buffer := buffer[des := 0xff];
      ShowNext(was, was, buffer, des, run, 0, 0xff);
      ghost var prev := buffer;
      buffer := buffer[des + 1 := blocks - 1];
      ShowNext(was, prev, buffer, des, run, 1, blocks - 1);
      for i := 0 to nn
        invariant SameOutside(was, buffer, des, des + 2 + i)
        invariant Shows(buffer, des, run[..2 + i])
      {
        prev := buffer;
        buffer := Store(buffer, des + 2 + i, from, i);
        ShowNext(was, prev, buffer, des, run, 2 + i, if i < |from| then from[i] else HOLE);
      }
      for i := 0 to 8 * blocks - nn
        invariant SameOutside(was, buffer, des, des + 2 + nn + i)
        invariant Shows(buffer, des, run[..2 + nn + i])
      {
        prev := buffer;
        buffer := buffer[des + nn + 2 + i := 0];
        ShowNext(was, prev, buffer, des, run, 2 + nn + i, 0);
      }
    }

    /**
     Writes one segment and says how much room it takes: 10 to open a run, 8
     to join one, else the headed form. sz0 is the capacity that is left.
     */
    method PackSeg(sIdx: nat, bIdx: nat, sz0: int, nn: nat) returns (n: nat)
      requires sIdx + 8 <= |src|
      modifies this`buffer
      ensures SameOutside(old(buffer), buffer, bIdx, bIdx + 9)
      ensures var seg := src[sIdx..sIdx + 8];
        && (nn > 0 && Joins(seg) ==> n == 8)
        && (nn == 0 && Full(seg) ==> n == 10)
        && ((if nn > 0 then !Joins(seg) else !Full(seg)) ==>
              n == 1 + |NonZero(seg)| && (n <= sz0 ==> Shows(buffer, bIdx, [Header(seg)] + NonZero(seg))))
    {
      hide Header, NonZero, Pow2;
      ghost var was, seg := buffer, src[sIdx..sIdx + 8];
      NothingCollected();
      var header: nat, bit: nat, notzero := 0, 1, 0;
      var next, sz := bIdx + 1, sz0 - 1;
      for i := 0 to 8
        invariant bit == Pow2(i)
        invariant header == Header(seg[..i])
        invariant notzero == |NonZero(seg[..i])| <= i
        invariant bIdx + 1 <= next <= bIdx + 1 + notzero
        invariant SameOutside(was, buffer, bIdx + 1, next)
        invariant notzero < sz0 ==> sz == sz0 - 1 - notzero && next == bIdx + 1 + notzero
        invariant notzero < sz0 ==> Shows(buffer, bIdx + 1, NonZero(seg[..i]))
      {
        hide Full, Joins, Element, StoredAs;
        assert seg[..i + 1] == seg[..i] + [seg[i]];
        HeaderSnoc(seg[..i], seg[i]);
        PowerStep(i);
        if src[sIdx + i] != 0 {
          notzero := notzero + 1;
          header := header + bit;
          if sz > 0 {
            buffer := Put(buffer, next, src[sIdx + i]);
            next := next + 1;
            sz := sz - 1;
          }
        }
        bit := 2 * bit;
      }
      assert seg[..8] == seg;
      if (notzero == 7 || notzero == 6) && nn > 0 {
        notzero := 8;
      }
      if notzero == 8 {
        return if nn > 0 then 8 else 10;
      }
      if sz0 - 1 >= 0 {
        buffer := buffer[bIdx := header];
      }
      return notzero + 1;
    }

    /** The last segment is copied and filled up with zeros when the input does not end on one. */
    method TakeTail(srcIdx: nat, padding: nat)
      requires padding <= 8 && srcIdx + 8 - padding == |src|
      modifies this`src
      ensures src == old(src)[srcIdx..] + Zeros(padding)
    {
      var tmp := new int[8];
      for k := 0 to 8 - padding
        invariant src == old(src) && forall j :: 0 <= j < k ==> tmp[j] == src[srcIdx + j]
      {
        tmp[k] := src[srcIdx + k];
      }
      for j := 0 to padding
        invariant src == old(src) && forall k :: 0 <= k < 8 - padding ==> tmp[k] == src[srcIdx + k]
        invariant forall k :: 8 - j <= k < 8 ==> tmp[k] == 0
      {
        tmp[7 - j] := 0;
      }
      src := tmp[..];
    }

    /** WriteFf behind the test that the capacity was not overrun. */
    method Flush(run: Run, nn: nat, bufsz: int)
      requires 0 < nn <= 8 * run.n < nn + 8
      modifies this`buffer
      ensures SameOutside(old(buffer), buffer, run.des, run.des + 2 + 8 * run.n)
      ensures bufsz >= 0 ==> Shows(buffer, run.des, RunBytes(run.from, nn, run.n))
    {
      if bufsz >= 0 {
        WriteFf(run.from, run.des, nn, run.n);
      }
    }

    /**
     One turn of the loop: packs the segment at srcIdx, segment g of the
     padded input x, and closes the run that it breaks or fills up.
     */
    method PackNext(run: Run, srcIdx: nat, bufferIdx: nat, bufsz: int, ghost x: bytes, ghost start: nat)
      returns (n: nat, run': Run, ghost start': nat)
      requires bufsz == CAPACITY - bufferIdx && Collected(x, buffer, bufferIdx, start, run)
      requires var p, g := Padded(x), start + run.n;
        && 8 * g < |x| && srcIdx + 8 <= |src| && 8 * g + 8 <= |p| && src[srcIdx..srcIdx + 8] == Seg(p, g)
        && RunSource(x, g, Run(1, src[srcIdx..], srcIdx, bufferIdx))
      modifies this`buffer
      ensures start' + run'.n == start + run.n + 1
      ensures Collected(x, buffer, bufferIdx + n, start', run')
    {
      hide PackedFrom, Padded, Progress, Joins, Full, RunBytes, Emit, SameOutside, Shows, RunSource,
           RunLength, Header, NonZero, Seg;
      ghost var was, p, g := buffer, Padded(x), start + run.n;
      n := PackSeg(srcIdx, bufferIdx, bufsz, run.n);
      ghost var mid := buffer;
      run', start' := run, start;
      SegmentCases(p, g, run.n);
      if n == 10 {
        run' := Run(1, src[srcIdx..], srcIdx, bufferIdx);
        OpenStep(x, was, buffer, bufferIdx, g, run');
      } else if n == 8 && run.n > 0 {
        run' := run.(n := run.n + 1);
        JoinStep(x, was, mid, bufferIdx, start, run);
        if run'.n == 256 {
          Flush(run', 256 * 8, bufsz - n);
          RunFilled(p, g + 1);
          RunStep(x, mid, buffer, bufferIdx + 8, start, run', 2048, 0);
          run', start' := run'.(n := 0), g + 1;
        }
      } else {
        if run.n > 0 {
          Flush(run, run.n * 8, bufsz - n);
          BreakStep(x, was, mid, buffer, bufferIdx, start, run);
          run' := run.(n := 0);
        } else {
          SegmentStep(p, was, mid, bufferIdx, g);
        }
        start' := g + 1;
      }
    }

    /** What is left to write when the input ends inside a run. */
    method FlushRest(run: Run, srcsz: nat, bufferIdx: nat, bufsz: int, ghost x: bytes, ghost start: nat)
      requires srcsz == |x| && bufsz == CAPACITY - bufferIdx && |Padded(x)| == 8 * (start + run.n)
      requires Collected(x, buffer, bufferIdx, start, run)
      modifies this`buffer
      ensures Progress(Padded(x), buffer, bufferIdx, start + run.n)
    {
      hide PackedFrom, Padded, Progress, Full, RunBytes, SameOutside, Shows, RunLength, Seg;
      ghost var was, p, g := buffer, Padded(x), start + run.n;
      if run.n > 0 {
        RunEnds(p, g, 256 - run.n);
        if run.n == 1 {
          Flush(run, 8, bufsz);
          RunStep(x, was, buffer, bufferIdx, start, run, 8, 0);
        } else {
          LastRun(x, start, run);
          Flush(run, srcsz - run.fromIdx, bufsz);
          RunStep(x, was, buffer, bufferIdx, start, run, srcsz - run.fromIdx, 0);
        }
      }
    }

    /**
     Packs the whole input. The size is always that of the packed form; the
     buffer is sent as it if it fits the capacity.
     */
    method Pack() returns (size: nat)
      modifies this
      ensures size == |Packed(old(src))|
      ensures size <= 0x4000_0000 ==> Sent(buffer, size) == Stored(Packed(old(src)))
    {
      hide PackedFrom, Padded, Collecting, Collected, RunSource, Progress, Seg;
      ghost var x, p := src, Padded(src);
      ghost var g: nat, start: nat := 0, 0;
      ghost var m := PaddedLength(x);
      var srcsz := |src|;
      var run := Run(0, [], 0, 0);
      var srcIdx, bufferIdx, bufsz, i := 0, 0, CAPACITY, 0;
      size := 0;
      buffer := map[];
      NothingDone(x, run);
      while i < srcsz
        invariant |p| == 8 * m && i == 8 * g && g <= m && g == start + run.n
        invariant i < srcsz ==> src == x && srcIdx == i
        invariant size == bufferIdx && bufsz == CAPACITY - size
        invariant Collected(x, buffer, bufferIdx, start, run)
        decreases m - g
      {
        var padding := i + 8 - srcsz;
        PaddedSegment(x, g);
        if padding > 0 {
          TakeTail(srcIdx, padding);
          srcIdx := 0;
        }
        assert src[srcIdx..srcIdx + 8] == Seg(p, g);
        SourceOf(x, g, src[srcIdx..], srcIdx, padding > 0, bufferIdx);
        var n;
        n, run, start := PackNext(run, srcIdx, bufferIdx, bufsz, x, start);
        srcIdx := srcIdx + 8;
        bufferIdx := bufferIdx + n;
        bufsz := bufsz - n;
        size := size + n;
        i := i + 8;
        g := g + 1;
      }
      FlushRest(run, srcsz, bufferIdx, bufsz, x, start);
      ProgressDone(p, buffer, bufferIdx, m);
    }
  }

  lemma NothingDone(x: bytes, run: Run)
    requires run.n == 0
    ensures Collected(x, map[], 0, 0, run)
  {
    hide PackedFrom, Padded;
    hide Stored;
    assert Sent(map[], 0) == [];
    assert [] + Stored(PackedFrom(Padded(x), 0)) == Stored(PackedFrom(Padded(x), 0));
  }

  lemma SourceOf(x: bytes, g: nat, from: bytes, fromIdx: nat, padded: bool, des: nat)
    requires 8 * g < |x|
    requires if padded then |Padded(x)| == 8 * g + 8 && from == Padded(x)[8 * g..] && fromIdx == 0
             else from == x[8 * g..] && fromIdx == 8 * g
    ensures RunSource(x, g, Run(1, from, fromIdx, des))
  {
    hide Padded;
  }

  lemma SegmentCases(p: bytes, g: nat, n: nat)
    requires 8 * g + 8 <= |p|
    ensures |NonZero(Seg(p, g))| <= 8
    ensures !Joins(Seg(p, g)) ==> !Full(Seg(p, g)) && |NonZero(Seg(p, g))| < 6
    ensures !Full(Seg(p, g)) ==> |NonZero(Seg(p, g))| < 8 && Emit(p, g, 1) == [Header(Seg(p, g))] + NonZero(Seg(p, g))
  {
    hide NonZero, Header, Seg;
  }

  lemma RunFilled(p: bytes, g: nat)
    ensures RunLength(p, g, 0) == 0
  {
  }

  lemma RunEnds(p: bytes, g: nat, room: nat)
    requires |p| == 8 * g
    ensures RunLength(p, g, room) == 0
  {
  }

  /** The final length covers exactly the segments of the run. */
  lemma LastRun(x: bytes, start: nat, run: Run)
    requires |Padded(x)| == 8 * (start + run.n) && RunSource(x, start, run) && run.n > 1
    ensures run.fromIdx == 8 * start && var nn := |x| - 8 * start; 0 < nn <= 8 * run.n < nn + 8
  {
    var m := PaddedLength(x);
    hide Padded;
  }

  // ----- `unpack` -----

  datatype UnpackResult = NullResult | SizeNotANumber | Buffer(buffer: JsArray, size: nat)

  /** The first |out| elements of the buffer are stored as out, unless the capacity is overrun. */
  ghost predicate Holds(buffer: JsArray, bufferIdx: nat, bufsz: int, out: bytes) {
    |out| <= CAPACITY ==> bufferIdx == |out| && bufsz == CAPACITY - |out| && Sent(buffer, |out|) == Stored(out)
  }

  lemma HoldsMore(a: JsArray, b: JsArray, bufferIdx: nat, bufsz: int, out: bytes, v: int, src: bytes, i: nat)
    requires Holds(a, bufferIdx, bufsz, out)
    requires if bufsz > 0 then b == Store(a, bufferIdx, src, i) else b == a
    requires v == if i < |src| then src[i] else 0
    ensures Holds(b, if bufsz > 0 then bufferIdx + 1 else bufferIdx, if bufsz > 0 then bufsz - 1 else bufsz, out + [v])
  {
    hide Sent, Stored;
    if |out| + 1 <= CAPACITY {
      assert Shows(b, |out|, [v]);
      SentExtends(a, b, |out|, [v]);
      StoredSum(out, [v]);
    }
  }

  lemma HoldsRun(a: JsArray, b: JsArray, bufferIdx: nat, bufsz: int, out: bytes, run: bytes)
    requires Holds(a, bufferIdx, bufsz, out)
    requires bufsz >= |run| ==> Shows(b, bufferIdx, run) && SameOutside(a, b, bufferIdx, bufferIdx + |run|)
    ensures Holds(b, bufferIdx + |run|, bufsz - |run|, out + run)
  {
    hide Shows, Sent, Element, Stored;
    if |out| + |run| <= CAPACITY {
      SentExtends(a, b, |out|, run);
      StoredSum(out, run);
    }
  }

  /** h >>> i: i halvings. */
  function ShiftRight(h: nat, i: nat): nat {
    if i == 0 then h else ShiftRight(h / 2, i - 1)
  }

  lemma {:induction false} BitAt(h: nat, k: nat, i: nat)
    requires i < k
    ensures Bits(h, k)[i] == (ShiftRight(h, i) % 2 == 1)
  {
    if i > 0 { BitAt(h / 2, k - 1, i - 1); }
  }

  lemma {:induction false} OnesSnoc(bits: seq<bool>, b: bool)
    ensures Ones(bits + [b]) == Ones(bits) + if b then 1 else 0
  {
    if bits == [] {
      assert bits + [b] == [b];
    } else {
      assert (bits + [b])[1..] == bits[1..] + [b];
      OnesSnoc(bits[1..], b);
    }
  }

  lemma {:induction false} ExpandSnoc(bits: seq<bool>, b: bool, rest: bytes)
    requires Ones(bits) + (if b then 1 else 0) <= |rest|
    ensures Ones(bits + [b]) <= |rest|
    ensures Expand(bits + [b], rest) == Expand(bits, rest) + [if b then rest[Ones(bits)] else 0]
  {
    OnesSnoc(bits, b);
    if bits == [] {
      assert bits + [b] == [b];
    } else {
      assert (bits + [b])[1..] == bits[1..] + [b];
      OnesSnoc(bits[1..], b);
      ExpandSnoc(bits[1..], b, if bits[0] then rest[1..] else rest);
    }
  }

  /** What is left of the input is what Expand has not consumed. */
  lemma {:induction false} ExpandIgnores(bits: seq<bool>, rest: bytes, more: bytes)
    requires Ones(bits) <= |rest|
    ensures Expand(bits, rest + more) == Expand(bits, rest)
  {
    if bits == [] {
    } else if bits[0] {
      assert (rest + more)[1..] == rest[1..] + more;
      ExpandIgnores(bits[1..], rest[1..], more);
    } else {
      ExpandIgnores(bits[1..], rest, more);
    }
  }

  lemma NoBits(rest: bytes)
    ensures Ones([]) == 0 && Expand([], rest) == []
  {
  }

  lemma {:induction false} TooManyOnes(bits: seq<bool>, i: nat)
    requires i <= |bits|
    ensures Ones(bits[..i]) <= Ones(bits)
  {
    if i > 0 {
      assert bits[..i][1..] == bits[1..][..i - 1];
      TooManyOnes(bits[1..], i - 1);
    }
  }

  lemma UnpackedRun(s: bytes)
    requires |s| >= 2 && s[0] == 0xff && s[1] >= 0
    ensures var n := 8 * (s[1] + 1);
      Unpacked(s) == if |s| < n + 2 then Null else Unpacked(s[n + 2..]).Prepend(s[2..n + 2])
  {
  }

  lemma UnpackedSegment(s: bytes)
    requires s != [] && s[0] != 0xff
    ensures var bits, rest := Bits(s[0], 8), s[1..]; var need := Ones(bits);
      && (need > |rest| + 1 ==> Unpacked(s) == Null)
      && (need == |rest| + 1 ==> Unpacked(s) == Done(Expand(bits, rest + [0])))
      && (need <= |rest| ==> Unpacked(s) == Unpacked(rest[need..]).Prepend(Expand(bits, rest + [0])))
  {
    var bits, rest := Bits(s[0], 8), s[1..];
    hide Bits, Ones, Expand;
    if Ones(bits) <= |rest| { ExpandIgnores(bits, rest, [0]); }
  }

  lemma PrependTwice(u: Unpacking, a: bytes, b: bytes)
    ensures u.Prepend(b).Prepend(a) == u.Prepend(a + b)
  {
    if u.Done? { assert a + (b + u.data) == (a + b) + u.data; }
  }

  lemma {:induction false} ExpandIsBytes(bits: seq<bool>, rest: bytes)
    requires Ones(bits) <= |rest| && IsBytes(rest)
    ensures IsBytes(Expand(bits, rest))
  {
    if bits == [] {
    } else if bits[0] {
      ExpandIsBytes(bits[1..], rest[1..]);
    } else {
      ExpandIsBytes(bits[1..], rest);
    }
  }

  /** Unpacking bytes gives bytes. */
  lemma {:induction false} UnpackedIsBytes(s: bytes)
    requires IsBytes(s)
    ensures Unpacked(s).Done? ==> IsBytes(Unpacked(s).data)
    decreases |s|
  {
    hide Unpacked, Bits, Ones, Expand;
    if s == [] {
      UnpackNothing();
    } else if s[0] == 0xff {
      if |s| == 1 {
        UnpackedLoneMark(s);
      } else {
        UnpackedRun(s);
        if |s| >= 8 * (s[1] + 1) + 2 { UnpackedIsBytes(s[8 * (s[1] + 1) + 2..]); }
      }
    } else {
      var bits, rest := Bits(s[0], 8), s[1..];
      UnpackedSegment(s);
      if Ones(bits) <= |rest| + 1 { ExpandIsBytes(bits, rest + [0]); }
      if Ones(bits) <= |rest| { UnpackedIsBytes(rest[Ones(bits)..]); }
    }
  }

  /** unpack's variables. */
  class Unpacker {
    var src: bytes
    var srcIdx: nat
    var srcsz: int
    var buffer: JsArray
    var bufferIdx: nat
    var bufsz: int
    var size: nat

    constructor (inbuf: bytes)
      ensures src == inbuf && srcIdx == 0 && srcsz == |inbuf| && Produced([])
    {
      src, srcIdx, srcsz := inbuf, 0, |inbuf|;
      buffer, bufferIdx, bufsz, size := map[], 0, CAPACITY, 0;
    }

    ghost predicate Produced(out: bytes)
      reads this
    {
      srcIdx + srcsz == |src| && size == |out| && Holds(buffer, bufferIdx, bufsz, out)
    }

    /** Copies a run whose count byte is next. */
    method CopyRun(ghost out: bytes) returns (ok: bool)
      requires 0 < srcsz && Produced(out) && src[srcIdx] >= 0
      modifies this
      ensures src == old(src)
      ensures var n := 8 * (src[old(srcIdx)] + 1);
        && (ok <==> old(srcsz) >= n + 1)
        && (ok ==> srcIdx == old(srcIdx) + n + 1 && Produced(out + src[old(srcIdx) + 1..srcIdx]))
    {
      hide Holds;
      var n := (src[srcIdx] + 1) * 8;
      if srcsz < n + 1 {
        return false;
      }
      srcsz := srcsz - (n + 1);
      srcIdx := srcIdx + 1;
      ghost var was, run := buffer, src[srcIdx..srcIdx + n];
      if bufsz >= n {
        WindowStarts(buffer, bufferIdx);
        for i := 0 to n
          invariant src == old(src) && srcIdx == old(srcIdx) + 1 && srcsz == old(srcsz) - (n + 1)
          invariant bufferIdx == old(bufferIdx) && bufsz == old(bufsz) && size == old(size)
          invariant Shows(buffer, bufferIdx, run[..i]) && SameOutside(was, buffer, bufferIdx, bufferIdx + i)
        {
          hide Shows, SameOutside;
          ghost var prev := buffer;
          buffer := buffer[bufferIdx + i := src[srcIdx + i]];
          ShowNext(was, prev, buffer, bufferIdx, run, i, run[i]);
        }
        assert run[..n] == run;
      }
      HoldsRun(was, buffer, bufferIdx, bufsz, out, run);
      bufsz := bufsz - n;
      bufferIdx := bufferIdx + n;
      srcIdx := srcIdx + n;
      size := size + n;
      return true;
    }

    /** Expands the segment of a header. One missing byte is not noticed. */
    method ExpandSegment(header: nat, ghost out: bytes) returns (ok: bool)
      requires 0 <= srcsz && Produced(out)
      modifies this
      ensures src == old(src)
      ensures var bits, rest := Bits(header, 8), src[old(srcIdx)..];
        && (ok <==> Ones(bits) <= |rest| + 1)
        && (ok ==> srcIdx == old(srcIdx) + Ones(bits) && Produced(out + Expand(bits, rest + [0])))
    {
      hide Holds, Bits, Ones, Expand;
      ghost var start, bits := srcIdx, Bits(header, 8);
      ghost var rest := src[start..] + [0];
      NoBits(rest);
      assert bits[..0] == [] && out + [] == out;
      for i := 0 to 8
        invariant src == old(src) && start <= srcIdx && srcIdx == start + Ones(bits[..i]) && Ones(bits[..i]) <= |rest|
        invariant Produced(out + Expand(bits[..i], rest))
      {
        BitAt(header, 8, i);
        assert bits[..i + 1] == bits[..i] + [bits[i]];
        OnesSnoc(bits[..i], bits[i]);
        ghost var was, kept := buffer, Expand(bits[..i], rest);
        var nz := ShiftRight(header, i) % 2;
        if nz != 0 {
          if srcsz < 0 {
            TooManyOnes(bits, i + 1);
            return false;
          }
          ExpandSnoc(bits[..i], true, rest);
          ghost var b, z := bufferIdx, bufsz;
          if bufsz > 0 {
            buffer := Store(buffer, bufferIdx, src, srcIdx);
            bufsz := bufsz - 1;
            bufferIdx := bufferIdx + 1;
          }
          HoldsMore(was, buffer, b, z, out + kept, rest[srcIdx - start], src, srcIdx);
          srcIdx := srcIdx + 1;
          srcsz := srcsz - 1;
        } else {
          ExpandSnoc(bits[..i], false, rest);
          ghost var b, z := bufferIdx, bufsz;
          if bufsz > 0 {
            buffer := buffer[bufferIdx := 0];
            bufsz := bufsz - 1;
            bufferIdx := bufferIdx + 1;
          }
          HoldsMore(was, buffer, b, z, out + kept, 0, [0], 0);
        }
        size := size + 1;
        assert out + (kept + [if bits[i] then rest[Ones(bits[..i])] else 0])
          == (out + kept) + [if bits[i] then rest[Ones(bits[..i])] else 0];
      }
      assert bits[..8] == bits;
      return true;
    }

    /** Unpacks any byte string as `Unpacked` says. */
    method Unpack() returns (r: UnpackResult)
      requires IsBytes(src) && srcIdx == 0 && srcsz == |src| && Produced([])
      modifies this
      ensures match Unpacked(old(src))
        case Null => r == NullResult
        case NotANumber => r == SizeNotANumber
        case Done(data) => r.Buffer? && r.size == |data| && (r.size <= 0x4000_0000 ==> Sent(r.buffer, r.size) == data)
    {
      hide Holds, Bits, Ones, Expand, Unpacked;
      ghost var s, out: bytes, all := src, [], Unpacked(src);
      assert s[0..] == s && all.Prepend([]) == all;
      while srcsz > 0
        invariant src == s && Produced(out) && srcIdx <= |s| + 1
        invariant srcIdx <= |s| ==> all == Unpacked(s[srcIdx..]).Prepend(out)
        invariant srcIdx > |s| ==> all == Done(out)
        decreases srcsz
      {
        ghost var rest := s[srcIdx..];
        var header := src[srcIdx];
        srcsz := srcsz - 1;
        srcIdx := srcIdx + 1;
        if header == 0xff {
          if srcsz == 0 {
            UnpackedLoneMark(rest);
            return SizeNotANumber;
          }
          UnpackedRun(rest);
          ghost var at := srcIdx;
          var ok := CopyRun(out);
          if !ok {
            return NullResult;
          }
          ghost var n := srcIdx - at - 1;
          assert rest[n + 2..] == s[srcIdx..] && rest[2..n + 2] == s[at + 1..srcIdx];
          PrependTwice(Unpacked(s[srcIdx..]), out, rest[2..n + 2]);
          out := out + rest[2..n + 2];
        } else {
          UnpackedSegment(rest);
          assert rest[1..] == s[srcIdx..];
          ghost var at := srcIdx;
          var ok := ExpandSegment(header, out);
          if !ok {
            return NullResult;
          }
          ghost var seg := Expand(Bits(header, 8), rest[1..] + [0]);
          if srcIdx <= |s| {
            assert rest[1..][srcIdx - at..] == s[srcIdx..];
            PrependTwice(Unpacked(s[srcIdx..]), out, seg);
          }
          out := out + seg;
        }
      }
      if srcIdx <= |s| {
        UnpackNothing();
        assert s[srcIdx..] == [] && out + [] == out;
      }
      HoldsAll(buffer, bufferIdx, bufsz, out);
      UnpackedIsBytes(s);
      StoredBytes(out);
      return Buffer(buffer, size);
    }
  }

  lemma UnpackedLoneMark(s: bytes)
    requires |s| == 1 && s[0] == 0xff
    ensures Unpacked(s) == NotANumber
  {
  }

  lemma HoldsAll(buffer: JsArray, bufferIdx: nat, bufsz: int, out: bytes)
    requires Holds(buffer, bufferIdx, bufsz, out)
    ensures |out| <= CAPACITY ==> Sent(buffer, |out|) == Stored(out)
  {
  }

  // ----- Both -----

  lemma FitsCapacity(x: bytes)
    requires MostPacked(|x|) <= CAPACITY
    ensures |Packed(x)| <= CAPACITY && |Padded(x)| <= CAPACITY
  {
    PackedSizeOfInput(x);
    var m := PaddedLength(x);
  }

  /** An array that is packed, sent as bytes, and unpacked: its elements arrive as they are stored, and zeros. */
  method Transmit(buf: JsArray, sz: nat) returns (r: UnpackResult)
    requires AreElements(Elements(buf, sz))
    requires MostPacked(sz) <= CAPACITY
    ensures r.Buffer? && r.size == |Padded(Sent(buf, sz))| && Sent(r.buffer, r.size) == Padded(Sent(buf, sz))
  {
    ghost var x := Elements(buf, sz);
    FitsCapacity(x);
    hide *;
    PackedElements(x);
    RoundTrip(x);
    PaddedStored(x);
    StoredBytes(Packed(x));
    SentIs(buf, sz);
    var packer := new Packer(buf, sz);
    var size := packer.Pack();
    var unpacker := new Unpacker(Sent(packer.buffer, size));
    r := unpacker.Unpack();
  }

  lemma SentIs(buf: JsArray, sz: nat)
    ensures Sent(buf, sz) == Stored(Elements(buf, sz))
  {
  }
}
