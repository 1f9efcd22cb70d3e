/** Frames of the WebSocket protocol, RFC 6455 sections 5.2 and 5.3, as the server writes and reads them. */
module WebSocket {
  import opened Bytes
  import opened Wrappers

  // ----- Masking, section 5.3 -----

  /** Exclusive or of the n lowest bits. */
  function Xor(a: int, b: int, n: nat): (r: int)
    ensures r >= 0
    decreases n
  {
    if n == 0 then 0 else 2 * Xor(a / 2, b / 2, n - 1) + (if a % 2 != b % 2 then 1 else 0)
  }

  lemma {:induction false} XorTwice(a: int, b: int, n: nat)
    requires 0 <= a < Pow2(n)
    ensures Xor(a, b, n) < Pow2(n) && Xor(Xor(a, b, n), b, n) == a
    decreases n
  {
    if n > 0 {
      XorTwice(a / 2, b / 2, n - 1);
      HalfOf(Xor(a / 2, b / 2, n - 1), if a % 2 != b % 2 then 1 else 0);
    }
  }

  /** Bit k of a. */
  function Bit(a: int, k: nat): int
    decreases k
  {
    if k == 0 then a % 2 else Bit(a / 2, k - 1)
  }

  /** A bit of the result is set exactly if it is set in one of the two and not in the other. */
  lemma {:induction false} XorBits(a: int, b: int, n: nat, k: nat)
    requires k < n
    ensures Bit(Xor(a, b, n), k) == if Bit(a, k) != Bit(b, k) then 1 else 0
    decreases n
  {
    HalfOf(Xor(a / 2, b / 2, n - 1), if a % 2 != b % 2 then 1 else 0);
    if k > 0 { XorBits(a / 2, b / 2, n - 1, k - 1); }
  }

  lemma HalfOf(x: int, bit: int)
    requires x >= 0 && 0 <= bit <= 1
    ensures (2 * x + bit) / 2 == x && (2 * x + bit) % 2 == bit
  {
  }

  ghost predicate IsKey(key: bytes) {
    |key| == 4 && IsBytes(key)
  }

  /** The i-th byte is combined with byte i mod 4 of the key. */
  function Masked(key: bytes, data: bytes): (r: bytes)
    requires |key| == 4
    ensures |r| == |data|
  {
    seq(|data|, i requires 0 <= i < |data| => Xor(data[i], key[i % 4], 8))
  }

  lemma {:induction false} ByteXor(a: int, b: int)
    requires 0 <= a < 256
    ensures 0 <= Xor(a, b, 8) < 256 && Xor(Xor(a, b, 8), b, 8) == a
  {
    assert Pow2(8) == 256;
    XorTwice(a, b, 8);
  }

  /** Masking with the same key again gives the data back. */
  lemma {:induction false} MaskedTwice(key: bytes, data: bytes)
    requires IsKey(key) && IsBytes(data)
    ensures IsBytes(Masked(key, data)) && Masked(key, Masked(key, data)) == data
  {
    hide Xor;
    forall i | 0 <= i < |data|
      ensures 0 <= Masked(key, data)[i] < 256 && Masked(key, Masked(key, data))[i] == data[i]
    {
      ByteXor(data[i], key[i % 4]);
    }
  }

  /** Octet i of the result is octet i of the data with those bits turned over that octet i mod 4 of the key has. */
  ghost predicate Masks(key: bytes, data: bytes, r: bytes)
    requires |key| == 4
  {
    && |r| == |data| && IsBytes(r)
    && forall i, k: nat :: 0 <= i < |data| && k < 8 ==>
         Bit(r[i], k) == if Bit(data[i], k) != Bit(key[i % 4], k) then 1 else 0
  }

  /** A byte is its eight bits. */
  lemma {:induction false} BitsAreByte(a: int, b: int, n: nat)
    requires 0 <= a < Pow2(n) && 0 <= b < Pow2(n) && forall k: nat :: k < n ==> Bit(a, k) == Bit(b, k)
    ensures a == b
    decreases n
  {
    if n > 0 {
      assert Bit(a, 0) == Bit(b, 0);
      forall k: nat | k < n - 1
        ensures Bit(a / 2, k) == Bit(b / 2, k)
      {
        assert Bit(a, k + 1) == Bit(b, k + 1);
      }
      BitsAreByte(a / 2, b / 2, n - 1);
    }
  }

  /** Masking is what the standard says, and nothing else is. */
  lemma {:induction false} MaskedExactly(key: bytes, data: bytes, r: bytes)
    requires IsKey(key) && IsBytes(data)
    ensures r == Masked(key, data) <==> Masks(key, data, r)
  {
    hide Xor, Bit;
    MaskedTwice(key, data);
    forall i, k: nat | 0 <= i < |data| && k < 8
      ensures Bit(Masked(key, data)[i], k) == if Bit(data[i], k) != Bit(key[i % 4], k) then 1 else 0
    {
      XorBits(data[i], key[i % 4], 8, k);
    }
    if Masks(key, data, r) {
      forall i | 0 <= i < |data|
        ensures r[i] == Masked(key, data)[i]
      {
        assert Pow2(8) == 256;
        BitsAreByte(r[i], Masked(key, data)[i], 8);
      }
    }
  }

  /** websocket_mask */
  method WebsocketMask(mask: bytes, data: bytes, length: nat) returns (r: bytes)
    requires |mask| == 4 && length == |data|
    ensures r == Masked(mask, data)
    ensures IsKey(mask) && IsBytes(data) ==> Masks(mask, data, r)
  {
    hide Xor, Masks;
    if IsKey(mask) && IsBytes(data) { MaskedExactly(mask, data, Masked(mask, data)); }
    r := [];
    for i := 0 to length
      invariant |r| == i && forall k :: 0 <= k < i ==> r[k] == Xor(data[k], mask[k % 4], 8)
    {
      r := r + [Xor(data[i], mask[i % 4], 8)];
    }
  }

  // ----- Frames, section 5.2 -----

  /** How the length of the payload is written: in 7 bits, or in 16 or 64 bits behind them. */
  datatype Form = Seven | Sixteen | SixtyFour

  datatype Frame = Frame(fin: bool, opcode: int, payload: bytes)

  ghost predicate ValidFrame(f: Frame) {
    0 <= f.opcode < 16 && IsBytes(f.payload)
  }

  predicate IsControl(opcode: int) {
    (opcode / 8) % 2 == 1
  }

  /** Which lengths a form can write. A length from 2^63 on would be read as a negative number. */
  ghost predicate Holds(form: Form, len: nat) {
    match form
    case Seven => len < 126
    case Sixteen => len < 0x1_0000
    case SixtyFour => len < 0x8000_0000_0000_0000
  }

  /** A control frame has a short payload and is not fragmented, section 5.5. */
  ghost predicate Sendable(f: Frame, form: Form) {
    && ValidFrame(f) && Holds(form, |f.payload|)
    && (IsControl(f.opcode) ==> f.fin && form == Seven)
  }

  /** n as a number of k bytes, the most significant first. */
  function BigEndian(n: int, k: nat): (r: bytes)
    requires n >= 0
    ensures |r| == k
  {
    if k == 0 then [] else BigEndian(n / 0x100, k - 1) + [n % 0x100]
  }

  function FromBigEndian(s: bytes): int {
    if s == [] then 0 else 0x100 * FromBigEndian(s[..|s| - 1]) + s[|s| - 1]
  }

  function Pow256(k: nat): nat {
    if k == 0 then 1 else 0x100 * Pow256(k - 1)
  }

  lemma {:induction false} BigEndianBack(n: int, k: nat)
    requires 0 <= n < Pow256(k)
    ensures FromBigEndian(BigEndian(n, k)) == n && IsBytes(BigEndian(n, k))
  {
    if k > 0 {
      BigEndianBack(n / 0x100, k - 1);
      var s := BigEndian(n, k);
      assert s[..|s| - 1] == BigEndian(n / 0x100, k - 1);
    }
  }

  /** The digit of n to the base 256 that has m digits behind it. */
  function Digit(n: int, m: nat): int
    decreases m
  {
    if m == 0 then n % 0x100 else Digit(n / 0x100, m - 1)
  }

  /** The most significant byte comes first. */
  lemma {:induction false} BigEndianDigit(n: int, k: nat, j: nat)
    requires n >= 0 && j < k
    ensures BigEndian(n, k)[j] == Digit(n, k - 1 - j)
    decreases k
  {
    if j < k - 1 { BigEndianDigit(n / 0x100, k - 1, j); }
  }

  lemma {:induction false} FromBigEndianBack(s: bytes)
    requires IsBytes(s)
    ensures 0 <= FromBigEndian(s) < Pow256(|s|) && BigEndian(FromBigEndian(s), |s|) == s
  {
    if s != [] {
      var t, b := s[..|s| - 1], s[|s| - 1];
      FromBigEndianBack(t);
      assert (0x100 * FromBigEndian(t) + b) / 0x100 == FromBigEndian(t);
      assert t + [b] == s;
    }
  }

  /** The first byte: the final bit, no reserved bits, the opcode. */
  function FirstByte(f: Frame): int {
    (if f.fin then 0x80 else 0) + f.opcode
  }

  /** The second byte, and the longer forms of the length behind it. */
  function LengthBytes(form: Form, len: nat, masked: bool): (r: bytes)
    ensures |r| == match form case Seven => 1 case Sixteen => 3 case SixtyFour => 9
  {
    var maskBit := if masked then 0x80 else 0;
    match form
    case Seven => [len + maskBit]
    case Sixteen => [126 + maskBit] + BigEndian(len, 2)
    case SixtyFour => [127 + maskBit] + BigEndian(len, 8)
  }

  /** A frame on the wire, with a key if it is masked. */
  function FrameBytes(f: Frame, form: Form, key: Option<bytes>): bytes
    requires key.Some? ==> |key.value| == 4
  {
    [FirstByte(f)] + LengthBytes(form, |f.payload|, key.Some?)
    + (match key case None => f.payload case Some(k) => k + Masked(k, f.payload))
  }

  /** The form that send_frame takes. */
  function SenderForm(len: nat): Form {
    if len < 126 then Seven else if len < 0xFFFF then Sixteen else SixtyFour
  }

  /** The minimal form, which section 5.2 prescribes. */
  function MinimalForm(len: nat): Form {
    if len <= 125 then Seven else if len <= 0xFFFF then Sixteen else SixtyFour
  }

  /** There is exactly one length for which the sender does not take the minimal form. */
  lemma SenderIsMinimal(len: nat)
    ensures SenderForm(len) == MinimalForm(len) <==> len != 0xFFFF
  {
  }

  // ----- Reading frames -----

  predicate FinBit(h: int) { (h / 0x80) % 2 == 1 }
  predicate ReservedBits(h: int) { (h / 0x10) % 8 != 0 }
  predicate MaskBit(b: int) { (b / 0x80) % 2 == 1 }
  function Low7(b: int): int { b % 0x80 }

  datatype Parsed = Ok(frame: Frame, next: nat) | Refused(reason: string) | Short(what: string)

  /** string.unpack(">L"): the top bit is a sign. */
  function Signed64(n: int): int {
    if n < 0x8000_0000_0000_0000 then n else n - 0x1_0000_0000_0000_0000
  }

  /** How many bytes of length follow the second byte. */
  function ExtraLength(b: int): nat {
    if Low7(b) < 126 then 0 else if Low7(b) == 126 then 2 else 8
  }

  /** The frame at i, up to the point where its kind is looked at. */
  function Parse(d: bytes, i: nat): (r: Parsed)
    requires i <= |d|
    ensures r.Ok? ==> i + 2 <= r.next <= |d|
  {
    if i + 2 > |d| then Short("first 2 byte")
    else
      var header, b := d[i], d[i + 1];
      var opcode := header % 0x10;
      if ReservedBits(header) then Refused("reserved bits")
      else if IsControl(opcode) && Low7(b) >= 126 then Refused("control frame payload overload")
      else if IsControl(opcode) && !FinBit(header) then Refused("control frame must not be fragmented")
      else
        var j := i + 2 + ExtraLength(b);
        if j > |d| then Short("true length")
        else
          var len := if j == i + 2 then Low7(b) else Signed64(FromBigEndian(d[i + 2..j]));
          var masked := MaskBit(b);
          var k := if masked then j + 4 else j;
          if k > |d| then Short("masking key")
          else
            var fin := FinBit(header);
            if len <= 0 then Ok(Frame(fin, opcode, []), k)
            else if k + len > |d| then Short("payload data")
            else
              Ok(Frame(fin, opcode, if masked then Masked(d[j..k], d[k..k + len]) else d[k..k + len]), k + len)
  }

  // ----- Reading what was written -----

  ghost predicate ValidKey(key: Option<bytes>) {
    key.Some? ==> IsKey(key.value)
  }

  lemma FirstByteBits(f: Frame)
    requires 0 <= f.opcode < 16
    ensures var h := FirstByte(f);
      && 0 <= h < 256 && h % 0x10 == f.opcode && !ReservedBits(h) && (FinBit(h) <==> f.fin)
  {
  }

  /** The second byte and what follows it tell the form, the length and whether there is a key. */
  lemma LengthRead(form: Form, len: nat, masked: bool)
    requires Holds(form, len)
    ensures var s := LengthBytes(form, len, masked);
      && |s| == 1 + ExtraLength(s[0]) && (MaskBit(s[0]) <==> masked)
      && (Low7(s[0]) >= 126 <==> form != Seven)
      && len == if form == Seven then Low7(s[0]) else Signed64(FromBigEndian(s[1..]))
  {
    hide BigEndian, FromBigEndian;
    var s := LengthBytes(form, len, masked);
    assert Pow256(2) == 0x1_0000 && Pow256(8) == 0x1_0000_0000_0000_0000;
    match form
    case Seven =>
    case Sixteen =>
      BigEndianBack(len, 2);
      assert s[1..] == BigEndian(len, 2);
    case SixtyFour =>
      BigEndianBack(len, 8);
      assert s[1..] == BigEndian(len, 8);
  }

  /** The pieces of a frame in the stream. */
  lemma FrameLayout(d: bytes, i: nat, f: Frame, form: Form, key: Option<bytes>)
    requires ValidKey(key) && At(d, i, FrameBytes(f, form, key))
    ensures var n := |LengthBytes(form, |f.payload|, key.Some?)|;
      && i + 2 <= |d| && d[i] == FirstByte(f)
      && i + 1 + n <= |d| && d[i + 1..i + 1 + n] == LengthBytes(form, |f.payload|, key.Some?)
      && match key
         case None => At(d, i + 1 + n, f.payload) && |FrameBytes(f, form, key)| == 1 + n + |f.payload|
         case Some(k) =>
           && At(d, i + 1 + n, k) && At(d, i + 5 + n, Masked(k, f.payload))
           && |FrameBytes(f, form, key)| == 5 + n + |f.payload|
  {
    hide FirstByte, LengthBytes, Masked, At;
    var s := LengthBytes(form, |f.payload|, key.Some?);
    var tail := match key case None => f.payload case Some(k) => k + Masked(k, f.payload);
    assert FrameBytes(f, form, key) == [FirstByte(f)] + (s + tail);
    AtSplit(d, i, [FirstByte(f)], s + tail);
    AtSplit(d, i + 1, s, tail);
    if key.Some? { AtSplit(d, i + 1 + |s|, key.value, Masked(key.value, f.payload)); }
    AtFacts(d, i, [FirstByte(f)]);
    AtFacts(d, i + 1, s);
    SliceOf(d, i + 1, s);
  }

  lemma SliceOf(d: bytes, i: nat, s: bytes)
    requires At(d, i, s)
    ensures i + |s| <= |d| && d[i..i + |s|] == s
  {
  }

  /**
   A frame is read back as it was written, in each form of the length, and
   masked or not.
   */
  lemma ReadsFrame(d: bytes, i: nat, f: Frame, form: Form, key: Option<bytes>)
    requires Sendable(f, form) && ValidKey(key) && i <= |d| && At(d, i, FrameBytes(f, form, key))
    ensures Parse(d, i) == Ok(f, i + |FrameBytes(f, form, key)|)
  {
    hide Parse, Xor, BigEndian, FromBigEndian, Signed64, FirstByte, LengthBytes, Masked, FrameBytes, At, ExtraLength;
    FrameLayout(d, i, f, form, key);
    FirstByteBits(f);
    LengthRead(form, |f.payload|, key.Some?);
    var s, n := LengthBytes(form, |f.payload|, key.Some?), |f.payload|;
    var j := i + 1 + |s|;
    assert d[i + 1] == s[0] && d[i + 2..j] == s[1..];
    ExtraOf(s[0]);
    if key.Some? {
      SliceOf(d, j, key.value);
      SliceOf(d, j + 4, Masked(key.value, f.payload));
      MaskedTwice(key.value, f.payload);
      ParseIs(d, i, f, j, j + 4, n);
    } else {
      SliceOf(d, j, f.payload);
      ParseIs(d, i, f, j, j, n);
    }
  }

  /** What comes of a frame, given what its first bytes say. */
  lemma ParseIs(d: bytes, i: nat, f: Frame, j: nat, k: nat, n: nat)
    requires i + 2 <= |d| && !ReservedBits(d[i]) && d[i] % 0x10 == f.opcode && (FinBit(d[i]) <==> f.fin)
    requires IsControl(f.opcode) ==> Low7(d[i + 1]) < 126 && f.fin
    requires j == i + 2 + ExtraLength(d[i + 1]) && k == (if MaskBit(d[i + 1]) then j + 4 else j)
    requires k + n <= |d|
    requires n == if ExtraLength(d[i + 1]) == 0 then Low7(d[i + 1]) else Signed64(FromBigEndian(d[i + 2..j]))
    requires f.payload == if MaskBit(d[i + 1]) then Masked(d[j..k], d[k..k + n]) else d[k..k + n]
    requires |f.payload| == n
    ensures Parse(d, i) == Ok(f, k + n)
  {
    hide Xor, FromBigEndian, Signed64, Masked, ExtraLength, IsControl;
    assert n == 0 ==> f.payload == [];
  }

  lemma ExtraOf(b: int)
    ensures ExtraLength(b) == 0 <==> Low7(b) < 126
  {
  }

  // ----- The same by the tables of the standard -----

  /** s is the second byte of a frame and the rest of its length. */
  ghost predicate LengthIs(s: bytes, form: Form, len: nat, masked: bool) {
    var mask := if masked then 128 else 0;
    && IsBytes(s)
    && match form
       case Seven => |s| == 1 && s[0] == mask + len
       case Sixteen => |s| == 3 && s[0] == mask + 126 && len == 256 * s[1] + s[2]
       case SixtyFour =>
         && |s| == 9 && s[0] == mask + 127
         && len == 256 * (256 * (256 * (256 * (256 * (256 * (256 * s[1] + s[2]) + s[3]) + s[4]) + s[5]) + s[6]) + s[7])
                   + s[8]
  }

  /** t is the frame f: the final bit and the opcode, the length in one of its forms, a key or none, the payload. */
  ghost predicate IsFrameText(t: bytes, f: Frame, form: Form, key: Option<bytes>) {
    exists s, p :: IsFrameOf(t, f, form, key, s, p)
  }

  ghost predicate IsFrameOf(t: bytes, f: Frame, form: Form, key: Option<bytes>, s: bytes, p: bytes) {
    && LengthIs(s, form, |f.payload|, key.Some?)
    && match key
       case None => t == [(if f.fin then 128 else 0) + f.opcode] + s + f.payload && p == f.payload
       case Some(k) =>
         IsKey(k) && t == [(if f.fin then 128 else 0) + f.opcode] + s + (k + p) && Masks(k, f.payload, p)
  }

  lemma FromSnoc(s: bytes, b: int)
    ensures FromBigEndian(s + [b]) == 256 * FromBigEndian(s) + b
  {
    assert (s + [b])[..|s|] == s;
  }

  lemma FromTwo(s: bytes)
    requires |s| == 2
    ensures FromBigEndian(s) == 256 * s[0] + s[1]
  {
    assert FromBigEndian([]) == 0;
    FromSnoc([], s[0]);
    FromSnoc([s[0]], s[1]);
    assert s == [s[0]] + [s[1]] && [s[0]] == [] + [s[0]];
  }

  lemma {:induction false} FromEight(s: bytes)
    requires |s| == 8
    ensures FromBigEndian(s) ==
      256 * (256 * (256 * (256 * (256 * (256 * (256 * s[0] + s[1]) + s[2]) + s[3]) + s[4]) + s[5]) + s[6]) + s[7]
  {
    hide FromBigEndian;
    FromTwo(s[..2]);
    assert s[..3] == s[..2] + [s[2]] && s[..4] == s[..3] + [s[3]] && s[..5] == s[..4] + [s[4]];
    assert s[..6] == s[..5] + [s[5]] && s[..7] == s[..6] + [s[6]] && s == s[..7] + [s[7]];
    FromSnoc(s[..2], s[2]);
    FromSnoc(s[..3], s[3]);
    FromSnoc(s[..4], s[4]);
    FromSnoc(s[..5], s[5]);
    FromSnoc(s[..6], s[6]);
    FromSnoc(s[..7], s[7]);
  }

  /** What LengthIs says, with the number of the bytes behind the second. */
  lemma LengthIsNumber(s: bytes, form: Form, len: nat, masked: bool)
    ensures LengthIs(s, form, len, masked) <==>
      var mask := if masked then 128 else 0;
      && IsBytes(s)
      && match form
         case Seven => |s| == 1 && s[0] == mask + len
         case Sixteen => |s| == 3 && s[0] == mask + 126 && len == FromBigEndian(s[1..])
         case SixtyFour => |s| == 9 && s[0] == mask + 127 && len == FromBigEndian(s[1..])
  {
    hide FromBigEndian;
    if |s| == 3 { FromTwo(s[1..]); }
    if |s| == 9 { FromEight(s[1..]); }
  }

  lemma LengthWritten(form: Form, len: nat, masked: bool)
    requires Holds(form, len)
    ensures LengthIs(LengthBytes(form, len, masked), form, len, masked)
  {
    hide LengthIs, BigEndian, FromBigEndian;
    var s := LengthBytes(form, len, masked);
    assert Pow256(2) == 0x1_0000 && Pow256(8) == 0x1_0000_0000_0000_0000;
    LengthIsNumber(s, form, len, masked);
    match form
    case Seven =>
    case Sixteen =>
      BigEndianBack(len, 2);
      assert s[1..] == BigEndian(len, 2);
    case SixtyFour =>
      BigEndianBack(len, 8);
      assert s[1..] == BigEndian(len, 8);
  }

  lemma LengthIsUnique(s: bytes, t: bytes, form: Form, len: nat, masked: bool)
    requires LengthIs(s, form, len, masked) && LengthIs(t, form, len, masked)
    ensures s == t
  {
    hide LengthIs, BigEndian, FromBigEndian;
    LengthIsNumber(s, form, len, masked);
    LengthIsNumber(t, form, len, masked);
    FromBigEndianBack(s[1..]);
    FromBigEndianBack(t[1..]);
    assert s == [s[0]] + s[1..] && t == [t[0]] + t[1..];
  }

  lemma LengthExactly(s: bytes, form: Form, len: nat, masked: bool)
    requires Holds(form, len)
    ensures LengthIs(s, form, len, masked) <==> s == LengthBytes(form, len, masked)
  {
    hide *;
    LengthWritten(form, len, masked);
    if LengthIs(s, form, len, masked) {
      LengthIsUnique(s, LengthBytes(form, len, masked), form, len, masked);
    }
  }

  /** The frames of the code are those of the standard. */
  lemma {:induction false} FramesExactly(t: bytes, f: Frame, form: Form, key: Option<bytes>)
    requires Sendable(f, form) && ValidKey(key)
    ensures t == FrameBytes(f, form, key) <==> IsFrameText(t, f, form, key)
  {
    hide LengthBytes, Masked, Masks, LengthIs;
    var s := LengthBytes(form, |f.payload|, key.Some?);
    LengthExactly(s, form, |f.payload|, key.Some?);
    if t == FrameBytes(f, form, key) {
      if key.Some? {
        MaskedExactly(key.value, f.payload, Masked(key.value, f.payload));
        assert IsFrameOf(t, f, form, key, s, Masked(key.value, f.payload));
      } else {
        assert IsFrameOf(t, f, form, key, s, f.payload);
      }
    }
    if IsFrameText(t, f, form, key) {
      var s', p :| IsFrameOf(t, f, form, key, s', p);
      LengthExactly(s', form, |f.payload|, key.Some?);
      if key.Some? { MaskedExactly(key.value, f.payload, p); }
    }
  }

  /** So a frame of the standard is read back, whoever wrote it. */
  lemma ReadsFrameText(d: bytes, i: nat, t: bytes, f: Frame, form: Form, key: Option<bytes>)
    requires Sendable(f, form) && ValidKey(key) && i <= |d| && At(d, i, t) && IsFrameText(t, f, form, key)
    ensures Parse(d, i) == Ok(f, i + |t|)
  {
    hide *;
    FramesExactly(t, f, form, key);
    ReadsFrame(d, i, f, form, key);
  }

  /** What is refused: reserved bits, and control frames that are fragmented or longer than 125 bytes. */
  lemma RefusedExactly(d: bytes, i: nat)
    requires IsBytes(d) && i + 2 <= |d|
    ensures Parse(d, i).Refused? <==>
      || Bit(d[i], 6) == 1 || Bit(d[i], 5) == 1 || Bit(d[i], 4) == 1
      || (Bit(d[i], 3) == 1 && (d[i] < 128 || d[i + 1] % 128 >= 126))
  {
    HeaderBits(d[i]);
    hide FromBigEndian, Masked, Signed64, Bit;
  }

  lemma HeaderBits(h: int)
    requires 0 <= h < 256
    ensures ReservedBits(h) <==> Bit(h, 6) == 1 || Bit(h, 5) == 1 || Bit(h, 4) == 1
    ensures IsControl(h % 0x10) <==> Bit(h, 3) == 1
    ensures FinBit(h) <==> h >= 128
  {
    hide Bit;
    Halves(h);
    BitsUnfold(h);
    ThreeBits(h / 16);
  }

  lemma Halves(h: int)
    requires 0 <= h < 256
    ensures h / 2 / 2 / 2 == h / 8 && h / 8 / 2 == h / 16
    ensures IsControl(h % 0x10) <==> h / 8 % 2 == 1
    ensures FinBit(h) <==> h >= 128
  {
    assert h == 16 * (h / 16) + h % 16;
    assert h / 8 == 2 * (h / 16) + h % 16 / 8;
  }

  lemma ThreeBits(x: int)
    requires 0 <= x < 16
    ensures x % 8 != 0 <==> x / 2 / 2 % 2 == 1 || x / 2 % 2 == 1 || x % 2 == 1
  {
  }

  lemma BitsUnfold(h: int)
    ensures Bit(h, 3) == h / 2 / 2 / 2 % 2 && Bit(h, 4) == h / 2 / 2 / 2 / 2 % 2
    ensures Bit(h, 5) == h / 2 / 2 / 2 / 2 / 2 % 2 && Bit(h, 6) == h / 2 / 2 / 2 / 2 / 2 / 2 % 2
  {
    assert Bit(h / 2, 2) == Bit(h / 2 / 2, 1) == Bit(h / 2 / 2 / 2, 0);
    assert Bit(h / 2, 3) == Bit(h / 2 / 2, 2) == Bit(h / 2 / 2 / 2, 1);
    assert Bit(h / 2, 4) == Bit(h / 2 / 2, 3) == Bit(h / 2 / 2 / 2, 2);
    assert Bit(h / 2, 5) == Bit(h / 2 / 2, 4) == Bit(h / 2 / 2 / 2, 3);
  }

  // ----- Sequences of frames -----

  /** What the sender writes for one frame after the other. */
  function Sent(fs: seq<Frame>): bytes {
    if fs == [] then [] else FrameBytes(fs[0], SenderForm(|fs[0].payload|), None) + Sent(fs[1..])
  }

  function Concat(ts: seq<bytes>): bytes {
    if ts == [] then [] else ts[0] + Concat(ts[1..])
  }

  /** Reading n frames, one after the other. */
  function ParseAll(d: bytes, i: nat, n: nat): Option<(seq<Frame>, nat)>
    requires i <= |d|
    decreases n
  {
    if n == 0 then Some(([], i))
    else
      match Parse(d, i)
      case Ok(f, next) =>
        (match ParseAll(d, next, n - 1)
         case None => None
         case Some(r) => Some(([f] + r.0, r.1)))
      case _ => None
  }

  ghost predicate CanBeSent(f: Frame) {
    ValidFrame(f) && |f.payload| < 0x8000_0000_0000_0000 && (IsControl(f.opcode) ==> f.fin && |f.payload| < 126)
  }

  /** All that the server sends is read back as it was, whatever comes behind it. */
  lemma {:induction false} ReadsAllSent(d: bytes, i: nat, fs: seq<Frame>)
    requires At(d, i, Sent(fs)) && forall k :: 0 <= k < |fs| ==> CanBeSent(fs[k])
    ensures ParseAll(d, i, |fs|) == Some((fs, i + |Sent(fs)|))
    decreases |fs|
  {
    hide Parse, FrameBytes, At;
    SliceOf(d, i, Sent(fs));
    if fs != [] {
      var f := fs[0];
      assert CanBeSent(f);
      AtSplit(d, i, FrameBytes(f, SenderForm(|f.payload|), None), Sent(fs[1..]));
      ReadsFrame(d, i, f, SenderForm(|f.payload|), None);
      ReadsAllSent(d, i + |FrameBytes(f, SenderForm(|f.payload|), None)|, fs[1..]);
      assert fs == [f] + fs[1..];
    }
  }

  lemma RefusesControl(d: bytes, i: nat)
    requires i + 2 <= |d| && !ReservedBits(d[i]) && IsControl(d[i] % 0x10)
    requires Low7(d[i + 1]) >= 126 || !FinBit(d[i])
    ensures Parse(d, i).Refused?
  {
  }

  /** What the sender writes is read back exactly if it is not a control frame that is fragmented or too long. */
  lemma SentIsReadExactly(d: bytes, i: nat, f: Frame)
    requires ValidFrame(f) && |f.payload| < 0x8000_0000_0000_0000
    requires i <= |d| && At(d, i, FrameBytes(f, SenderForm(|f.payload|), None))
    ensures CanBeSent(f) <==>
      Parse(d, i) == Ok(f, i + |FrameBytes(f, SenderForm(|f.payload|), None)|)
  {
    hide Parse, FrameBytes, FirstByte, LengthBytes, IsControl, ExtraLength, Signed64, FromBigEndian;
    var form := SenderForm(|f.payload|);
    if CanBeSent(f) {
      ReadsFrame(d, i, f, form, None);
    } else {
      FrameLayout(d, i, f, form, None);
      FirstByteBits(f);
      LengthRead(form, |f.payload|, false);
      assert d[i + 1] == LengthBytes(form, |f.payload|, false)[0];
      RefusesControl(d, i);
    }
  }

  /** All that a client sends masked, as section 5.3 says, in forms of its choice, is read as it was before. */
  lemma {:induction false} ReadsAllMasked(d: bytes, i: nat, fs: seq<Frame>, forms: seq<Form>, keys: seq<bytes>,
                                          ts: seq<bytes>)
    requires |fs| == |forms| == |keys| == |ts| && At(d, i, Concat(ts))
    requires forall k :: 0 <= k < |fs| ==>
      Sendable(fs[k], forms[k]) && IsKey(keys[k]) && IsFrameText(ts[k], fs[k], forms[k], Some(keys[k]))
    ensures ParseAll(d, i, |fs|) == Some((fs, i + |Concat(ts)|))
    decreases |fs|
  {
    hide Parse, IsFrameText, At, Sendable;
    SliceOf(d, i, Concat(ts));
    if fs != [] {
      AtSplit(d, i, ts[0], Concat(ts[1..]));
      ReadsFrameText(d, i, ts[0], fs[0], forms[0], Some(keys[0]));
      ReadsAllMasked(d, i + |ts[0]|, fs[1..], forms[1..], keys[1..], ts[1..]);
      assert fs == [fs[0]] + fs[1..];
    }
  }

  // ----- What is accepted -----

  /** The 64-bit length with the top bit set, which is taken for no payload at all. */
  predicate NegativeLength(d: bytes, i: nat)
    requires i + 2 <= |d|
  {
    Low7(d[i + 1]) == 127 && i + 10 <= |d| && FromBigEndian(d[i + 2..i + 10]) >= 0x8000_0000_0000_0000
  }

  function FormOf(b: int): Form {
    if Low7(b) < 126 then Seven else if Low7(b) == 126 then Sixteen else SixtyFour
  }

  lemma FirstByteOf(h: int, f: Frame)
    requires 0 <= h < 256 && !ReservedBits(h) && f.opcode == h % 0x10 && (f.fin <==> FinBit(h))
    ensures h == FirstByte(f) && 0 <= f.opcode < 16
  {
    assert h == 0x10 * (h / 0x10) + h % 0x10 && h / 0x10 / 8 == h / 0x80;
  }

  lemma SecondByteOf(b: int)
    requires 0 <= b < 256
    ensures b == Low7(b) + (if MaskBit(b) then 0x80 else 0)
  {
  }

  /** The bytes of a length, from what was read of it. */
  lemma LengthOf(d: bytes, i: nat)
    requires IsBytes(d) && i + 2 <= |d| && i + 2 + ExtraLength(d[i + 1]) <= |d| && !NegativeLength(d, i)
    ensures var b, len := d[i + 1], LengthAt(d, i);
      && len >= 0 && Holds(FormOf(b), len)
      && d[i + 1..i + 2 + ExtraLength(b)] == LengthBytes(FormOf(b), len, MaskBit(b))
  {
    hide BigEndian, FromBigEndian, Pow256, IsBytes;
    var b := d[i + 1];
    BytesOf(d, i);
    SecondByteOf(b);
    var s := d[i + 2..i + 2 + ExtraLength(b)];
    NumberOf(s);
    assert d[i + 1..i + 2 + ExtraLength(b)] == [b] + s;
  }

  lemma BytesOf(d: bytes, i: nat)
    requires IsBytes(d) && i + 2 <= |d|
    ensures 0 <= d[i + 1] < 256
    ensures i + 2 + ExtraLength(d[i + 1]) <= |d| ==> IsBytes(d[i + 2..i + 2 + ExtraLength(d[i + 1])])
  {
  }

  lemma NumberOf(s: bytes)
    requires IsBytes(s)
    ensures 0 <= FromBigEndian(s) && BigEndian(FromBigEndian(s), |s|) == s
    ensures |s| == 2 ==> FromBigEndian(s) < 0x1_0000
    ensures |s| == 8 ==> FromBigEndian(s) < 0x1_0000_0000_0000_0000
  {
    FromBigEndianBack(s);
    assert Pow256(2) == 0x1_0000 && Pow256(8) == 0x1_0000_0000_0000_0000;
    hide FromBigEndian, BigEndian;
  }

  /** The length as it is read. */
  function LengthAt(d: bytes, i: nat): int
    requires i + 2 <= |d| && i + 2 + ExtraLength(d[i + 1]) <= |d|
  {
    var b := d[i + 1];
    if ExtraLength(b) == 0 then Low7(b) else Signed64(FromBigEndian(d[i + 2..i + 2 + ExtraLength(b)]))
  }

  lemma ParsedParts(d: bytes, i: nat) returns (masked: bool, j: nat, k: nat)
    requires i <= |d| && Parse(d, i).Ok?
    ensures i + 2 <= |d| && masked == MaskBit(d[i + 1]) && j == i + 2 + ExtraLength(d[i + 1])
    ensures k == if masked then j + 4 else j
    ensures var f, next := Parse(d, i).frame, Parse(d, i).next;
      && k <= next <= |d| && (LengthAt(d, i) >= 0 ==> next == k + LengthAt(d, i))
      && (IsControl(f.opcode) ==> FormOf(d[i + 1]) == Seven && f.fin)
      && f.payload == (if masked then Masked(d[j..k], d[k..next]) else d[k..next])
      && (0 <= d[i] < 256 ==> d[i] == FirstByte(f) && 0 <= f.opcode < 16)
  {
    hide Xor, FromBigEndian, Signed64;
    masked, j := MaskBit(d[i + 1]), i + 2 + ExtraLength(d[i + 1]);
    k := if masked then j + 4 else j;
    if LengthAt(d, i) <= 0 && j + 4 <= |d| { assert Masked(d[j..j + 4], []) == []; }
    if 0 <= d[i] < 256 { FirstByteOf(d[i], Parse(d, i).frame); }
  }

  /** The parts of an accepted frame. */
  lemma AcceptedParts(d: bytes, i: nat) returns (form: Form, masked: bool, j: nat, k: nat)
    requires IsBytes(d) && i <= |d| && Parse(d, i).Ok? && !NegativeLength(d, i)
    ensures var f, next := Parse(d, i).frame, Parse(d, i).next;
      && i + 1 <= j <= k <= next <= |d| && d[i] == FirstByte(f) && 0 <= f.opcode < 16
      && (IsControl(f.opcode) ==> f.fin && form == Seven) && Holds(form, next - k)
      && d[i + 1..j] == LengthBytes(form, next - k, masked)
      && k == (if masked then j + 4 else j)
      && f.payload == if masked then Masked(d[j..k], d[k..next]) else d[k..next]
  {
    hide *;
    masked, j, k := ParsedParts(d, i);
    BytesAt(d, i);
    LengthOf(d, i);
    form := FormOf(d[i + 1]);
  }

  lemma BytesAt(d: bytes, i: nat)
    requires IsBytes(d) && i < |d|
    ensures 0 <= d[i] < 256
  {
  }

  lemma FourParts(d: bytes, i: nat, j: nat, k: nat, next: nat)
    requires i + 1 <= j <= k <= next <= |d|
    ensures d[i..next] == [d[i]] + d[i + 1..j] + (d[j..k] + d[k..next])
  {
    assert d[i..j] == [d[i]] + d[i + 1..j];
    assert d[j..next] == d[j..k] + d[k..next];
    assert d[i..next] == d[i..j] + d[j..next];
  }

  lemma Assemble(d: bytes, i: nat, j: nat, k: nat, next: nat, f: Frame, form: Form, key: Option<bytes>)
    requires i + 1 <= j <= k <= next <= |d| && (key.Some? ==> |key.value| == 4)
    requires d[i] == FirstByte(f) && d[i + 1..j] == LengthBytes(form, |f.payload|, key.Some?)
    requires match key
      case None => j == k && d[k..next] == f.payload
      case Some(w) => d[j..k] == w && d[k..next] == Masked(w, f.payload)
    ensures d[i..next] == FrameBytes(f, form, key)
  {
    hide Masked, LengthBytes, FirstByte;
    FourParts(d, i, j, k, next);
    if key == None { assert d[j..k] + d[k..next] == d[k..next]; }
  }

  /** t is the frame f in one of the three forms, possibly masked. */
  ghost predicate Writes(t: bytes, f: Frame, form: Form, key: Option<bytes>) {
    Sendable(f, form) && ValidKey(key) && t == FrameBytes(f, form, key)
  }

  /** Whatever is accepted is a frame that may be sent, unless its length has its top bit set. */
  lemma AcceptedIsFrame(d: bytes, i: nat) returns (form: Form, key: Option<bytes>)
    requires IsBytes(d) && i <= |d| && Parse(d, i).Ok? && !NegativeLength(d, i)
    ensures Writes(d[i..Parse(d, i).next], Parse(d, i).frame, form, key)
  {
    hide Xor, LengthBytes, NegativeLength, Parse, Masked, FrameBytes, FirstByte, IsControl, Holds;
    var f, next := Parse(d, i).frame, Parse(d, i).next;
    var masked, j, k;
    form, masked, j, k := AcceptedParts(d, i);
    key := if masked then Some(d[j..k]) else None;
    if masked { MaskedTwice(d[j..k], d[k..next]); }
    Assemble(d, i, j, k, next, f, form, key);
  }

  /** No frame that may be sent has such a length. */
  lemma SentIsNotNegative(d: bytes, i: nat, f: Frame, form: Form, key: Option<bytes>)
    requires Sendable(f, form) && ValidKey(key) && At(d, i, FrameBytes(f, form, key))
    ensures i + 2 <= |d| && !NegativeLength(d, i)
  {
    hide Xor, BigEndian, FromBigEndian, FirstByte, LengthBytes, Masked, FrameBytes, At, IsControl;
    FrameLayout(d, i, f, form, key);
    var s := LengthBytes(form, |f.payload|, key.Some?);
    LengthRead(form, |f.payload|, key.Some?);
    assert d[i + 1] == s[0] && d[i + 2..i + 1 + |s|] == s[1..];
    if form == SixtyFour { LongLength(|f.payload|, key.Some?); }
  }

  lemma LongLength(len: nat, masked: bool)
    requires Holds(SixtyFour, len)
    ensures FromBigEndian(LengthBytes(SixtyFour, len, masked)[1..]) == len
  {
    hide BigEndian, FromBigEndian;
    assert Pow256(8) == 0x1_0000_0000_0000_0000;
    BigEndianBack(len, 8);
    assert LengthBytes(SixtyFour, len, masked)[1..] == BigEndian(len, 8);
  }

  /**
   Of what is accepted, exactly that is a frame that may be sent which does not
   have a 64-bit length with its top bit set: nothing else gets through.
   */
  lemma AcceptedIsFrameExactly(d: bytes, i: nat)
    requires IsBytes(d) && i <= |d| && Parse(d, i).Ok?
    ensures !NegativeLength(d, i) <==>
      exists form, key :: Writes(d[i..Parse(d, i).next], Parse(d, i).frame, form, key)
    ensures NegativeLength(d, i) ==> !exists f, form, key :: Writes(d[i..Parse(d, i).next], f, form, key)
  {
    hide *;
    ParseEnds(d, i);
    if NegativeLength(d, i) {
      forall f, form, key
        ensures !Writes(d[i..Parse(d, i).next], f, form, key)
      {
        WrittenIsNotNegative(d, i, Parse(d, i).next, f, form, key);
      }
    } else {
      var form, key := AcceptedIsFrame(d, i);
    }
  }

  lemma ParseEnds(d: bytes, i: nat)
    requires i <= |d|
    ensures Parse(d, i).Ok? ==> i + 2 <= Parse(d, i).next <= |d|
  {
    hide Parse;
  }

  lemma WrittenIsNotNegative(d: bytes, i: nat, next: nat, f: Frame, form: Form, key: Option<bytes>)
    requires i + 2 <= next <= |d|
    ensures Writes(d[i..next], f, form, key) ==> !NegativeLength(d, i)
  {
    hide FrameBytes, Sendable, NegativeLength;
    if Writes(d[i..next], f, form, key) {
      assert i + |FrameBytes(f, form, key)| == next;
      SentIsNotNegative(d, i, f, form, key);
    }
  }

  /** The first byte tells how large a number is. */
  lemma {:induction false} FirstByteBounds(s: bytes)
    requires IsBytes(s) && s != []
    ensures s[0] * Pow256(|s| - 1) <= FromBigEndian(s) < (s[0] + 1) * Pow256(|s| - 1)
    decreases |s|
  {
    var front := s[..|s| - 1];
    if front == [] {
      assert FromBigEndian(front) == 0;
    } else {
      FirstByteBounds(front);
      Shifted(s[0], Pow256(|front| - 1), FromBigEndian(front), s[|s| - 1]);
    }
  }

  lemma Shifted(top: int, power: int, n: int, last: int)
    requires top * power <= n < (top + 1) * power && 0 <= last < 0x100
    ensures top * (0x100 * power) <= 0x100 * n + last < (top + 1) * (0x100 * power)
  {
    assert top * (0x100 * power) == 0x100 * (top * power);
    assert (top + 1) * (0x100 * power) == 0x100 * ((top + 1) * power);
  }

  /** Whether a length is of this sort can be seen from the second and the third byte. */
  lemma NegativeLengthIs(d: bytes, i: nat)
    requires IsBytes(d) && i + 10 <= |d|
    ensures NegativeLength(d, i) <==> Low7(d[i + 1]) == 127 && d[i + 2] >= 0x80
  {
    hide FromBigEndian;
    var s := d[i + 2..i + 10];
    FirstByteBounds(s);
    assert Pow256(7) == 0x100_0000_0000_0000;
    hide Pow256;
    assert d[i + 2] == s[0];
  }

  /** A frame with such a length is accepted, as one without a payload. */
  lemma NegativeLengthIsEmpty(d: bytes, i: nat)
    requires IsBytes(d) && i + 10 <= |d| && NegativeLength(d, i) && !MaskBit(d[i + 1])
    requires !ReservedBits(d[i]) && !IsControl(d[i] % 0x10)
    ensures Parse(d, i) == Ok(Frame(FinBit(d[i]), d[i] % 0x10, []), i + 10)
  {
    FromBigEndianBack(d[i + 2..i + 10]);
    assert Pow256(8) == 0x1_0000_0000_0000_0000;
    hide FromBigEndian, Masked, IsControl, BigEndian, Pow256;
  }

  /** Such as this one, whose length is 2^63. */
  lemma {:induction false} NegativeLengthIsAccepted()
    ensures var d := [0x82, 0x7F, 0x80, 0, 0, 0, 0, 0, 0, 0];
      Parse(d, 0) == Ok(Frame(true, 2, []), 10) && NegativeLength(d, 0)
  {
    hide FromBigEndian, Masked, Parse, NegativeLength;
    var d := [0x82, 0x7F, 0x80, 0, 0, 0, 0, 0, 0, 0];
    NegativeLengthIs(d, 0);
    NegativeLengthIsEmpty(d, 0);
  }

  // ----- The code -----

  /** Calls of the handler. */
  datatype Event = Closed(code: Option<int>, reason: Option<bytes>) | Pong(data: bytes)

  /** What recv_frame returns; or the exception for taking the length of nil. */
  datatype Received = Failed | Got(final: bool, message: Option<bytes>) | Threw

  function CloseEvent(data: bytes): Event {
    Closed(if |data| >= 2 then Some(FromBigEndian(data[..2])) else None, if |data| > 2 then Some(data[2..]) else None)
  }

  /** What is returned for a frame. */
  function Returned(f: Frame): Received {
    if !f.fin then Got(false, Some(f.payload))
    else if f.opcode == 0x1 || f.opcode == 0x2 then Got(true, Some(f.payload))
    else if f.opcode == 0x9 then Threw
    else Got(true, None)
  }

  function EventsOf(f: Frame): seq<Event> {
    if f.fin && f.opcode == 0x8 then [CloseEvent(f.payload)]
    else if f.fin && f.opcode == 0xA then [Pong(f.payload)]
    else []
  }

  class Connection {
    /** Whether there is a socket, what it will deliver, and what was written to it. */
    var fd: bool
    var input: bytes
    var pos: nat
    var output: bytes
    var clientTerminated: bool
    var events: seq<Event>

    ghost predicate Valid()
      reads this
    {
      pos <= |input|
    }

    constructor (input: bytes)
      ensures Valid() && fd && pos == 0 && this.input == input && output == [] && events == [] && !clientTerminated
    {
      fd, pos, this.input, output, events, clientTerminated := true, 0, input, [], [], false;
    }

    /** data is nil when an argument was left out. */
    method SendFrame(fin: bool, opcode: int, data: Option<bytes>) returns (r: Received)
      requires 0 <= opcode < 16
      modifies this`output
      ensures !fd ==> r == Failed && output == old(output)
      ensures fd && data == None ==> r == Threw && output == old(output)
      ensures fd && data.Some? ==>
        var f := Frame(fin, opcode, data.value);
        r == Got(true, None) && output == old(output) + FrameBytes(f, SenderForm(|data.value|), None)
    {
      if !fd { return Failed; }
      if data == None { return Threw; }
      var finbit := if fin then 0x80 else 0;
      var frame := [finbit + opcode];
      var len := |data.value|;
      if len < 126 {
        frame := frame + [len];
      } else if len < 0xFFFF {
        frame := frame + ([126] + BigEndian(len, 2));
      } else {
        frame := frame + ([127] + BigEndian(len, 8));
      }
      frame := frame + data.value;
      output := output + frame;
      return Got(true, None);
    }

    method SendPong(data: Option<bytes>) returns (r: Received)
      modifies this`output
      ensures !fd ==> r == Failed && output == old(output)
      ensures fd && data == None ==> r == Threw && output == old(output)
      ensures fd && data.Some? ==>
        var f := Frame(true, 0xA, data.value);
        r == Got(true, None) && output == old(output) + FrameBytes(f, SenderForm(|data.value|), None)
    {
      r := SendFrame(true, 0xA, data);
    }

    /** socket.read: so many bytes, or none at all. */
    method Read(size: nat) returns (data: Option<bytes>)
      requires Valid()
      modifies this`pos
      ensures Valid()
      ensures data == if fd && old(pos) + size <= |input| then Some(input[old(pos)..old(pos) + size]) else None
      ensures pos == if data.Some? then old(pos) + size else old(pos)
    {
      if !fd || pos + size > |input| { return None; }
      data := Some(input[pos..pos + size]);
      pos := pos + size;
    }

    /** The length of the payload: the 7 bits of the second byte, or what follows it. */
    method ReadLength(b: int) returns (r: Option<int>)
      requires Valid() && fd
      modifies this`pos
      ensures Valid()
      ensures var n := ExtraLength(b);
        if old(pos) + n <= |input|
        then pos == old(pos) + n &&
             r == Some(if n == 0 then Low7(b) else Signed64(FromBigEndian(input[old(pos)..old(pos) + n])))
        else r == None
    {
      hide FromBigEndian, Signed64;
      var payloadlen := Low7(b);
      if payloadlen < 126 { return Some(payloadlen); }
      var data := Read(if payloadlen == 126 then 2 else 8);
      if data == None { return None; }
      return Some(Signed64(FromBigEndian(data.value)));
    }

    /** The masking key, if there is one, and the payload. */
    method ReadPayload(maskFrame: bool, frameLength: int) returns (r: Option<bytes>)
      requires Valid() && fd
      modifies this`pos
      ensures Valid()
      ensures var k, len := if maskFrame then old(pos) + 4 else old(pos), if frameLength > 0 then frameLength else 0;
        if k + len <= |input|
        then pos == k + len &&
             r == Some(if maskFrame then Masked(input[old(pos)..k], input[k..k + len]) else input[k..k + len])
        else r == None
    {
      hide Xor;
      var mask := [0, 0, 0, 0];
      if maskFrame {
        var m := Read(4);
        if m == None { return None; }
        mask := m.value;
      }
      var frameData := [];
      if frameLength > 0 {
        var fdata := Read(frameLength);
        if fdata == None { return None; }
        frameData := fdata.value;
      }
      if maskFrame && frameLength > 0 {
        frameData := WebsocketMask(mask, frameData, frameLength);
      }
      if frameLength <= 0 { assert input[pos..pos] == [] && Masked(mask, []) == []; }
      r := Some(frameData);
    }

    /** The reading half of recv_frame. */
    method ReadFrame() returns (r: Option<Frame>)
      requires Valid()
      modifies this`pos
      ensures Valid()
      ensures match if fd then Parse(input, old(pos)) else Short("already close")
        case Ok(f, next) => r == Some(f) && pos == next
        case _ => r == None
    {
      hide FromBigEndian, Masked, Signed64;
      var data := Read(2);
      if data == None { return None; }
      var header, payloadlen := data.value[0], data.value[1];
      var finalFrame, opcode := FinBit(header), header % 0x10;
      if ReservedBits(header) { return None; }
      if IsControl(opcode) && Low7(payloadlen) >= 126 { return None; }
      if IsControl(opcode) && !finalFrame { return None; }
      var frameLength := ReadLength(payloadlen);
      if frameLength == None { return None; }
      ghost var j := pos;
      var frameData := ReadPayload(MaskBit(payloadlen), frameLength.value);
      if frameData == None { return None; }
      if frameLength.value <= 0 && j + 4 <= |input| { assert Masked(input[j..j + 4], []) == []; }
      r := Some(Frame(finalFrame, opcode, frameData.value));
    }

    /**
     recv_frame. A final frame that is a ping makes it call send_pong without
     an argument, which fails as long as there is a socket.
     */
    method RecvFrame() returns (r: Received)
      requires Valid()
      modifies this`pos, this`output, this`clientTerminated, this`events
      ensures Valid() && output == old(output)
      ensures match if fd then Parse(input, old(pos)) else Short("already close")
        case Ok(f, next) =>
          && r == Returned(f) && pos == next && events == old(events) + EventsOf(f)
          && clientTerminated == (old(clientTerminated) || (f.fin && f.opcode == 0x8))
        case _ => r == Failed && events == old(events) && clientTerminated == old(clientTerminated)
    {
      hide Parse, FromBigEndian;
      assert events + [] == events;
      var frame := ReadFrame();
      if frame == None { return Failed; }
      var Frame(finalFrame, opcode, frameData) := frame.value;
      if !finalFrame { return Got(false, Some(frameData)); }
      if opcode == 0x1 { return Got(true, Some(frameData)); }
      if opcode == 0x2 { return Got(true, Some(frameData)); }
      if opcode == 0x8 {
        var code, reason: Option<bytes> := None, None;
        if |frameData| >= 2 { code := Some(FromBigEndian(frameData[..2])); }
        if |frameData| > 2 { reason := Some(frameData[2..]); }
        clientTerminated := true;
        events := events + [Closed(code, reason)];
      } else if opcode == 0x9 {
        var sent := SendPong(None);
        if sent == Threw { return Threw; }
      } else if opcode == 0xA {
        events := events + [Pong(frameData)];
      }
      return Got(true, None);
    }
  }

  /** What the peer sent with one call is what one call of recv_frame returns, in its own form and masked or not. */
  lemma SentIsReceived(d: bytes, i: nat, t: bytes, f: Frame, form: Form, key: Option<bytes>)
    requires Sendable(f, form) && ValidKey(key) && i <= |d| && At(d, i, t) && IsFrameText(t, f, form, key)
    ensures Parse(d, i).Ok?
    ensures var r := Returned(Parse(d, i).frame);
      && (!f.fin <==> r == Got(false, Some(f.payload)))
      && (f.fin && f.opcode in {1, 2} <==> r == Got(true, Some(f.payload)))
      && (f.fin && f.opcode == 9 <==> r == Threw)
      && (f.fin && f.opcode !in {1, 2, 9} <==> r == Got(true, None))
  {
    hide Parse, IsFrameText;
    ReadsFrameText(d, i, t, f, form, key);
  }

  /**
   What the handler is told: of a final close frame, the code in its first two
   bytes, the most significant first, and the reason behind it, as far as they
   are there; of a final pong frame, its payload; of other frames, nothing.
   */
  lemma {:induction false} SentIsReported(d: bytes, i: nat, t: bytes, f: Frame, form: Form, key: Option<bytes>)
    requires Sendable(f, form) && ValidKey(key) && i <= |d| && At(d, i, t) && IsFrameText(t, f, form, key)
    ensures Parse(d, i).Ok?
    ensures var events, p := EventsOf(Parse(d, i).frame), f.payload;
      if f.fin && f.opcode == 8 then
        events == [Closed(if |p| >= 2 then Some(256 * p[0] + p[1]) else None, if |p| > 2 then Some(p[2..]) else None)]
      else if f.fin && f.opcode == 10 then events == [Pong(p)]
      else events == []
  {
    hide Parse, IsFrameText, FromBigEndian;
    ReadsFrameText(d, i, t, f, form, key);
    if |f.payload| >= 2 { FromTwo(f.payload[..2]); }
  }

  /** A close frame carries its code and reason to the handler. */
  lemma CloseIsReported(code: int, reason: bytes)
    requires 0 <= code < 0x1_0000
    ensures CloseEvent(BigEndian(code, 2) + reason) == Closed(Some(code), if reason == [] then None else Some(reason))
  {
    assert Pow256(2) == 0x1_0000;
    BigEndianBack(code, 2);
    hide BigEndian, FromBigEndian;
    var data := BigEndian(code, 2) + reason;
    assert data[..2] == BigEndian(code, 2) && data[2..] == reason;
  }
}
