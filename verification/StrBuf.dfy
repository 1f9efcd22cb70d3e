/** The growable byte buffer of Lua CJSON. */
module StrBuf {
  import opened Bytes

  const STRBUF_DEFAULT_SIZE: nat := 1023
  const STRBUF_DEFAULT_INCREMENT: int := -2

  /** Repeated multiplication until the requested size is reached. */
  function Grown(size: nat, reqsize: nat, factor: nat): (r: nat)
    requires size >= 1 && factor >= 2
    ensures r >= reqsize && r >= size
    ensures size < reqsize ==> r >= 2 * size
    decreases reqsize - size
  {
    if size >= reqsize then size else
      Doubles(size, factor);
      Grown(size * factor, reqsize, factor)
  }

  lemma Doubles(size: nat, factor: nat)
    requires size >= 1 && factor >= 2
    ensures size * factor >= 2 * size
  {
  }

  /** No step of the growth overshoots: the size before the last one was too small. */
  lemma {:induction false} GrownIsTight(size: nat, reqsize: nat, factor: nat)
    requires size >= 1 && factor >= 2 && size < reqsize
    ensures Grown(size, reqsize, factor) < reqsize * factor
    decreases reqsize - size
  {
    Doubles(size, factor);
    if size * factor < reqsize {
      GrownIsTight(size * factor, reqsize, factor);
    } else {
      assert size * factor < reqsize * factor;
    }
  }

  function Power(factor: nat, k: nat): nat {
    if k == 0 then 1 else factor * Power(factor, k - 1)
  }

  /** The size was multiplied by the factor as often as it took, and no more often. */
  lemma {:induction false} GrownIsPower(size: nat, reqsize: nat, factor: nat) returns (k: nat)
    requires size >= 1 && factor >= 2
    ensures Grown(size, reqsize, factor) == size * Power(factor, k) >= reqsize
    ensures k > 0 ==> size * Power(factor, k - 1) < reqsize
    decreases reqsize - size
  {
    k := 0;
    if size < reqsize {
      Doubles(size, factor);
      k := GrownIsPower(size * factor, reqsize, factor);
      TimesPower(size, factor, k);
      if k > 0 { TimesPower(size, factor, k - 1); }
      k := k + 1;
    }
  }

  lemma TimesPower(size: nat, factor: nat, k: nat)
    ensures size * Power(factor, k + 1) == (size * factor) * Power(factor, k)
  {
    var p := Power(factor, k);
    assert size * (factor * p) == (size * factor) * p;
  }

  lemma AnotherDoubling(initial: nat, reallocs: nat, size: nat, bigger: nat)
    requires size >= initial * Pow2(reallocs) && bigger >= 2 * size
    ensures bigger >= initial * Pow2(reallocs + 1)
  {
    var p := Pow2(reallocs);
    assert initial * (2 * p) == 2 * (initial * p);
  }

  class StrBuf {
    var buf: array<int>
    var size: nat
    var length: nat
    var increment: int
    var reallocs: nat
    ghost var initial: nat

    ghost predicate Valid()
      reads this
    {
      buf.Length == size && length < size && increment < -1
    }

    /** Every reallocation at least doubled the buffer. */
    ghost predicate Amortised()
      reads this
    {
      size >= initial * Pow2(reallocs)
    }

    ghost function Contents(): bytes
      reads this, buf
      requires Valid()
    {
      buf[..length]
    }

    constructor (len: int)
      ensures Valid() && Amortised() && fresh(buf)
      ensures Contents() == [] && reallocs == 0 && initial == size
      ensures size == (if len <= 0 then 1023 else len + 1) && increment == -2
    {
      var n := if len <= 0 then STRBUF_DEFAULT_SIZE else len + 1;
      size := n;
      initial := n;
      length := 0;
      increment := STRBUF_DEFAULT_INCREMENT;
      reallocs := 0;
      buf := new int[n];
      new;
      EnsureNull();
    }

    function EmptyLength(): (n: nat)
      reads this
      requires Valid()
      ensures length + n + 1 == size
    {
      size - length - 1
    }

    method Reset()
      requires Valid()
      modifies this`length
      ensures Valid() && Contents() == []
    {
      length := 0;
    }

    /** The new size for a string of len bytes and its terminator. */
    method CalculateNewSize(len: nat) returns (newsize: nat)
      requires Valid() && len > 0
      ensures newsize == if size > len + 1 then len + 1 else Grown(size, len + 1, -increment)
    {
      var reqsize := len + 1;
      if size > reqsize {
        return reqsize;
      }
      newsize := size;
      while newsize < reqsize
        invariant newsize >= 1 && Grown(newsize, reqsize, -increment) == Grown(size, reqsize, -increment)
        decreases reqsize - newsize
      {
        Doubles(newsize, -increment);
        newsize := newsize * -increment;
      }
    }

    method Resize(len: nat)
      requires Valid() && length <= len && len > 0
      modifies this`buf, this`size, this`reallocs
      ensures Valid() && fresh(buf) && Contents() == old(Contents())
      ensures size == if old(size) > len + 1 then len + 1 else Grown(old(size), len + 1, -increment)
      ensures reallocs == old(reallocs) + 1
      ensures old(Amortised()) && old(size) < len + 1 ==> Amortised()
    {
      var newsize := CalculateNewSize(len);
      ghost var oldSize := size;
      var bigger := new int[newsize];
      forall i | 0 <= i < length {
        bigger[i] := buf[i];
      }
      size := newsize;
      buf := bigger;
      reallocs := reallocs + 1;
      if oldSize < len + 1 && oldSize >= initial * Pow2(reallocs - 1) {
        AnotherDoubling(initial, reallocs - 1, oldSize, newsize);
      }
    }

    method EnsureEmptyLength(len: nat)
      requires Valid()
      modifies this`buf, this`size, this`reallocs
      ensures Valid() && Contents() == old(Contents()) && length + len < size
      ensures (buf == old(buf) && size == old(size) && reallocs == old(reallocs)) || fresh(buf)
      ensures old(length) + len < old(size) ==> buf == old(buf) && reallocs == old(reallocs)
      ensures old(Amortised()) ==> Amortised()
    {
      if len > EmptyLength() {
        Resize(length + len);
      }
    }

    method AppendChar(c: int)
      requires Valid()
      modifies this`buf, this`size, this`reallocs, this`length, buf
      ensures Valid() && Contents() == old(Contents()) + [c]
      ensures buf == old(buf) || fresh(buf)
      ensures old(Amortised()) ==> Amortised()
    {
      EnsureEmptyLength(1);
      buf[length] := c;
      length := length + 1;
    }

    /** The caller has made room: this never reallocates. */
    method AppendCharUnsafe(c: int)
      requires Valid() && length + 1 < size
      modifies this`length, buf
      ensures Valid() && Contents() == old(Contents()) + [c]
    {
      buf[length] := c;
      length := length + 1;
    }

    method AppendMem(c: bytes)
      requires Valid()
      modifies this`buf, this`size, this`reallocs, this`length, buf
      ensures Valid() && Contents() == old(Contents()) + c
      ensures buf == old(buf) || fresh(buf)
      ensures old(Amortised()) ==> Amortised()
    {
      EnsureEmptyLength(|c|);
      AppendMemUnsafe(c);
    }

    method AppendMemUnsafe(c: bytes)
      requires Valid() && length + |c| < size
      modifies this`length, buf
      ensures Valid() && Contents() == old(Contents()) + c
    {
      forall i | 0 <= i < |c| {
        buf[length + i] := c[i];
      }
      length := length + |c|;
    }

    /** Appends a C string, byte by byte; str is the string without its terminator. */
    method AppendString(str: bytes)
      requires Valid()
      modifies this`buf, this`size, this`reallocs, this`length, buf
      ensures Valid() && Contents() == old(Contents()) + str
      ensures buf == old(buf) || fresh(buf)
      ensures old(length) + |str| < old(size) ==> buf == old(buf) && size == old(size) && reallocs == old(reallocs)
      ensures old(Amortised()) ==> Amortised()
    {
      var space := EmptyLength();
      assert str[..0] == [];
      for i := 0 to |str|
        invariant Valid() && space == EmptyLength()
        invariant buf == old(buf) || fresh(buf)
        invariant Contents() == old(Contents()) + str[..i]
        invariant old(length) + |str| < old(size) ==> buf == old(buf) && size == old(size) && reallocs == old(reallocs)
        invariant old(Amortised()) ==> Amortised()
      {
        if space < 1 {
          Resize(length + 1);
          space := EmptyLength();
        }
        buf[length] := str[i];
        length := length + 1;
        space := space - 1;
        assert str[..i + 1] == str[..i] + [str[i]];
      }
      assert str[..|str|] == str;
    }

    /**
     Appends text that vsnprintf made, of which the caller promised that it
     is shorter than len.
     */
    method AppendFmt(len: nat, text: bytes)
      requires Valid() && |text| < len
      modifies this`buf, this`size, this`reallocs, this`length, buf
      ensures Valid() && Contents() == old(Contents()) + text
      ensures buf == old(buf) || fresh(buf)
      ensures old(Amortised()) ==> Amortised()
    {
      EnsureEmptyLength(len);
      AppendMemUnsafe(text);
      EnsureNull();
    }

    /** The terminator lies inside the buffer and behind the contents. */
    method EnsureNull()
      requires Valid()
      modifies buf
      ensures Valid() && Contents() == old(Contents()) && buf[length] == 0
    {
      buf[length] := 0;
    }
  }
}
