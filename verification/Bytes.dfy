/** Bytes, byte strings, and the growable arrays of the JavaScript client. */
module Bytes {

  /** A byte string. Most results hold for any numbers; IsBytes says where the range matters. */
  type bytes = seq<int>

  ghost predicate IsBytes(s: bytes) {
    forall k :: 0 <= k < |s| ==> 0 <= s[k] < 256
  }

  function Pow2(k: nat): (r: nat)
    ensures r >= 1
  {
    if k == 0 then 1 else 2 * Pow2(k - 1)
  }

  /** The string s occurs in data at offset i. */
  ghost predicate At(data: bytes, i: nat, s: bytes) {
    i + |s| <= |data| && data[i..i + |s|] == s
  }

  lemma AtSplit(data: bytes, i: nat, s: bytes, t: bytes)
    requires At(data, i, s + t)
    ensures At(data, i, s) && At(data, i + |s|, t)
  {
    var u := s + t;
    assert data[i..i + |s|] == data[i..i + |u|][..|s|];
    assert data[i + |s|..i + |u|] == data[i..i + |u|][|s|..];
  }

  lemma AtFacts(data: bytes, i: nat, s: bytes)
    requires At(data, i, s)
    ensures i + |s| <= |data| && (s != [] ==> data[i] == s[0])
  {
    if s != [] { assert data[i..i + |s|][0] == data[i]; }
  }

  function Zeros(n: nat): (r: bytes)
    ensures |r| == n && forall k :: 0 <= k < n ==> r[k] == 0
  {
    seq(n, _ => 0)
  }

  // ----- The arrays of JavaScript -----

  /** What an element is that was never written, or that was written with `undefined`. */
  const HOLE: int := -1

  /** A JavaScript array of bytes, without its holes. */
  type JsArray = map<nat, int>

  function Element(a: JsArray, i: nat): int {
    if i in a then a[i] else HOLE
  }

  /** The first n elements. */
  function Elements(a: JsArray, n: nat): (r: bytes)
    ensures |r| == n
  {
    seq(n, k requires 0 <= k => Element(a, k))
  }

  /** a[i] = v */
  function Put(a: JsArray, i: nat, v: int): JsArray {
    if v == HOLE then a - {i} else a[i := v]
  }

  /** a[i] = src[j], where reading past the end of src gives `undefined`. */
  function Store(a: JsArray, i: nat, src: bytes, j: nat): JsArray {
    Put(a, i, if j < |src| then src[j] else HOLE)
  }

  /** How a DataView stores an element: a hole becomes 0. */
  function StoredAs(v: int): int {
    if v == HOLE then 0 else v
  }

  function Stored(s: bytes): (r: bytes)
    ensures |r| == |s| && forall k :: 0 <= k < |s| ==> r[k] == StoredAs(s[k])
  {
    seq(|s|, k requires 0 <= k < |s| => StoredAs(s[k]))
  }

  /** What is sent of an array: its first n elements, stored in a DataView. */
  function Sent(a: JsArray, n: nat): (r: bytes)
    ensures |r| == n
  {
    Stored(Elements(a, n))
  }

  ghost predicate AreElements(s: bytes) {
    forall k :: 0 <= k < |s| ==> s[k] == HOLE || 0 <= s[k] < 256
  }

  lemma StoredSum(s: bytes, t: bytes)
    ensures Stored(s + t) == Stored(s) + Stored(t)
  {
  }

  /** Byte strings are stored as they are. */
  lemma StoredBytes(s: bytes)
    ensures HOLE !in s ==> Stored(s) == s
    ensures IsBytes(s) ==> HOLE !in s && AreElements(s)
    ensures AreElements(s) ==> IsBytes(Stored(s))
  {
  }

  /** The elements of a from index i on are s. */
  ghost predicate Window(a: JsArray, i: nat, s: bytes) {
    forall k: nat :: k < |s| ==> Element(a, i + k) == s[k]
  }

  /** The elements of a from index i on are stored as those of s. */
  ghost predicate Shows(a: JsArray, i: nat, s: bytes) {
    forall k: nat :: k < |s| ==> StoredAs(Element(a, i + k)) == StoredAs(s[k])
  }

  /** Both arrays agree outside [lo, hi). */
  ghost predicate SameOutside(a: JsArray, b: JsArray, lo: int, hi: int) {
    forall k: nat :: k < lo || hi <= k ==> Element(a, k) == Element(b, k)
  }

  lemma SentExtends(a: JsArray, b: JsArray, m: nat, s: bytes)
    requires Shows(b, m, s) && forall k: nat :: k < m ==> Element(a, k) == Element(b, k)
    ensures Sent(b, m + |s|) == Sent(a, m) + Stored(s)
  {
    forall k: nat | k < |s|
      ensures Sent(b, m + |s|)[m + k] == Stored(s)[k]
    {
      assert StoredAs(Element(b, m + k)) == StoredAs(s[k]);
    }
  }

  lemma WindowStarts(a: JsArray, i: nat)
    ensures Window(a, i, []) && Shows(a, i, []) && SameOutside(a, a, i, i)
  {
  }

  /** Writing the next element of s behind those already written. */
  lemma WriteNext(a0: JsArray, a: JsArray, b: JsArray, i: nat, s: bytes, j: nat)
    requires j < |s| && SameOutside(a0, a, i, i + j) && Window(a, i, s[..j])
    requires b == a[i + j := s[j]] || b == Put(a, i + j, s[j])
    ensures SameOutside(a0, b, i, i + j + 1) && Window(b, i, s[..j + 1])
  {
  }

  /** Writing what is stored as the next element of s. */
  lemma ShowNext(a0: JsArray, a: JsArray, b: JsArray, i: nat, s: bytes, j: nat, v: int)
    requires j < |s| && SameOutside(a0, a, i, i + j) && Shows(a, i, s[..j])
    requires (b == a[i + j := v] || b == Put(a, i + j, v)) && StoredAs(v) == StoredAs(s[j])
    ensures SameOutside(a0, b, i, i + j + 1) && Shows(b, i, s[..j + 1])
  {
  }
}
