/** Lua values: as they are passed about, as tables on the heap, and as finite trees. */
module Lua {
  import opened Bytes

  datatype Double = Finite(r: real) | Infinite(negative: bool) | NaN

  /**
   A Lua value as it is passed about: tables are references. Opaque stands for
   functions, full userdata and threads; Light(0) is the userdata NULL.
   */
  datatype Value =
    | VNil
    | VBool(b: bool)
    | VNumber(d: Double)
    | VStr(s: bytes)
    | VTable(id: nat)
    | VLight(address: int)
    | VOpaque(name: int)

  datatype Key = KInt(i: int) | KStr(s: bytes)

  /** A Lua value that is a finite tree. Null is the light userdata NULL, cjson.null. */
  datatype Tree =
    | TNull
    | TBool(b: bool)
    | TNumber(d: Double)
    | TStr(s: bytes)
    | TTable(m: map<Key, Tree>)

  const EmptyTable: Tree := TTable(map[])

  /** The table that holds vs at the indices n, n + 1, ... */
  function FromIndex(vs: seq<Tree>, n: int): map<Key, Tree> {
    map key | key in Indices(n, n + |vs|) :: vs[key.i - n]
  }

  /** The keys lo, ..., hi - 1. */
  function Indices(lo: int, hi: int): (ks: set<Key>)
    ensures forall k :: k in ks <==> k.KInt? && lo <= k.i < hi
  {
    set i: int | lo <= i < hi :: KInt(i)
  }

  lemma FromIndexStep(v: Tree, vs: seq<Tree>, n: int, acc: map<Key, Tree>)
    ensures acc[KInt(n) := v] + FromIndex(vs, n + 1) == acc + FromIndex([v] + vs, n)
  {
    hide Indices;
  }

  lemma UpdateOfMerge<K, V>(a: map<K, V>, b: map<K, V>, k: K, v: V)
    ensures (a + b)[k := v] == a + b[k := v]
    ensures a[k := v] + map[] == a + map[][k := v]
  {
  }

  /** The table that results from assigning the pairs one after the other: the last value of a key counts. */
  function Assigned(ps: seq<(bytes, Tree)>): map<Key, Tree> {
    if ps == [] then map[]
    else
      var last := ps[|ps| - 1];
      Assigned(ps[..|ps| - 1])[KStr(last.0) := last.1]
  }

  lemma AssignedSnoc(ps: seq<(bytes, Tree)>, last: (bytes, Tree))
    ensures Assigned([]) == map[]
    ensures Assigned(ps + [last]) == Assigned(ps)[KStr(last.0) := last.1]
  {
    assert (ps + [last])[..|ps|] == ps;
  }

  lemma {:induction false} AssignedStep(p: (bytes, Tree), ps: seq<(bytes, Tree)>, acc: map<Key, Tree>)
    ensures acc[KStr(p.0) := p.1] + Assigned(ps) == acc + Assigned([p] + ps)
    decreases |ps|
  {
    hide Assigned;
    var acc' := acc[KStr(p.0) := p.1];
    if ps == [] {
      AssignedSnoc([], p);
      UpdateOfMerge(acc, map[], KStr(p.0), p.1);
      assert [p] + ps == [] + [p];
    } else {
      var front, last := ps[..|ps| - 1], ps[|ps| - 1];
      AssignedStep(p, front, acc);
      assert ps == front + [last] && [p] + ps == ([p] + front) + [last];
      AssignedSnoc(front, last);
      AssignedSnoc([p] + front, last);
      UpdateOfMerge(acc', Assigned(front), KStr(last.0), last.1);
      UpdateOfMerge(acc, Assigned([p] + front), KStr(last.0), last.1);
    }
  }
}
