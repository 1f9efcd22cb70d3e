/** When encoding succeeds: exactly if no path through tables is too long and all that is met can be written. */
module JsonNesting {
  import opened Bytes
  import opened Lua
  import opened JsonEncode

  // ----- Paths through tables -----

  /** The table id2 is a value in the table id. */
  ghost predicate Child(h: Heap, id: nat, id2: nat) {
    exists k :: 0 <= k < |EntriesOf(h, id)| && EntriesOf(h, id)[k].1 == VTable(id2)
  }

  /** A path through tables that starts at v. */
  ghost predicate Path(h: Heap, v: Value, p: seq<nat>) {
    |p| > 0 && v == VTable(p[0]) && forall k :: 0 <= k < |p| - 1 ==> Child(h, p[k], p[k + 1])
  }

  /** No key occurs twice in a table. */
  ghost predicate Distinct(es: Entries) {
    forall j, k :: 0 <= j < k < |es| ==> es[j].0 != es[k].0
  }

  ghost predicate WellFormed(h: Heap) {
    forall id :: id in h ==> Distinct(h[id])
  }

  // ----- What can be written -----

  /** A value that is a table, or can be written by itself. */
  ghost predicate Plain(cfg: Config, v: Value) {
    match v
    case VNumber(d) => !cfg.refuseBadnum || d.Finite?
    case VLight(p) => p == 0
    case VOpaque(_) => false
    case _ => true
  }

  /** Keys are strings, and numbers that may be written. */
  lemma KeysWritable(cfg: Config, k: Value)
    ensures EncodeKey(cfg, k).Done? <==> k.VStr? || (k.VNumber? && (!cfg.refuseBadnum || k.d.Finite?))
    ensures !EncodeKey(cfg, k).Done? && !k.VNumber? ==>
      EncodeKey(cfg, k) == Refused("table key must be a number or string")
  {
  }

  /** A table whose shape is accepted, whose keys are names, and whose values are plain. */
  ghost predicate Clean(cfg: Config, h: Heap, id: nat) {
    var es := EntriesOf(h, id);
    && !ShapeOf(cfg, es).Sparse?
    && forall k :: 0 <= k < |es| ==> EncodeKey(cfg, es[k].0).Done? && Plain(cfg, es[k].1)
  }

  ghost predicate AllClean(cfg: Config, h: Heap, v: Value) {
    forall p :: Path(h, v, p) ==> Clean(cfg, h, p[|p| - 1])
  }

  ghost predicate AllShort(h: Heap, v: Value, n: int) {
    forall p :: Path(h, v, p) ==> |p| <= n
  }

  // ----- Arrays -----

  /** No key of the table is the number i. */
  ghost predicate Absent(es: Entries, i: int) {
    forall k :: 0 <= k < |es| ==> es[k].0 != VNumber(Finite(i as real))
  }

  /** What is at an index is the value with this key, and nil if there is none. */
  lemma {:induction false} RawGetFinds(es: Entries, i: int)
    ensures Absent(es, i) ==> RawGet(es, i) == VNil
    ensures RawGet(es, i) == VNil || exists k :: 0 <= k < |es| && RawGet(es, i) == es[k].1
    ensures Distinct(es) ==>
      forall k :: 0 <= k < |es| && es[k].0 == VNumber(Finite(i as real)) ==> RawGet(es, i) == es[k].1
  {
    if es != [] {
      RawGetFinds(es[1..], i);
      assert forall k :: 1 <= k < |es| ==> es[k] == es[1..][k - 1];
      assert forall k :: 0 <= k < |es[1..]| ==> es[1..][k] == es[k + 1];
    }
  }

  /** An array holds, at 1 to n, all its values and perhaps nil besides. */
  lemma {:induction false} ArrayValues(cfg: Config, es: Entries, n: nat, k: int)
    requires ShapeOf(cfg, es) == Array(n) && Distinct(es)
    ensures 0 <= k < |es| ==> 1 <= Index(es[k].0) <= n && RawGet(es, Index(es[k].0)) == es[k].1
    ensures RawGet(es, k) == VNil || exists j :: 0 <= j < |es| && RawGet(es, k) == es[j].1
  {
    RawGetFinds(es, k);
    if 0 <= k < |es| { RawGetFinds(es, Index(es[k].0)); }
  }

  ghost predicate ItemDone(cfg: Config, h: Heap, es: Entries, j: int, depth: int) {
    EncodeValue(cfg, h, RawGet(es, j), depth).Done?
  }

  lemma {:induction false} ItemsDone(cfg: Config, h: Heap, es: Entries, i: int, n: int, depth: int)
    ensures EncodeItems(cfg, h, es, i, n, depth).Done? <==>
      forall j :: i <= j <= n ==> ItemDone(cfg, h, es, j, depth)
    decreases n - i
  {
    hide EncodeValue, RawGet, Separator;
    if i <= n {
      ItemsDone(cfg, h, es, i + 1, n, depth);
      assert EncodeItems(cfg, h, es, i, n, depth).Done? <==>
        ItemDone(cfg, h, es, i, depth) && EncodeItems(cfg, h, es, i + 1, n, depth).Done?;
    }
  }

  lemma {:induction false} MembersDone(cfg: Config, h: Heap, es: Entries, i: nat, depth: int)
    ensures EncodeMembers(cfg, h, es, i, depth).Done? <==>
      forall j :: i <= j < |es| ==> EncodeKey(cfg, es[j].0).Done? && EncodeValue(cfg, h, es[j].1, depth).Done?
    decreases |es| - i
  {
    hide EncodeValue, EncodeKey;
    if i < |es| { MembersDone(cfg, h, es, i + 1, depth); }
  }

  ghost predicate ValuesDone(cfg: Config, h: Heap, es: Entries, depth: int) {
    forall k :: 0 <= k < |es| ==> EncodeValue(cfg, h, es[k].1, depth).Done?
  }

  /** A plain value of a failed encoding is a table; a value of a successful one is plain. */
  lemma DoneIsPlain(cfg: Config, h: Heap, v: Value, depth: int)
    ensures EncodeValue(cfg, h, v, depth).Done? ==> Plain(cfg, v)
    ensures Plain(cfg, v) && !v.VTable? ==> EncodeValue(cfg, h, v, depth).Done?
  {
  }

  /** A table is encoded exactly if it is clean, not too deep, and all its values are encoded. */
  lemma TableDone(cfg: Config, h: Heap, id: nat, depth: int)
    requires Distinct(EntriesOf(h, id))
    ensures EncodeValue(cfg, h, VTable(id), depth).Done? <==>
      Clean(cfg, h, id) && depth + 1 <= cfg.maxDepth && ValuesDone(cfg, h, EntriesOf(h, id), depth + 1)
  {
    hide EncodeValue, EncodeItems, EncodeMembers, ShapeOf, EncodeKey, Plain;
    var es := EntriesOf(h, id);
    var shape := ShapeOf(cfg, es);
    TableUnfolds(cfg, h, id, depth);
    DonesArePlain(cfg, h, es, depth + 1);
    if shape.Array? && shape.n > 0 {
      ItemsDone(cfg, h, es, 1, shape.n, depth + 1);
      ArrayDone(cfg, h, es, shape.n, depth + 1);
    } else {
      MembersDone(cfg, h, es, 0, depth + 1);
    }
  }

  lemma TableUnfolds(cfg: Config, h: Heap, id: nat, depth: int)
    ensures var es, shape := EntriesOf(h, id), ShapeOf(cfg, EntriesOf(h, id));
      EncodeValue(cfg, h, VTable(id), depth).Done? <==>
        && !shape.Sparse? && depth + 1 <= cfg.maxDepth
        && if shape.Array? && shape.n > 0 then EncodeItems(cfg, h, es, 1, shape.n, depth + 1).Done?
           else EncodeMembers(cfg, h, es, 0, depth + 1).Done?
  {
    hide ShapeOf, EncodeItems, EncodeMembers;
  }

  lemma DonesArePlain(cfg: Config, h: Heap, es: Entries, depth: int)
    ensures forall k :: 0 <= k < |es| && EncodeValue(cfg, h, es[k].1, depth).Done? ==> Plain(cfg, es[k].1)
    ensures EncodeValue(cfg, h, VNil, depth).Done?
  {
    forall k | 0 <= k < |es|
      ensures EncodeValue(cfg, h, es[k].1, depth).Done? ==> Plain(cfg, es[k].1)
    {
      DoneIsPlain(cfg, h, es[k].1, depth);
    }
  }

  lemma ArrayDone(cfg: Config, h: Heap, es: Entries, n: nat, depth: int)
    requires ShapeOf(cfg, es) == Array(n) && Distinct(es)
    ensures (forall j :: 1 <= j <= n ==> ItemDone(cfg, h, es, j, depth)) <==> ValuesDone(cfg, h, es, depth)
    ensures forall k :: 0 <= k < |es| ==> EncodeKey(cfg, es[k].0).Done?
  {
    DonesArePlain(cfg, h, es, depth);
    hide EncodeValue, RawGet, ShapeOf;
    if ValuesDone(cfg, h, es, depth) {
      forall j | 1 <= j <= n
        ensures ItemDone(cfg, h, es, j, depth)
      {
        ArrayValues(cfg, es, n, j);
      }
    }
    if forall j :: 1 <= j <= n ==> ItemDone(cfg, h, es, j, depth) {
      forall k | 0 <= k < |es|
        ensures EncodeValue(cfg, h, es[k].1, depth).Done?
      {
        ArrayValues(cfg, es, n, k);
        assert ItemDone(cfg, h, es, Index(es[k].0), depth);
      }
    }
    forall k | 0 <= k < |es|
      ensures EncodeKey(cfg, es[k].0).Done?
    {
      ArrayValues(cfg, es, n, k);
    }
  }

  // ----- Paths and children -----

  /** The paths from a table: itself, and those from its values with the table in front. */
  lemma {:induction false} PathsOfTable(cfg: Config, h: Heap, id: nat, n: int)
    ensures AllShort(h, VTable(id), n) <==>
      n >= 1 && forall k :: 0 <= k < |EntriesOf(h, id)| ==> AllShort(h, EntriesOf(h, id)[k].1, n - 1)
    ensures AllClean(cfg, h, VTable(id)) <==>
      Clean(cfg, h, id) && forall k :: 0 <= k < |EntriesOf(h, id)| ==> AllClean(cfg, h, EntriesOf(h, id)[k].1)
  {
    hide Clean;
    var es := EntriesOf(h, id);
    assert Path(h, VTable(id), [id]);
    forall k, p | 0 <= k < |es| && Path(h, es[k].1, p)
      ensures Path(h, VTable(id), [id] + p)
    {
      assert Child(h, id, p[0]);
    }
    forall p | Path(h, VTable(id), p) && |p| > 1
      ensures exists k :: 0 <= k < |es| && Path(h, es[k].1, p[1..])
    {
      assert Child(h, p[0], p[1]);
      forall j | 0 <= j < |p| - 2
        ensures Child(h, p[1..][j], p[1..][j + 1])
      {
        assert Child(h, p[j + 1], p[j + 2]);
      }
    }
    if AllShort(h, VTable(id), n) {
      assert |[id]| == 1;
      forall k, p | 0 <= k < |es| && Path(h, es[k].1, p)
        ensures |p| <= n - 1
      {
        assert |[id] + p| <= n;
      }
    }
    if AllClean(cfg, h, VTable(id)) {
      assert [id][|[id]| - 1] == id;
      forall k, p | 0 <= k < |es| && Path(h, es[k].1, p)
        ensures Clean(cfg, h, p[|p| - 1])
      {
        assert ([id] + p)[|[id] + p| - 1] == p[|p| - 1];
      }
    }
  }

  lemma NoPaths(cfg: Config, h: Heap, v: Value, n: int)
    requires !v.VTable?
    ensures AllShort(h, v, n) && AllClean(cfg, h, v)
  {
  }

  // ----- The main results -----

  /**
   Encoding succeeds exactly if no path through tables is longer than the
   depth that is left, and every table on a path can be written.
   */
  lemma {:induction false} SucceedsExactly(cfg: Config, h: Heap, v: Value, depth: int)
    requires WellFormed(h)
    ensures EncodeValue(cfg, h, v, depth).Done? <==>
      Plain(cfg, v) && AllShort(h, v, cfg.maxDepth - depth) && AllClean(cfg, h, v)
    decreases cfg.maxDepth - depth
  {
    DoneIsPlain(cfg, h, v, depth);
    hide EncodeValue, Clean, AllShort, AllClean, EntriesOf, WellFormed;
    if v.VTable? {
      var es := EntriesOf(h, v.id);
      EntriesDistinct(h, v.id);
      TableDone(cfg, h, v.id, depth);
      PathsOfTable(cfg, h, v.id, cfg.maxDepth - depth);
      if depth + 1 <= cfg.maxDepth {
        forall k | 0 <= k < |es|
          ensures EncodeValue(cfg, h, es[k].1, depth + 1).Done? <==>
            Plain(cfg, es[k].1) && AllShort(h, es[k].1, cfg.maxDepth - depth - 1) && AllClean(cfg, h, es[k].1)
        {
          SucceedsExactly(cfg, h, es[k].1, depth + 1);
        }
        ValuesArePlain(cfg, h, v.id);
      }
    } else {
      NoPaths(cfg, h, v, cfg.maxDepth - depth);
    }
  }

  lemma EntriesDistinct(h: Heap, id: nat)
    requires WellFormed(h)
    ensures Distinct(EntriesOf(h, id))
  {
  }

  lemma ValuesArePlain(cfg: Config, h: Heap, id: nat)
    ensures Clean(cfg, h, id) ==> forall k :: 0 <= k < |EntriesOf(h, id)| ==> Plain(cfg, EntriesOf(h, id)[k].1)
  {
  }

  ghost predicate DoneOrNested(cfg: Config, o: Outcome<bytes>) {
    o.Done? || o == TooNested(cfg.maxDepth + 1)
  }

  lemma {:induction false} ItemsNested(cfg: Config, h: Heap, es: Entries, i: int, n: int, depth: int)
    requires forall j :: DoneOrNested(cfg, EncodeValue(cfg, h, RawGet(es, j), depth))
    ensures DoneOrNested(cfg, EncodeItems(cfg, h, es, i, n, depth))
    decreases n - i
  {
    hide EncodeValue, RawGet, Separator;
    if i <= n {
      assert DoneOrNested(cfg, EncodeValue(cfg, h, RawGet(es, i), depth));
      ItemsNested(cfg, h, es, i + 1, n, depth);
    }
  }

  lemma {:induction false} MembersNested(cfg: Config, h: Heap, es: Entries, i: nat, depth: int)
    requires forall j :: 0 <= j < |es| ==> EncodeKey(cfg, es[j].0).Done?
    requires forall j :: 0 <= j < |es| ==> DoneOrNested(cfg, EncodeValue(cfg, h, es[j].1, depth))
    ensures DoneOrNested(cfg, EncodeMembers(cfg, h, es, i, depth))
    decreases |es| - i
  {
    hide EncodeValue, EncodeKey, Separator;
    if i < |es| { MembersNested(cfg, h, es, i + 1, depth); }
  }

  /** In the absence of other errors, the only one is excessive nesting. */
  lemma {:induction false} OnlyNestingFails(cfg: Config, h: Heap, v: Value, depth: int)
    requires Plain(cfg, v) && AllClean(cfg, h, v) && depth <= cfg.maxDepth
    ensures DoneOrNested(cfg, EncodeValue(cfg, h, v, depth))
    decreases cfg.maxDepth - depth
  {
    hide *;
    if v.VTable? {
      var es, shape := EntriesOf(h, v.id), ShapeOf(cfg, EntriesOf(h, v.id));
      PathsOfTable(cfg, h, v.id, 0);
      CleanFacts(cfg, h, v.id);
      if depth + 1 <= cfg.maxDepth {
        forall k | 0 <= k < |es|
          ensures DoneOrNested(cfg, EncodeValue(cfg, h, es[k].1, depth + 1))
        {
          OnlyNestingFails(cfg, h, es[k].1, depth + 1);
        }
        GotNested(cfg, h, es, depth + 1);
        ItemsNested(cfg, h, es, 1, if shape.Array? then shape.n else 0, depth + 1);
        MembersNested(cfg, h, es, 0, depth + 1);
      }
      TableNested(cfg, h, v.id, depth);
    } else {
      OthersNested(cfg, h, v, depth);
    }
  }

  lemma CleanFacts(cfg: Config, h: Heap, id: nat)
    requires Clean(cfg, h, id)
    ensures var es := EntriesOf(h, id);
      !ShapeOf(cfg, es).Sparse? && forall k :: 0 <= k < |es| ==> EncodeKey(cfg, es[k].0).Done? && Plain(cfg, es[k].1)
  {
  }

  lemma GotNested(cfg: Config, h: Heap, es: Entries, depth: int)
    requires forall k :: 0 <= k < |es| ==> DoneOrNested(cfg, EncodeValue(cfg, h, es[k].1, depth))
    ensures forall j :: DoneOrNested(cfg, EncodeValue(cfg, h, RawGet(es, j), depth))
  {
    OthersNested(cfg, h, VNil, depth);
    hide EncodeValue, RawGet, DoneOrNested;
    forall j
      ensures DoneOrNested(cfg, EncodeValue(cfg, h, RawGet(es, j), depth))
    {
      RawGetFinds(es, j);
    }
  }

  lemma OthersNested(cfg: Config, h: Heap, v: Value, depth: int)
    requires Plain(cfg, v) && !v.VTable?
    ensures DoneOrNested(cfg, EncodeValue(cfg, h, v, depth))
  {
  }

  lemma TableNested(cfg: Config, h: Heap, id: nat, depth: int)
    requires !ShapeOf(cfg, EntriesOf(h, id)).Sparse? && depth <= cfg.maxDepth
    requires depth + 1 <= cfg.maxDepth ==>
      var es, shape := EntriesOf(h, id), ShapeOf(cfg, EntriesOf(h, id));
      && DoneOrNested(cfg, EncodeItems(cfg, h, es, 1, if shape.Array? then shape.n else 0, depth + 1))
      && DoneOrNested(cfg, EncodeMembers(cfg, h, es, 0, depth + 1))
    ensures DoneOrNested(cfg, EncodeValue(cfg, h, VTable(id), depth))
  {
    hide ShapeOf, EncodeItems, EncodeMembers, EntriesOf;
  }

  /**
   In the absence of other errors, encoding fails exactly if a path is longer
   than encode_max_depth, and then with the error that says so.
   */
  lemma NestingDecides(cfg: Config, h: Heap, v: Value)
    requires WellFormed(h) && cfg.maxDepth >= 0 && Plain(cfg, v) && AllClean(cfg, h, v)
    ensures if AllShort(h, v, cfg.maxDepth) then EncodeValue(cfg, h, v, 0).Done?
            else EncodeValue(cfg, h, v, 0) == TooNested(cfg.maxDepth + 1)
  {
    hide EncodeValue, AllShort, AllClean, Plain;
    SucceedsExactly(cfg, h, v, 0);
    OnlyNestingFails(cfg, h, v, 0);
  }

  // ----- Cycles -----

  /** Going round a cycle once more gives a longer path. */
  lemma {:induction false} GoRound(h: Heap, v: Value, p: seq<nat>, i: nat, n: nat) returns (q: seq<nat>)
    requires Path(h, v, p) && i < |p| - 1 && p[i] == p[|p| - 1]
    ensures Path(h, v, q) && |q| >= |p| + n && q[|q| - 1] == p[i]
  {
    if n == 0 {
      q := p;
    } else {
      var r := GoRound(h, v, p, i, n - 1);
      q := r + p[i + 1..];
      forall k | 0 <= k < |q| - 1
        ensures Child(h, q[k], q[k + 1])
      {
        if k < |r| - 1 {
          assert Child(h, r[k], r[k + 1]);
        } else {
          var j := i + (k - (|r| - 1));
          assert q[k] == p[j] && q[k + 1] == p[j + 1];
          assert Child(h, p[j], p[j + 1]);
        }
      }
    }
  }

  /** A value from which a cycle can be reached is refused, whatever the depth allowed. */
  lemma CyclesAreRefused(cfg: Config, h: Heap, v: Value, depth: int, p: seq<nat>, i: nat)
    requires WellFormed(h) && Path(h, v, p) && i < |p| - 1 && p[i] == p[|p| - 1]
    ensures !EncodeValue(cfg, h, v, depth).Done?
  {
    hide EncodeValue, AllClean, Plain, Path, WellFormed;
    SucceedsExactly(cfg, h, v, depth);
    var q := GoRound(h, v, p, i, if cfg.maxDepth > depth then cfg.maxDepth - depth else 0);
  }
}
