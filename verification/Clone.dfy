/**
 The deep copy of a table graph. Tables live in an explicit heap, so that
 sharing, cycles and tables as keys are all visible.
 */
module Clone {
  import opened Lua
  import opened Wrappers

  /** A table: its entries, and its metatable if it has one. */
  datatype Table = Table(entries: map<Value, Value>, meta: Option<nat>)

  type Heap = map<nat, Table>

  ghost predicate Known(h: Heap, v: Value) {
    v.VTable? ==> v.id in h
  }

  /** No entry refers to a table that does not exist. */
  ghost predicate Closed(h: Heap) {
    forall id, k :: id in h && k in h[id].entries ==> Known(h, k) && Known(h, h[id].entries[k])
  }

  // ----- The correspondence between tables and their copies -----

  type Copies = map<nat, nat>

  function Image(f: Copies, v: Value): Value {
    if v.VTable? && v.id in f then VTable(f[v.id]) else v
  }

  ghost predicate Injective(f: Copies) {
    forall a, b :: a in f && b in f && f[a] == f[b] ==> a == b
  }

  ghost predicate Covers(f: Copies, v: Value) {
    v.VTable? ==> v.id in f
  }

  ghost function Images(f: Copies, ks: set<Value>): set<Value> {
    set k | k in ks :: Image(f, k)
  }

  ghost predicate EntryCopied(f: Copies, es: map<Value, Value>, ns: map<Value, Value>, k: Value) {
    && k in es && Covers(f, k) && Covers(f, es[k])
    && Image(f, k) in ns && ns[Image(f, k)] == Image(f, es[k])
  }

  /** The entries ns are the images of those entries of es whose keys are in ks, and nothing else. */
  ghost predicate EntriesCopied(f: Copies, es: map<Value, Value>, ks: set<Value>, ns: map<Value, Value>) {
    && ns.Keys == Images(f, ks)
    && forall k :: k in ks ==> EntryCopied(f, es, ns, k)
  }

  /** The table n is the image of t, with the same metatable. */
  ghost predicate IsCopy(f: Copies, t: Table, n: Table) {
    EntriesCopied(f, t.entries, t.entries.Keys, n.entries) && n.meta == t.meta
  }

  ghost predicate Extends(f: Copies, g: Copies) {
    forall id :: id in f ==> id in g && g[id] == f[id]
  }

  lemma ImagesStay(f: Copies, g: Copies, ks: set<Value>)
    requires Extends(f, g) && forall k :: k in ks ==> Covers(f, k)
    ensures Images(g, ks) == Images(f, ks)
  {
    assert forall k :: k in ks ==> Image(g, k) == Image(f, k);
  }

  lemma CopiedStays(f: Copies, g: Copies, es: map<Value, Value>, ks: set<Value>, ns: map<Value, Value>)
    requires EntriesCopied(f, es, ks, ns) && Extends(f, g)
    ensures EntriesCopied(g, es, ks, ns)
  {
    hide Images;
    forall k | k in ks
      ensures EntryCopied(g, es, ns, k) && Covers(f, k)
    {
      assert EntryCopied(f, es, ns, k);
    }
    ImagesStay(f, g, ks);
  }

  lemma CopiesStay(f: Copies, g: Copies, t: Table, n: Table)
    requires IsCopy(f, t, n) && Extends(f, g)
    ensures IsCopy(g, t, n)
  {
    CopiedStays(f, g, t.entries, t.entries.Keys, n.entries);
  }

  /** Different values have different images. */
  lemma ImagesDiffer(f: Copies, a: Value, b: Value)
    requires Injective(f) && Covers(f, a) && Covers(f, b) && Image(f, a) == Image(f, b)
    ensures a == b
  {
  }

  lemma OneMore(f: Copies, es: map<Value, Value>, ks: set<Value>, ns: map<Value, Value>, k: Value)
    requires Injective(f) && EntriesCopied(f, es, ks, ns) && k in es && Covers(f, k) && Covers(f, es[k]) && k !in ks
    ensures EntriesCopied(f, es, ks + {k}, ns[Image(f, k) := Image(f, es[k])])
  {
    var ns' := ns[Image(f, k) := Image(f, es[k])];
    assert Images(f, ks + {k}) == Images(f, ks) + {Image(f, k)};
    hide Images, Injective, Image;
    forall j | j in ks + {k}
      ensures EntryCopied(f, es, ns', j)
    {
      if j != k {
        assert EntryCopied(f, es, ns, j);
        if Image(f, j) == Image(f, k) { ImagesDiffer(f, j, k); }
      }
    }
  }

  // ----- Reachability -----

  /** id2 is a key or a value in the table id. */
  ghost predicate Refers(h: Heap, id: nat, id2: nat) {
    id in h && exists k :: k in h[id].entries && (k == VTable(id2) || h[id].entries[k] == VTable(id2))
  }

  ghost predicate IsPath(h: Heap, p: seq<nat>) {
    |p| > 0 && forall i :: 0 <= i < |p| - 1 ==> Refers(h, p[i], p[i + 1])
  }

  ghost predicate Reachable(h: Heap, v: Value, id: nat) {
    exists p :: IsPath(h, p) && v == VTable(p[0]) && p[|p| - 1] == id
  }

  lemma ReachesItself(h: Heap, id: nat)
    ensures Reachable(h, VTable(id), id)
  {
    assert IsPath(h, [id]);
    assert [id][|[id]| - 1] == id;
  }

  /** What an entry of a table reaches, the table reaches. */
  lemma ReachesThrough(h: Heap, id: nat, v: Value, id2: nat)
    requires v.VTable? && Refers(h, id, v.id) && Reachable(h, v, id2)
    ensures Reachable(h, VTable(id), id2)
  {
    var p :| IsPath(h, p) && v == VTable(p[0]) && p[|p| - 1] == id2;
    var q := [id] + p;
    forall i | 0 <= i < |q| - 1
      ensures Refers(h, q[i], q[i + 1])
    {
      if i > 0 { assert Refers(h, p[i - 1], p[i]); }
    }
    assert q[|q| - 1] == id2;
  }

  /** A set of tables that contains all that its members refer to contains whatever a path from it reaches. */
  lemma {:induction false} StaysWithin(h: Heap, p: seq<nat>, s: set<nat>)
    requires IsPath(h, p) && p[0] in s
    requires forall a, b :: a in s && Refers(h, a, b) ==> b in s
    ensures p[|p| - 1] in s
    decreases |p|
  {
    if |p| > 1 {
      var q := p[1..];
      forall i | 0 <= i < |q| - 1
        ensures Refers(h, q[i], q[i + 1])
      {
        assert Refers(h, p[i + 1], p[i + 2]);
      }
      assert Refers(h, p[0], p[1]);
      StaysWithin(h, q, s);
    }
  }

  // ----- The state of a run -----

  /** The heap, the next reference that is free, and lookup_table. */
  datatype State = State(heap: Heap, next: nat, lookup: Copies)

  ghost predicate Inv(orig: Heap, s: State) {
    && Closed(orig)
    && (forall id :: id in orig ==> id in s.heap && s.heap[id] == orig[id])
    && (forall id :: id in s.heap ==> id < s.next)
    && (forall id :: id in s.lookup ==> id in orig && s.lookup[id] in s.heap && s.lookup[id] !in orig)
    && Injective(s.lookup)
  }

  /** Tables that exist stay as they are, except perhaps n; and so do the copies in lookup_table. */
  ghost predicate KeptBut(s: State, t: State, n: int) {
    && (forall x :: x in s.heap ==> x in t.heap && (x != n ==> t.heap[x] == s.heap[x]))
    && Extends(s.lookup, t.lookup)
  }

  /** The copy of the table id is finished. */
  ghost predicate Finished(orig: Heap, s: State, id: nat) {
    id in s.lookup && id in orig && s.lookup[id] in s.heap && IsCopy(s.lookup, orig[id], s.heap[s.lookup[id]])
  }

  /** Whatever was begun between s and t, except for `except`, is finished, and is reachable from v. */
  ghost predicate NewFinished(orig: Heap, s: State, t: State, v: Value, except: int) {
    forall id :: id in t.lookup && id !in s.lookup && id != except ==> Finished(orig, t, id) && Reachable(orig, v, id)
  }

  /** Between s and t only the copy n of `open` was changed, and the rest is finished. */
  ghost predicate Step(orig: Heap, s: State, t: State, v: Value, open: int, n: int) {
    && Inv(orig, s) && Inv(orig, t) && KeptBut(s, t, n) && NewFinished(orig, s, t, v, open)
    && (open >= 0 ==> open in t.lookup && t.lookup[open] == n)
    && (open < 0 ==> n < 0)
  }

  lemma StaysFinished(orig: Heap, s: State, t: State, id: nat, open: int, n: int)
    requires Finished(orig, s, id) && Inv(orig, s) && Inv(orig, t) && KeptBut(s, t, n) && id != open
    requires if open >= 0 then open in t.lookup && t.lookup[open] == n else n < 0
    ensures Finished(orig, t, id)
  {
    hide IsCopy, Closed;
    CopiesStay(s.lookup, t.lookup, orig[id], s.heap[s.lookup[id]]);
  }

  lemma {:induction false} StepsChain(orig: Heap, s: State, t: State, u: State, v: Value, open: int, n: int)
    requires Step(orig, s, t, v, open, n) && Step(orig, t, u, v, open, n)
    ensures Step(orig, s, u, v, open, n)
  {
    hide Finished, Reachable, Inv;
    forall id | id in u.lookup && id !in s.lookup && id != open
      ensures Finished(orig, u, id) && Reachable(orig, v, id)
    {
      if id in t.lookup { StaysFinished(orig, t, u, id, open, n); }
    }
  }

  /** What was done for the sake of an entry counts as done for the sake of the table. */
  lemma StepForEntry(orig: Heap, s: State, t: State, w: Value, id: nat, n: nat)
    requires Step(orig, s, t, w, -1, -1) && (w.VTable? ==> Refers(orig, id, w.id))
    requires id in s.lookup && s.lookup[id] == n
    ensures Step(orig, s, t, VTable(id), id, n) && n in s.heap && t.heap[n] == s.heap[n]
    ensures id in t.lookup && t.lookup[id] == n
  {
    hide Finished, Refers, Reachable;
    forall id2 | id2 in t.lookup && id2 !in s.lookup
      ensures Reachable(orig, VTable(id), id2)
    {
      if w.VTable? { ReachesThrough(orig, id, w, id2); } else { ReachesNothing(orig, w, id2); }
    }
  }

  lemma ReachesNothing(h: Heap, v: Value, id: nat)
    requires !v.VTable?
    ensures !Reachable(h, v, id)
  {
  }

  lemma NoStep(orig: Heap, s: State, v: Value)
    requires Inv(orig, s)
    ensures Step(orig, s, s, v, -1, -1)
  {
  }

  /** A change to the open copy. */
  lemma WriteStep(orig: Heap, s: State, v: Value, id: nat, n: nat, table: Table)
    requires Inv(orig, s) && id in s.lookup && s.lookup[id] == n
    ensures Step(orig, s, s.(heap := s.heap[n := table]), v, id, n)
  {
  }

  /** A new, empty table is entered as the copy of id. */
  lemma NewStep(orig: Heap, s: State, v: Value, id: nat)
    requires Inv(orig, s) && id in orig && id !in s.lookup
    ensures var s' := State(s.heap[s.next := Table(map[], None)], s.next + 1, s.lookup[id := s.next]);
      Step(orig, s, s', v, id, s.next)
  {
    hide Closed, Finished, Reachable;
  }

  /** When the open copy is finished as well, nothing is open any more, and no table that existed before has changed. */
  lemma Closes(orig: Heap, s: State, t: State, id: nat, n: nat)
    requires Step(orig, s, t, VTable(id), id, n) && n !in s.heap && id !in s.lookup && Finished(orig, t, id)
    ensures Step(orig, s, t, VTable(id), -1, -1)
  {
    hide Finished, Reachable, Inv;
    ReachesItself(orig, id);
  }

  lemma NothingCopied(f: Copies, es: map<Value, Value>)
    ensures EntriesCopied(f, es, {}, map[])
  {
  }

  lemma EntriesKnown(orig: Heap, id: nat, k: Value)
    requires Closed(orig) && id in orig && k in orig[id].entries
    ensures Known(orig, k) && (k.VTable? ==> Refers(orig, id, k.id))
    ensures var w := orig[id].entries[k]; Known(orig, w) && (w.VTable? ==> Refers(orig, id, w.id))
  {
  }

  // ----- The code -----

  class Cloner {
    /** The heap when clone was called. */
    ghost const orig: Heap
    var heap: Heap
    var next: nat
    var lookup: Copies

    function Now(): State
      reads this
    {
      State(heap, next, lookup)
    }

    constructor (h: Heap, next: nat)
      requires Closed(h) && forall id :: id in h ==> id < next
      ensures orig == h && heap == h && lookup == map[] && Inv(orig, Now())
    {
      orig := h;
      heap := h;
      this.next := next;
      lookup := map[];
    }

    /** _copy: the image of v, with all copies that were begun on the way finished. */
    method Copy(v: Value) returns (r: Value)
      requires Inv(orig, Now()) && Known(orig, v)
      modifies this
      ensures Step(orig, old(Now()), Now(), v, -1, -1)
      ensures Covers(lookup, v) && r == Image(lookup, v)
      decreases orig.Keys - lookup.Keys, 1
    {
      hide IsCopy, EntriesCopied, Closed, NewFinished, Finished, Injective, KeptBut;
      NoStep(orig, Now(), v);
      if !v.VTable? { return v; }
      if v.id in lookup { return VTable(lookup[v.id]); }
      var n := CopyTable(v.id);
      r := VTable(n);
    }

    /** A table that has not been met: its copy is entered first, then filled, and gets its metatable last. */
    method CopyTable(id: nat) returns (n: nat)
      requires Inv(orig, Now()) && id in orig && id !in lookup
      modifies this
      ensures Step(orig, old(Now()), Now(), VTable(id), -1, -1) && id in lookup && lookup[id] == n
      decreases orig.Keys - lookup.Keys, 0
    {
      hide IsCopy, EntriesCopied, Closed, NewFinished, Finished, Injective, KeptBut, Inv;
      ghost var v := VTable(id);
      NewStep(orig, Now(), v, id);
      n := next;
      next := next + 1;
      heap := heap[n := Table(map[], None)];
      lookup := lookup[id := n];
      ghost var was := Now();
      CopyEntries(id, n);
      StepsChain(orig, old(Now()), was, Now(), v, id, n);
      was := Now();
      OriginalStays(orig, was, id);
      WriteStep(orig, was, v, id, n, heap[n].(meta := heap[id].meta));
      heap := heap[n := heap[n].(meta := heap[id].meta)];
      StepsChain(orig, old(Now()), was, Now(), v, id, n);
      IsFinished(orig, Now(), id);
      NextIsFree(orig, old(Now()));
      Closes(orig, old(Now()), Now(), id, n);
    }

    /** The entries of the table id go into its copy n, in any order. */
    method CopyEntries(id: nat, n: nat)
      requires Inv(orig, Now()) && id in lookup && lookup[id] == n && heap[n] == Table(map[], None)
      modifies this
      ensures Step(orig, old(Now()), Now(), VTable(id), id, n) && n in heap && heap[n].meta == None
      ensures EntriesCopied(lookup, orig[id].entries, orig[id].entries.Keys, heap[n].entries)
      decreases orig.Keys - lookup.Keys, 3
    {
      hide IsCopy, EntriesCopied, Closed, NewFinished, Finished, Injective;
      ghost var es := orig[id].entries;
      ghost var done: set<Value> := {};
      NothingCopied(lookup, es);
      WriteStep(orig, Now(), VTable(id), id, n, heap[n]);
      assert heap[n := heap[n]] == heap;
      var todo := heap[id].entries.Keys;
      while todo != {}
        invariant Step(orig, old(Now()), Now(), VTable(id), id, n)
        invariant n in heap && heap[n].meta == None && id in lookup && lookup[id] == n
        invariant todo + done == es.Keys && todo !! done
        invariant EntriesCopied(lookup, es, done, heap[n].entries)
        decreases todo
      {
        var key :| key in todo;
        ghost var was := Now();
        CopyEntry(id, n, key, done);
        StepsChain(orig, old(Now()), was, Now(), VTable(id), id, n);
        todo, done := todo - {key}, done + {key};
      }
      assert done == es.Keys;
    }

    /** One entry of the table id goes into its copy n. */
    method CopyEntry(id: nat, n: nat, key: Value, ghost done: set<Value>)
      requires Inv(orig, Now()) && id in lookup && lookup[id] == n && key in orig[id].entries && key !in done
      requires heap[n].meta == None && EntriesCopied(lookup, orig[id].entries, done, heap[n].entries)
      modifies this
      ensures Step(orig, old(Now()), Now(), VTable(id), id, n) && n in heap && heap[n].meta == None
      ensures EntriesCopied(lookup, orig[id].entries, done + {key}, heap[n].entries)
      decreases orig.Keys - lookup.Keys, 2
    {
      hide IsCopy, EntriesCopied, NewFinished, Finished, Closed, Inv, Step, KeptBut, Extends, Images, Image, Injective,
           Covers, Known, Refers;
      InvFacts(orig, Now(), id);
      EntriesKnown(orig, id, key);
      var value := heap[id].entries[key];
      var k := Copy(key);
      StepForEntry(orig, old(Now()), Now(), key, id, n);
      StepFacts(orig, old(Now()), Now(), VTable(id), id, n);
      ghost var was := Now();
      var w := Copy(value);
      StepForEntry(orig, was, Now(), value, id, n);
      StepFacts(orig, was, Now(), VTable(id), id, n);
      StepsChain(orig, old(Now()), was, Now(), VTable(id), id, n);
      StepFacts(orig, old(Now()), Now(), VTable(id), id, n);
      CopiedStays(old(lookup), lookup, orig[id].entries, done, heap[n].entries);
      StillCovered(was.lookup, lookup, key);
      OneMore(lookup, orig[id].entries, done, heap[n].entries, key);
      was := Now();
      WriteStep(orig, was, VTable(id), id, n, heap[n].(entries := heap[n].entries[k := w]));
      heap := heap[n := heap[n].(entries := heap[n].entries[k := w])];
      StepsChain(orig, old(Now()), was, Now(), VTable(id), id, n);
    }
  }

  lemma InvFacts(orig: Heap, s: State, id: nat)
    requires Inv(orig, s) && id in s.lookup
    ensures Closed(orig) && Injective(s.lookup) && id in orig && id in s.heap && s.heap[id] == orig[id]
    ensures s.lookup[id] in s.heap
  {
  }

  lemma StepFacts(orig: Heap, s: State, t: State, v: Value, open: int, n: int)
    requires Step(orig, s, t, v, open, n)
    ensures Inv(orig, t) && Extends(s.lookup, t.lookup) && Injective(t.lookup)
    ensures forall x :: x in s.heap ==> x in t.heap
  {
  }

  lemma StillCovered(f: Copies, g: Copies, v: Value)
    requires Extends(f, g) && Covers(f, v)
    ensures Covers(g, v) && Image(g, v) == Image(f, v)
  {
  }

  lemma OriginalStays(orig: Heap, s: State, id: nat)
    requires Inv(orig, s) && id in orig
    ensures id in s.heap && s.heap[id] == orig[id]
  {
  }

  lemma NextIsFree(orig: Heap, s: State)
    requires Inv(orig, s)
    ensures s.next !in s.heap
  {
  }

  lemma IsFinished(orig: Heap, s: State, id: nat)
    requires id in s.lookup && id in orig && s.lookup[id] in s.heap
    requires EntriesCopied(s.lookup, orig[id].entries, orig[id].entries.Keys, s.heap[s.lookup[id]].entries)
    requires s.heap[s.lookup[id]].meta == orig[id].meta
    ensures Finished(orig, s, id)
  {
  }

  // ----- The main results -----

  /**
   The heap h2 holds, besides all of h as it was, a copy of exactly the tables
   that v reaches: one fresh table for each, and f says which; r is the image of v.
   */
  ghost predicate IsClone(h: Heap, h2: Heap, f: Copies, v: Value, r: Value) {
    && (forall id :: id in h ==> id in h2 && h2[id] == h[id])
    && Injective(f) && r == Image(f, v)
    && (forall id :: id in f <==> Reachable(h, v, id))
    && (forall id :: id in f ==> id in h && f[id] in h2 && f[id] !in h && IsCopy(f, h[id], h2[f[id]]))
  }

  lemma CopiesAreClosed(f: Copies, h: Heap, h2: Heap, a: nat, b: nat)
    requires a in f && a in h && f[a] in h2 && IsCopy(f, h[a], h2[f[a]]) && Refers(h, a, b)
    ensures b in f
  {
    var k :| k in h[a].entries && (k == VTable(b) || h[a].entries[k] == VTable(b));
    assert EntryCopied(f, h[a].entries, h2[f[a]].entries, k);
  }

  lemma AllReached(orig: Heap, s: State, v: Value, id: nat)
    requires Covers(s.lookup, v) && Reachable(orig, v, id) && forall a :: a in s.lookup ==> Finished(orig, s, a)
    ensures id in s.lookup
  {
    hide IsCopy, Refers;
    var p :| IsPath(orig, p) && v == VTable(p[0]) && p[|p| - 1] == id;
    forall a, b | a in s.lookup.Keys && Refers(orig, a, b)
      ensures b in s.lookup.Keys
    {
      assert Finished(orig, s, a);
      CopiesAreClosed(s.lookup, orig, s.heap, a, b);
    }
    StaysWithin(orig, p, s.lookup.Keys);
  }

  /** clone, on any table graph: it ends, changes nothing that was there, and returns the root of the copy. */
  method Clone(h: Heap, next: nat, root: Value) returns (h2: Heap, r: Value)
    requires Closed(h) && Known(h, root) && forall id :: id in h ==> id < next
    ensures exists f :: IsClone(h, h2, f, root, r)
  {
    hide IsCopy, Reachable, Closed;
    var c := new Cloner(h, next);
    r := c.Copy(root);
    h2 := c.heap;
    forall id | Reachable(h, root, id)
      ensures id in c.lookup
    {
      AllReached(h, c.Now(), root, id);
    }
    assert forall id :: id in c.lookup ==> Finished(h, c.Now(), id);
    assert IsClone(h, h2, c.lookup, root, r);
  }

  /** Where a sequence of keys leads from a value. */
  function Follow(h: Heap, v: Value, ks: seq<Value>): Option<Value>
    decreases |ks|
  {
    if ks == [] then Some(v)
    else if v.VTable? && v.id in h && ks[0] in h[v.id].entries then Follow(h, h[v.id].entries[ks[0]], ks[1..])
    else None
  }

  function ImagesOf(f: Copies, ks: seq<Value>): (r: seq<Value>)
    ensures |r| == |ks| && forall i :: 0 <= i < |ks| ==> r[i] == Image(f, ks[i])
  {
    seq(|ks|, i requires 0 <= i < |ks| => Image(f, ks[i]))
  }

  /** A key is in a copy exactly if its original is in the original. */
  lemma SameKeys(h: Heap, h2: Heap, f: Copies, v: Value, r: Value, id: nat, k: Value)
    requires IsClone(h, h2, f, v, r) && id in f && Known(h, k)
    ensures k in h[id].entries <==> Image(f, k) in h2[f[id]].entries
    ensures k in h[id].entries ==>
      Covers(f, h[id].entries[k]) && h2[f[id]].entries[Image(f, k)] == Image(f, h[id].entries[k])
  {
    var es, ns := h[id].entries, h2[f[id]].entries;
    assert IsCopy(f, h[id], h2[f[id]]);
    if k in es {
      assert EntryCopied(f, es, ns, k);
    } else if Image(f, k) in ns {
      var j :| j in es.Keys && Image(f, j) == Image(f, k);
      assert EntryCopied(f, es, ns, j);
      if Covers(f, k) { ImagesDiffer(f, j, k); }
    }
  }

  /** The same keys lead from the clone to the image of where they lead from the original. */
  lemma {:induction false} SameWalks(h: Heap, h2: Heap, f: Copies, v: Value, r: Value, w: Value, ks: seq<Value>)
    requires IsClone(h, h2, f, v, r) && Covers(f, w) && forall i :: 0 <= i < |ks| ==> Known(h, ks[i])
    ensures match Follow(h, w, ks)
      case None => Follow(h2, Image(f, w), ImagesOf(f, ks)) == None
      case Some(x) => Covers(f, x) && Follow(h2, Image(f, w), ImagesOf(f, ks)) == Some(Image(f, x))
    decreases |ks|
  {
    if ks != [] && w.VTable? {
      SameKeys(h, h2, f, v, r, w.id, ks[0]);
      assert ImagesOf(f, ks)[1..] == ImagesOf(f, ks[1..]);
      if ks[0] in h[w.id].entries {
        hide IsClone;
        SameWalks(h, h2, f, v, r, h[w.id].entries[ks[0]], ks[1..]);
      }
    }
  }

  lemma RootIsCovered(h: Heap, h2: Heap, f: Copies, v: Value, r: Value)
    requires IsClone(h, h2, f, v, r)
    ensures Covers(f, v)
  {
    if v.VTable? { ReachesItself(h, v.id); }
  }

  /**
   Sharing and cycles are kept, and none are added: two walks meet in the clone
   exactly if they meet in the original.
   */
  lemma {:induction false} SharingIsKept(h: Heap, h2: Heap, f: Copies, v: Value, r: Value, ks: seq<Value>,
                                         js: seq<Value>)
    requires IsClone(h, h2, f, v, r)
    requires forall i :: 0 <= i < |ks| ==> Known(h, ks[i])
    requires forall i :: 0 <= i < |js| ==> Known(h, js[i])
    ensures Follow(h, v, ks) == Follow(h, v, js) <==> Follow(h2, r, ImagesOf(f, ks)) == Follow(h2, r, ImagesOf(f, js))
  {
    RootIsCovered(h, h2, f, v, r);
    SameWalks(h, h2, f, v, r, v, ks);
    SameWalks(h, h2, f, v, r, v, js);
    hide Follow, Reachable, IsCopy;
  }

  /** Every key of a copy is the image of a key. */
  lemma KeysOfCopy(h: Heap, h2: Heap, f: Copies, v: Value, r: Value, id: nat, n: Value) returns (k: Value)
    requires IsClone(h, h2, f, v, r) && id in f && n in h2[f[id]].entries
    ensures k in h[id].entries && Image(f, k) == n && Covers(f, k) && Covers(f, h[id].entries[k])
    ensures h2[f[id]].entries[n] == Image(f, h[id].entries[k])
  {
    hide Reachable;
    var es, ns := h[id].entries, h2[f[id]].entries;
    assert IsCopy(f, h[id], h2[f[id]]);
    assert n in Images(f, es.Keys);
    k :| k in es.Keys && Image(f, k) == n;
    assert EntryCopied(f, es, ns, k);
  }

  /** No walk in the clone is anything but the image of a walk in the original. */
  lemma {:induction false} NoOtherWalks(h: Heap, h2: Heap, f: Copies, v: Value, r: Value, w: Value, js: seq<Value>)
    returns (ks: seq<Value>)
    requires IsClone(h, h2, f, v, r) && Covers(f, w) && Follow(h2, Image(f, w), js).Some?
    ensures js == ImagesOf(f, ks) && Follow(h, w, ks).Some?
    decreases |js|
  {
    hide IsClone;
    if js == [] {
      ks := [];
    } else {
      IsTable(h, h2, f, v, r, w);
      var k := KeysOfCopy(h, h2, f, v, r, w.id, js[0]);
      var rest := NoOtherWalks(h, h2, f, v, r, h[w.id].entries[k], js[1..]);
      ks := [k] + rest;
      assert ks[1..] == rest && js == [js[0]] + js[1..];
    }
  }

  lemma IsTable(h: Heap, h2: Heap, f: Copies, v: Value, r: Value, w: Value)
    requires IsClone(h, h2, f, v, r) && Covers(f, w)
    ensures w.VTable? ==> w.id in f && w.id in h && f[w.id] in h2 && f[w.id] !in h && Image(f, w) == VTable(f[w.id])
    ensures !w.VTable? ==> Image(f, w) == w
  {
    hide Reachable, IsCopy;
  }

  lemma {:induction false} ImagesSize(f: Copies, ks: set<Value>)
    requires Injective(f) && forall k :: k in ks ==> Covers(f, k)
    ensures |Images(f, ks)| == |ks|
    decreases |ks|
  {
    hide Injective, Image, Covers;
    if ks == {} {
      assert Images(f, ks) == {};
    } else {
      var k :| k in ks;
      ImagesSize(f, ks - {k});
      assert Images(f, ks) == Images(f, ks - {k}) + {Image(f, k)};
      if Image(f, k) in Images(f, ks - {k}) {
        var j :| j in ks - {k} && Image(f, j) == Image(f, k);
        ImagesDiffer(f, j, k);
        assert false;
      }
    }
  }

  /** A copy has as many entries as its original, and the same metatable. */
  lemma SameSizeAndMeta(h: Heap, h2: Heap, f: Copies, v: Value, r: Value, id: nat)
    requires IsClone(h, h2, f, v, r) && id in f
    ensures |h2[f[id]].entries| == |h[id].entries| && h2[f[id]].meta == h[id].meta
  {
    hide Reachable;
    assert IsCopy(f, h[id], h2[f[id]]);
    var es := h[id].entries;
    forall k | k in es.Keys
      ensures Covers(f, k)
    {
      assert EntryCopied(f, es, h2[f[id]].entries, k);
    }
    ImagesSize(f, es.Keys);
    assert |h2[f[id]].entries.Keys| == |h2[f[id]].entries| && |es.Keys| == |es|;
  }

  lemma {:induction false} PlainKeysStay(f: Copies, ks: seq<Value>)
    requires forall i :: 0 <= i < |ks| ==> !ks[i].VTable?
    ensures ImagesOf(f, ks) == ks
  {
  }

  /**
   Along keys that are no tables, the clone leads to the same value as the
   original; or to a new table of the same size and with the same metatable,
   where the original leads to a table; or nowhere, where the original does.
   */
  lemma {:induction false} PlainWalks(h: Heap, h2: Heap, f: Copies, v: Value, r: Value, ks: seq<Value>)
    requires IsClone(h, h2, f, v, r) && forall i :: 0 <= i < |ks| ==> !ks[i].VTable?
    ensures match Follow(h, v, ks)
      case None => Follow(h2, r, ks) == None
      case Some(VTable(x)) =>
        && x in h && Follow(h2, r, ks).Some? && Follow(h2, r, ks).value.VTable?
        && var y := Follow(h2, r, ks).value.id;
        && y in h2 && y !in h && |h2[y].entries| == |h[x].entries| && h2[y].meta == h[x].meta
      case Some(x) => Follow(h2, r, ks) == Some(x)
  {
    hide Follow, Reachable, IsCopy;
    RootIsCovered(h, h2, f, v, r);
    PlainKeysStay(f, ks);
    SameWalks(h, h2, f, v, r, v, ks);
    if Follow(h, v, ks).Some? {
      var x := Follow(h, v, ks).value;
      IsTable(h, h2, f, v, r, x);
      if x.VTable? { SameSizeAndMeta(h, h2, f, v, r, x.id); }
    }
  }

  /** Nothing that was there before can be reached from the clone of a table, so that no write to the clone shows. */
  lemma CloneIsApart(h: Heap, h2: Heap, f: Copies, v: Value, r: Value, x: nat)
    requires IsClone(h, h2, f, v, r) && Covers(f, v) && Reachable(h2, r, x)
    ensures x !in h
  {
    var p :| IsPath(h2, p) && r == VTable(p[0]) && p[|p| - 1] == x;
    var s := set id | id in f :: f[id];
    forall a, b | a in s && Refers(h2, a, b)
      ensures b in s
    {
      var id :| id in f && f[id] == a;
      CopiesRefer(h, h2, f, id, b);
    }
    hide Refers, IsCopy, Reachable;
    StaysWithin(h2, p, s);
  }

  lemma CopiesRefer(h: Heap, h2: Heap, f: Copies, id: nat, b: nat)
    requires id in f && id in h && f[id] in h2 && IsCopy(f, h[id], h2[f[id]]) && Refers(h2, f[id], b)
    ensures exists c :: c in f && f[c] == b
  {
    var ns := h2[f[id]].entries;
    var n :| n in ns && (n == VTable(b) || ns[n] == VTable(b));
    assert n in Images(f, h[id].entries.Keys);
    var k :| k in h[id].entries.Keys && Image(f, k) == n;
    assert EntryCopied(f, h[id].entries, ns, k);
  }
}
