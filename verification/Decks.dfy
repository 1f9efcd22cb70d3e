/**
 The deck of cards. A draw may compute the index 0, which lies before the
 first card: the slot there is a part of the model.
 */
module Decks {
  import opened Wrappers

  /** The cards in the slots 1, 2, ..., and the slot 0. */
  datatype Deck = Deck(cards: seq<int>, slot0: Option<int>)

  const CARDS := 52

  function Pack(n: nat): (s: seq<int>)
    ensures |s| == n && forall k :: 0 <= k < n ==> s[k] == k
  {
    seq(n, k => k)
  }

  /** So many packs, one after the other. */
  function Packs(n: nat): (s: seq<int>)
    ensures |s| == CARDS * n
  {
    if n == 0 then [] else Packs(n - 1) + Pack(CARDS)
  }

  lemma {:induction false} PackHolds(n: nat, c: int)
    ensures multiset(Pack(n))[c] == if 0 <= c < n then 1 else 0
  {
    if n == 0 {
      assert Pack(0) == [];
    } else {
      PackHolds(n - 1, c);
      assert Pack(n) == Pack(n - 1) + [n - 1];
    }
  }

  /** A fresh deck holds each of the 52 cards once for each pack. */
  lemma {:induction false} PacksHold(n: nat, c: int)
    ensures multiset(Packs(n))[c] == if 0 <= c < CARDS then n else 0
  {
    if n > 0 {
      PacksHold(n - 1, c);
      PackHolds(CARDS, c);
    }
  }

  /** A deck is sorted: pack after pack, and in each the cards from 0 on. */
  lemma {:induction false} PacksInOrder(n: nat, k: nat)
    requires k < CARDS * n
    ensures Packs(n)[k] == k % 52
  {
    if k < CARDS * (n - 1) { PacksInOrder(n - 1, k); }
  }

  // ----- Drawing -----

  /** What math.random() may give. */
  type Random = r: real | 0.0 <= r < 1.0

  /** checkint(random * len): rounded to the nearest, from 0 up to len. */
  function IndexOf(random: Random, len: nat): (i: nat)
    ensures i <= len
    ensures random * len as real - 0.5 < i as real <= random * len as real + 0.5
  {
    assert 0.0 <= random * len as real <= len as real;
    (random * len as real + 0.5).Floor
  }

  /** What is drawn at an index, and the deck afterwards: the last card takes the place of the one drawn. */
  function DrawAt(d: Deck, i: nat): (Option<int>, Deck)
    requires i <= |d.cards|
  {
    if d.cards == [] then (None, d)
    else
      var n := |d.cards| - 1;
      if i == 0 then (d.slot0, Deck(d.cards[..n], Some(d.cards[n])))
      else (Some(d.cards[i - 1]), Deck(d.cards[i - 1 := d.cards[n]][..n], d.slot0))
  }

  function Draw(d: Deck, random: Random): (Option<int>, Deck)
  {
    DrawAt(d, IndexOf(random, |d.cards|))
  }

  function AsCards(x: Option<int>): multiset<int> {
    if x.Some? then multiset{x.value} else multiset{}
  }

  /** All the cards that a deck holds, slot 0 included. */
  function Cards(d: Deck): multiset<int> {
    multiset(d.cards) + AsCards(d.slot0)
  }

  /** The card at the index is drawn, and all others but the last stay where they are. */
  lemma DrawTakes(d: Deck, i: nat)
    requires i <= |d.cards| && d.cards != []
    ensures DrawAt(d, i).0 == if i == 0 then d.slot0 else Some(d.cards[i - 1])
    ensures var r := DrawAt(d, i).1;
      && (forall k :: 0 <= k < |d.cards| - 1 && k != i - 1 ==> r.cards[k] == d.cards[k])
      && (i == 0 ==> r.slot0 == Some(d.cards[|d.cards| - 1]))
      && (0 < i < |d.cards| ==> r.cards[i - 1] == d.cards[|d.cards| - 1])
  {
  }

  /** The last element takes the place of the one at j. */
  lemma MoveLast(s: seq<int>, j: nat)
    requires j < |s|
    ensures multiset(s[j := s[|s| - 1]][..|s| - 1]) + multiset{s[j]} == multiset(s)
  {
    var n := |s| - 1;
    var t := s[..n];
    assert s == t + [s[n]];
    if j == n {
      assert s[j := s[n]][..n] == t;
    } else {
      assert t == t[..j] + [s[j]] + t[j + 1..];
      assert s[j := s[n]][..n] == t[..j] + [s[n]] + t[j + 1..];
    }
  }

  lemma TakeLast(s: seq<int>)
    requires s != []
    ensures multiset(s[..|s| - 1]) + multiset{s[|s| - 1]} == multiset(s)
  {
    assert s == s[..|s| - 1] + [s[|s| - 1]];
  }

  lemma CardsAre(cards: seq<int>, slot0: Option<int>)
    ensures Cards(Deck(cards, slot0)) == multiset(cards) + AsCards(slot0)
  {
  }

  lemma DrawnIsKept(d: Deck, i: nat)
    requires 0 < i <= |d.cards|
    ensures AsCards(DrawAt(d, i).0) + Cards(DrawAt(d, i).1) == Cards(d)
  {
    hide Cards, AsCards;
    var n := |d.cards| - 1;
    var rest := d.cards[i - 1 := d.cards[n]][..n];
    assert DrawAt(d, i) == (Some(d.cards[i - 1]), Deck(rest, d.slot0));
    hide *;
    CardIs(d.cards[i - 1]);
    CardsAre(d.cards, d.slot0);
    CardsAre(rest, d.slot0);
    MoveLast(d.cards, i - 1);
    Regroup(multiset{d.cards[i - 1]}, multiset(rest), AsCards(d.slot0));
  }

  lemma SlotIsKept(d: Deck)
    requires d.cards != []
    ensures AsCards(DrawAt(d, 0).0) + Cards(DrawAt(d, 0).1) == Cards(d)
  {
    hide Cards, AsCards;
    var n := |d.cards| - 1;
    assert DrawAt(d, 0) == (d.slot0, Deck(d.cards[..n], Some(d.cards[n])));
    hide *;
    CardIs(d.cards[n]);
    CardsAre(d.cards, d.slot0);
    CardsAre(d.cards[..n], Some(d.cards[n]));
    TakeLast(d.cards);
    Regroup(multiset{}, AsCards(d.slot0), multiset(d.cards));
  }

  /** No card is lost or made by a draw. */
  lemma DrawConserves(d: Deck, i: nat)
    requires i <= |d.cards|
    ensures AsCards(DrawAt(d, i).0) + Cards(DrawAt(d, i).1) == Cards(d)
    ensures d.cards != [] ==> |DrawAt(d, i).1.cards| == |d.cards| - 1
  {
    hide Cards, AsCards;
    if d.cards == [] {
      EmptyDraw(d, i);
      NoCard();
    } else if i > 0 {
      DrawnIsKept(d, i);
    } else {
      SlotIsKept(d);
    }
  }

  lemma CardIs(c: int)
    ensures AsCards(Some(c)) == multiset{c}
  {
  }

  lemma NoCard()
    ensures AsCards(None) == multiset{} && forall m: multiset<int> :: multiset{} + m == m
  {
  }

  lemma Regroup(a: multiset<int>, b: multiset<int>, c: multiset<int>)
    ensures a + (b + c) == (b + a) + c && b + c == c + b && a + multiset{} == a == multiset{} + a
  {
  }

  /** The results of a run of draws, and the deck afterwards. */
  function DrawAll(d: Deck, rs: seq<Random>): (r: (seq<Option<int>>, Deck))
    ensures |r.0| == |rs|
  {
    if rs == [] then ([], d)
    else
      var front := DrawAll(d, rs[..|rs| - 1]);
      var x := Draw(front.1, rs[|rs| - 1]);
      (front.0 + [x.0], x.1)
  }

  function Drawn(xs: seq<Option<int>>): multiset<int> {
    if xs == [] then multiset{} else Drawn(xs[..|xs| - 1]) + AsCards(xs[|xs| - 1])
  }

  function Nils(xs: seq<Option<int>>): nat {
    if xs == [] then 0 else Nils(xs[..|xs| - 1]) + if xs[|xs| - 1].None? then 1 else 0
  }

  lemma DrawnSnoc(xs: seq<Option<int>>, x: Option<int>)
    ensures Drawn(xs + [x]) == Drawn(xs) + AsCards(x)
    ensures Nils(xs + [x]) == Nils(xs) + if x.None? then 1 else 0
  {
    assert (xs + [x])[..|xs|] == xs;
  }

  /** The first draw of the rest, made last. */
  lemma DrawAllSnoc(d: Deck, rs: seq<Random>, r: Random)
    ensures var a, x := DrawAll(d, rs), Draw(DrawAll(d, rs).1, r);
      DrawAll(d, rs + [r]) == (a.0 + [x.0], x.1)
    ensures DrawAll(d, []) == ([], d) && Drawn([]) == multiset{} && Nils([]) == 0
  {
    assert (rs + [r])[..|rs|] == rs;
    hide Draw;
  }

  /** Over any run of draws, the cards drawn and those in the deck are the cards of the deck at the start. */
  lemma {:induction false} RunConserves(d: Deck, rs: seq<Random>)
    ensures var r := DrawAll(d, rs);
      && Drawn(r.0) + Cards(r.1) == Cards(d)
      && |r.1.cards| == if |rs| <= |d.cards| then |d.cards| - |rs| else 0
    decreases |rs|
  {
    hide DrawAll, Drawn, Cards, AsCards, DrawAt, IndexOf;
    DrawAllSnoc(d, [], 0.0);
    if rs != [] {
      var front, random := rs[..|rs| - 1], rs[|rs| - 1];
      assert rs == front + [random];
      RunConserves(d, front);
      DrawAllSnoc(d, front, random);
      var r := DrawAll(d, front);
      var i := IndexOf(random, |r.1.cards|);
      DrawConserves(r.1, i);
      EmptyDraw(r.1, i);
      DrawnSnoc(r.0, DrawAt(r.1, i).0);
    }
  }

  lemma EmptyDraw(d: Deck, i: nat)
    requires i <= |d.cards|
    ensures d.cards == [] ==> DrawAt(d, i) == (None, d)
  {
  }

  /** The product is rounded to 0, the index before the first card. */
  predicate RoundsToZero(random: Random, len: nat) {
    random * len as real < 0.5
  }

  lemma IndexIsZero(random: Random, len: nat)
    ensures IndexOf(random, len) == 0 <==> RoundsToZero(random, len)
  {
    var product := random * len as real;
    var i := IndexOf(random, len);
    assert product - 0.5 < i as real <= product + 0.5;
  }

  /** From a deck with cards, nil is drawn exactly if the index is 0 and slot 0 is empty. */
  lemma NilExactly(d: Deck, random: Random)
    requires d.cards != []
    ensures Draw(d, random).0 == None <==> d.slot0 == None && RoundsToZero(random, |d.cards|)
    ensures RoundsToZero(random, |d.cards|) ==> Draw(d, random).1.slot0.Some?
    ensures !RoundsToZero(random, |d.cards|) ==> Draw(d, random).1.slot0 == d.slot0
  {
    IndexIsZero(random, |d.cards|);
    hide IndexOf, RoundsToZero;
    DrawTakes(d, IndexOf(random, |d.cards|));
  }

  /** The card drawn is the one at the whole number nearest to the product; the last takes its place. */
  lemma {:induction false} DrawsNearest(d: Deck, random: Random, i: int)
    requires d.cards != [] && i >= 1
    requires random * |d.cards| as real - 0.5 < i as real <= random * |d.cards| as real + 0.5
    ensures i <= |d.cards| && Draw(d, random).0 == Some(d.cards[i - 1])
    ensures var r, n := Draw(d, random).1, |d.cards|;
      && |r.cards| == n - 1 && r.slot0 == d.slot0 && (i < n ==> r.cards[i - 1] == d.cards[n - 1])
      && forall k :: 0 <= k < n - 1 && k != i - 1 ==> r.cards[k] == d.cards[k]
  {
    OnlyOneNearest(random * |d.cards| as real, IndexOf(random, |d.cards|), i);
    hide IndexOf;
    DrawTakes(d, i);
  }

  lemma OnlyOneNearest(x: real, i: int, j: int)
    requires x - 0.5 < i as real <= x + 0.5 && x - 0.5 < j as real <= x + 0.5
    ensures i == j
  {
  }

  /** If that number is 0, what is drawn is in slot 0, and the last card goes there. */
  lemma {:induction false} DrawsSlotZero(d: Deck, random: Random)
    requires d.cards != [] && random * |d.cards| as real < 0.5
    ensures Draw(d, random) == (d.slot0, Deck(d.cards[..|d.cards| - 1], Some(d.cards[|d.cards| - 1])))
  {
    IndexIsZero(random, |d.cards|);
    hide IndexOf;
  }

  /** Of an empty deck nothing is drawn. */
  lemma DrawsNothing(d: Deck, random: Random)
    requires d.cards == []
    ensures Draw(d, random) == (None, d)
  {
  }

  /** Every card of a deck may be the next. */
  lemma {:induction false} EveryCardMayCome(d: Deck, k: nat)
    requires k < |d.cards|
    ensures exists random: Random :: Draw(d, random).0 == Some(d.cards[k])
  {
    var n := |d.cards| as real;
    var x := k as real + 0.75;
    QuotientOf(x, n);
    var random: Random := x / n;
    DrawsNearest(d, random, k + 1);
  }

  lemma QuotientOf(x: real, n: real)
    requires 0.0 <= x < n
    ensures 0.0 <= x / n < 1.0 && (x / n) * n == x
  {
  }

  /** Of n cards, so many draws, one of them rounds to 0. */
  ghost predicate SomeRoundsToZero(rs: seq<Random>, n: nat) {
    exists k :: 0 <= k < |rs| && k <= n && RoundsToZero(rs[k], n - k)
  }

  lemma SomeSnoc(rs: seq<Random>, r: Random, n: nat)
    requires |rs| <= n
    ensures SomeRoundsToZero(rs + [r], n) <==> SomeRoundsToZero(rs, n) || RoundsToZero(r, n - |rs|)
    ensures !SomeRoundsToZero([], n)
  {
    hide RoundsToZero;
    assert (rs + [r])[|rs|] == r;
    assert forall k :: 0 <= k < |rs| ==> (rs + [r])[k] == rs[k];
  }

  /**
   As long as the deck is not empty, at most one draw gives nil: exactly one
   if slot 0 was empty and some product is rounded to 0.
   */
  lemma {:induction false} OneNil(d: Deck, rs: seq<Random>)
    requires |rs| <= |d.cards|
    ensures var r := DrawAll(d, rs);
      && (r.1.slot0.Some? <==> d.slot0.Some? || SomeRoundsToZero(rs, |d.cards|))
      && Nils(r.0) == if d.slot0.None? && SomeRoundsToZero(rs, |d.cards|) then 1 else 0
    decreases |rs|
  {
    hide DrawAll, Drawn, Nils, Cards, Draw, RoundsToZero, SomeRoundsToZero;
    DrawAllSnoc(d, [], 0.0);
    SomeSnoc([], 0.0, |d.cards|);
    if rs != [] {
      var front, random := rs[..|rs| - 1], rs[|rs| - 1];
      assert rs == front + [random];
      OneNil(d, front);
      RunConserves(d, front);
      DrawAllSnoc(d, front, random);
      SomeSnoc(front, random, |d.cards|);
      var r := DrawAll(d, front);
      DrawnSnoc(r.0, Draw(r.1, random).0);
      NilExactly(r.1, random);
    }
  }

  /** The draws of a deck give a card each, whatever the numbers, exactly if slot 0 is filled. */
  lemma {:induction false} AlwaysGivesExactly(d: Deck)
    requires d.cards != []
    ensures (forall random :: Draw(d, random).0.Some?) <==> d.slot0.Some?
    ensures (forall rs :: |rs| <= |d.cards| ==> Nils(DrawAll(d, rs).0) == 0) <==> d.slot0.Some?
  {
    hide Draw, DrawAll, Nils;
    forall random
      ensures d.slot0.Some? ==> Draw(d, random).0.Some?
    {
      NilExactly(d, random);
    }
    NilExactly(d, 0.0);
    forall rs | |rs| <= |d.cards|
      ensures d.slot0.Some? ==> Nils(DrawAll(d, rs).0) == 0
    {
      OneNil(d, rs);
    }
    OneNil(d, [0.0]);
    assert RoundsToZero([0.0][0], |d.cards|);
    assert d.slot0.None? ==> Nils(DrawAll(d, [0.0]).0) == 1;
  }

  /** The fresh deck of n packs. */
  function Fresh(n: nat): Deck {
    Deck(Packs(n), None)
  }

  /** So a fresh deck may give nil at once, although it is full. */
  lemma FreshMayGiveNil(n: nat)
    requires n >= 1
    ensures Fresh(n).cards != [] && Draw(Fresh(n), 0.0).0 == None
  {
    hide Draw, Packs;
    NilExactly(Fresh(n), 0.0);
  }

  /** No card is drawn more often than there are packs. */
  lemma {:induction false} NoCardTwice(n: nat, rs: seq<Random>, c: int)
    ensures Drawn(DrawAll(Fresh(n), rs).0)[c] <= if 0 <= c < CARDS then n else 0
  {
    hide DrawAll, Drawn, Packs;
    RunConserves(Fresh(n), rs);
    PacksHold(n, c);
    var r := DrawAll(Fresh(n), rs);
    assert (Drawn(r.0) + Cards(r.1))[c] == Drawn(r.0)[c] + Cards(r.1)[c];
    assert Cards(Fresh(n))[c] == multiset(Packs(n))[c];
  }

  /**
   When the deck has been drawn to its end, either all cards have come up, or
   all but one, which stays in slot 0 for good.
   */
  lemma {:induction false} AllButSlotZero(n: nat, rs: seq<Random>)
    requires |rs| == CARDS * n
    ensures var r := DrawAll(Fresh(n), rs);
      && r.1.cards == [] && Nils(r.0) <= 1
      && Drawn(r.0) + AsCards(r.1.slot0) == multiset(Packs(n))
      && (Nils(r.0) == 0 <==> Drawn(r.0) == multiset(Packs(n)))
  {
    hide DrawAll, Drawn, Packs, Nils;
    RunConserves(Fresh(n), rs);
    OneNil(Fresh(n), rs);
    var r := DrawAll(Fresh(n), rs);
    assert Cards(r.1) == AsCards(r.1.slot0);
    if r.1.slot0.Some? { OneLess(Drawn(r.0), r.1.slot0.value); }
  }

  lemma OneLess(m: multiset<int>, c: int)
    ensures m + multiset{c} != m
  {
    assert (m + multiset{c})[c] == m[c] + 1;
  }

  // ----- The code -----

  class DeckObject {
    const numberOfDecks: nat
    var pokerIds: seq<int>
    var slot0: Option<int>

    function Now(): Deck
      reads this
    {
      Deck(pokerIds, slot0)
    }

    constructor (numberOfDecks: nat)
      ensures this.numberOfDecks == numberOfDecks && Now() == Fresh(numberOfDecks)
    {
      this.numberOfDecks := numberOfDecks;
      pokerIds := [];
      slot0 := None;
      new;
      Reset();
    }

    /** On a deck that has no cards yet. */
    method Reset()
      requires pokerIds == []
      modifies this`pokerIds
      ensures pokerIds == Packs(numberOfDecks)
    {
      for i := 0 to numberOfDecks
        invariant pokerIds == Packs(i)
      {
        ghost var was := pokerIds;
        for pokerId := 0 to CARDS
          invariant pokerIds == was + Pack(pokerId)
        {
          pokerIds := pokerIds + [pokerId];
        }
      }
    }

    method DrawCard(random: Random) returns (result: Option<int>)
      modifies this`pokerIds, this`slot0
      ensures (result, Now()) == Draw(old(Now()), random)
    {
      var len := |pokerIds|;
      if len == 0 { return None; }
      var index := IndexOf(random, len);
      result := if index == 0 then slot0 else Some(pokerIds[index - 1]);
      var last := pokerIds[len - 1];
      if index == 0 { slot0 := Some(last); } else { pokerIds := pokerIds[index - 1 := last]; }
      pokerIds := pokerIds[..len - 1];
    }
  }

  /** The cards among the results of draws, in their order. */
  function Given(xs: seq<Option<int>>): (cards: seq<int>)
  {
    if xs == [] then [] else Given(xs[..|xs| - 1]) + (if xs[|xs| - 1].Some? then [xs[|xs| - 1].value] else [])
  }

  lemma GivenSnoc(xs: seq<Option<int>>, x: Option<int>)
    ensures Given(xs + [x]) == Given(xs) + if x.Some? then [x.value] else []
    ensures Given([]) == []
  {
    assert (xs + [x])[..|xs|] == xs;
  }

  lemma {:induction false} GivenAreDrawn(xs: seq<Option<int>>)
    ensures multiset(Given(xs)) == Drawn(xs) && |Given(xs)| == |xs| - Nils(xs)
  {
    if xs != [] { GivenAreDrawn(xs[..|xs| - 1]); }
  }

  /** The draws of a run follow one another, each from the deck that those before it left. */
  lemma {:induction false} RunInOrder(d: Deck, rs: seq<Random>, k: nat)
    requires k < |rs|
    ensures DrawAll(d, rs).0[k] == Draw(DrawAll(d, rs[..k]).1, rs[k]).0
    ensures DrawAll(d, rs[..k + 1]).1 == Draw(DrawAll(d, rs[..k]).1, rs[k]).1 && DrawAll(d, []).1 == d
    decreases |rs|
  {
    hide DrawAll, Draw;
    DrawAllSnoc(d, rs[..k], rs[k]);
    assert rs[..k + 1] == rs[..k] + [rs[k]];
    if k == |rs| - 1 {
      assert rs == rs[..k] + [rs[k]];
    } else {
      var front, last := rs[..|rs| - 1], rs[|rs| - 1];
      RunInOrder(d, front, k);
      DrawAllSnoc(d, front, last);
      assert rs == front + [last] && front[..k] == rs[..k];
    }
  }

  /** If no draw gives nil, the cards given are the results one by one. */
  lemma {:induction false} GivenInOrder(xs: seq<Option<int>>)
    requires forall k :: 0 <= k < |xs| ==> xs[k].Some?
    ensures |Given(xs)| == |xs| && forall k :: 0 <= k < |xs| ==> Given(xs)[k] == xs[k].value
  {
    if xs != [] { GivenInOrder(xs[..|xs| - 1]); }
  }

  /** A run in two parts. */
  lemma {:induction false} DrawAllSum(d: Deck, rs: seq<Random>, more: seq<Random>)
    ensures var a, b := DrawAll(d, rs), DrawAll(DrawAll(d, rs).1, more);
      DrawAll(d, rs + more) == (a.0 + b.0, b.1)
    decreases |more|
  {
    hide DrawAll, Draw;
    if more == [] {
      assert rs + more == rs;
      DrawAllSnoc(DrawAll(d, rs).1, [], 0.0);
      assert DrawAll(d, rs).0 + [] == DrawAll(d, rs).0;
    } else {
      var front, random := more[..|more| - 1], more[|more| - 1];
      DrawAllSum(d, rs, front);
      assert more == front + [random] && rs + more == (rs + front) + [random];
      DrawAllSnoc(d, rs + front, random);
      DrawAllSnoc(DrawAll(d, rs).1, front, random);
      var a, b := DrawAll(d, rs), DrawAll(DrawAll(d, rs).1, front);
      var x := Draw(b.1, random).0;
      assert a.0 + (b.0 + [x]) == (a.0 + b.0) + [x];
    }
  }

  /** One of the two hands of a new round: nil is not appended, so that a hand may be short by a card. */
  method DealHand(deck: DeckObject, randoms: seq<Random>) returns (hand: seq<int>)
    requires |randoms| == 2
    modifies deck
    ensures hand == Given(DrawAll(old(deck.Now()), randoms).0) && deck.Now() == DrawAll(old(deck.Now()), randoms).1
  {
    hide DrawAll, Draw, Given;
    ghost var start := deck.Now();
    hand := [];
    assert randoms[..0] == [] && randoms[..2] == randoms;
    DrawAllSnoc(start, [], 0.0);
    GivenSnoc([], None);
    for i := 0 to 2
      invariant deck.Now() == DrawAll(start, randoms[..i]).1 && hand == Given(DrawAll(start, randoms[..i]).0)
    {
      assert randoms[..i + 1] == randoms[..i] + [randoms[i]];
      DrawAllSnoc(start, randoms[..i], randoms[i]);
      ghost var was := DrawAll(start, randoms[..i]).0;
      var card := deck.DrawCard(randoms[i]);
      GivenSnoc(was, card);
      if card.Some? { hand := hand + [card.value]; }
    }
  }

  /** What four draws from a fresh deck come to. */
  lemma Dealt(n: nat, first: seq<Random>, second: seq<Random>)
    requires |first| == |second| == 2
    ensures var a := DrawAll(Fresh(n), first);
      var b := DrawAll(a.1, second);
      && multiset(Given(a.0)) + multiset(Given(b.0)) + Cards(b.1) == multiset(Packs(n))
      && (n >= 1 ==> |Given(a.0)| + |Given(b.0)| == if SomeRoundsToZero(first + second, CARDS * n) then 3 else 4)
  {
    hide DrawAll, Drawn, Nils, Packs, SomeRoundsToZero, Given;
    var a := DrawAll(Fresh(n), first);
    var b := DrawAll(a.1, second);
    DrawAllSum(Fresh(n), first, second);
    RunConserves(Fresh(n), first + second);
    GivenAreDrawn(a.0);
    GivenAreDrawn(b.0);
    SumOfDrawn(a.0, b.0);
    if n >= 1 { OneNil(Fresh(n), first + second); }
  }

  lemma {:induction false} SumOfDrawn(xs: seq<Option<int>>, ys: seq<Option<int>>)
    ensures Drawn(xs + ys) == Drawn(xs) + Drawn(ys) && Nils(xs + ys) == Nils(xs) + Nils(ys)
    decreases |ys|
  {
    hide Drawn, Nils, AsCards;
    if ys == [] {
      assert xs + ys == xs;
      NothingDrawn();
    } else {
      var front, last := ys[..|ys| - 1], ys[|ys| - 1];
      SumOfDrawn(xs, front);
      assert ys == front + [last] && xs + ys == (xs + front) + [last];
      DrawnSnoc(xs + front, last);
      DrawnSnoc(front, last);
    }
  }

  lemma NothingDrawn()
    ensures Drawn([]) == multiset{} && Nils([]) == 0
  {
  }

  /**
   The hands of both sides, from a fresh deck: two draws for the one, and then
   two for the other. No card is in them, or left in the deck, that it did not
   have.
   */
  method DealHands(deck: DeckObject, first: seq<Random>, second: seq<Random>) returns (one: seq<int>, two: seq<int>)
    requires |first| == |second| == 2
    requires deck.Now() == Fresh(deck.numberOfDecks)
    modifies deck
    ensures var a := DrawAll(Fresh(deck.numberOfDecks), first);
      one == Given(a.0) && two == Given(DrawAll(a.1, second).0)
    ensures multiset(one) + multiset(two) + Cards(deck.Now()) == multiset(Packs(deck.numberOfDecks))
    ensures deck.numberOfDecks >= 1 ==>
      |one| + |two| == if SomeRoundsToZero(first + second, CARDS * deck.numberOfDecks) then 3 else 4
  {
    hide *;
    one := DealHand(deck, first);
    two := DealHand(deck, second);
    Dealt(deck.numberOfDecks, first, second);
  }
}
