/**
 A baccarat room as a machine that is driven by READY messages and timers:
 its rounds, their status, and the timer that each round may have.
 */
module Room {
  import opened Wrappers

  datatype Status = WAIT | BET | DEAL | ENDED | CLOSED

  /** What a timer will do when it fires. */
  datatype Callback = ToBetting | ToDeal | ToEnded | ToNext

  /** A round; a timer that has fired or was deleted is none. */
  datatype Round = Round(status: Status, timer: Option<Callback>)

  /** The rounds of the room, those who sent READY since the last one began, and whether the hall still has the room. */
  datatype Room = Room(rounds: seq<Round>, ready: seq<int>, isOpen: bool)

  datatype Config = Config(deskPlayerNum: int, maxRound: int)

  // ----- The steps -----

  function Set(room: Room, k: nat, r: Round): Room
    requires k < |room.rounds|
  {
    room.(rounds := room.rounds[k := r])
  }

  /** Action_BET.init */
  function ToBet(room: Room, k: nat): Room
    requires k < |room.rounds|
  {
    Set(room, k, Round(BET, Some(ToDeal)))
  }

  /** ActionHelper_ENDED.init: the last round closes the room at once. */
  function End(cfg: Config, room: Room, k: nat): Room
    requires k < |room.rounds|
  {
    if k + 1 >= cfg.maxRound then Set(room, k, Round(CLOSED, None)).(isOpen := false)
    else Set(room, k, Round(ENDED, Some(ToNext)))
  }

  /** initByRound: a new round, for which nobody is ready. */
  function NewRound(room: Room): Room {
    room.(rounds := room.rounds + [Round(WAIT, None)], ready := [])
  }

  /** closeRound, which is about the latest round. */
  function CloseRound(room: Room): Room
    requires room.rounds != []
  {
    var k := |room.rounds| - 1;
    Set(room, k, room.rounds[k].(timer := None)).(ready := [])
  }

  /** The READY branch of gameAction: only the message that completes the table starts the betting. */
  function Ready(cfg: Config, room: Room, uid: int): Room
    requires room.rounds != []
  {
    var room' := room.(ready := room.ready + [uid]);
    if |room'.ready| == cfg.deskPlayerNum then ToBet(room', |room.rounds| - 1) else room'
  }

  /** The timer of round k fires. The turn to the next round is one step, or only its first half. */
  function Fire(cfg: Config, room: Room, k: nat, split: bool): Room
    requires k < |room.rounds| && room.rounds[k].timer.Some?
  {
    var fired := Set(room, k, room.rounds[k].(timer := None));
    match room.rounds[k].timer.value
    case ToBetting => ToBet(fired, k)
    case ToDeal => Set(fired, k, Round(DEAL, Some(ToEnded)))
    case ToEnded => End(cfg, fired, k)
    case ToNext =>
      if !room.isOpen then fired
      else if split then CloseRound(fired)
      else NewRound(CloseRound(fired))
  }

  datatype Event = ReadyFrom(uid: int) | FireOf(k: nat) | Resume

  /** The room, and how many turns to the next round are waiting for their second half. */
  datatype Game = Game(room: Room, pending: nat)

  predicate Enabled(g: Game, e: Event) {
    match e
    case ReadyFrom(_) => true
    case FireOf(k) => k < |g.room.rounds| && g.room.rounds[k].timer.Some?
    case Resume => g.pending > 0
  }

  function Step(cfg: Config, split: bool, g: Game, e: Event): Game
    requires Enabled(g, e) && g.room.rounds != []
  {
    match e
    case ReadyFrom(uid) => Game(Ready(cfg, g.room, uid), g.pending)
    case FireOf(k) =>
      Game(Fire(cfg, g.room, k, split),
           if split && g.room.rounds[k].timer.value == ToNext && g.room.isOpen then g.pending + 1 else g.pending)
    case Resume => Game(NewRound(g.room), g.pending - 1)
  }

  /** What initByRoom makes. */
  const Start: Game := Game(Room([Round(WAIT, None)], [], true), 0)

  /** The room after a run; events that cannot happen leave it as it is. */
  function Run(cfg: Config, split: bool, es: seq<Event>): (g: Game)
    ensures g.room.rounds != []
  {
    if es == [] then Start
    else
      var g, e := Run(cfg, split, es[..|es| - 1]), es[|es| - 1];
      if Enabled(g, e) then Step(cfg, split, g, e) else g
  }

  /** How many timers fired in a run. */
  function Firings(cfg: Config, split: bool, es: seq<Event>): nat {
    if es == [] then 0
    else
      var g, e := Run(cfg, split, es[..|es| - 1]), es[|es| - 1];
      Firings(cfg, split, es[..|es| - 1]) + if e.FireOf? && Enabled(g, e) then 1 else 0
  }

  /** Whether an event makes round k enter BET. */
  predicate EntersBet(cfg: Config, g: Game, e: Event, k: nat) {
    e.ReadyFrom? && |g.room.ready| + 1 == cfg.deskPlayerNum && k + 1 == |g.room.rounds|
  }

  /** How often round k entered BET in a run. */
  function Bets(cfg: Config, split: bool, es: seq<Event>, k: nat): nat {
    if es == [] then 0
    else
      Bets(cfg, split, es[..|es| - 1], k)
      + if EntersBet(cfg, Run(cfg, split, es[..|es| - 1]), es[|es| - 1], k) then 1 else 0
  }

  // ----- What every run keeps -----

  function Last(room: Room): Round
    requires room.rounds != []
  {
    room.rounds[|room.rounds| - 1]
  }

  /** The timer that goes with a status. */
  function TimerFor(s: Status): Option<Callback> {
    match s
    case BET => Some(ToDeal)
    case DEAL => Some(ToEnded)
    case ENDED => Some(ToNext)
    case _ => None
  }

  /** How many timers a round takes to get to a status. */
  function Stage(s: Status): nat {
    match s
    case WAIT => 0
    case BET => 0
    case DEAL => 1
    case ENDED => 2
    case CLOSED => 2
  }

  /** A room has its first round whatever the configuration says. */
  function RoundLimit(cfg: Config): nat {
    if cfg.maxRound < 1 then 1 else cfg.maxRound
  }

  ghost predicate Inv(cfg: Config, room: Room, fired: nat) {
    && room.rounds != []
    && (forall i :: 0 <= i < |room.rounds| - 1 ==> room.rounds[i] == Round(ENDED, None))
    && var n, s := |room.rounds|, Last(room).status;
    && Last(room).timer == TimerFor(s)
    && n <= RoundLimit(cfg) && (s == ENDED ==> n < cfg.maxRound) && (s == CLOSED ==> n >= cfg.maxRound)
    && room.isOpen == (s != CLOSED)
    && (s == WAIT ==> |room.ready| < cfg.deskPlayerNum || cfg.deskPlayerNum < 1)
    && (s != WAIT ==> |room.ready| >= cfg.deskPlayerNum >= 1)
    && fired == 3 * (n - 1) + Stage(s)
  }

  /** The invariant holds in every run in which the turn to the next round is one step. */
  lemma {:induction false} Invariant(cfg: Config, es: seq<Event>)
    ensures Inv(cfg, Run(cfg, false, es).room, Firings(cfg, false, es))
    ensures Run(cfg, false, es).pending == 0
  {
    if es != [] {
      var front, e := es[..|es| - 1], es[|es| - 1];
      Invariant(cfg, front);
      if Enabled(Run(cfg, false, front), e) {
        InvariantStep(cfg, Run(cfg, false, front), e, Firings(cfg, false, front));
      }
    }
  }

  lemma InvariantStep(cfg: Config, g: Game, e: Event, fired: nat)
    requires Inv(cfg, g.room, fired) && g.pending == 0 && Enabled(g, e)
    ensures var g' := Step(cfg, false, g, e);
      Inv(cfg, g'.room, if e.FireOf? then fired + 1 else fired) && g'.pending == 0
  {
    if e.FireOf? {
      assert e.k == |g.room.rounds| - 1;
    }
  }

  /** Those who sent READY since a round began the last time. */
  function Since(cfg: Config, es: seq<Event>): seq<int> {
    if es == [] then []
    else
      var front, e := es[..|es| - 1], es[|es| - 1];
      if |Run(cfg, false, es).room.rounds| > |Run(cfg, false, front).room.rounds| then []
      else if e.ReadyFrom? then Since(cfg, front) + [e.uid]
      else Since(cfg, front)
  }

  lemma SinceSnoc(cfg: Config, es: seq<Event>, e: Event)
    ensures Since(cfg, es + [e]) ==
      if |Run(cfg, false, es + [e]).room.rounds| > |Run(cfg, false, es).room.rounds| then []
      else if e.ReadyFrom? then Since(cfg, es) + [e.uid]
      else Since(cfg, es)
  {
    hide Run;
    assert (es + [e])[..|es|] == es;
  }

  lemma StepCollects(cfg: Config, g: Game, e: Event, fired: nat)
    requires Inv(cfg, g.room, fired) && g.pending == 0 && Enabled(g, e)
    ensures var room, room' := g.room, Step(cfg, false, g, e).room;
      room'.ready ==
        if |room'.rounds| > |room.rounds| then []
        else if e.ReadyFrom? then room.ready + [e.uid]
        else room.ready
  {
  }

  /** Who is ready are those who said so since the round began, as often as they said it. */
  lemma {:induction false} ReadyAreThose(cfg: Config, es: seq<Event>)
    ensures Run(cfg, false, es).room.ready == Since(cfg, es)
    decreases |es|
  {
    hide Run, Firings, Inv, Step, Since;
    if es == [] {
      NobodyYet(cfg);
    } else {
      var front, e := es[..|es| - 1], es[|es| - 1];
      assert es == front + [e];
      ReadyAreThose(cfg, front);
      Invariant(cfg, front);
      RunSnoc(cfg, false, front, e);
      SinceSnoc(cfg, front, e);
      var g := Run(cfg, false, front);
      if Enabled(g, e) { StepCollects(cfg, g, e, Firings(cfg, false, front)); }
    }
  }

  lemma NobodyYet(cfg: Config)
    ensures Since(cfg, []) == [] && Run(cfg, false, []).room.ready == []
  {
  }

  /** A round waits exactly until as many have said that they are ready as the table takes. */
  lemma WaitsExactly(cfg: Config, es: seq<Event>)
    ensures Last(Run(cfg, false, es).room).status == WAIT <==>
      |Since(cfg, es)| < cfg.deskPlayerNum || cfg.deskPlayerNum < 1
  {
    hide Run, Firings, Since;
    ReadyAreThose(cfg, es);
    Invariant(cfg, es);
  }

  /** Which timers are live. */
  ghost predicate Live(room: Room, k: int) {
    0 <= k < |room.rounds| && room.rounds[k].timer.Some?
  }

  ghost predicate AtMostOneTimer(room: Room) {
    forall j, k :: Live(room, j) && Live(room, k) ==> j == k
  }

  /** There is one timer at most, and there is one exactly while the latest round is in BET, DEAL or ENDED. */
  lemma OneTimer(cfg: Config, es: seq<Event>)
    ensures var room := Run(cfg, false, es).room;
      AtMostOneTimer(room) && ((exists k :: Live(room, k)) <==> Last(room).status in {BET, DEAL, ENDED})
  {
    Invariant(cfg, es);
    var room := Run(cfg, false, es).room;
    hide Run, Firings;
    if Last(room).status in {BET, DEAL, ENDED} { assert Live(room, |room.rounds| - 1); }
  }

  /**
   No more rounds than the limit, and no more timers than three for each but
   the last: with the last of them, the room is closed.
   */
  lemma RoundsAndFirings(cfg: Config, es: seq<Event>)
    ensures var room, fired := Run(cfg, false, es).room, Firings(cfg, false, es);
      && |room.rounds| <= RoundLimit(cfg) && fired <= 3 * RoundLimit(cfg) - 1
      && (fired == 3 * RoundLimit(cfg) - 1 <==> Last(room).status == CLOSED)
  {
    Invariant(cfg, es);
    hide Run, Firings;
  }

  /** There are never more rounds than max_round, exactly if it allows one. */
  lemma RoundsBounded(cfg: Config)
    ensures (forall es :: |Run(cfg, false, es).room.rounds| <= cfg.maxRound) <==> cfg.maxRound >= 1
  {
    hide Run, Firings;
    if cfg.maxRound >= 1 {
      forall es
        ensures |Run(cfg, false, es).room.rounds| <= cfg.maxRound
      {
        RoundsAndFirings(cfg, es);
      }
    } else {
      RunNothing(cfg);
      assert |Run(cfg, false, []).room.rounds| == 1;
    }
  }

  /** How a status may change. */
  predicate Moves(s: Status, t: Status) {
    s == t || (s == WAIT && t == BET) || (s == BET && t == DEAL) || (s == DEAL && t in {ENDED, CLOSED})
  }

  /** What one event does to the round k. */
  lemma StepMoves(cfg: Config, g: Game, e: Event, fired: nat, k: nat)
    requires Inv(cfg, g.room, fired) && g.pending == 0 && Enabled(g, e) && k < |g.room.rounds|
    ensures var rounds, rounds' := g.room.rounds, Step(cfg, false, g, e).room.rounds;
      && |rounds| <= |rounds'| && Moves(rounds[k].status, rounds'[k].status)
      && (Last(g.room).status == CLOSED ==> rounds' == rounds)
      && (rounds[k].status == WAIT && rounds'[k].status != WAIT <==> EntersBet(cfg, g, e, k))
      && (|rounds'| > |rounds| ==> |rounds'| == |rounds| + 1 && rounds'[|rounds|].status == WAIT)
  {
  }

  lemma RunSnoc(cfg: Config, split: bool, es: seq<Event>, e: Event)
    ensures var g := Run(cfg, split, es);
      Run(cfg, split, es + [e]) == if Enabled(g, e) then Step(cfg, split, g, e) else g
  {
    assert (es + [e])[..|es|] == es;
  }

  /** No event moves the status of a round anywhere but one step on. */
  lemma StatusMovesOn(cfg: Config, es: seq<Event>, e: Event, k: nat)
    requires k < |Run(cfg, false, es).room.rounds|
    ensures var room, room' := Run(cfg, false, es).room, Run(cfg, false, es + [e]).room;
      |room.rounds| <= |room'.rounds| && Moves(room.rounds[k].status, room'.rounds[k].status)
  {
    hide Run, Firings, Inv, Step;
    Invariant(cfg, es);
    RunSnoc(cfg, false, es, e);
    var g := Run(cfg, false, es);
    if Enabled(g, e) { StepMoves(cfg, g, e, Firings(cfg, false, es), k); }
  }

  function Rank(s: Status): nat {
    match s
    case WAIT => 0
    case BET => 1
    case DEAL => 2
    case ENDED => 3
    case CLOSED => 4
  }

  /** In the course of a run, a round never goes back. */
  lemma {:induction false} NeverBack(cfg: Config, es: seq<Event>, more: seq<Event>, k: nat)
    requires k < |Run(cfg, false, es).room.rounds|
    ensures var room, room' := Run(cfg, false, es).room, Run(cfg, false, es + more).room;
      |room.rounds| <= |room'.rounds| && Rank(room.rounds[k].status) <= Rank(room'.rounds[k].status)
    decreases |more|
  {
    hide Run;
    if more == [] {
      assert es + more == es;
    } else {
      var front, e := more[..|more| - 1], more[|more| - 1];
      NeverBack(cfg, es, front, k);
      assert es + more == (es + front) + [e];
      StatusMovesOn(cfg, es + front, e, k);
    }
  }

  /** A closed room stays as it is, whatever messages arrive. */
  lemma {:induction false} ClosedForGood(cfg: Config, es: seq<Event>, more: seq<Event>)
    requires Last(Run(cfg, false, es).room).status == CLOSED
    ensures Run(cfg, false, es + more).room.rounds == Run(cfg, false, es).room.rounds
    decreases |more|
  {
    hide Run, Firings, Inv, Step;
    if more == [] {
      assert es + more == es;
    } else {
      var front, e := more[..|more| - 1], more[|more| - 1];
      ClosedForGood(cfg, es, front);
      assert es + more == (es + front) + [e];
      Invariant(cfg, es + front);
      RunSnoc(cfg, false, es + front, e);
      var g := Run(cfg, false, es + front);
      if Enabled(g, e) { StepMoves(cfg, g, e, Firings(cfg, false, es + front), |g.room.rounds| - 1); }
    }
  }

  lemma BetsSnoc(cfg: Config, split: bool, es: seq<Event>, e: Event, k: nat)
    ensures Bets(cfg, split, es + [e], k) ==
      Bets(cfg, split, es, k) + if EntersBet(cfg, Run(cfg, split, es), e, k) then 1 else 0
    ensures Bets(cfg, split, [], k) == 0 && Run(cfg, split, []) == Start
  {
    assert (es + [e])[..|es|] == es;
  }

  /** Each round enters BET once: it has done so exactly if it is no longer waiting. */
  lemma {:induction false} BetsOnce(cfg: Config, es: seq<Event>, k: nat)
    ensures var rounds := Run(cfg, false, es).room.rounds;
      Bets(cfg, false, es, k) == if k < |rounds| && rounds[k].status != WAIT then 1 else 0
    decreases |es|
  {
    hide Run, Firings, Bets, Inv, Step;
    BetsSnoc(cfg, false, [], Resume, k);
    if es != [] {
      var front, e := es[..|es| - 1], es[|es| - 1];
      assert es == front + [e];
      BetsOnce(cfg, front, k);
      Invariant(cfg, front);
      RunSnoc(cfg, false, front, e);
      BetsSnoc(cfg, false, front, e, k);
      var g := Run(cfg, false, front);
      if Enabled(g, e) {
        StepMoves(cfg, g, e, Firings(cfg, false, front), if k < |g.room.rounds| then k else 0);
      }
    }
  }

  // ----- What can still happen -----

  function Readies(n: nat): (es: seq<Event>)
    ensures |es| == n
  {
    if n == 0 then [] else Readies(n - 1) + [ReadyFrom(0)]
  }

  /** As many READY messages as the table still takes make the latest round enter BET, whatever its status was. */
  lemma {:induction false} TableFills(cfg: Config, split: bool, es: seq<Event>, n: nat)
    requires var m := |Run(cfg, split, es).room.ready|; m < cfg.deskPlayerNum && m + n <= cfg.deskPlayerNum
    ensures var g, g' := Run(cfg, split, es), Run(cfg, split, es + Readies(n));
      && |g'.room.ready| == |g.room.ready| + n && g'.pending == g.pending && g'.room.isOpen == g.room.isOpen
      && g'.room.rounds ==
        if |g.room.ready| + n == cfg.deskPlayerNum then ToBet(g.room, |g.room.rounds| - 1).rounds else g.room.rounds
  {
    hide Run;
    if n == 0 {
      assert es + Readies(0) == es;
    } else {
      TableFills(cfg, split, es, n - 1);
      assert es + Readies(n) == (es + Readies(n - 1)) + [ReadyFrom(0)];
      RunSnoc(cfg, split, es + Readies(n - 1), ReadyFrom(0));
    }
  }

  /** A timer of the latest round fires. */
  lemma LatestFires(cfg: Config, es: seq<Event>)
    requires Last(Run(cfg, false, es).room).status in {BET, DEAL, ENDED}
    ensures exists e :: Firings(cfg, false, es + [e]) == Firings(cfg, false, es) + 1
  {
    hide Run, Firings;
    Invariant(cfg, es);
    var g := Run(cfg, false, es);
    var e := FireOf(|g.room.rounds| - 1);
    FiringsSnoc(cfg, false, es, e);
    assert Enabled(g, e);
    assert Firings(cfg, false, es + [e]) == Firings(cfg, false, es) + 1;
  }

  lemma FiringsBounded(cfg: Config, es: seq<Event>)
    ensures Firings(cfg, false, es) <= 3 * RoundLimit(cfg) - 1
  {
    Invariant(cfg, es);
  }

  /** Every room for at least one player can be played to its end, from wherever a run has led. */
  lemma {:induction false} CanFinish(cfg: Config, es: seq<Event>) returns (more: seq<Event>)
    requires cfg.deskPlayerNum >= 1
    ensures Last(Run(cfg, false, es + more).room).status == CLOSED
    decreases 3 * RoundLimit(cfg) - Firings(cfg, false, es),
      if Last(Run(cfg, false, es).room).status == WAIT then 1 else 0
  {
    hide Run, Firings;
    Invariant(cfg, es);
    var room := Run(cfg, false, es).room;
    if room.rounds != [] && Last(room).status == CLOSED {
      more := [];
      assert es + [] == es;
    } else if Last(room).status == WAIT {
      var n := cfg.deskPlayerNum - |room.ready|;
      TableFills(cfg, false, es, n);
      ReadiesDoNotFire(cfg, es, n);
      var rest := CanFinish(cfg, es + Readies(n));
      more := Readies(n) + rest;
      assert es + more == (es + Readies(n)) + rest;
    } else {
      LatestFires(cfg, es);
      var e :| Firings(cfg, false, es + [e]) == Firings(cfg, false, es) + 1;
      FiringsBounded(cfg, es + [e]);
      var rest := CanFinish(cfg, es + [e]);
      more := [e] + rest;
      assert es + more == (es + [e]) + rest;
    }
  }

  lemma FiringsSnoc(cfg: Config, split: bool, es: seq<Event>, e: Event)
    ensures Firings(cfg, split, es + [e]) ==
      Firings(cfg, split, es) + if e.FireOf? && Enabled(Run(cfg, split, es), e) then 1 else 0
  {
    assert (es + [e])[..|es|] == es;
    hide Run;
  }

  lemma {:induction false} ReadiesDoNotFire(cfg: Config, es: seq<Event>, n: nat)
    ensures Firings(cfg, false, es + Readies(n)) == Firings(cfg, false, es)
  {
    hide Run, Firings;
    if n == 0 {
      assert es + Readies(0) == es;
    } else {
      ReadiesDoNotFire(cfg, es, n - 1);
      assert es + Readies(n) == (es + Readies(n - 1)) + [ReadyFrom(0)];
      FiringsSnoc(cfg, false, es + Readies(n - 1), ReadyFrom(0));
    }
  }

  /** A room can be played to its end exactly if somebody has to be ready. */
  lemma FinishesExactly(cfg: Config)
    ensures (exists es :: Last(Run(cfg, false, es).room).status == CLOSED) <==> cfg.deskPlayerNum >= 1
  {
    if cfg.deskPlayerNum >= 1 {
      var more := CanFinish(cfg, []);
    } else {
      forall es
        ensures Last(Run(cfg, false, es).room).status != CLOSED
      {
        Invariant(cfg, es);
      }
    }
  }

  // ----- The turn to the next round in two calls -----

  /** The timers of the first round, when it is not the last. */
  lemma FirstRoundFires(cfg: Config, es: seq<Event>, s: Status)
    requires cfg.maxRound >= 2 && s in {BET, DEAL, ENDED}
    requires var g := Run(cfg, true, es); g.room.rounds == [Round(s, TimerFor(s))] && g.room.isOpen
    ensures var g, g' := Run(cfg, true, es), Run(cfg, true, es + [FireOf(0)]);
      && g'.room.isOpen
      && (s == BET ==> g'.room.rounds == [Round(DEAL, TimerFor(DEAL))])
      && (s == DEAL ==> g'.room.rounds == [Round(ENDED, TimerFor(ENDED))])
      && (s == ENDED ==> g'.room.rounds == [Round(ENDED, None)] && g'.room.ready == [] && g'.pending == g.pending + 1)
  {
    hide Run;
    RunSnoc(cfg, true, es, FireOf(0));
  }

  lemma ReachesHalfTurn(cfg: Config) returns (es: seq<Event>)
    requires cfg.deskPlayerNum >= 1 && cfg.maxRound >= 2
    ensures var g := Run(cfg, true, es);
      g.room.rounds == [Round(ENDED, None)] && g.room.ready == [] && g.room.isOpen && g.pending >= 1
  {
    var n := cfg.deskPlayerNum;
    assert Run(cfg, true, []) == Start && [] + Readies(n) == Readies(n);
    hide Run;
    TableFills(cfg, true, [], n);
    es := Readies(n);
    assert Run(cfg, true, es).room.rounds == [Round(BET, TimerFor(BET))];
    FirstRoundFires(cfg, es, BET);
    es := es + [FireOf(0)];
    FirstRoundFires(cfg, es, DEAL);
    es := es + [FireOf(0)];
    FirstRoundFires(cfg, es, ENDED);
    es := es + [FireOf(0)];
  }

  /**
   When the turn to the next round is two calls, READY messages between them
   start the old round again: it goes back from ENDED to BET, and then two
   timers are live in the room.
   */
  lemma SplitTurnBreaks(cfg: Config) returns (es: seq<Event>, more: seq<Event>)
    requires cfg.deskPlayerNum >= 1 && cfg.maxRound >= 2
    ensures Run(cfg, true, es).room.rounds[0].status == ENDED && Run(cfg, true, es + more).room.rounds[0].status == BET
    ensures !AtMostOneTimer(Run(cfg, true, es + more).room)
  {
    hide Run;
    var n := cfg.deskPlayerNum;
    es := ReachesHalfTurn(cfg);
    TableFills(cfg, true, es, n);
    assert Run(cfg, true, es + Readies(n)).room.rounds == [Round(BET, Some(ToDeal))];
    RunSnoc(cfg, true, es + Readies(n), Resume);
    var resumed := es + Readies(n) + [Resume];
    TableFills(cfg, true, resumed, n);
    more := Readies(n) + [Resume] + Readies(n);
    assert resumed + Readies(n) == es + more;
    var room := Run(cfg, true, es + more).room;
    assert room.rounds == [Round(BET, Some(ToDeal)), Round(BET, Some(ToDeal))];
    assert Live(room, 0) && Live(room, 1);
  }

  /** Where no round follows another, the two calls are never made. */
  lemma {:induction false} SplitIsHarmless(cfg: Config, es: seq<Event>)
    requires cfg.deskPlayerNum < 1 || cfg.maxRound < 2
    ensures Run(cfg, true, es) == Run(cfg, false, es)
    decreases |es|
  {
    hide Run, Firings;
    if es == [] {
      RunNothing(cfg);
    } else {
      var front, e := es[..|es| - 1], es[|es| - 1];
      assert es == front + [e];
      SplitIsHarmless(cfg, front);
      Invariant(cfg, front);
      RunSnoc(cfg, true, front, e);
      RunSnoc(cfg, false, front, e);
    }
  }

  lemma RunNothing(cfg: Config)
    ensures Run(cfg, true, []) == Run(cfg, false, []) == Start
  {
  }

  /**
   There is never more than one timer, in all runs, exactly if the turn to the
   next round is one step, or no round follows another.
   */
  lemma SafeExactlyIfAtomic(cfg: Config, split: bool)
    ensures (forall es :: AtMostOneTimer(Run(cfg, split, es).room)) <==>
      !split || cfg.deskPlayerNum < 1 || cfg.maxRound < 2
  {
    hide Run, AtMostOneTimer;
    if split && cfg.deskPlayerNum >= 1 && cfg.maxRound >= 2 {
      var es, more := SplitTurnBreaks(cfg);
      assert !AtMostOneTimer(Run(cfg, split, es + more).room);
    } else {
      forall es
        ensures AtMostOneTimer(Run(cfg, split, es).room)
      {
        OneTimer(cfg, es);
        if split { SplitIsHarmless(cfg, es); }
      }
    }
  }
}
