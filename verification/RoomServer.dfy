/**
 The room as the code runs it: round objects that are changed in place, the
 list of the rounds, and the list of those who are ready. Every operation does
 what the step of the same name does to the state.
 */
module RoomServer {
  import opened Room
  import opened Wrappers

  // The time-outs of the game, in seconds. -1 is never, 0 at once.
  const READY_TIMEOUT := -1
  const BET_TIMEOUT := 15
  const DEAL_CARD_TIMEOUT := 10
  const NEXT_ROUND_TIMEOUT := 5

  class RoundObject {
    const roundid: nat
    var status: Status
    var timeout: Option<Callback>
    /** For how long the latest timer was set, in hundredths of a second. */
    var ticks: int

    constructor (roundid: nat, status: Status)
      ensures this.roundid == roundid && this.status == status && timeout == None
    {
      this.roundid := roundid;
      this.status := status;
      timeout, ticks := None, 0;
    }

    function Now(): Round
      reads this
    {
      Round(status, timeout)
    }

    method CloseTimeout()
      modifies this`timeout
      ensures timeout == None
    {
      if timeout.Some? { timeout := None; }
    }

    /** A round never has more than one timer. With a time-out of 0 the callback is to be run at once. */
    method CreateTimeout(ti: int, func: Callback) returns (atOnce: bool)
      modifies this`timeout, this`ticks
      ensures timeout == (if ti == -1 || ti == 0 then None else Some(func)) && atOnce == (ti == 0)
      ensures timeout.Some? ==> ticks == 100 * ti
    {
      CloseTimeout();
      atOnce := false;
      if ti == -1 {
      } else if ti == 0 {
        atOnce := true;
      } else {
        timeout, ticks := Some(func), ti * 100;
      }
    }

    method ChangeStatus(status: Status)
      modifies this`status
      ensures this.status == status
    {
      this.status := status;
    }

    method Close()
      modifies this`timeout
      ensures timeout == None
    {
      CloseTimeout();
    }
  }

  class Server {
    const cfg: Config
    /** Round_list.rounds of the room. */
    var rounds: seq<RoundObject>
    /** ROOM_HANDLE_PEOPLE of the room. */
    var people: seq<int>
    /** Whether the hall has the room. */
    var hasRoom: bool

    ghost predicate Valid()
      reads this
    {
      && (forall i, j :: 0 <= i < j < |rounds| ==> rounds[i] != rounds[j])
      && (forall i :: 0 <= i < |rounds| ==> rounds[i].roundid == i + 1)
    }

    ghost function State(): Room
      reads this, rounds
    {
      Room(seq(|rounds|, i requires 0 <= i < |rounds| reads this, rounds => rounds[i].Now()), people, hasRoom)
    }

    /** Action_READY.init: nobody is ready, and there is no timer as long as the time-out is -1. */
    method ReadyInit(round: RoundObject)
      modifies this`people, round
      ensures people == [] && round.Now() == Round(WAIT, None)
    {
      people := [];
      round.ChangeStatus(WAIT);
      var atOnce := round.CreateTimeout(READY_TIMEOUT, ToBetting);
    }

    method CreateRound() returns (round: RoundObject)
      requires Valid()
      modifies this`rounds
      ensures Valid() && fresh(round) && rounds == old(rounds) + [round] && round.Now() == Round(WAIT, None)
    {
      var idx := |rounds| + 1;
      round := new RoundObject(idx, WAIT);
      rounds := rounds + [round];
    }

    method InitByRound() returns (round: RoundObject)
      requires Valid()
      modifies this`rounds, this`people
      ensures Valid() && fresh(round) && rounds == old(rounds) + [round]
      ensures State() == NewRound(old(State())) && people == [] && round.Now() == Round(WAIT, None)
    {
      round := CreateRound();
      ReadyInit(round);
      assert State().rounds == old(State()).rounds + [round.Now()];
    }

    /** initByRoom on a room that has no rounds yet. */
    constructor (cfg: Config)
      ensures Valid() && this.cfg == cfg && State() == Start.room
      ensures forall r :: r in rounds ==> fresh(r)
    {
      this.cfg := cfg;
      rounds, people, hasRoom := [], [], true;
      new;
      var round := InitByRound();
    }

    method BetInit(k: nat)
      requires Valid() && k < |rounds|
      modifies rounds[k]
      ensures State() == ToBet(old(State()), k)
      ensures rounds[k].status == BET && rounds[k].timeout == Some(ToDeal) && rounds[k].ticks == 1500
    {
      rounds[k].ChangeStatus(BET);
      var atOnce := rounds[k].CreateTimeout(BET_TIMEOUT, ToDeal);
    }

    method DealInit(k: nat)
      requires Valid() && k < |rounds|
      modifies rounds[k]
      ensures State() == Set(old(State()), k, Round(DEAL, Some(ToEnded)))
      ensures rounds[k].status == DEAL && rounds[k].timeout == Some(ToEnded) && rounds[k].ticks == 1000
    {
      rounds[k].ChangeStatus(DEAL);
      var atOnce := rounds[k].CreateTimeout(DEAL_CARD_TIMEOUT, ToEnded);
    }

    method ClosedInit(k: nat)
      requires Valid() && k < |rounds|
      modifies this`hasRoom, rounds[k]
      ensures State() == Set(old(State()), k, Round(CLOSED, None)).(isOpen := false)
      ensures rounds[k].status == CLOSED && rounds[k].timeout == None && !hasRoom
    {
      rounds[k].ChangeStatus(CLOSED);
      rounds[k].Close();
      hasRoom := false;
    }

    method EndedInit(k: nat)
      requires Valid() && k < |rounds|
      modifies this`hasRoom, rounds[k]
      ensures State() == End(cfg, old(State()), k)
      ensures k + 1 >= cfg.maxRound ==> rounds[k].status == CLOSED && rounds[k].timeout == None && !hasRoom
      ensures k + 1 < cfg.maxRound ==>
        rounds[k].status == ENDED && rounds[k].timeout == Some(ToNext) && rounds[k].ticks == 500
        && hasRoom == old(hasRoom)
    {
      rounds[k].ChangeStatus(ENDED);
      if rounds[k].roundid >= cfg.maxRound {
        ClosedInit(k);
        return;
      }
      var atOnce := rounds[k].CreateTimeout(NEXT_ROUND_TIMEOUT, ToNext);
    }

    /** Action_READY.handle: -1, 0 or 1 as the table is not yet, just or already full. */
    method ReadyHandle(uid: int) returns (isfull: int)
      modifies this`people
      ensures people == old(people) + [uid]
      ensures isfull == if |people| < cfg.deskPlayerNum then -1 else if |people| == cfg.deskPlayerNum then 0 else 1
    {
      var index := |people| + 1;
      people := people + [uid];
      if index < cfg.deskPlayerNum {
        return -1;
      } else if index == cfg.deskPlayerNum {
        return 0;
      } else {
        return 1;
      }
    }

    /** The READY branch of gameAction. */
    method ReadyAction(uid: int)
      requires Valid() && rounds != []
      modifies this`people, rounds
      ensures Valid() && State() == Ready(cfg, old(State()), uid) && people == old(people) + [uid]
      ensures var latest := rounds[|rounds| - 1];
        if |people| == cfg.deskPlayerNum
        then latest.status == BET && latest.timeout == Some(ToDeal) && latest.ticks == 1500
        else latest.Now() == old(latest.Now())
    {
      var isfull := ReadyHandle(uid);
      if isfull == 0 {
        BetInit(|rounds| - 1);
      }
    }

    method CloseLatest()
      requires Valid() && rounds != []
      modifies this`people, rounds
      ensures Valid() && State() == CloseRound(old(State())) && people == []
      ensures var latest := rounds[|rounds| - 1]; latest.status == old(latest.status) && latest.timeout == None
    {
      rounds[|rounds| - 1].Close();
      people := [];
    }

    /** The callback that turns to the next round, in one step, unless the room is gone. */
    method NextRound()
      requires Valid() && rounds != []
      modifies this`rounds, this`people, rounds
      ensures Valid()
      ensures State() == if old(State()).isOpen then NewRound(CloseRound(old(State()))) else old(State())
      ensures !hasRoom ==> rounds == old(rounds) && people == old(people)
      ensures hasRoom ==>
        && |rounds| == |old(rounds)| + 1 && rounds[..|old(rounds)|] == old(rounds) && people == []
        && rounds[|old(rounds)|].status == WAIT && rounds[|old(rounds)|].timeout == None
        && old(rounds)[|old(rounds)| - 1].timeout == None
    {
      if hasRoom {
        CloseLatest();
        var round := InitByRound();
      }
    }

    /** What the timer of round k does when it fires, with the turn to the next round in one step. */
    method Fires(k: nat)
      requires Valid() && k < |rounds| && rounds[k].timeout.Some?
      modifies this`rounds, this`people, this`hasRoom, rounds
      ensures Valid() && State() == Fire(cfg, old(State()), k, false)
    {
      var func := rounds[k].timeout.value;
      rounds[k].timeout := None;
      hide CloseRound, NewRound;
      assert State() == Set(old(State()), k, old(State()).rounds[k].(timer := None));
      match func
      case ToBetting => BetInit(k);
      case ToDeal => DealInit(k);
      case ToEnded => EndedInit(k);
      case ToNext => NextRound();
    }
  }
}
