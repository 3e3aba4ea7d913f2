/** The game record as the contract handles it between loading and storing:
    eight seats in a fixed array, updated in place by loops, and each public
    step proved to compute exactly the pure step of the same name. */
module Engine {
  import opened Types
  import opened Seats
  import opened Invariant
  import Lobby
  import Actions
  import Night
  import Day
  import Resolution

  /** `pick_excluding`: the list without `exclude`, in order, then a uniform
      pick from what is left. */
  method PickExcluding(list: seq<nat>, exclude: nat, draw: nat) returns (r: Option<nat>)
    ensures r == PickRandom(Without(list, exclude), draw)
  {
    var filtered: seq<nat> := [];
    for i := 0 to |list|
      invariant filtered == Without(list[..i], exclude)
    {
      assert list[..i + 1][..i] == list[..i];
      if list[i] != exclude {
        filtered := filtered + [list[i]];
      }
    }
    assert list[..|list|] == list;
    r := PickRandom(filtered, draw);
  }

  /** The Fisher–Yates loop of `begin_game` over a fresh copy of the role
      template: position `i`, from 7 down to 1, trades with position
      `draws[7 - i] % (i + 1)`. */
  method ShuffleRoles(draws: seq<nat>) returns (roles: array<Role>)
    requires |draws| == MAX_PLAYERS - 1
    ensures fresh(roles) && roles[..] == Lobby.Shuffle(draws)
  {
    roles := new Role[MAX_PLAYERS](k requires 0 <= k < MAX_PLAYERS => ROLE_TEMPLATE[k]);
    assert roles[..] == ROLE_TEMPLATE;
    var i := MAX_PLAYERS - 1;
    while i > 0
      invariant 0 <= i < MAX_PLAYERS
      invariant Lobby.ShuffleFrom(roles[..], draws, i) == Lobby.Shuffle(draws)
      modifies roles
    {
      var j := draws[MAX_PLAYERS - 1 - i] % (i + 1);
      ghost var before := roles[..];
      SwapRoles(roles, i, j);
      assert Lobby.ShuffleFrom(before, draws, i) == Lobby.ShuffleFrom(roles[..], draws, i - 1);
      i := i - 1;
    }
  }

  /** One step of the shuffle, in place. */
  method SwapRoles(roles: array<Role>, i: nat, j: nat)
    requires i < roles.Length && j < roles.Length
    modifies roles
    ensures roles[..] == Lobby.Swap(old(roles[..]), i, j)
  {
    var t := roles[i];
    roles[i] := roles[j];
    roles[j] := t;
  }

  class Game {
    var creator: Address
    const slots: array<Slot>
    var humanCount: nat
    var phase: Phase
    var day: nat
    var winner: Option<Team>
    var lastKilled: Option<nat>
    var lastSaved: bool
    var lastInvestigated: Option<nat>
    var investIsMafia: bool
    var lastVotedOut: Option<nat>
    var wager: int

    /** The record this object holds. */
    function View(): GameState
      reads this, slots
    {
      GameState(creator, slots[..], humanCount, phase, day, winner, lastKilled,
                lastSaved, lastInvestigated, investIsMafia, lastVotedOut, wager)
    }

    /** `create_game`: the creator in seat 0, then seven AI seats. */
    constructor Create(creator: Address, wager: int)
      ensures slots.Length == MAX_PLAYERS && View() == Lobby.NewGame(creator, wager)
      ensures fresh(slots)
    {
      var a := new Slot[MAX_PLAYERS];
      a[0] := Lobby.OpenSlot(Some(creator));
      for i := 1 to MAX_PLAYERS
        invariant a[0] == Lobby.OpenSlot(Some(creator))
        invariant forall k :: 1 <= k < i ==> a[k] == Lobby.OpenSlot(None)
      {
        a[i] := Lobby.OpenSlot(None);
      }
      this.creator := creator;
      slots := a;
      humanCount := 1;
      phase := Lobby;
      day := 0;
      winner := None;
      lastKilled := None;
      lastSaved := false;
      lastInvestigated := None;
      investIsMafia := false;
      lastVotedOut := None;
      this.wager := wager;
      new;
      assert slots[..] == Lobby.NewGame(creator, wager).slots;
    }

    /** A stored record of eight seats, loaded for one call. */
    constructor Load(st: GameState)
      requires |st.slots| == MAX_PLAYERS
      ensures slots.Length == MAX_PLAYERS && View() == st
      ensures fresh(slots)
    {
      creator := st.creator;
      slots := new Slot[MAX_PLAYERS](i requires 0 <= i < MAX_PLAYERS => st.slots[i]);
      humanCount := st.humanCount;
      phase := st.phase;
      day := st.day;
      winner := st.winner;
      lastKilled := st.lastKilled;
      lastSaved := st.lastSaved;
      lastInvestigated := st.lastInvestigated;
      investIsMafia := st.investIsMafia;
      lastVotedOut := st.lastVotedOut;
      wager := st.wager;
      new;
      assert slots[..] == st.slots;
    }

    /** The scan of `join_game` and `submit_action` for the player's seat. */
    method FindSeat(player: Address) returns (r: Option<nat>)
      requires slots.Length == MAX_PLAYERS
      ensures r == SeatOf(slots[..], player)
    {
      var i := 0;
      while i < MAX_PLAYERS
        invariant 0 <= i <= MAX_PLAYERS
        invariant SeatFrom(slots[..], player, i) == SeatOf(slots[..], player)
      {
        if slots[i].addr == Some(player) {
          return Some(i);
        }
        i := i + 1;
      }
      return None;
    }

    /** The scans of `resolve_night`: the lowest seat satisfying `p`. */
    method FindFirst(p: Slot -> bool) returns (r: Option<nat>)
      requires slots.Length == MAX_PLAYERS
      ensures r == Night.FirstFrom(slots[..], p, 0)
    {
      var i := 0;
      while i < MAX_PLAYERS
        invariant 0 <= i <= MAX_PLAYERS
        invariant Night.FirstFrom(slots[..], p, i) == Night.FirstFrom(slots[..], p, 0)
      {
        if p(slots[i]) {
          return Some(i);
        }
        i := i + 1;
      }
      return None;
    }

    /** `living_lists`: the living seats, and the living seats that are not
        Mafia, both in seat order. */
    method LivingLists() returns (all: seq<nat>, town: seq<nat>)
      requires slots.Length == MAX_PLAYERS
      ensures all == Living(slots[..]) && town == LivingTown(slots[..])
    {
      all, town := [], [];
      for i := 0 to MAX_PLAYERS
        invariant all == LivingUpTo(slots[..], i) && town == LivingTownUpTo(slots[..], i)
      {
        var s := slots[i];
        if s.alive {
          all := all + [i];
          if s.role != Mafia {
            town := town + [i];
          }
        }
      }
    }

    /** `join_game` on the loaded record. */
    method Join(player: Address) returns (r: Result<()>)
      requires slots.Length == MAX_PLAYERS
      modifies this, slots
      ensures r == Status(Lobby.Join(old(View()), player))
      ensures View() == Committed(Lobby.Join(old(View()), player), old(View()))
    {
      if phase != Lobby {
        return Err(WrongPhase);
      }
      if humanCount >= MAX_PLAYERS {
        return Err(GameFull);
      }
      var seat := FindSeat(player);
      if seat.Some? {
        return Err(AlreadyJoined);
      }
      var idx := humanCount;
      slots[idx] := slots[idx].(addr := Some(player));
      humanCount := idx + 1;
      assert View() == Lobby.Join(old(View()), player).value;
      r := Ok(());
    }

    /** `begin_game` on the loaded record: the Fisher–Yates loop over a local
        copy of the template, where the swap partner of position `i` is
        `draws[7 - i] % (i + 1)`, then the deal onto the seats. */
    method Begin(caller: Address, draws: seq<nat>) returns (r: Result<()>)
      requires slots.Length == MAX_PLAYERS && |draws| == MAX_PLAYERS - 1
      modifies this, slots
      ensures r == Status(Lobby.Begin(old(View()), caller, draws))
      ensures View() == Committed(Lobby.Begin(old(View()), caller, draws), old(View()))
    {
      if creator != caller {
        return Err(NotCreator);
      }
      if phase != Lobby {
        return Err(WrongPhase);
      }
      Start(draws);
      r := Ok(());
    }

    /** The part of `begin_game` past its checks: the shuffle, the deal, and
        night 1. */
    method Start(draws: seq<nat>)
      requires slots.Length == MAX_PLAYERS && |draws| == MAX_PLAYERS - 1 && phase == Lobby
      modifies this, slots
      ensures View() == Lobby.Begin(old(View()), old(creator), draws).value
    {
      ghost var g := View();
      var roles := ShuffleRoles(draws);
      Deal(roles);
      Enter(Night, 1);
      assert View() == Lobby.Begin(g, creator, draws).value;
    }

    /** The deal loop of `begin_game`: seat `k` receives `roles[k]`. */
    method Deal(roles: array<Role>)
      requires slots.Length == MAX_PLAYERS && roles.Length == MAX_PLAYERS
      modifies slots
      ensures slots[..] == Lobby.Deal(old(slots[..]), old(roles[..]))
    {
      for k := 0 to MAX_PLAYERS
        invariant forall m :: 0 <= m < k ==> slots[m] == old(slots[m]).(role := roles[m])
        invariant forall m :: k <= m < MAX_PLAYERS ==> slots[m] == old(slots[m])
      {
        slots[k] := slots[k].(role := roles[k]);
      }
    }

    /** The phase and day the game moves on to. */
    method Enter(p: Phase, d: nat)
      modifies this
      ensures View() == old(View()).(phase := p, day := d)
    {
      phase, day := p, d;
    }

    /** `submit_action` on the loaded record, its checks in the contract's order. */
    method SubmitAction(player: Address, target: U32) returns (r: Result<()>)
      requires slots.Length == MAX_PLAYERS
      modifies slots
      ensures r == Status(Actions.Submit(old(View()), player, target))
      ensures View() == Committed(Actions.Submit(old(View()), player, target), old(View()))
    {
      if phase != Night && phase != Day {
        return Err(WrongPhase);
      }
      if winner.Some? {
        return Err(GameAlreadyOver);
      }
      var seat := FindSeat(player);
      if seat.None? {
        return Err(NotInGame);
      }
      var idx := seat.value;
      var mine := slots[idx];
      if !mine.alive {
        return Err(NotAlive);
      }
      if mine.submitted {
        return Err(AlreadyActed);
      }
      var action: Option<nat>;
      if target == U32_MAX {
        action := None;
      } else {
        if target >= MAX_PLAYERS {
          return Err(InvalidTarget);
        }
        if !slots[target].alive {
          return Err(InvalidTarget);
        }
        if target == idx && phase == Night && (mine.role == Mafia || mine.role == Sheriff) {
          return Err(InvalidTarget);
        }
        action := Some(target);
      }
      slots[idx] := mine.(action := action, submitted := true);
      assert View() == Actions.Submit(old(View()), player, target).value;
      r := Ok(());
    }

    /** The last loop of both resolvers: every action and flag is cleared. */
    method ClearAll()
      requires slots.Length == MAX_PLAYERS
      modifies slots
      ensures slots[..] == Night.ClearActions(old(slots[..]))
    {
      for i := 0 to MAX_PLAYERS
        invariant forall k :: 0 <= k < i ==> slots[k] == old(slots[k]).(action := None, submitted := false)
        invariant forall k :: i <= k < MAX_PLAYERS ==> slots[k] == old(slots[k])
      {
        slots[i] := slots[i].(action := None, submitted := false);
      }
    }

    /** The AI fill-in loop of `resolve_night` over the lists `all` and `town`:
        a Mafia picks among `town`, the Doctor among `all`, the Sheriff among
        `all` but itself; a Villager passes. */
    method FillNight(all: seq<nat>, town: seq<nat>, picks: seq<nat>)
      requires slots.Length == MAX_PLAYERS && |picks| == MAX_PLAYERS
      modifies slots
      ensures slots[..] == Night.FillNightWith(old(slots[..]), all, town, picks)
    {
      ghost var before := slots[..];
      for i := 0 to MAX_PLAYERS
        invariant forall k :: 0 <= k < i ==> slots[k] == Night.NightSeat(before[k], k, all, town, picks[k])
        invariant forall k :: i <= k < MAX_PLAYERS ==> slots[k] == before[k]
      {
        var s := slots[i];
        if s.alive && !s.submitted && s.addr.None? {
          var action: Option<nat>;
          match s.role {
            case Mafia => action := PickRandom(town, picks[i]);
            case Doctor => action := PickRandom(all, picks[i]);
            case Sheriff => action := PickExcluding(all, i, picks[i]);
            case Villager => action := None;
          }
          slots[i] := s.(action := action, submitted := true);
        }
      }
      assert slots[..] == Night.FillNightWith(before, all, town, picks);
    }

    /** The three scans of `resolve_night`: the target of the first living
        Mafia that named one, the choice of the first living Doctor, and the
        target of the first living Sheriff with whether it holds the Mafia
        role. */
    method NightScans() returns (kill: Option<nat>, save: Option<nat>, invest: Option<nat>, isMafia: bool)
      requires slots.Length == MAX_PLAYERS && ActionsInRange(slots[..])
      ensures kill == Night.FirstAction(slots[..], Night.ArmedMafia)
      ensures kill.Some? ==> kill.value < MAX_PLAYERS
      ensures save == Night.FirstAction(slots[..], Night.LivingDoctor)
      ensures invest == Night.FirstAction(slots[..], Night.LivingSheriff)
      ensures isMafia == (invest.Some? && slots[invest.value].role == Mafia)
    {
      var m := FindFirst(Night.ArmedMafia);
      kill := if m.Some? then slots[m.value].action else None;
      var d := FindFirst(Night.LivingDoctor);
      save := if d.Some? then slots[d.value].action else None;
      var sh := FindFirst(Night.LivingSheriff);
      invest := None;
      isMafia := false;
      if sh.Some? && slots[sh.value].action.Some? {
        var t := slots[sh.value].action.value;
        invest := Some(t);
        isMafia := slots[t].role == Mafia;
      }
    }

    /** The kill of `resolve_night`: the Mafia's target dies unless the
        Doctor's choice is the same seat, in which case the kill is saved. */
    method Kill(kill: Option<nat>, save: Option<nat>) returns (saved: bool)
      requires slots.Length == MAX_PLAYERS && (kill.Some? ==> kill.value < MAX_PLAYERS)
      modifies slots
      ensures saved == (kill.Some? && save == kill)
      ensures slots[..] == Night.Strike(old(slots[..]), kill, saved)
    {
      saved := false;
      if kill.Some? {
        if save == kill {
          saved := true;
        } else {
          slots[kill.value] := slots[kill.value].(alive := false);
        }
      }
    }

    /** The report of a resolution: the night's victim and whether it was
        saved, the investigation and its answer, and the seat voted out. */
    method Report(killed: Option<nat>, saved: bool, investigated: Option<nat>, isMafia: bool,
                  votedOut: Option<nat>)
      modifies this
      ensures View() == old(View()).(lastKilled := killed, lastSaved := saved,
        lastInvestigated := investigated, investIsMafia := isMafia, lastVotedOut := votedOut)
    {
      lastKilled, lastSaved, lastInvestigated, investIsMafia, lastVotedOut :=
        killed, saved, investigated, isMafia, votedOut;
    }

    /** The rest of `resolve_night` on the seats, once every seat has acted:
        the scans, the kill unless saved, and the clearing loop. */
    method SettleNight() returns (kill: Option<nat>, save: Option<nat>, invest: Option<nat>,
                                  isMafia: bool, saved: bool)
      requires slots.Length == MAX_PLAYERS && ActionsInRange(slots[..])
      modifies slots
      ensures kill == Night.FirstAction(old(slots[..]), Night.ArmedMafia)
      ensures save == Night.FirstAction(old(slots[..]), Night.LivingDoctor)
      ensures invest == Night.FirstAction(old(slots[..]), Night.LivingSheriff)
      ensures isMafia == (invest.Some? && old(slots[..])[invest.value].role == Mafia)
      ensures saved == (kill.Some? && save == kill)
      ensures slots[..] == Night.ClearActions(Night.Strike(old(slots[..]), kill, saved))
    {
      kill, save, invest, isMafia := NightScans();
      saved := Kill(kill, save);
      ClearAll();
    }

    /** `resolve_night` on the loaded record: the fill-in, the settling of the
        seats, then the night report. */
    method ResolveNight(picks: seq<nat>)
      requires slots.Length == MAX_PLAYERS && |picks| == MAX_PLAYERS && ActionsInRange(slots[..])
      modifies this, slots
      ensures View() == Night.ResolveNight(old(View()), picks)
    {
      ghost var g := View();
      var all, town := LivingLists();
      FillNight(all, town, picks);
      ghost var filled := slots[..];
      assert filled == Night.FillNight(g.slots, picks);
      Night.FillNightInRange(g.slots, picks);
      var kill, save, invest, isMafia, saved := SettleNight();
      assert View() == g.(slots := Night.ClearActions(Night.Strike(filled, kill, saved)));
      Report(kill, saved, invest, isMafia, None);
      Night.NightOutcomeOf(g, filled, kill, save, invest, isMafia, saved);
    }

    /** The AI vote loop of `resolve_day` over the list `living`: an AI seat
        votes for any of them but itself. */
    method FillDay(living: seq<nat>, picks: seq<nat>)
      requires slots.Length == MAX_PLAYERS && |picks| == MAX_PLAYERS
      modifies slots
      ensures slots[..] == Day.FillDayWith(old(slots[..]), living, picks)
    {
      ghost var before := slots[..];
      for i := 0 to MAX_PLAYERS
        invariant forall k :: 0 <= k < i ==> slots[k] == Day.DaySeat(before[k], k, living, picks[k])
        invariant forall k :: i <= k < MAX_PLAYERS ==> slots[k] == before[k]
      {
        var s := slots[i];
        if s.alive && !s.submitted && s.addr.None? {
          var action := PickExcluding(living, i, picks[i]);
          slots[i] := s.(action := action, submitted := true);
        }
      }
      assert slots[..] == Day.FillDayWith(before, living, picks);
    }

    /** The vote count of `resolve_day`: `counts[t]` is the number of living
        seats whose action names `t`. */
    method CountVotes() returns (counts: array<nat>)
      requires slots.Length == MAX_PLAYERS && ActionsInRange(slots[..])
      ensures fresh(counts) && counts[..] == Day.Tally(slots[..])
    {
      counts := new nat[MAX_PLAYERS](_ => 0);
      for i := 0 to MAX_PLAYERS
        invariant forall t :: 0 <= t < MAX_PLAYERS ==> counts[t] == Day.VotesUpTo(slots[..], t, i)
        modifies counts
      {
        var s := slots[i];
        if s.alive && s.action.Some? {
          var t := s.action.value;
          counts[t] := counts[t] + 1;
        }
      }
    }

    /** The plurality scan of `resolve_day`: a living seat takes the lead only
        with strictly more votes than the leader so far. */
    method Leader(counts: array<nat>) returns (elim: Option<nat>)
      requires slots.Length == MAX_PLAYERS && counts.Length == MAX_PLAYERS
      ensures elim == Day.LeaderUpTo(slots[..], counts[..], MAX_PLAYERS).1
    {
      var maxV: nat := 0;
      elim := None;
      for i := 0 to MAX_PLAYERS
        invariant (maxV, elim) == Day.LeaderUpTo(slots[..], counts[..], i)
      {
        if slots[i].alive && counts[i] > maxV {
          maxV := counts[i];
          elim := Some(i);
        }
      }
    }

    /** The rest of `resolve_day` on the seats, once every seat has voted:
        the count, the plurality scan, the elimination, and the clearing
        loop. */
    method SettleDay() returns (elim: Option<nat>)
      requires slots.Length == MAX_PLAYERS && ActionsInRange(slots[..])
      modifies slots
      ensures elim == Day.Eliminated(old(slots[..]))
      ensures slots[..] == Night.ClearActions(Night.Strike(old(slots[..]), elim, false))
    {
      var counts := CountVotes();
      elim := Leader(counts);
      if elim.Some? {
        slots[elim.value] := slots[elim.value].(alive := false);
      }
      assert slots[..] == Night.Strike(old(slots[..]), elim, false);
      ClearAll();
    }

    /** `resolve_day` on the loaded record: the living list, the fill-in, the
        settling of the seats, then the report. */
    method ResolveDay(picks: seq<nat>)
      requires slots.Length == MAX_PLAYERS && |picks| == MAX_PLAYERS && ActionsInRange(slots[..])
      modifies this, slots
      ensures View() == Day.ResolveDay(old(View()), picks)
    {
      ghost var g := View();
      var living, _ := LivingLists();
      FillDay(living, picks);
      ghost var filled := slots[..];
      assert filled == Day.FillDay(g.slots, picks);
      Day.FillDayInRange(g.slots, picks);
      var elim := SettleDay();
      assert View() == g.(slots := Night.ClearActions(Night.Strike(filled, elim, false)));
      Report(None, false, lastInvestigated, investIsMafia, elim);
    }

    /** The head count loop of `resolve`: the living Mafia and the living
        Town. */
    method HeadCounts() returns (mafia: nat, town: nat)
      requires slots.Length == MAX_PLAYERS
      ensures mafia == MafiaAlive(slots[..]) && town == TownAlive(slots[..])
    {
      mafia, town := 0, 0;
      for i := 0 to MAX_PLAYERS
        invariant mafia == MafiaAliveUpTo(slots[..], i) && town == TownAliveUpTo(slots[..], i)
      {
        var s := slots[i];
        if s.alive {
          if s.role == Mafia {
            mafia := mafia + 1;
          } else {
            town := town + 1;
          }
        }
      }
    }

    /** The win check of `resolve` on the head counts. */
    method Decide()
      requires slots.Length == MAX_PLAYERS
      modifies this
      ensures View() == Resolution.DecideWinner(old(View()))
    {
      var mafia, town := HeadCounts();
      if mafia == 0 {
        winner, phase := Some(Town), Over;
      } else if mafia >= town {
        winner, phase := Some(MafiaTeam), Over;
      }
    }

    /** A night is resolved and the same day's day phase begins. */
    method NightToDay(picks: seq<nat>)
      requires slots.Length == MAX_PLAYERS && |picks| == MAX_PLAYERS && ActionsInRange(slots[..])
      modifies this, slots
      ensures View() == Resolution.NightToDay(old(View()), picks)
    {
      ResolveNight(picks);
      Enter(Day, day);
    }

    /** A day is resolved and the next night begins. */
    method DayToNight(picks: seq<nat>)
      requires slots.Length == MAX_PLAYERS && |picks| == MAX_PLAYERS && ActionsInRange(slots[..])
      modifies this, slots
      ensures View() == Resolution.DayToNight(old(View()), picks)
    {
      var d := day;
      ResolveDay(picks);
      Enter(Night, d + 1);
    }

    /** The resolver of the current phase and the move to the next one. */
    method Advance(picks: seq<nat>)
      requires slots.Length == MAX_PLAYERS && |picks| == MAX_PLAYERS && ActionsInRange(slots[..])
      requires phase == Night || phase == Day
      modifies this, slots
      ensures View() == Resolution.Advance(old(View()), picks)
    {
      if phase == Night {
        NightToDay(picks);
      } else {
        DayToNight(picks);
      }
    }

    /** `resolve` on the loaded record: the phase checks, the resolver of the
        phase, the head count loop and the win check. */
    method Resolve(picks: seq<nat>) returns (r: Result<()>)
      requires slots.Length == MAX_PLAYERS && |picks| == MAX_PLAYERS && ActionsInRange(slots[..])
      modifies this, slots
      ensures r == Status(Resolution.Resolve(old(View()), picks))
      ensures View() == Committed(Resolution.Resolve(old(View()), picks), old(View()))
    {
      if phase != Night && phase != Day {
        return Err(WrongPhase);
      }
      if winner.Some? {
        return Err(GameAlreadyOver);
      }
      Advance(picks);
      Decide();
      r := Ok(());
    }
  }
}
