/** `resolve`: the current night or day is resolved, the phase advances, and
    the game ends when no Mafia is alive (Town wins) or the living Mafia are at
    least as many as the living Town (Mafia wins). */
module Resolution {
  import opened Types
  import opened Seats
  import opened Invariant
  import opened Actions
  import opened Night
  import opened Day

  /** The win check after every resolution: Town wins when no Mafia lives,
      Mafia wins when it is at parity or better, and otherwise play goes on. */
  function DecideWinner(g: GameState): (r: GameState)
    ensures r == g.(winner := r.winner, phase := r.phase)
    ensures MafiaAlive(g.slots) == 0 ==> r == g.(winner := Some(Town), phase := Over)
    ensures 0 < MafiaAlive(g.slots) && TownAlive(g.slots) <= MafiaAlive(g.slots) ==>
      r == g.(winner := Some(MafiaTeam), phase := Over)
    ensures Undecided(g.slots) ==> r == g
  {
    var m := MafiaAlive(g.slots);
    var t := TownAlive(g.slots);
    if m == 0 then g.(winner := Some(Town), phase := Over)
    else if m >= t then g.(winner := Some(MafiaTeam), phase := Over)
    else g
  }

  /** A night is resolved and the same day's day phase comes. */
  function NightToDay(g: GameState, picks: seq<nat>): GameState
    requires |g.slots| == MAX_PLAYERS && |picks| == MAX_PLAYERS && ActionsInRange(g.slots)
  {
    ResolveNight(g, picks).(phase := Day)
  }

  /** A day is resolved and the next night comes, one day later. */
  function DayToNight(g: GameState, picks: seq<nat>): GameState
    requires |g.slots| == MAX_PLAYERS && |picks| == MAX_PLAYERS && ActionsInRange(g.slots)
  {
    ResolveDay(g, picks).(phase := Night, day := g.day + 1)
  }

  /** The phase step of `resolve`. */
  function Advance(g: GameState, picks: seq<nat>): GameState
    requires |g.slots| == MAX_PLAYERS && |picks| == MAX_PLAYERS && ActionsInRange(g.slots)
    requires InPlay(g)
  {
    if g.phase == Night then NightToDay(g, picks) else DayToNight(g, picks)
  }

  /** `resolve`: refused outside night and day, then refused once a winner is
      known; otherwise the phase is resolved and the win check runs. The draw
      `picks[i]` is the one AI seat `i` uses. */
  function Resolve(g: GameState, picks: seq<nat>): (r: Result<GameState>)
    requires |g.slots| == MAX_PLAYERS && |picks| == MAX_PLAYERS && ActionsInRange(g.slots)
    ensures r == Err(WrongPhase) <==> !InPlay(g)
    ensures r == Err(GameAlreadyOver) <==> InPlay(g) && g.winner.Some?
    ensures r.Ok? <==> InPlay(g) && g.winner.None?
  {
    if !InPlay(g) then Err(WrongPhase)
    else if g.winner.Some? then Err(GameAlreadyOver)
    else Ok(DecideWinner(Advance(g, picks)))
  }

  /** The win check's thresholds on a game nobody has won yet: Town wins
      exactly when no Mafia is alive, Mafia wins exactly when some Mafia lives
      and the living Town are no more than the living Mafia, the game is over
      exactly when someone has won, and an undecided game is left as it is. */
  lemma DecideWinnerThresholds(m: GameState)
    requires m.winner.None? && m.phase != Over
    ensures var r := DecideWinner(m);
      && (r.winner == Some(Town) <==> MafiaAlive(m.slots) == 0)
      && (r.winner == Some(MafiaTeam) <==> 0 < MafiaAlive(m.slots) && TownAlive(m.slots) <= MafiaAlive(m.slots))
      && (r.winner.None? <==> Undecided(m.slots))
      && (r.phase == Over <==> r.winner.Some?)
      && (r.phase != Over ==> r == m)
  {
    var r := DecideWinner(m);
    if MafiaAlive(m.slots) == 0 {
      assert r == m.(winner := Some(Town), phase := Over);
    } else if TownAlive(m.slots) <= MafiaAlive(m.slots) {
      assert r == m.(winner := Some(MafiaTeam), phase := Over);
    } else {
      assert r == m;
    }
  }

  /** Seat `i` died in the step from `before` to `after`. */
  predicate DiedAt(before: seq<Slot>, after: seq<Slot>, i: nat)
    requires i < |before| && i < |after|
  {
    before[i].alive && !after[i].alive
  }

  /** What the resolvers need of a table: a full table whose actions aim at
      living seats and, at night, at no Mafia's or Sheriff's own seat. Every
      game satisfying the invariant is resolvable. */
  ghost predicate Resolvable(g: GameState)
  {
    |g.slots| == MAX_PLAYERS && ActionsAimAtLiving(g.slots) && (g.phase == Night ==> NoSelfTarget(g.slots))
  }

  /** What one phase step does to the table: holders and roles stay, every
      action is cleared, the phase advances, nobody comes back to life, and
      the only seat that may die is the night's unsaved victim or the seat
      voted out. */
  lemma AdvanceTable(g: GameState, picks: seq<nat>)
    requires |g.slots| == MAX_PLAYERS && |picks| == MAX_PLAYERS && InPlay(g)
    requires ActionsAimAtLiving(g.slots) && (g.phase == Night ==> NoSelfTarget(g.slots))
    ensures var m := Advance(g, picks);
      && |m.slots| == MAX_PLAYERS && Idle(m.slots)
      && (forall i :: 0 <= i < MAX_PLAYERS ==>
            m.slots[i].addr == g.slots[i].addr && m.slots[i].role == g.slots[i].role)
      && m.creator == g.creator && m.humanCount == g.humanCount && m.winner == g.winner
      && m.wager == g.wager
      && (g.phase == Night ==> m.phase == Day && m.day == g.day)
      && (g.phase == Day ==> m.phase == Night && m.day == g.day + 1)
    ensures var m := Advance(g, picks);
      && (g.phase == Night ==> forall i :: 0 <= i < MAX_PLAYERS ==>
            m.slots[i].alive == (g.slots[i].alive && !(m.lastKilled == Some(i) && !m.lastSaved)))
      && (g.phase == Day ==> forall i :: 0 <= i < MAX_PLAYERS ==>
            m.slots[i].alive == (g.slots[i].alive && m.lastVotedOut != Some(i)))
  {
    if g.phase == Night {
      ResolveNightTable(g, picks);
    } else {
      ResolveDayTable(g, picks);
    }
  }

  /** A step from a dealt table that deals out no new roles, clears every
      action, keeps the seating and enters a night or a day keeps the invariant
      once the win check has run. */
  lemma DecideKeepsInv(g: GameState, m: GameState)
    requires |g.slots| == MAX_PLAYERS && 1 <= g.humanCount <= MAX_PLAYERS
    requires SeatsFilledInOrder(g) && DistinctPlayers(g.slots) && g.slots[0].addr == Some(g.creator)
    requires DealtFromTemplate(g.slots)
    requires |m.slots| == MAX_PLAYERS && Idle(m.slots)
    requires forall i :: 0 <= i < MAX_PLAYERS ==>
      m.slots[i].addr == g.slots[i].addr && m.slots[i].role == g.slots[i].role
    requires m.creator == g.creator && m.humanCount == g.humanCount
    requires m.winner.None? && (m.phase == Night || m.phase == Day) && m.day >= 1
    ensures Inv(DecideWinner(m))
  {
    var r := DecideWinner(m);
    if MafiaAlive(m.slots) == 0 {
      assert r == m.(winner := Some(Town), phase := Over);
    } else if TownAlive(m.slots) <= MafiaAlive(m.slots) {
      assert r == m.(winner := Some(MafiaTeam), phase := Over);
    } else {
      assert r == m;
    }
    SettledKeepsInv(g, r);
  }

  /** Resolving keeps the invariant. */
  lemma ResolveKeepsInv(g: GameState, picks: seq<nat>, g': GameState)
    requires Inv(g) && |picks| == MAX_PLAYERS && Resolve(g, picks) == Ok(g')
    ensures Inv(g')
  {
    AdvanceTable(g, picks);
    DecideKeepsInv(g, Advance(g, picks));
  }

  /** Under the invariant `GameAlreadyOver` is never the answer, and a finished
      game refuses every further resolution with `WrongPhase`. */
  lemma ResolveNeverAlreadyOver(g: GameState, picks: seq<nat>)
    requires Inv(g) && |picks| == MAX_PLAYERS
    ensures Resolve(g, picks) != Err(GameAlreadyOver)
    ensures g.phase == Over ==> Resolve(g, picks) == Err(WrongPhase)
  {
  }

  /** The phase machine: a night leads to the same day's day phase and a day to
      the next night, unless the game ends, in which case the phase is over and
      the day count is what it would have been; the game is over exactly when a
      winner is recorded. */
  lemma ResolveTransitions(g: GameState, picks: seq<nat>, g': GameState)
    requires Resolvable(g) && |picks| == MAX_PLAYERS && Resolve(g, picks) == Ok(g')
    ensures g.phase == Night ==> (g'.phase == Day || g'.phase == Over) && g'.day == g.day
    ensures g.phase == Day ==> (g'.phase == Night || g'.phase == Over) && g'.day == g.day + 1
    ensures g'.phase == Over <==> g'.winner.Some?
  {
    AdvanceTable(g, picks);
    DecideWinnerThresholds(Advance(g, picks));
  }

  /** The win thresholds after a resolution: Town has won exactly when no
      Mafia is alive; Mafia has won exactly when some Mafia lives and the living
      Town are no more than the living Mafia; and nobody has won exactly when
      the game is still undecided. */
  lemma ResolveWinner(g: GameState, picks: seq<nat>, g': GameState)
    requires Resolvable(g) && |picks| == MAX_PLAYERS && Resolve(g, picks) == Ok(g')
    ensures g'.winner == Some(Town) <==> MafiaAlive(g'.slots) == 0
    ensures g'.winner == Some(MafiaTeam) <==>
      0 < MafiaAlive(g'.slots) && TownAlive(g'.slots) <= MafiaAlive(g'.slots)
    ensures g'.winner.None? <==> Undecided(g'.slots)
  {
    AdvanceTable(g, picks);
    DecideWinnerThresholds(Advance(g, picks));
  }

  /** Nobody comes back to life, at most one seat dies per resolution, and the
      seat that dies is the one reported: the unsaved night victim or the seat
      voted out by day. */
  lemma ResolveAtMostOneDeath(g: GameState, picks: seq<nat>, g': GameState)
    requires Resolvable(g) && |picks| == MAX_PLAYERS && Resolve(g, picks) == Ok(g')
    ensures |g'.slots| == MAX_PLAYERS
    ensures forall i :: 0 <= i < MAX_PLAYERS && g'.slots[i].alive ==> g.slots[i].alive
    ensures forall i, j :: (0 <= i < MAX_PLAYERS && 0 <= j < MAX_PLAYERS &&
      DiedAt(g.slots, g'.slots, i) && DiedAt(g.slots, g'.slots, j)) ==> i == j
    ensures forall i :: 0 <= i < MAX_PLAYERS && DiedAt(g.slots, g'.slots, i) ==>
      (g.phase == Night ==> g'.lastKilled == Some(i) && !g'.lastSaved) &&
      (g.phase == Day ==> g'.lastVotedOut == Some(i))
  {
    AdvanceTable(g, picks);
  }

  /** Resolving never reassigns a seat or a role and leaves no action behind. */
  lemma ResolveKeepsSeatsAndRoles(g: GameState, picks: seq<nat>, g': GameState)
    requires Resolvable(g) && |picks| == MAX_PLAYERS && Resolve(g, picks) == Ok(g')
    ensures |g'.slots| == MAX_PLAYERS && Idle(g'.slots)
    ensures forall i :: 0 <= i < MAX_PLAYERS ==>
      g'.slots[i].addr == g.slots[i].addr && g'.slots[i].role == g.slots[i].role
    ensures g'.creator == g.creator && g'.humanCount == g.humanCount && g'.wager == g.wager
  {
    AdvanceTable(g, picks);
  }
}
