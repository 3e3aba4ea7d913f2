/** `submit_action`: a seated, living player who has not yet acted records a
    target for the current night or day, or passes with the largest `u32`. */
module Actions {
  import opened Types
  import opened Seats
  import opened Invariant

  /** The game is in a phase that takes actions. */
  predicate InPlay(g: GameState)
  {
    g.phase == Night || g.phase == Day
  }

  /** The target rule for seat `idx`: an existing, living seat, and not the
      actor itself when a Mafia or the Sheriff acts at night. A Doctor may
      name itself, anyone may vote for themself by day, and nothing stops a
      Mafia from naming another Mafia. */
  predicate TargetAllowed(g: GameState, idx: nat, target: nat)
    requires idx < |g.slots|
  {
    && target < MAX_PLAYERS
    && target < |g.slots|
    && g.slots[target].alive
    && !(target == idx && g.phase == Night && (g.slots[idx].role == Mafia || g.slots[idx].role == Sheriff))
  }

  /** The action a target argument stands for: `u32::MAX` is a pass. */
  function ActionOf(target: U32): (a: Option<nat>)
    ensures a.None? <==> target == U32_MAX
    ensures a.Some? ==> a.value == target
  {
    if target == U32_MAX then None else Some(target)
  }

  /** `submit_action`, its checks in the contract's order: phase, winner,
      membership, life, an earlier submission, then the target. */
  function Submit(g: GameState, player: Address, target: U32): (r: Result<GameState>)
    requires |g.slots| == MAX_PLAYERS
    ensures r == Err(WrongPhase) <==> !InPlay(g)
    ensures r == Err(GameAlreadyOver) <==> InPlay(g) && g.winner.Some?
    ensures r == Err(NotInGame) <==> InPlay(g) && g.winner.None? && !Seated(g.slots, player)
    ensures r == Err(NotAlive) <==> (InPlay(g) && g.winner.None? && Seated(g.slots, player)
      && !g.slots[SeatOf(g.slots, player).value].alive)
    ensures r == Err(AlreadyActed) <==> (InPlay(g) && g.winner.None? && Seated(g.slots, player)
      && g.slots[SeatOf(g.slots, player).value].alive && g.slots[SeatOf(g.slots, player).value].submitted)
    ensures r == Err(InvalidTarget) <==> (InPlay(g) && g.winner.None? && Seated(g.slots, player)
      && g.slots[SeatOf(g.slots, player).value].alive && !g.slots[SeatOf(g.slots, player).value].submitted
      && target != U32_MAX && !TargetAllowed(g, SeatOf(g.slots, player).value, target))
    ensures r.Ok? <==> (InPlay(g) && g.winner.None? && Seated(g.slots, player)
      && g.slots[SeatOf(g.slots, player).value].alive && !g.slots[SeatOf(g.slots, player).value].submitted
      && (target == U32_MAX || TargetAllowed(g, SeatOf(g.slots, player).value, target)))
  {
    if !InPlay(g) then Err(WrongPhase)
    else if g.winner.Some? then Err(GameAlreadyOver)
    else match SeatOf(g.slots, player)
      case None => Err(NotInGame)
      case Some(idx) =>
        var mine := g.slots[idx];
        if !mine.alive then Err(NotAlive)
        else if mine.submitted then Err(AlreadyActed)
        else if target != U32_MAX && !TargetAllowed(g, idx, target) then Err(InvalidTarget)
        else Ok(g.(slots := g.slots[idx := mine.(action := ActionOf(target), submitted := true)]))
  }

  /** A successful submission touches only the caller's seat, which now holds
      the action and is marked as submitted; a recorded target is a living seat
      and, at night, not the Mafia's or the Sheriff's own. */
  lemma SubmitRecordsOnlyCaller(g: GameState, player: Address, target: U32, g': GameState)
    requires |g.slots| == MAX_PLAYERS && Submit(g, player, target) == Ok(g')
    ensures var idx := SeatOf(g.slots, player).value;
      && |g'.slots| == MAX_PLAYERS
      && g'.slots[idx].addr == Some(player)
      && g'.slots[idx] == g.slots[idx].(action := ActionOf(target), submitted := true)
      && (forall i :: 0 <= i < MAX_PLAYERS && i != idx ==> g'.slots[i] == g.slots[i])
      && g'.(slots := g.slots) == g
      && (target != U32_MAX ==> target < MAX_PLAYERS && g.slots[target].alive)
      && (target == idx && g.phase == Night ==> g.slots[idx].role !in {Mafia, Sheriff})
  {
  }

  /** Recording an action for a living seat, aimed at a living seat, keeps the
      invariant. */
  lemma ActingKeepsInv(g: GameState, idx: nat, a: Option<nat>, g': GameState)
    requires Inv(g) && idx < MAX_PLAYERS && g.slots[idx].alive && InPlay(g)
    requires a.Some? ==> a.value < MAX_PLAYERS && g.slots[a.value].alive
    requires g.phase == Night && (g.slots[idx].role == Mafia || g.slots[idx].role == Sheriff) ==> a != Some(idx)
    requires g' == g.(slots := g.slots[idx := g.slots[idx].(action := a, submitted := true)])
    ensures Inv(g')
  {
    assert ActionsAimAtLiving(g'.slots);
    SameTableKeepsInv(g, g');
  }

  /** A player who has just acted is refused a second action in the same phase. */
  lemma SubmitOncePerPhase(g: GameState, player: Address, target: U32, g': GameState, again: U32)
    requires |g.slots| == MAX_PLAYERS && Submit(g, player, target) == Ok(g')
    ensures Submit(g', player, again) == Err(AlreadyActed)
  {
    var idx := SeatOf(g.slots, player).value;
    assert g'.slots[idx].addr == Some(player);
    assert SeatOf(g'.slots, player) == Some(idx) by {
      assert forall i :: 0 <= i < idx ==> g'.slots[i] == g.slots[i];
    }
  }

  /** Under the invariant `GameAlreadyOver` is never the answer: a game with a
      winner is over, and the phase check refuses it first. */
  lemma SubmitNeverAlreadyOver(g: GameState, player: Address, target: U32)
    requires Inv(g)
    ensures Submit(g, player, target) != Err(GameAlreadyOver)
    ensures g.phase == Over ==> Submit(g, player, target) == Err(WrongPhase)
  {
  }

  /** Submitting keeps the invariant. */
  lemma SubmitKeepsInv(g: GameState, player: Address, target: U32, g': GameState)
    requires Inv(g) && Submit(g, player, target) == Ok(g')
    ensures Inv(g')
  {
    var idx := SeatOf(g.slots, player).value;
    SubmitRecordsOnlyCaller(g, player, target, g');
    ActingKeepsInv(g, idx, ActionOf(target), g');
  }
}
