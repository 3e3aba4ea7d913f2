/** The invariant every stored game satisfies, whatever sequence of calls
    produced it. */
module Invariant {
  import opened Types
  import opened Seats

  /** Human seats are exactly the first `humanCount` seats. */
  ghost predicate SeatsFilledInOrder(g: GameState)
  {
    forall i :: 0 <= i < |g.slots| ==> (g.slots[i].addr.Some? <==> i < g.humanCount)
  }

  /** No account holds two seats. */
  ghost predicate DistinctPlayers(slots: seq<Slot>)
  {
    forall i, j :: 0 <= i < j < |slots| && slots[i].addr.Some? ==> slots[i].addr != slots[j].addr
  }

  /** Every recorded action comes from a living seat that has submitted, and
      names an existing, living seat. */
  ghost predicate ActionsAimAtLiving(slots: seq<Slot>)
  {
    && (forall i :: 0 <= i < |slots| && slots[i].action.Some? ==>
          slots[i].alive && slots[i].submitted && slots[i].action.value < |slots|)
    && (forall i, t :: 0 <= i < |slots| && 0 <= t < |slots| && slots[i].action == Some(t) ==>
          slots[t].alive)
  }

  /** Every recorded action names an existing seat. */
  predicate ActionsInRange(slots: seq<Slot>)
  {
    forall i :: 0 <= i < |slots| && slots[i].action.Some? ==> slots[i].action.value < |slots|
  }

  /** No seat has acted in the current phase. */
  predicate Idle(slots: seq<Slot>)
  {
    forall i :: 0 <= i < |slots| ==> slots[i].action.None? && !slots[i].submitted
  }

  /** No Mafia and no Sheriff names its own seat. */
  predicate NoSelfTarget(slots: seq<Slot>)
  {
    forall i :: 0 <= i < |slots| && (slots[i].role == Mafia || slots[i].role == Sheriff) ==>
      slots[i].action != Some(i)
  }

  /** Neither win condition holds. */
  ghost predicate Undecided(slots: seq<Slot>)
  {
    0 < MafiaAlive(slots) < TownAlive(slots)
  }

  /** The roles on the table are those of the template: 2 Mafia, 1 Doctor,
      1 Sheriff and 4 Villagers. */
  ghost predicate DealtFromTemplate(slots: seq<Slot>)
  {
    && RoleCount(slots, Mafia) == 2 && RoleCount(slots, Doctor) == 1
    && RoleCount(slots, Sheriff) == 1 && RoleCount(slots, Villager) == 4
  }

  /** Any permutation of the template is dealt from it. */
  lemma TemplatePermutationDealt(slots: seq<Slot>)
    requires multiset(Roles(slots)) == multiset(ROLE_TEMPLATE)
    ensures DealtFromTemplate(slots)
  {
    assert Roles(slots)[..|slots|] == Roles(slots);
    RoleCountIsMultiplicity(slots, Mafia, |slots|);
    RoleCountIsMultiplicity(slots, Doctor, |slots|);
    RoleCountIsMultiplicity(slots, Sheriff, |slots|);
    RoleCountIsMultiplicity(slots, Villager, |slots|);
  }

  ghost predicate Inv(g: GameState)
  {
    && |g.slots| == MAX_PLAYERS
    && 1 <= g.humanCount <= MAX_PLAYERS
    && SeatsFilledInOrder(g)
    && g.slots[0].addr == Some(g.creator)
    && DistinctPlayers(g.slots)
    && ActionsAimAtLiving(g.slots)
    && (g.winner.Some? <==> g.phase == Over)
    && (g.phase == Lobby ==> g.day == 0 && forall i :: 0 <= i < |g.slots| ==> g.slots[i].alive)
    && ((g.phase == Lobby || g.phase == Over) ==> Idle(g.slots))
    && (g.phase == Night ==> NoSelfTarget(g.slots))
    && (g.phase != Lobby ==> g.day >= 1 && DealtFromTemplate(g.slots))
    && ((g.phase == Night || g.phase == Day) ==> Undecided(g.slots))
    && (g.winner == Some(Town) ==> MafiaAlive(g.slots) == 0)
    && (g.winner == Some(MafiaTeam) ==> 0 < MafiaAlive(g.slots) && TownAlive(g.slots) <= MafiaAlive(g.slots))
  }

  /** Only the addresses, the creator and the human count matter to the seating
      part of the invariant. */
  lemma SeatingKept(g: GameState, g': GameState)
    requires |g.slots| == |g'.slots| >= 1
    requires g'.creator == g.creator && g'.humanCount == g.humanCount
    requires forall i :: 0 <= i < |g.slots| ==> g'.slots[i].addr == g.slots[i].addr
    requires SeatsFilledInOrder(g) && DistinctPlayers(g.slots) && g.slots[0].addr == Some(g.creator)
    ensures SeatsFilledInOrder(g') && DistinctPlayers(g'.slots) && g'.slots[0].addr == Some(g'.creator)
  {
  }

  /** A step that leaves every seat's holder, life and role, and the game's
      creator, human count, phase, winner and day as they were, and whose actions
      aim at living seats, keeps the invariant. */
  lemma SameTableKeepsInv(g: GameState, g': GameState)
    requires Inv(g) && |g'.slots| == |g.slots|
    requires g'.creator == g.creator && g'.humanCount == g.humanCount && g'.phase == g.phase
    requires g'.winner == g.winner && g'.day == g.day
    requires forall i :: 0 <= i < |g.slots| ==>
      g'.slots[i].addr == g.slots[i].addr && g'.slots[i].alive == g.slots[i].alive && g'.slots[i].role == g.slots[i].role
    requires ActionsAimAtLiving(g'.slots)
    requires (g.phase == Lobby || g.phase == Over) ==> Idle(g'.slots)
    requires g.phase == Night ==> NoSelfTarget(g'.slots)
    ensures Inv(g')
  {
    HeadCountsFollowLifeAndRole(g.slots, g'.slots);
    RoleCountsFollowRoles(g.slots, g'.slots, |g.slots|);
    SeatingKept(g, g');
  }

  /** A table whose seating and roles are those of a dealt table `g`, with no
      action pending, in a phase after the lobby and whose winner agrees with
      the head counts satisfies the invariant. */
  lemma SettledKeepsInv(g: GameState, r: GameState)
    requires |g.slots| == MAX_PLAYERS && 1 <= g.humanCount <= MAX_PLAYERS
    requires SeatsFilledInOrder(g) && DistinctPlayers(g.slots) && g.slots[0].addr == Some(g.creator)
    requires DealtFromTemplate(g.slots)
    requires |r.slots| == MAX_PLAYERS && Idle(r.slots)
    requires forall i :: 0 <= i < MAX_PLAYERS ==>
      r.slots[i].addr == g.slots[i].addr && r.slots[i].role == g.slots[i].role
    requires r.creator == g.creator && r.humanCount == g.humanCount
    requires r.phase != Lobby && r.day >= 1
    requires r.winner.Some? <==> r.phase == Over
    requires (r.phase == Night || r.phase == Day) ==> Undecided(r.slots)
    requires r.winner == Some(Town) ==> MafiaAlive(r.slots) == 0
    requires r.winner == Some(MafiaTeam) ==> 0 < MafiaAlive(r.slots) && TownAlive(r.slots) <= MafiaAlive(r.slots)
    ensures Inv(r)
  {
    RoleCountsFollowRoles(g.slots, r.slots, |g.slots|);
    SeatingKept(g, r);
    assert ActionsAimAtLiving(r.slots);
  }

  /** Only life, actions and submission flags matter to `ActionsAimAtLiving`. */
  lemma ActionsAimKept(s1: seq<Slot>, s2: seq<Slot>)
    requires |s1| == |s2| && ActionsAimAtLiving(s1)
    requires forall i :: 0 <= i < |s1| ==>
      s2[i].alive == s1[i].alive && s2[i].action == s1[i].action && s2[i].submitted == s1[i].submitted
    ensures ActionsAimAtLiving(s2)
  {
  }
}
