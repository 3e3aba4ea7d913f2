/** The lobby: creating a room, joining it, and the creator starting the game
    with a Fisher–Yates shuffle of the role template. */
module Lobby {
  import opened Types
  import opened Seats
  import opened Invariant

  /** A seat as `create_game` lays it out: alive, no action, role code 0. */
  function OpenSlot(addr: Option<Address>): Slot
  {
    Slot(addr, Mafia, true, None, false)
  }

  /** `create_game`: the creator in seat 0, the other seven seats AI-controlled. */
  function NewGame(creator: Address, wager: int): (g: GameState)
    ensures Inv(g)
    ensures g.creator == creator && g.wager == wager
    ensures g.phase == Lobby && g.day == 0 && g.humanCount == 1 && g.winner.None?
    ensures g.slots[0].addr == Some(creator)
    ensures forall i :: 1 <= i < MAX_PLAYERS ==> g.slots[i].addr.None?
    ensures forall i :: 0 <= i < MAX_PLAYERS ==>
      g.slots[i].alive && !g.slots[i].submitted && g.slots[i].action.None?
  {
    GameState(creator, [OpenSlot(Some(creator))] + seq(MAX_PLAYERS - 1, _ => OpenSlot(None)),
              1, Lobby, 0, None, None, false, None, false, None, wager)
  }

  /** `join_game`: the checks in their order, then the next seat is taken. */
  function Join(g: GameState, player: Address): (r: Result<GameState>)
    requires |g.slots| == MAX_PLAYERS
    ensures r == Err(WrongPhase) <==> g.phase != Lobby
    ensures r == Err(GameFull) <==> g.phase == Lobby && g.humanCount >= MAX_PLAYERS
    ensures r == Err(AlreadyJoined) <==>
      g.phase == Lobby && g.humanCount < MAX_PLAYERS && Seated(g.slots, player)
    ensures r.Ok? <==> g.phase == Lobby && g.humanCount < MAX_PLAYERS && !Seated(g.slots, player)
  {
    if g.phase != Lobby then Err(WrongPhase)
    else if g.humanCount >= MAX_PLAYERS then Err(GameFull)
    else if SeatOf(g.slots, player).Some? then Err(AlreadyJoined)
    else
      var idx := g.humanCount;
      Ok(g.(slots := g.slots[idx := g.slots[idx].(addr := Some(player))], humanCount := idx + 1))
  }

  /** A successful join seats the player in exactly seat `humanCount`, changes
      nothing else, and keeps the invariant (so seats stay filled in order and
      no account is seated twice). */
  lemma JoinSeatsNextPlayer(g: GameState, player: Address)
    requires Inv(g) && Join(g, player).Ok?
    ensures var g' := Join(g, player).value;
      && Inv(g')
      && g'.humanCount == g.humanCount + 1
      && SeatOf(g'.slots, player) == Some(g.humanCount)
      && g'.slots[g.humanCount] == g.slots[g.humanCount].(addr := Some(player))
      && (forall i :: 0 <= i < MAX_PLAYERS && i != g.humanCount ==> g'.slots[i] == g.slots[i])
      && g'.(slots := g.slots, humanCount := g.humanCount) == g
  {
    var g' := Join(g, player).value;
    assert !Seated(g.slots, player);
    assert g'.slots[g.humanCount].addr == Some(player);
    assert Seated(g'.slots, player);
  }

  /** One step of the shuffle: positions `i` and `j` trade roles. */
  function Swap(roles: seq<Role>, i: nat, j: nat): (r: seq<Role>)
    requires i < |roles| && j < |roles|
    ensures |r| == |roles| && multiset(r) == multiset(roles)
  {
    roles[i := roles[j]][j := roles[i]]
  }

  /** The swap loop of `begin_game` from position `i` down to 1: position `i`
      trades with `draws[7 - i] % (i + 1)`, where `draws[0]` is the first draw. */
  function ShuffleFrom(roles: seq<Role>, draws: seq<nat>, i: nat): (r: seq<Role>)
    requires |roles| == MAX_PLAYERS && |draws| == MAX_PLAYERS - 1 && i < MAX_PLAYERS
    ensures |r| == MAX_PLAYERS && multiset(r) == multiset(roles)
    decreases i
  {
    if i == 0 then roles
    else ShuffleFrom(Swap(roles, i, draws[MAX_PLAYERS - 1 - i] % (i + 1)), draws, i - 1)
  }

  /** The roles dealt for the given draws: a permutation of the template. */
  function Shuffle(draws: seq<nat>): (r: seq<Role>)
    requires |draws| == MAX_PLAYERS - 1
    ensures |r| == MAX_PLAYERS && multiset(r) == multiset(ROLE_TEMPLATE)
  {
    ShuffleFrom(ROLE_TEMPLATE, draws, |draws|)
  }

  /** Whatever the draws, the shuffle is a permutation of the template: two
      Mafia, one Doctor, one Sheriff and four Villagers. */
  lemma ShufflePermutesTemplate(draws: seq<nat>)
    requires |draws| == MAX_PLAYERS - 1
    ensures multiset(Shuffle(draws)) == multiset(ROLE_TEMPLATE)
    ensures multiset(Shuffle(draws))[Mafia] == 2 && multiset(Shuffle(draws))[Doctor] == 1
    ensures multiset(Shuffle(draws))[Sheriff] == 1 && multiset(Shuffle(draws))[Villager] == 4
  {
  }

  /** Seat `i` receives `roles[i]`. */
  function Deal(slots: seq<Slot>, roles: seq<Role>): (r: seq<Slot>)
    requires |roles| == |slots|
    ensures |r| == |slots| && Roles(r) == roles
    ensures forall i :: 0 <= i < |slots| ==> r[i] == slots[i].(role := roles[i])
  {
    seq(|slots|, i requires 0 <= i < |slots| => slots[i].(role := roles[i]))
  }

  /** `begin_game`: only the creator, only from the lobby; the creator check comes first. */
  function Begin(g: GameState, caller: Address, draws: seq<nat>): (r: Result<GameState>)
    requires |g.slots| == MAX_PLAYERS && |draws| == MAX_PLAYERS - 1
    ensures r == Err(NotCreator) <==> g.creator != caller
    ensures r == Err(WrongPhase) <==> g.creator == caller && g.phase != Lobby
    ensures r.Ok? <==> g.creator == caller && g.phase == Lobby
  {
    if g.creator != caller then Err(NotCreator)
    else if g.phase != Lobby then Err(WrongPhase)
    else Ok(g.(slots := Deal(g.slots, Shuffle(draws)), phase := Night, day := 1))
  }

  /** A full table dealt from the template has two Mafia and six Town alive. */
  lemma StartingCounts(slots: seq<Slot>)
    requires |slots| == MAX_PLAYERS && DealtFromTemplate(slots)
    requires forall i :: 0 <= i < |slots| ==> slots[i].alive
    ensures MafiaAlive(slots) == 2 && TownAlive(slots) == 6
  {
    FullTableCounts(slots, |slots|);
  }

  /** Dealing the shuffled template onto a full, living table. */
  lemma ShuffledDeal(slots: seq<Slot>, draws: seq<nat>, dealt: seq<Slot>)
    requires |slots| == MAX_PLAYERS && |draws| == MAX_PLAYERS - 1
    requires forall i :: 0 <= i < |slots| ==> slots[i].alive
    requires dealt == Deal(slots, Shuffle(draws))
    ensures DealtFromTemplate(dealt)
  {
    ShufflePermutesTemplate(draws);
    TemplatePermutationDealt(dealt);
  }

  /** A lobby table whose roles alone were replaced by a deal from the
      template starts with two Mafia and six Town alive. */
  lemma DealtAtStart(g: GameState, g': GameState)
    requires Inv(g) && g.phase == Lobby && |g'.slots| == MAX_PLAYERS
    requires forall i :: 0 <= i < MAX_PLAYERS ==> g'.slots[i] == g.slots[i].(role := g'.slots[i].role)
    requires DealtFromTemplate(g'.slots)
    ensures MafiaAlive(g'.slots) == 2 && TownAlive(g'.slots) == 6
  {
    StartingCounts(g'.slots);
  }

  /** Whatever the draws, starting deals exactly 2 Mafia, 1 Doctor, 1 Sheriff
      and 4 Villagers, changes nothing but the roles, and enters night 1 with
      two Mafia against six Town alive. */
  lemma BeginDealsTemplate(g: GameState, caller: Address, draws: seq<nat>, g': GameState)
    requires Inv(g) && |draws| == MAX_PLAYERS - 1 && Begin(g, caller, draws) == Ok(g')
    ensures g'.phase == Night && g'.day == 1
    ensures forall i :: 0 <= i < MAX_PLAYERS ==> g'.slots[i] == g.slots[i].(role := g'.slots[i].role)
    ensures MafiaAlive(g'.slots) == 2 && TownAlive(g'.slots) == 6
    ensures DealtFromTemplate(g'.slots)
    ensures g'.(slots := g.slots, phase := Lobby, day := 0) == g
  {
    assert forall i :: 0 <= i < MAX_PLAYERS ==> g'.slots[i] == g.slots[i].(role := g'.slots[i].role);
    ShuffledDeal(g.slots, draws, g'.slots);
    DealtAtStart(g, g');
  }

  /** Dealing a permutation of the template into a lobby and entering night 1
      with the game undecided keeps the invariant. */
  lemma DealKeepsInv(g: GameState, g': GameState)
    requires Inv(g) && g.phase == Lobby
    requires |g'.slots| == MAX_PLAYERS
    requires forall i :: 0 <= i < MAX_PLAYERS ==> g'.slots[i] == g.slots[i].(role := g'.slots[i].role)
    requires g'.phase == Night && g'.day == 1
    requires g'.(slots := g.slots, phase := Lobby, day := 0) == g
    requires DealtFromTemplate(g'.slots)
    requires Undecided(g'.slots)
    ensures Inv(g')
  {
    SeatingKept(g, g');
    ActionsAimKept(g.slots, g'.slots);
    assert Idle(g'.slots);
  }

  /** Starting the game keeps the invariant. */
  lemma BeginKeepsInv(g: GameState, caller: Address, draws: seq<nat>, g': GameState)
    requires Inv(g) && |draws| == MAX_PLAYERS - 1 && Begin(g, caller, draws) == Ok(g')
    ensures Inv(g')
  {
    BeginDealsTemplate(g, caller, draws, g');
    DealKeepsInv(g, g');
  }
}
