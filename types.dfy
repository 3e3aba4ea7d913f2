/** Values shared by every part of the Mafia Duel session engine: roles, phases,
    teams, the error taxonomy, seats and the game record kept in storage. */
module Types {

  /** Number of seats in every room. */
  const MAX_PLAYERS: nat := 8

  /** Largest 32-bit unsigned value; as a submitted target it means "pass". */
  const U32_MAX: nat := 0xFFFF_FFFF

  /** The contract's `u32` arguments. */
  type U32 = x: int | 0 <= x <= U32_MAX

  datatype Option<T> = None | Some(value: T)

  /** Role codes 0..3 of the contract: Mafia = 0, Villager = 1, Doctor = 2, Sheriff = 3.
      Before roles are dealt every seat carries code 0, i.e. Mafia. */
  datatype Role = Mafia | Villager | Doctor | Sheriff

  /** Phase codes 0..3: Lobby, Night, Day, Over. */
  datatype Phase = Lobby | Night | Day | Over

  /** Team codes: MafiaTeam = 0, Town = 1. */
  datatype Team = MafiaTeam | Town

  datatype MafiaError =
    | GameNotFound
    | GameFull
    | AlreadyJoined
    | NotInGame
    | WrongPhase
    | AlreadyActed
    | InvalidTarget
    | NotAlive
    | GameAlreadyOver
    | NotCreator
    | SessionExists

  /** `Result<T, MafiaError>` of the contract. */
  datatype Result<T> = Ok(value: T) | Err(error: MafiaError)

  /** An authenticated account. */
  datatype Address = Address(id: nat)

  /** One seat. `addr == None` means the seat is AI-controlled; `action == None`
      is a pass (or an abstention by day). */
  datatype Slot = Slot(addr: Option<Address>, role: Role, alive: bool,
                       action: Option<nat>, submitted: bool)

  /** The `Game` record as it is kept in storage. */
  datatype GameState = GameState(
    creator: Address,
    slots: seq<Slot>,
    humanCount: nat,
    phase: Phase,
    day: nat,
    winner: Option<Team>,
    lastKilled: Option<nat>,
    lastSaved: bool,
    lastInvestigated: Option<nat>,
    investIsMafia: bool,
    lastVotedOut: Option<nat>,
    wager: int)

  /** The roles dealt at the start: 2 Mafia, 1 Doctor, 1 Sheriff, 4 Villager. */
  const ROLE_TEMPLATE: seq<Role> :=
    [Mafia, Mafia, Doctor, Sheriff, Villager, Villager, Villager, Villager]

  /** What a mutating call returns once its new state is known. */
  function Status(res: Result<GameState>): Result<()>
  {
    match res
    case Ok(_) => Ok(())
    case Err(e) => Err(e)
  }

  /** The state a call leaves behind: the new one on success, the old one on error. */
  function Committed(res: Result<GameState>, before: GameState): GameState
  {
    match res
    case Ok(after) => after
    case Err(_) => before
  }
}
