/** The contract's entry points over its storage of games, keyed by session
    id: each call loads the stored record, runs the step on a working copy,
    and stores the copy back only when the step succeeds. */
module Contract {
  import opened Types
  import opened Invariant
  import Lobby
  import Actions
  import Resolution
  import Engine

  class MafiaDuel {
    /** The temporary storage: one game record per session id. */
    var games: map<U32, GameState>

    /** Every stored game satisfies the invariant. */
    ghost predicate Valid()
      reads this
    {
      forall id :: id in games ==> Inv(games[id])
    }

    /** `store`: the record of session `id` is written, or overwritten. */
    method Store(id: U32, g: GameState)
      requires Valid() && Inv(g)
      modifies this
      ensures Valid() && games == old(games)[id := g]
    {
      games := games[id := g];
    }

    /** A freshly deployed contract stores no game. */
    constructor ()
      ensures Valid() && games == map[]
    {
      games := map[];
    }

    /** `create_game`: refused when the session id is taken; otherwise a new
        room with the creator in seat 0 is stored. */
    method CreateGame(id: U32, creator: Address, wager: int) returns (r: Result<()>)
      requires Valid()
      modifies this
      ensures Valid()
      ensures id in old(games) ==> r == Err(SessionExists) && games == old(games)
      ensures id !in old(games) ==> r == Ok(()) && games == old(games)[id := Lobby.NewGame(creator, wager)]
    {
      if id in games {
        return Err(SessionExists);
      }
      var game := new Engine.Game.Create(creator, wager);
      Store(id, game.View());
      r := Ok(());
    }

    /** `join_game` on the stored session. */
    method JoinGame(id: U32, player: Address) returns (r: Result<()>)
      requires Valid()
      modifies this
      ensures Valid()
      ensures id !in old(games) ==> r == Err(GameNotFound) && games == old(games)
      ensures id in old(games) ==> r == Status(Lobby.Join(old(games)[id], player))
      ensures id in old(games) && r.Err? ==> games == old(games)
      ensures id in old(games) && r.Ok? ==> games == old(games)[id := Lobby.Join(old(games)[id], player).value]
    {
      if id !in games {
        return Err(GameNotFound);
      }
      var before := games[id];
      var game := new Engine.Game.Load(before);
      r := game.Join(player);
      if r.Ok? {
        Lobby.JoinSeatsNextPlayer(before, player);
        Store(id, game.View());
      }
    }

    /** `begin_game` on the stored session; `draws` are the seven draws of the
        shuffle, the first one first. */
    method BeginGame(id: U32, caller: Address, draws: seq<nat>) returns (r: Result<()>)
      requires Valid() && |draws| == MAX_PLAYERS - 1
      modifies this
      ensures Valid()
      ensures id !in old(games) ==> r == Err(GameNotFound) && games == old(games)
      ensures id in old(games) ==> r == Status(Lobby.Begin(old(games)[id], caller, draws))
      ensures id in old(games) && r.Err? ==> games == old(games)
      ensures id in old(games) && r.Ok? ==> games == old(games)[id := Lobby.Begin(old(games)[id], caller, draws).value]
    {
      if id !in games {
        return Err(GameNotFound);
      }
      var before := games[id];
      var game := new Engine.Game.Load(before);
      r := game.Begin(caller, draws);
      if r.Ok? {
        Lobby.BeginKeepsInv(before, caller, draws, game.View());
        Store(id, game.View());
      }
    }

    /** `submit_action` on the stored session. */
    method SubmitAction(id: U32, player: Address, target: U32) returns (r: Result<()>)
      requires Valid()
      modifies this
      ensures Valid()
      ensures id !in old(games) ==> r == Err(GameNotFound) && games == old(games)
      ensures id in old(games) ==> r == Status(Actions.Submit(old(games)[id], player, target))
      ensures id in old(games) && r.Err? ==> games == old(games)
      ensures id in old(games) && r.Ok? ==> games == old(games)[id := Actions.Submit(old(games)[id], player, target).value]
    {
      if id !in games {
        return Err(GameNotFound);
      }
      var before := games[id];
      var game := new Engine.Game.Load(before);
      r := game.SubmitAction(player, target);
      if r.Ok? {
        Actions.SubmitKeepsInv(before, player, target, game.View());
        Store(id, game.View());
      }
    }

    /** `resolve` on the stored session; `picks[i]` is the draw used by AI
        seat `i`. */
    method Resolve(id: U32, picks: seq<nat>) returns (r: Result<()>)
      requires Valid() && |picks| == MAX_PLAYERS
      modifies this
      ensures Valid()
      ensures id !in old(games) ==> r == Err(GameNotFound) && games == old(games)
      ensures id in old(games) ==> r == Status(Resolution.Resolve(old(games)[id], picks))
      ensures id in old(games) && r.Err? ==> games == old(games)
      ensures id in old(games) && r.Ok? ==> games == old(games)[id := Resolution.Resolve(old(games)[id], picks).value]
    {
      if id !in games {
        return Err(GameNotFound);
      }
      var before := games[id];
      var game := new Engine.Game.Load(before);
      r := game.Resolve(picks);
      if r.Ok? {
        Resolution.ResolveKeepsInv(before, picks, game.View());
        Store(id, game.View());
      }
    }
  }
}
