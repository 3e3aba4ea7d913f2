# Mafia Duel — a verified model of the game contract

Mafia Duel is a Soroban smart contract. Up to eight players play Mafia at one table. The table has eight seats. The creator opens a room and sits in seat 0. Other accounts join the next free seats, and AI players fill the rest. When the creator starts the game, the contract shuffles the role template onto the seats: 2 Mafia, 1 Doctor, 1 Sheriff and 4 Villagers.

At night:
- one living Mafia names a victim;
- the Doctor protects one seat;
- the Sheriff investigates one seat.

By day every living seat votes. Humans act through `submit_action`. Anyone may call `resolve`, which first lets every AI seat that has not acted make a random but legal choice. It then resolves the phase and applies the win check:
- Town wins when no Mafia is alive;
- Mafia wins once the living Mafia are at least as many as the living Town.

The model is layered as follows.

- Pure reference functions over the `GameState` value, with lemmas about them:
  - `Types`: roles, phases, error codes and the game record.
  - `Seats`: seat lookup, living lists, `pick_random`, head counts.
  - `Invariant`: what every stored game satisfies.
  - `Lobby`: `create_game`, `join_game`, the shuffle and `begin_game`.
  - `Actions`: `submit_action`.
  - `Night`, `Day` and `Resolution`: `resolve_night`, `resolve_day` and `resolve`.
- `Engine`, an imperative working copy of one game loaded from storage:
  - a class `Game` with the eight slots in an `array` and the game's scalar fields as mutable fields;
  - methods that carry the loops of the contract.
  
  Each method is proved to leave exactly the state the reference function describes.
- `Contract`, the contract's entry points over its storage:
  - a class `MafiaDuel` with a map from session id to game record;
  - each entry point loads the record, runs the `Engine` method, and stores the result only on success;
  - each entry point is proved to keep every stored game within the invariant.

The random number generator of the ledger is an input. Every `gen_range(0..n)` the contract asks for is a caller-supplied natural number `draw`, and the index used is `draw % n`. Every index is reachable this way (`Seats.EveryElementPickable`), so every property below holds for every possible draw sequence. `begin_game` makes seven draws; `draws[k]` is the `k`-th of them. `resolve` gives AI seat `i` the draw `picks[i]`.

## Model

| member | source | states |
|---|---|---|
| Seats.SeatOf | contracts/mafia-duel/src/lib.rs:374-383 | The seat search returns no seat exactly when the account holds none; otherwise it returns the lowest seat the account holds. |
| Seats.LivingUpTo | contracts/mafia-duel/src/lib.rs:196-209 | The first living list holds exactly the living seats. |
| Seats.LivingTownUpTo | contracts/mafia-duel/src/lib.rs:196-209 | The second living list holds exactly the living non-Mafia seats. |
| Seats.Without | contracts/mafia-duel/src/lib.rs:185-194 | The filtered list holds exactly the listed seats other than the excluded one. |
| Seats.PickRandom | contracts/mafia-duel/src/lib.rs:177-183 | No pick exactly when the list is empty; otherwise the pick is an element of the list. |
| Seats.EveryElementPickable | contracts/mafia-duel/src/lib.rs:177-183 | Every element of a non-empty list is the pick of some draw. |
| Seats.RoleCountIsMultiplicity | contracts/mafia-duel/src/lib.rs:52-56 | The number of seats holding a role is that role's multiplicity among the dealt roles. |
| Seats.CountsFollowLifeAndRole | contracts/mafia-duel/src/lib.rs:448-458 | The living Mafia and Town counts depend only on who is alive and on the roles. |
| Seats.HeadCountsFollowLifeAndRole | contracts/mafia-duel/src/lib.rs:448-458 | The same on whole tables. |
| Seats.RoleCountsFollowRoles | contracts/mafia-duel/src/lib.rs:52-56 | Role counts depend only on the roles. |
| Seats.FullTableCounts | contracts/mafia-duel/src/lib.rs:448-458 | With everyone alive, the living Mafia count equals the Mafia role count, and Mafia plus Town equals the table size. |
| Seats.MafiaAliveUpTo | contracts/mafia-duel/src/lib.rs:448-458 | The `mafia_alive` counter: the living Mafia seats below `n`. `Engine.Game.HeadCounts` proves the counting loop equal to it. `Seats.HeadCountsBounded`, `Seats.FullTableCounts` and `Seats.CountsFollowLifeAndRole` carry its properties. |
| Seats.TownAliveUpTo | contracts/mafia-duel/src/lib.rs:448-458 | The `town_alive` counter: the living non-Mafia seats below `n`. The same lemmas carry its properties. |
| Seats.HeadCountsBounded | contracts/mafia-duel/src/lib.rs:448-458 | The two head counts together never exceed the seats counted, and the living Mafia never exceed the Mafia roles. |
| Invariant.TemplatePermutationDealt | contracts/mafia-duel/src/lib.rs:52-56 | Any permutation of the role template counts as a deal from the template. |
| Invariant.SeatingKept | contracts/mafia-duel/src/lib.rs:85-104 | A step that keeps the holders, the creator and the human count keeps the seating invariant. |
| Invariant.SameTableKeepsInv | contracts/mafia-duel/src/lib.rs:412-415 | A step that changes only actions consistent with the phase keeps the invariant. |
| Invariant.SettledKeepsInv | contracts/mafia-duel/src/lib.rs:439-466 | A resolved table with cleared actions, the same seating and roles, and a win record that matches the thresholds satisfies the invariant. |
| Invariant.ActionsAimKept | contracts/mafia-duel/src/lib.rs:412-415 | Only life, actions and submission flags matter to the living-target part of the invariant. |
| Lobby.NewGame | contracts/mafia-duel/src/lib.rs:214-262 | A new room satisfies the invariant. The creator is in seat 0, the other seven seats are AI. The phase is the lobby, day 0, one human, no winner, and every seat is alive and idle. |
| Lobby.Join | contracts/mafia-duel/src/lib.rs:265-299 | `WrongPhase` exactly outside the lobby. `GameFull` exactly with 8 humans. `AlreadyJoined` exactly when the account is seated. Success exactly otherwise. |
| Lobby.JoinSeatsNextPlayer | contracts/mafia-duel/src/lib.rs:291-295 | A join puts the player in seat `humanCount` and nowhere else, increments the count and changes nothing else. The invariant is kept. |
| Lobby.Swap | contracts/mafia-duel/src/lib.rs:322-326 | One swap step is a permutation. |
| Lobby.ShuffleFrom | contracts/mafia-duel/src/lib.rs:322-326 | The swap loop from position `i` down to 1, each position trading with the draw reduced modulo `i + 1`. Every stretch of it is a permutation of the roles it starts from. |
| Lobby.Shuffle | contracts/mafia-duel/src/lib.rs:322-326 | The roles dealt for a draw sequence are a permutation of the template. `Engine.ShuffleRoles` proves the in-place loop equal to it. |
| Lobby.ShufflePermutesTemplate | contracts/mafia-duel/src/lib.rs:322-326 | For every draw sequence the shuffled roles are a permutation of the template: 2 Mafia, 1 Doctor, 1 Sheriff, 4 Villager. |
| Lobby.Deal | contracts/mafia-duel/src/lib.rs:327-331 | Seat `i` receives role `i` and nothing else about it changes. |
| Lobby.Begin | contracts/mafia-duel/src/lib.rs:302-347 | `NotCreator` exactly when the caller is not the creator; this check comes before the phase check. `WrongPhase` exactly for the creator outside the lobby. Success exactly otherwise. |
| Lobby.StartingCounts | contracts/mafia-duel/src/lib.rs:321-334 | A full, living table dealt from the template has 2 living Mafia and 6 living Town. |
| Lobby.ShuffledDeal | contracts/mafia-duel/src/lib.rs:322-331 | Dealing the shuffle onto a table deals from the template. |
| Lobby.DealtAtStart | contracts/mafia-duel/src/lib.rs:321-334 | A lobby table re-dealt from the template has 2 living Mafia and 6 living Town. |
| Lobby.BeginDealsTemplate | contracts/mafia-duel/src/lib.rs:321-334 | After starting, the game is in night 1, only the roles changed, the roles are the template's, and 2 Mafia and 6 Town are alive. |
| Lobby.DealKeepsInv | contracts/mafia-duel/src/lib.rs:321-334 | Dealing a template permutation in the lobby and entering night 1 keeps the invariant. |
| Lobby.BeginKeepsInv | contracts/mafia-duel/src/lib.rs:302-347 | Starting keeps the invariant. |
| Actions.ActionOf | contracts/mafia-duel/src/lib.rs:393-410 | `u32::MAX` is a pass; any other argument names that seat. |
| Actions.TargetAllowed | contracts/mafia-duel/src/lib.rs:396-408 | The target rule: an existing, living seat, and at night not the Mafia's or the Sheriff's own seat. It has no contract of its own. `Actions.Submit` states that `InvalidTarget` arises exactly when a named target breaks it, and `Actions.SubmitRecordsOnlyCaller` states the rule for every recorded target. |
| Actions.Submit | contracts/mafia-duel/src/lib.rs:354-419 | The checks fire in order: phase, winner, seated, alive, already acted, then target. Each error arises exactly under its condition, and success exactly when all the checks pass. |
| Actions.SubmitRecordsOnlyCaller | contracts/mafia-duel/src/lib.rs:393-415 | Success records the action on the caller's seat only and marks it as submitted. A named target is a living seat, and at night it is not a Mafia's or the Sheriff's own seat. |
| Actions.ActingKeepsInv | contracts/mafia-duel/src/lib.rs:393-415 | Recording a legal action for a living seat keeps the invariant. |
| Actions.SubmitOncePerPhase | contracts/mafia-duel/src/lib.rs:389-391 | A second submission in the same phase is refused with `AlreadyActed`. |
| Actions.SubmitNeverAlreadyOver | contracts/mafia-duel/src/lib.rs:367-372 | Under the invariant `GameAlreadyOver` never occurs; a finished game answers `WrongPhase`. |
| Actions.SubmitKeepsInv | contracts/mafia-duel/src/lib.rs:354-419 | Submitting keeps the invariant. |
| Night.NightChoiceLegal | contracts/mafia-duel/src/lib.rs:479-494 | AI night choices name living seats. A Mafia never names a Mafia and passes only when no Town is alive. A living Doctor always protects someone. The Sheriff never names itself and passes only when alone. A Villager passes. |
| Night.NightChoice | contracts/mafia-duel/src/lib.rs:484-489 | The AI's night choice from the lists taken before the loop. A Mafia picks from the living Town and a Doctor from all the living; each passes exactly when its list is empty. The Sheriff picks a living seat other than itself and passes exactly when there is none. A Villager passes. `Night.NightChoiceLegal` restates this on the table. |
| Night.NightSeat | contracts/mafia-duel/src/lib.rs:479-494 | One seat after the fill-in. Holder, role and life are kept, a non-AI seat is untouched, and an AI seat records its choice and is marked as submitted. |
| Night.FillNight | contracts/mafia-duel/src/lib.rs:479-494 | Only AI seats (alive, not acted, no human holder) change. Each AI seat records its choice from the lists taken before the loop and is marked as submitted. `Engine.Game.FillNight` proves the in-place loop equal to the seat-by-seat form `Night.FillNightWith`, which is `Night.NightSeat` applied to every seat. |
| Night.FillNightAimsAtLiving | contracts/mafia-duel/src/lib.rs:479-494 | After the fill-in every action still aims at a living seat. |
| Night.FillNightLegal | contracts/mafia-duel/src/lib.rs:479-494 | After the fill-in no Mafia or Sheriff names its own seat, and no AI Mafia names a Mafia. |
| Night.FillNightInRange | contracts/mafia-duel/src/lib.rs:479-494 | After the fill-in every action names an existing seat. |
| Night.FirstFrom | contracts/mafia-duel/src/lib.rs:496-527 | The scans find the lowest matching seat, or none exactly when no seat matches. |
| Night.FirstAction | contracts/mafia-duel/src/lib.rs:496-514 | A scan's action is the action of a matching seat. |
| Night.Eliminate | contracts/mafia-duel/src/lib.rs:535-543 | Exactly the struck seat dies. |
| Night.Strike | contracts/mafia-duel/src/lib.rs:535-543 | The target dies unless saved; no other seat changes. |
| Night.ClearActions | contracts/mafia-duel/src/lib.rs:545-550 | Every action and submission flag is cleared; nothing else changes. |
| Night.NightOutcome | contracts/mafia-duel/src/lib.rs:496-550 | The night once every seat has acted: scans, kill or save, investigation, report and clearing. It has no contract of its own. `Night.NightOutcomeTable`, `Night.NightOutcomeDeaths`, `Night.NightOutcomeKill` and `Night.NightOutcomeInvestigation` carry its properties. |
| Night.NightOutcomeTable | contracts/mafia-duel/src/lib.rs:529-550 | Holders and roles stay, every action is cleared, nobody is reported voted out, and the rest of the game is unchanged. |
| Night.NightOutcomeDeaths | contracts/mafia-duel/src/lib.rs:535-543 | The only seat that dies is the unsaved victim, and the victim was alive. A save implies a victim. |
| Night.NightOutcomeKill | contracts/mafia-duel/src/lib.rs:496-514 | The victim is the target of the lowest-seated living Mafia that named one, and never that Mafia itself; with no such Mafia, nobody is attacked. The kill is saved exactly when the lowest-seated living Doctor protected that seat. |
| Night.NightOutcomeInvestigation | contracts/mafia-duel/src/lib.rs:516-527 | The investigated seat is the lowest-seated living Sheriff's target, never itself, and alive. It is reported as Mafia exactly when it holds the Mafia role. Without a target there is no report. |
| Night.ResolveNight | contracts/mafia-duel/src/lib.rs:476-551 | `resolve_night`: the fill-in followed by the outcome. `Night.ResolveNightTable` carries its properties, and `Engine.Game.ResolveNight` proves the in-place night equal to it. |
| Night.ResolveNightTable | contracts/mafia-duel/src/lib.rs:476-551 | The whole night: the seating and roles stay, every action is cleared, only the unsaved victim dies and it was alive, and only the report changes. |
| Day.DayChoiceLegal | contracts/mafia-duel/src/lib.rs:561-571 | An AI votes for a living seat other than itself, and abstains exactly when nobody else is alive. |
| Day.DayChoice | contracts/mafia-duel/src/lib.rs:566-570 | The AI's vote from the list taken before the loop. It names a listed seat other than the voter, and abstains exactly when the voter is the only one listed or the list is empty. |
| Day.DaySeat | contracts/mafia-duel/src/lib.rs:561-571 | One seat after the vote fill-in. Holder, role and life are kept, a non-AI seat is untouched, and an AI seat casts its vote and is marked as submitted. |
| Day.FillDay | contracts/mafia-duel/src/lib.rs:553-571 | Only AI seats change. Each AI seat casts its vote from the list taken before the loop and is marked as submitted. `Engine.Game.FillDay` proves the in-place loop equal to the seat-by-seat form `Day.FillDayWith`, which is `Day.DaySeat` applied to every seat. |
| Day.FillDayLegal | contracts/mafia-duel/src/lib.rs:561-571 | After the fill-in every vote aims at a living seat, and no AI votes for itself. |
| Day.FillDayInRange | contracts/mafia-duel/src/lib.rs:561-571 | After the fill-in every vote names an existing seat. |
| Day.VotesUpTo | contracts/mafia-duel/src/lib.rs:573-581 | The votes for one seat from the living voters below `n`. It has no contract of its own. `Day.VotesBounded` and `Day.EliminatedIsPlurality` carry its properties, and `Engine.Game.CountVotes` proves the counting loop's array equal, seat by seat, to these counts. |
| Day.VotesBounded | contracts/mafia-duel/src/lib.rs:573-581 | A seat has no more votes than there are voters, and none when nobody named it. |
| Day.LeaderUpTo | contracts/mafia-duel/src/lib.rs:583-591 | The leader is a living seat with the top, positive count and strictly more than every living seat below it. There is no leader exactly when no living seat has a vote. |
| Day.Eliminated | contracts/mafia-duel/src/lib.rs:573-591 | The seat voted out: the leader over the vote counts. `Day.EliminatedIsPlurality` carries its properties. |
| Day.EliminatedIsPlurality | contracts/mafia-duel/src/lib.rs:583-591 | The plurality rule with the lowest-seat tie-break, stated on the vote counts. |
| Day.DayOutcome | contracts/mafia-duel/src/lib.rs:593-608 | The day once every seat has voted: elimination, report and clearing. `Day.DayOutcomeTable` carries its properties. |
| Day.DayOutcomeTable | contracts/mafia-duel/src/lib.rs:593-608 | Only the seat voted out dies and it was alive. Votes are cleared. The night report is cleared except for the investigation. The rest is unchanged. |
| Day.ResolveDay | contracts/mafia-duel/src/lib.rs:553-609 | `resolve_day`: the vote fill-in followed by the outcome. `Day.ResolveDayTable` carries its properties, and `Engine.Game.ResolveDay` proves the in-place day equal to it. |
| Day.ResolveDayTable | contracts/mafia-duel/src/lib.rs:553-609 | The same for the whole day, with the seat voted out being the plurality choice of the votes after the fill-in. |
| Resolution.DecideWinner | contracts/mafia-duel/src/lib.rs:460-466 | Only winner and phase change: Town wins on no living Mafia, Mafia wins on parity, and otherwise nothing changes. |
| Resolution.Resolve | contracts/mafia-duel/src/lib.rs:430-435 | `WrongPhase` exactly outside night and day. `GameAlreadyOver` exactly once a winner is set. Success otherwise. |
| Resolution.NightToDay | contracts/mafia-duel/src/lib.rs:439-441 | A night step: `resolve_night`, then the day phase of the same day. `Resolution.AdvanceTable` carries its properties. |
| Resolution.DayToNight | contracts/mafia-duel/src/lib.rs:442-446 | A day step: `resolve_day`, then the next night, one day later. `Resolution.AdvanceTable` carries its properties. |
| Resolution.Advance | contracts/mafia-duel/src/lib.rs:439-446 | The phase step of `resolve`. `Resolution.AdvanceTable` carries its properties, and `Engine.Game.Advance` proves the in-place step equal to it. |
| Resolution.DecideWinnerThresholds | contracts/mafia-duel/src/lib.rs:448-466 | On an undecided game, each winner arises exactly at its threshold, the game is over exactly when someone won, and otherwise the game is untouched. |
| Resolution.AdvanceTable | contracts/mafia-duel/src/lib.rs:439-446 | A phase step keeps the seating and roles and clears the actions. A night leads to the same day's day phase, and a day leads to the next night. Deaths are as reported. |
| Resolution.DecideKeepsInv | contracts/mafia-duel/src/lib.rs:448-466 | The win check after a phase step restores the invariant. |
| Resolution.ResolveKeepsInv | contracts/mafia-duel/src/lib.rs:423-473 | Resolving keeps the invariant. |
| Resolution.ResolveNeverAlreadyOver | contracts/mafia-duel/src/lib.rs:430-435 | Under the invariant `GameAlreadyOver` never occurs; a finished game answers `WrongPhase`. |
| Resolution.ResolveTransitions | contracts/mafia-duel/src/lib.rs:439-466 | Night leads to day or over on the same day; day leads to night or over on the next day. Over holds exactly when a winner is set. |
| Resolution.ResolveWinner | contracts/mafia-duel/src/lib.rs:448-466 | After resolving, Town has won iff no Mafia lives, Mafia has won iff 0 < Mafia and Town ≤ Mafia, and no winner iff neither holds. |
| Resolution.ResolveAtMostOneDeath | contracts/mafia-duel/src/lib.rs:439-446 | Nobody revives, at most one seat dies, and the seat that dies is the reported unsaved victim or the seat voted out. |
| Resolution.ResolveKeepsSeatsAndRoles | contracts/mafia-duel/src/lib.rs:439-446 | Resolving reassigns no seat or role and leaves no action behind. |
| Engine.PickExcluding | contracts/mafia-duel/src/lib.rs:185-194 | The filter loop then the pick equal the pick from the filtered list. |
| Engine.ShuffleRoles | contracts/mafia-duel/src/lib.rs:322-326 | The in-place Fisher–Yates loop on the role array produces the reference shuffle. |
| Engine.SwapRoles | contracts/mafia-duel/src/lib.rs:322-326 | One in-place swap. |
| Engine.Game.Create | contracts/mafia-duel/src/lib.rs:214-262 | A fresh working copy of eight seats holds the new room. |
| Engine.Game.Load | contracts/mafia-duel/src/lib.rs:308-312 | A fresh working copy of eight seats holds the loaded record. |
| Engine.Game.FindSeat | contracts/mafia-duel/src/lib.rs:374-383 | The seat search loop returns the caller's lowest seat. |
| Engine.Game.FindFirst | contracts/mafia-duel/src/lib.rs:496-527 | The scan loop returns the lowest matching seat. |
| Engine.Game.LivingLists | contracts/mafia-duel/src/lib.rs:196-209 | The loop builds both living lists. |
| Engine.Game.Join | contracts/mafia-duel/src/lib.rs:265-299 | The join, its result and the state left behind, as `Lobby.Join` states them. |
| Engine.Game.Begin | contracts/mafia-duel/src/lib.rs:302-347 | Starting, its result and the state left behind, as `Lobby.Begin` states them. |
| Engine.Game.Start | contracts/mafia-duel/src/lib.rs:321-334 | Shuffle, deal, then night 1. |
| Engine.Game.Deal | contracts/mafia-duel/src/lib.rs:327-331 | The deal loop writes role `i` to seat `i`. |
| Engine.Game.Enter | contracts/mafia-duel/src/lib.rs:333-334 | Only phase and day change. |
| Engine.Game.SubmitAction | contracts/mafia-duel/src/lib.rs:354-419 | The submission, its result and the state left behind, as `Actions.Submit` states them. |
| Engine.Game.ClearAll | contracts/mafia-duel/src/lib.rs:545-550 | The clearing loop. |
| Engine.Game.FillNight | contracts/mafia-duel/src/lib.rs:479-494 | The night fill-in loop in place. |
| Engine.Game.NightScans | contracts/mafia-duel/src/lib.rs:496-527 | The three scans and the Sheriff's verdict. |
| Engine.Game.Kill | contracts/mafia-duel/src/lib.rs:535-543 | The victim dies unless the Doctor named it. |
| Engine.Game.Report | contracts/mafia-duel/src/lib.rs:529-533 | Only the report fields change. |
| Engine.Game.SettleNight | contracts/mafia-duel/src/lib.rs:496-550 | Scans, kill, then clearing. |
| Engine.Game.ResolveNight | contracts/mafia-duel/src/lib.rs:476-551 | The night in place equals `Night.ResolveNight`. |
| Engine.Game.FillDay | contracts/mafia-duel/src/lib.rs:561-571 | The vote fill-in loop in place. |
| Engine.Game.CountVotes | contracts/mafia-duel/src/lib.rs:573-581 | The voter-by-voter increment loop leaves in the counts array, for every seat, the number of living voters naming it (`Day.VotesUpTo`). |
| Engine.Game.Leader | contracts/mafia-duel/src/lib.rs:583-591 | The leader loop returns the plurality choice. |
| Engine.Game.SettleDay | contracts/mafia-duel/src/lib.rs:573-608 | Count, elect, eliminate, then clearing. |
| Engine.Game.ResolveDay | contracts/mafia-duel/src/lib.rs:553-609 | The day in place equals `Day.ResolveDay`. |
| Engine.Game.HeadCounts | contracts/mafia-duel/src/lib.rs:448-458 | The counting loop returns the living Mafia and Town. |
| Engine.Game.Decide | contracts/mafia-duel/src/lib.rs:460-466 | The win check in place. |
| Engine.Game.NightToDay | contracts/mafia-duel/src/lib.rs:439-441 | Night, then the day phase. |
| Engine.Game.DayToNight | contracts/mafia-duel/src/lib.rs:442-446 | Day, then the next night. |
| Engine.Game.Advance | contracts/mafia-duel/src/lib.rs:439-446 | The phase step in place. |
| Engine.Game.Resolve | contracts/mafia-duel/src/lib.rs:423-473 | Resolving, its result and the state left behind, as `Resolution.Resolve` states them. |
| Contract.MafiaDuel.Store | contracts/mafia-duel/src/lib.rs:160-166 | Writing one record keeps every stored game within the invariant. |
| Contract.MafiaDuel.constructor | contracts/mafia-duel/src/lib.rs:144-147 | A fresh contract stores no game. |
| Contract.MafiaDuel.CreateGame | contracts/mafia-duel/src/lib.rs:214-262 | `SessionExists` for a taken id; otherwise the new room is stored. Storage stays within the invariant. |
| Contract.MafiaDuel.JoinGame | contracts/mafia-duel/src/lib.rs:265-299 | `GameNotFound` for an unknown id. Otherwise the result is `Lobby.Join`'s, the record changes only on success, and storage stays within the invariant. |
| Contract.MafiaDuel.BeginGame | contracts/mafia-duel/src/lib.rs:302-347 | The same for `Lobby.Begin`. |
| Contract.MafiaDuel.SubmitAction | contracts/mafia-duel/src/lib.rs:354-419 | The same for `Actions.Submit`. |
| Contract.MafiaDuel.Resolve | contracts/mafia-duel/src/lib.rs:423-473 | The same for `Resolution.Resolve`. |

## Left out

- Authorization (`require_auth`) is not modelled. The caller's address is a parameter.
- Storage time-to-live extensions are not modelled. Storage is a map that never expires a record.
- The game hub calls are not modelled, because they are calls into another contract. `begin_game` calls `start_game` (lib.rs 336-343), and `resolve` calls `end_game` when a winner is set (lib.rs 468-470).
- PRNG seeding (`seed_prng`, lib.rs 168-175) is not modelled. It hashes the session id, the day and the phase; `begin_game` seeds with day 0 and phase 0, and `resolve` with the current day and phase. The generator is replaced by caller-supplied draws, one per `gen_range` call.
- `get_game` is not modelled because it only reads. The admin and hub getters and setters are not modelled either, and neither is `upgrade`.
- The wager is not modelled beyond being stored: it is carried as an unbounded integer and moves no funds.
- The `day` counter is a natural number. The source's 32-bit wrap-around is not modelled, because reaching it would need four billion resolutions.
- Vote and head counts are natural numbers. They never exceed 8, so the source's `u32` width never matters: `Day.VotesBounded` bounds the vote counts and `Seats.HeadCountsBounded` bounds the head counts.
- `resolve_day` builds its own living list (lib.rs 554-559). It is the same list as the first list of `living_lists`, and the model uses that list for both.
- Engine.Game.Join: its contract does not promise the invariant itself. The invariant is carried by `Lobby.JoinSeatsNextPlayer`, and `Contract.MafiaDuel` uses it before storing.
- Engine.Game.Begin, Engine.Game.SubmitAction and Engine.Game.Resolve: the same as Engine.Game.Join, with the invariant carried by `Lobby.BeginKeepsInv`, `Actions.SubmitKeepsInv` and `Resolution.ResolveKeepsInv`.
- The module's doc comment (lib.rs 12) says a Mafia kills a living Town player. Where the comment and the code disagree, the model follows the code:
  - `submit_action` lets a human Mafia name any living seat other than its own, including the other Mafia;
  - only the AI fill-in restricts Mafia to the living Town.
- Commit/reveal of actions is not modelled because the contract has none: actions are stored in the clear.
