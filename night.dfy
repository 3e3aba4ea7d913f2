/** `resolve_night`: the AI seats choose, then the first armed Mafia's target
    dies unless the first living Doctor protected it, and the first living
    Sheriff learns whether its target is Mafia. */
module Night {
  import opened Types
  import opened Seats
  import opened Invariant

  /** A seat the AI plays in this phase: alive, not yet acted, no human holder. */
  predicate AiTurn(s: Slot)
  {
    s.alive && !s.submitted && s.addr.None?
  }

  /** The night choice of AI seat `i` holding `role`, from the living seats
      `all` and the living Town seats `town` listed before the fill-in: a Mafia
      picks among the living Town, the Doctor among all the living, the Sheriff
      among the living but itself, and a Villager passes. */
  function NightChoice(role: Role, i: nat, all: seq<nat>, town: seq<nat>, draw: nat): (r: Option<nat>)
    ensures role == Mafia ==> (r.None? <==> |town| == 0) && (r.Some? ==> r.value in town)
    ensures role == Doctor ==> (r.None? <==> |all| == 0) && (r.Some? ==> r.value in all)
    ensures role == Sheriff ==> (r.None? <==> forall v :: v in all ==> v == i)
    ensures role == Sheriff && r.Some? ==> r.value in all && r.value != i
    ensures role == Villager ==> r.None?
  {
    match role
    case Mafia => PickRandom(town, draw)
    case Doctor => PickRandom(all, draw)
    case Sheriff => PickRandom(Without(all, i), draw)
    case Villager => None
  }

  /** What an AI seat may choose at night: a living seat; never Mafia for a
      Mafia, which passes only when no Town is alive; always someone for a
      living Doctor; never itself for the Sheriff, which passes only when it
      is alone; and nothing for a Villager. */
  lemma NightChoiceLegal(slots: seq<Slot>, i: nat, draw: nat)
    requires i < |slots|
    ensures var r := NightChoice(slots[i].role, i, Living(slots), LivingTown(slots), draw);
      && (r.Some? ==> r.value < |slots| && slots[r.value].alive)
      && (slots[i].role == Mafia ==>
            (r.None? <==> forall j :: 0 <= j < |slots| ==> !(slots[j].alive && slots[j].role != Mafia)))
      && (slots[i].role == Mafia && r.Some? ==> slots[r.value].role != Mafia)
      && (slots[i].role == Doctor && slots[i].alive ==> r.Some?)
      && (slots[i].role == Sheriff ==>
            (r.None? <==> forall j :: 0 <= j < |slots| && j != i ==> !slots[j].alive))
      && (slots[i].role == Sheriff && r.Some? ==> r.value != i)
      && (slots[i].role == Villager ==> r.None?)
  {
    if slots[i].role == Doctor {
      assert slots[i].alive ==> i in Living(slots);
    }
  }

  /** Seat `i` after the night's fill-in: an AI seat records its choice and is
      marked as having acted; every other seat stays as it is. */
  function NightSeat(s: Slot, i: nat, all: seq<nat>, town: seq<nat>, draw: nat): (r: Slot)
    ensures r.addr == s.addr && r.role == s.role && r.alive == s.alive
    ensures !AiTurn(s) ==> r == s
    ensures AiTurn(s) ==> r.submitted && r.action == NightChoice(s.role, i, all, town, draw)
  {
    if AiTurn(s) then s.(action := NightChoice(s.role, i, all, town, draw), submitted := true)
    else s
  }

  /** The fill-in loop over the lists `all` and `town`. */
  function FillNightWith(slots: seq<Slot>, all: seq<nat>, town: seq<nat>, picks: seq<nat>): (r: seq<Slot>)
    requires |picks| == |slots|
    ensures |r| == |slots|
    ensures forall i :: 0 <= i < |slots| ==> r[i] == NightSeat(slots[i], i, all, town, picks[i])
  {
    seq(|slots|, i requires 0 <= i < |slots| => NightSeat(slots[i], i, all, town, picks[i]))
  }

  /** The AI fill-in of the night, over the lists of the seats alive before it:
      every AI seat records its choice (the draw `picks[i]` is seat `i`'s);
      human seats that did not act keep no action and simply pass. */
  function FillNight(slots: seq<Slot>, picks: seq<nat>): (r: seq<Slot>)
    requires |picks| == |slots|
    ensures |r| == |slots|
    ensures forall i :: 0 <= i < |slots| ==>
      r[i].addr == slots[i].addr && r[i].role == slots[i].role && r[i].alive == slots[i].alive
    ensures forall i :: 0 <= i < |slots| && !AiTurn(slots[i]) ==> r[i] == slots[i]
    ensures forall i :: 0 <= i < |slots| && AiTurn(slots[i]) ==>
      r[i].submitted && r[i].action == NightChoice(slots[i].role, i, Living(slots), LivingTown(slots), picks[i])
  {
    FillNightWith(slots, Living(slots), LivingTown(slots), picks)
  }

  /** The AI only ever aims at a living seat, as a human must. */
  lemma FillNightAimsAtLiving(slots: seq<Slot>, picks: seq<nat>)
    requires |picks| == |slots| && ActionsAimAtLiving(slots)
    ensures ActionsAimAtLiving(FillNight(slots, picks))
  {
    var r := FillNight(slots, picks);
    forall i, t | 0 <= i < |slots| && 0 <= t < |slots| && r[i].action == Some(t)
      ensures r[t].alive
    {
      if AiTurn(slots[i]) {
        NightChoiceLegal(slots, i, picks[i]);
      }
    }
  }

  /** The AI keeps Mafia and Sheriff off their own seats, as a human must, and
      in addition an AI Mafia never names a Mafia seat. */
  lemma FillNightLegal(slots: seq<Slot>, picks: seq<nat>)
    requires |picks| == |slots| && NoSelfTarget(slots)
    ensures NoSelfTarget(FillNight(slots, picks))
    ensures forall i, t :: (0 <= i < |slots| && AiTurn(slots[i]) && slots[i].role == Mafia
      && FillNight(slots, picks)[i].action == Some(t)) ==> slots[t].role != Mafia
  {
    var r := FillNight(slots, picks);
    forall i | 0 <= i < |slots| && AiTurn(slots[i])
      ensures var a := r[i].action;
        && (slots[i].role == Mafia && a.Some? ==> slots[a.value].role != Mafia)
        && ((slots[i].role == Mafia || slots[i].role == Sheriff) ==> a != Some(i))
    {
      NightChoiceLegal(slots, i, picks[i]);
    }
  }

  /** The fill-in names existing seats only. */
  lemma FillNightInRange(slots: seq<Slot>, picks: seq<nat>)
    requires |picks| == |slots| && ActionsInRange(slots)
    ensures ActionsInRange(FillNight(slots, picks))
  {
    var r := FillNight(slots, picks);
    forall i | 0 <= i < |r| && r[i].action.Some? ensures r[i].action.value < |r| {
      if AiTurn(slots[i]) {
        NightChoiceLegal(slots, i, picks[i]);
      }
    }
  }

  /** The first seat at or after `k` that satisfies `p`: the scans of
      `resolve_night`, which stop at their first match. */
  function FirstFrom(slots: seq<Slot>, p: Slot -> bool, k: nat): (r: Option<nat>)
    requires k <= |slots|
    ensures r.None? <==> forall i :: k <= i < |slots| ==> !p(slots[i])
    ensures r.Some? ==> k <= r.value < |slots| && p(slots[r.value])
    ensures r.Some? ==> forall i :: k <= i < r.value ==> !p(slots[i])
    decreases |slots| - k
  {
    if k == |slots| then None
    else if p(slots[k]) then Some(k)
    else FirstFrom(slots, p, k + 1)
  }

  /** A living Mafia that has named a target. */
  predicate ArmedMafia(s: Slot)
  {
    s.alive && s.role == Mafia && s.action.Some?
  }

  predicate LivingDoctor(s: Slot)
  {
    s.alive && s.role == Doctor
  }

  predicate LivingSheriff(s: Slot)
  {
    s.alive && s.role == Sheriff
  }

  /** The action of the seat found by `FirstFrom(slots, p, 0)`, if any. */
  function FirstAction(slots: seq<Slot>, p: Slot -> bool): (r: Option<nat>)
    ensures r.Some? ==> exists i :: 0 <= i < |slots| && p(slots[i]) && slots[i].action == r
  {
    match FirstFrom(slots, p, 0)
    case None => None
    case Some(i) => slots[i].action
  }

  /** Seat `k` dies. */
  function Eliminate(slots: seq<Slot>, k: nat): (r: seq<Slot>)
    requires k < |slots|
    ensures |r| == |slots| && !r[k].alive
    ensures forall i :: 0 <= i < |slots| && i != k ==> r[i] == slots[i]
    ensures r[k] == slots[k].(alive := false)
  {
    slots[k := slots[k].(alive := false)]
  }

  /** The night's outcome on the table: the target dies unless saved. */
  function Strike(slots: seq<Slot>, kill: Option<nat>, saved: bool): (r: seq<Slot>)
    requires kill.Some? ==> kill.value < |slots|
    ensures |r| == |slots|
    ensures forall i :: 0 <= i < |slots| ==>
      r[i] == slots[i].(alive := slots[i].alive && !(kill == Some(i) && !saved))
  {
    if kill.Some? && !saved then Eliminate(slots, kill.value) else slots
  }

  /** Every seat's action and submission flag are cleared for the next phase. */
  function ClearActions(slots: seq<Slot>): (r: seq<Slot>)
    ensures |r| == |slots| && Idle(r)
    ensures forall i :: 0 <= i < |slots| ==> r[i] == slots[i].(action := None, submitted := false)
  {
    seq(|slots|, i requires 0 <= i < |slots| => slots[i].(action := None, submitted := false))
  }

  /** What the night does once every seat has acted (`filled`): the first
      armed Mafia's target dies unless the first living Doctor named the same
      seat, the first living Sheriff's target is investigated, and every action
      is cleared. */
  function NightOutcome(g: GameState, filled: seq<Slot>): (r: GameState)
    requires |filled| == MAX_PLAYERS && ActionsInRange(filled)
  {
    var kill := FirstAction(filled, ArmedMafia);
    var save := FirstAction(filled, LivingDoctor);
    var invest := FirstAction(filled, LivingSheriff);
    var saved := kill.Some? && save == kill;
    g.(slots := ClearActions(Strike(filled, kill, saved)),
       lastKilled := kill,
       lastSaved := saved,
       lastInvestigated := invest,
       investIsMafia := invest.Some? && filled[invest.value].role == Mafia,
       lastVotedOut := None)
  }

  /** The outcome spelled out by the results of its three scans. */
  lemma NightOutcomeOf(g: GameState, filled: seq<Slot>, kill: Option<nat>, save: Option<nat>,
                       invest: Option<nat>, isMafia: bool, saved: bool)
    requires |filled| == MAX_PLAYERS && ActionsInRange(filled)
    requires kill == FirstAction(filled, ArmedMafia) && save == FirstAction(filled, LivingDoctor)
    requires invest == FirstAction(filled, LivingSheriff)
    requires isMafia == (invest.Some? && filled[invest.value].role == Mafia)
    requires saved == (kill.Some? && save == kill)
    ensures kill.Some? ==> kill.value < MAX_PLAYERS
    ensures NightOutcome(g, filled) == g.(slots := ClearActions(Strike(filled, kill, saved)),
      lastKilled := kill, lastSaved := saved, lastInvestigated := invest,
      investIsMafia := isMafia, lastVotedOut := None)
  {
  }

  /** `resolve_night` on a game whose recorded actions name existing seats. */
  function ResolveNight(g: GameState, picks: seq<nat>): (r: GameState)
    requires |g.slots| == MAX_PLAYERS && |picks| == MAX_PLAYERS && ActionsInRange(g.slots)
  {
    FillNightInRange(g.slots, picks);
    NightOutcome(g, FillNight(g.slots, picks))
  }

  /** What the outcome does to the table: the seats keep their holders and
      roles, every action is cleared, and nothing else about the game changes
      but the night report. */
  lemma NightOutcomeTable(g: GameState, filled: seq<Slot>)
    requires |filled| == MAX_PLAYERS && ActionsInRange(filled)
    ensures var g' := NightOutcome(g, filled);
      && |g'.slots| == MAX_PLAYERS && Idle(g'.slots)
      && (forall i :: 0 <= i < MAX_PLAYERS ==>
            g'.slots[i].addr == filled[i].addr && g'.slots[i].role == filled[i].role)
      && g'.lastVotedOut.None?
      && g'.creator == g.creator && g'.humanCount == g.humanCount && g'.phase == g.phase
      && g'.day == g.day && g'.winner == g.winner && g'.wager == g.wager
  {
  }

  /** Who lives through the night: the only seat that dies is the Mafia's
      target when it was not protected, and that target was alive. */
  lemma NightOutcomeDeaths(g: GameState, filled: seq<Slot>)
    requires |filled| == MAX_PLAYERS && ActionsAimAtLiving(filled)
    ensures var g' := NightOutcome(g, filled);
      && (forall i :: 0 <= i < MAX_PLAYERS ==>
            g'.slots[i].alive == (filled[i].alive && !(g'.lastKilled == Some(i) && !g'.lastSaved)))
      && (g'.lastKilled.Some? ==> g'.lastKilled.value < MAX_PLAYERS && filled[g'.lastKilled.value].alive)
      && (g'.lastSaved ==> g'.lastKilled.Some?)
  {
    var kill := FirstAction(filled, ArmedMafia);
    assert kill.Some? ==> kill.value < MAX_PLAYERS && filled[kill.value].alive;
  }

  /** Who dies at night: the target named by the lowest-seated living Mafia
      that named one, never that Mafia itself; nobody when no living Mafia named
      a target; and the kill is saved exactly when the lowest-seated living
      Doctor protected that very seat. */
  lemma NightOutcomeKill(g: GameState, filled: seq<Slot>)
    requires |filled| == MAX_PLAYERS && ActionsInRange(filled) && NoSelfTarget(filled)
    ensures var g' := NightOutcome(g, filled);
      && (match FirstFrom(filled, ArmedMafia, 0)
          case None => g'.lastKilled.None?
          case Some(m) => g'.lastKilled == filled[m].action && g'.lastKilled != Some(m))
      && (g'.lastSaved <==> g'.lastKilled.Some? && FirstAction(filled, LivingDoctor) == g'.lastKilled)
  {
  }

  /** What the Sheriff learns: the target of the lowest-seated living Sheriff,
      never itself, a living seat, reported as Mafia exactly when it holds the
      Mafia role; no report when that Sheriff passed or no Sheriff lives. */
  lemma NightOutcomeInvestigation(g: GameState, filled: seq<Slot>)
    requires |filled| == MAX_PLAYERS && ActionsAimAtLiving(filled) && NoSelfTarget(filled)
    ensures var g' := NightOutcome(g, filled);
      && (match FirstFrom(filled, LivingSheriff, 0)
          case None => g'.lastInvestigated.None?
          case Some(s) => g'.lastInvestigated == filled[s].action && g'.lastInvestigated != Some(s))
      && (g'.lastInvestigated.Some? ==>
            g'.lastInvestigated.value < MAX_PLAYERS && filled[g'.lastInvestigated.value].alive
            && (g'.investIsMafia <==> filled[g'.lastInvestigated.value].role == Mafia))
      && (g'.lastInvestigated.None? ==> !g'.investIsMafia)
  {
  }

  /** The whole night on the table: holders and roles stay, every action is
      cleared, only the unsaved target of the Mafia dies and it was alive, and
      nothing else about the game changes but the night report. */
  lemma ResolveNightTable(g: GameState, picks: seq<nat>)
    requires |g.slots| == MAX_PLAYERS && |picks| == MAX_PLAYERS && ActionsAimAtLiving(g.slots)
    ensures var g' := ResolveNight(g, picks);
      && |g'.slots| == MAX_PLAYERS && Idle(g'.slots)
      && (forall i :: 0 <= i < MAX_PLAYERS ==>
            g'.slots[i].addr == g.slots[i].addr && g'.slots[i].role == g.slots[i].role)
      && (forall i :: 0 <= i < MAX_PLAYERS ==>
            g'.slots[i].alive == (g.slots[i].alive && !(g'.lastKilled == Some(i) && !g'.lastSaved)))
      && (g'.lastKilled.Some? ==> g'.lastKilled.value < MAX_PLAYERS && g.slots[g'.lastKilled.value].alive)
      && g'.lastVotedOut.None?
      && g'.creator == g.creator && g'.humanCount == g.humanCount && g'.phase == g.phase
      && g'.day == g.day && g'.winner == g.winner && g'.wager == g.wager
  {
    var filled := FillNight(g.slots, picks);
    FillNightAimsAtLiving(g.slots, picks);
    NightOutcomeTable(g, filled);
    NightOutcomeDeaths(g, filled);
  }
}
