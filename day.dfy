/** `resolve_day`: the AI seats vote, the living seat with strictly the most
    votes (the lowest seat among equals) is voted out, and nobody is when no
    living seat received a vote. */
module Day {
  import opened Types
  import opened Seats
  import opened Invariant
  import opened Night

  /** The vote of AI seat `i` from the list `living` of the seats alive
      before the fill-in: any of them but itself. */
  function DayChoice(i: nat, living: seq<nat>, draw: nat): (r: Option<nat>)
    ensures r.None? <==> forall v :: v in living ==> v == i
    ensures r.Some? ==> r.value in living && r.value != i
  {
    PickRandom(Without(living, i), draw)
  }

  /** An AI votes for a living seat, never for itself, and abstains only when
      nobody else is alive. */
  lemma DayChoiceLegal(slots: seq<Slot>, i: nat, draw: nat)
    requires i < |slots|
    ensures var r := DayChoice(i, Living(slots), draw);
      && (r.Some? ==> r.value < |slots| && slots[r.value].alive && r.value != i)
      && (r.None? <==> forall j :: 0 <= j < |slots| && j != i ==> !slots[j].alive)
  {
  }

  /** Seat `i` after the day's fill-in: an AI seat casts its vote and is
      marked as having acted; every other seat stays as it is. */
  function DaySeat(s: Slot, i: nat, living: seq<nat>, draw: nat): (r: Slot)
    ensures r.addr == s.addr && r.role == s.role && r.alive == s.alive
    ensures !AiTurn(s) ==> r == s
    ensures AiTurn(s) ==> r.submitted && r.action == DayChoice(i, living, draw)
  {
    if AiTurn(s) then s.(action := DayChoice(i, living, draw), submitted := true) else s
  }

  /** The vote loop over the list `living`. */
  function FillDayWith(slots: seq<Slot>, living: seq<nat>, picks: seq<nat>): (r: seq<Slot>)
    requires |picks| == |slots|
    ensures |r| == |slots|
    ensures forall i :: 0 <= i < |slots| ==> r[i] == DaySeat(slots[i], i, living, picks[i])
  {
    seq(|slots|, i requires 0 <= i < |slots| => DaySeat(slots[i], i, living, picks[i]))
  }

  /** The AI fill-in of the day, over the list of the seats alive before it:
      every AI seat casts its vote (the draw `picks[i]` is seat `i`'s); human
      seats that did not vote abstain. */
  function FillDay(slots: seq<Slot>, picks: seq<nat>): (r: seq<Slot>)
    requires |picks| == |slots|
    ensures |r| == |slots|
    ensures forall i :: 0 <= i < |slots| ==>
      r[i].addr == slots[i].addr && r[i].role == slots[i].role && r[i].alive == slots[i].alive
    ensures forall i :: 0 <= i < |slots| && !AiTurn(slots[i]) ==> r[i] == slots[i]
    ensures forall i :: 0 <= i < |slots| && AiTurn(slots[i]) ==>
      r[i].submitted && r[i].action == DayChoice(i, Living(slots), picks[i])
  {
    FillDayWith(slots, Living(slots), picks)
  }

  /** The AI casts only votes a human could: for a living seat; and never for
      itself. */
  lemma FillDayLegal(slots: seq<Slot>, picks: seq<nat>)
    requires |picks| == |slots| && ActionsAimAtLiving(slots)
    ensures ActionsAimAtLiving(FillDay(slots, picks))
    ensures forall i :: 0 <= i < |slots| && AiTurn(slots[i]) ==> FillDay(slots, picks)[i].action != Some(i)
  {
    var r := FillDay(slots, picks);
    forall i | 0 <= i < |slots| && AiTurn(slots[i])
      ensures r[i].action.Some? ==> r[i].action.value < |slots| && slots[r[i].action.value].alive
      ensures r[i].action != Some(i)
    {
      DayChoiceLegal(slots, i, picks[i]);
    }
  }

  /** The fill-in names existing seats only. */
  lemma FillDayInRange(slots: seq<Slot>, picks: seq<nat>)
    requires |picks| == |slots| && ActionsInRange(slots)
    ensures ActionsInRange(FillDay(slots, picks))
  {
    var r := FillDay(slots, picks);
    forall i | 0 <= i < |r| && r[i].action.Some? ensures r[i].action.value < |r| {
      if AiTurn(slots[i]) {
        DayChoiceLegal(slots, i, picks[i]);
      }
    }
  }

  /** Votes for seat `t` among the living voters below `n`. */
  function VotesUpTo(slots: seq<Slot>, t: nat, n: nat): nat
    requires n <= |slots|
    decreases n
  {
    if n == 0 then 0
    else VotesUpTo(slots, t, n - 1) + (if slots[n - 1].alive && slots[n - 1].action == Some(t) then 1 else 0)
  }

  /** A seat collects no more votes than there are voters. */
  lemma {:induction false} VotesBounded(slots: seq<Slot>, t: nat, n: nat)
    requires n <= |slots|
    ensures VotesUpTo(slots, t, n) <= n
    ensures (forall i :: 0 <= i < n ==> slots[i].action != Some(t)) ==> VotesUpTo(slots, t, n) == 0
    decreases n
  {
    if n > 0 {
      VotesBounded(slots, t, n - 1);
    }
  }

  /** The `counts` array of `resolve_day`: the votes of every seat. */
  function Tally(slots: seq<Slot>): (counts: seq<nat>)
    ensures |counts| == |slots|
    ensures forall t :: 0 <= t < |slots| ==> counts[t] == VotesUpTo(slots, t, |slots|)
  {
    seq(|slots|, t requires 0 <= t < |slots| => VotesUpTo(slots, t, |slots|))
  }

  /** The scan for the most-voted seat below `n`: a living seat replaces the
      current leader only with strictly more votes, starting from zero votes.
      The result is the winning count and the leading seat. */
  function LeaderUpTo(slots: seq<Slot>, counts: seq<nat>, n: nat): (r: (nat, Option<nat>))
    requires n <= |slots| == |counts|
    ensures r.1.None? <==> forall i :: 0 <= i < n && slots[i].alive ==> counts[i] == 0
    ensures r.1.None? ==> r.0 == 0
    ensures r.1.Some? ==> r.1.value < n && slots[r.1.value].alive && counts[r.1.value] == r.0 > 0
    ensures forall i :: 0 <= i < n && slots[i].alive ==> counts[i] <= r.0
    ensures r.1.Some? ==> forall i :: 0 <= i < r.1.value && slots[i].alive ==> counts[i] < r.0
    decreases n
  {
    if n == 0 then (0, None)
    else
      var prev := LeaderUpTo(slots, counts, n - 1);
      if slots[n - 1].alive && counts[n - 1] > prev.0 then (counts[n - 1], Some(n - 1)) else prev
  }

  /** The seat voted out, if any. */
  function Eliminated(slots: seq<Slot>): (e: Option<nat>)
  {
    LeaderUpTo(slots, Tally(slots), |slots|).1
  }

  /** The plurality rule: nobody is voted out exactly when no living seat has a
      vote; otherwise the seat voted out is alive, has at least one vote, has at
      least as many votes as every living seat and strictly more than every
      living seat below it. */
  lemma EliminatedIsPlurality(slots: seq<Slot>)
    ensures var e := Eliminated(slots);
      && (e.None? <==> forall i :: 0 <= i < |slots| && slots[i].alive ==> VotesUpTo(slots, i, |slots|) == 0)
      && (e.Some? ==> e.value < |slots| && slots[e.value].alive && VotesUpTo(slots, e.value, |slots|) > 0)
      && (e.Some? ==> forall i :: 0 <= i < |slots| && slots[i].alive ==>
            VotesUpTo(slots, i, |slots|) <= VotesUpTo(slots, e.value, |slots|))
      && (e.Some? ==> forall i :: 0 <= i < e.value && slots[i].alive ==>
            VotesUpTo(slots, i, |slots|) < VotesUpTo(slots, e.value, |slots|))
  {
    var counts := Tally(slots);
    var r := LeaderUpTo(slots, counts, |slots|);
    assert forall i :: 0 <= i < |slots| ==> counts[i] == VotesUpTo(slots, i, |slots|);
  }

  /** What the day does once every seat has voted (`filled`): the plurality
      choice dies, every vote is cleared, and the night report is cleared but
      for the investigation. */
  function DayOutcome(g: GameState, filled: seq<Slot>): GameState
  {
    var elim := Eliminated(filled);
    g.(slots := ClearActions(Strike(filled, elim, false)),
       lastVotedOut := elim,
       lastKilled := None,
       lastSaved := false)
  }

  /** `resolve_day` on a game whose recorded votes name existing seats. */
  function ResolveDay(g: GameState, picks: seq<nat>): GameState
    requires |g.slots| == MAX_PLAYERS && |picks| == MAX_PLAYERS && ActionsInRange(g.slots)
  {
    DayOutcome(g, FillDay(g.slots, picks))
  }

  /** What the outcome does to the table: the seats keep their holders and
      roles, the only seat that dies is the one voted out, which was alive,
      every vote is cleared, and nothing else about the game changes but the
      report. */
  lemma DayOutcomeTable(g: GameState, filled: seq<Slot>)
    requires |filled| == MAX_PLAYERS
    ensures var g' := DayOutcome(g, filled);
      && |g'.slots| == MAX_PLAYERS && Idle(g'.slots)
      && (forall i :: 0 <= i < MAX_PLAYERS ==>
            g'.slots[i].addr == filled[i].addr && g'.slots[i].role == filled[i].role)
      && (forall i :: 0 <= i < MAX_PLAYERS ==>
            g'.slots[i].alive == (filled[i].alive && g'.lastVotedOut != Some(i)))
      && (g'.lastVotedOut.Some? ==> g'.lastVotedOut.value < MAX_PLAYERS && filled[g'.lastVotedOut.value].alive)
      && g'.lastVotedOut == Eliminated(filled)
      && g'.lastKilled.None? && !g'.lastSaved
      && g'.lastInvestigated == g.lastInvestigated && g'.investIsMafia == g.investIsMafia
      && g'.creator == g.creator && g'.humanCount == g.humanCount && g'.phase == g.phase
      && g'.day == g.day && g'.winner == g.winner && g'.wager == g.wager
  {
    var elim := Eliminated(filled);
    assert DayOutcome(g, filled).slots == ClearActions(Strike(filled, elim, false));
  }

  /** The whole day on the table: holders and roles stay, every vote is
      cleared, only the seat voted out dies and it was alive, it is the
      plurality choice of the votes cast, and nothing else about the game
      changes but the report. */
  lemma ResolveDayTable(g: GameState, picks: seq<nat>)
    requires |g.slots| == MAX_PLAYERS && |picks| == MAX_PLAYERS && ActionsInRange(g.slots)
    ensures var g' := ResolveDay(g, picks);
      && |g'.slots| == MAX_PLAYERS && Idle(g'.slots)
      && (forall i :: 0 <= i < MAX_PLAYERS ==>
            g'.slots[i].addr == g.slots[i].addr && g'.slots[i].role == g.slots[i].role)
      && (forall i :: 0 <= i < MAX_PLAYERS ==>
            g'.slots[i].alive == (g.slots[i].alive && g'.lastVotedOut != Some(i)))
      && (g'.lastVotedOut.Some? ==> g'.lastVotedOut.value < MAX_PLAYERS && g.slots[g'.lastVotedOut.value].alive)
      && g'.lastVotedOut == Eliminated(FillDay(g.slots, picks))
      && g'.lastKilled.None? && !g'.lastSaved
      && g'.lastInvestigated == g.lastInvestigated && g'.investIsMafia == g.investIsMafia
      && g'.creator == g.creator && g'.humanCount == g.humanCount && g'.phase == g.phase
      && g'.day == g.day && g'.winner == g.winner && g'.wager == g.wager
  {
    DayOutcomeTable(g, FillDay(g.slots, picks));
  }
}
