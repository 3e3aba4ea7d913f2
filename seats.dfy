/** Queries over the eight seats: who sits where, who is alive, the living
    lists the AI picks from, and the random pick itself. */
module Seats {
  import opened Types

  /** The roles of the seats, seat by seat. */
  function Roles(slots: seq<Slot>): (r: seq<Role>)
    ensures |r| == |slots|
    ensures forall i :: 0 <= i < |slots| ==> r[i] == slots[i].role
  {
    seq(|slots|, i requires 0 <= i < |slots| => slots[i].role)
  }

  /** Whether `player` holds some seat. */
  ghost predicate Seated(slots: seq<Slot>, player: Address)
  {
    exists i :: 0 <= i < |slots| && slots[i].addr == Some(player)
  }

  /** The first seat at or after `k` held by `player`: the search in
      `join_game` and `submit_action`. */
  function SeatFrom(slots: seq<Slot>, player: Address, k: nat): (r: Option<nat>)
    requires k <= |slots|
    ensures r.None? <==> forall i :: k <= i < |slots| ==> slots[i].addr != Some(player)
    ensures r.Some? ==> k <= r.value < |slots| && slots[r.value].addr == Some(player)
    ensures r.Some? ==> forall i :: k <= i < r.value ==> slots[i].addr != Some(player)
    decreases |slots| - k
  {
    if k == |slots| then None
    else if slots[k].addr == Some(player) then Some(k)
    else SeatFrom(slots, player, k + 1)
  }

  /** The lowest seat held by `player`, if any. */
  function SeatOf(slots: seq<Slot>, player: Address): (r: Option<nat>)
    ensures r.None? <==> !Seated(slots, player)
    ensures r.Some? ==> r.value < |slots| && slots[r.value].addr == Some(player)
    ensures r.Some? ==> forall i :: 0 <= i < r.value ==> slots[i].addr != Some(player)
  {
    SeatFrom(slots, player, 0)
  }

  /** Living seats below `n`, in seat order (`living_lists`, first list). */
  function LivingUpTo(slots: seq<Slot>, n: nat): (r: seq<nat>)
    requires n <= |slots|
    ensures forall x :: x in r <==> 0 <= x < n && slots[x].alive
    decreases n
  {
    if n == 0 then []
    else LivingUpTo(slots, n - 1) + (if slots[n - 1].alive then [n - 1] else [])
  }

  /** Living non-Mafia seats below `n`, in seat order (`living_lists`, second list). */
  function LivingTownUpTo(slots: seq<Slot>, n: nat): (r: seq<nat>)
    requires n <= |slots|
    ensures forall x :: x in r <==> 0 <= x < n && slots[x].alive && slots[x].role != Mafia
    decreases n
  {
    if n == 0 then []
    else LivingTownUpTo(slots, n - 1) + (if slots[n - 1].alive && slots[n - 1].role != Mafia then [n - 1] else [])
  }

  function Living(slots: seq<Slot>): seq<nat>
  {
    LivingUpTo(slots, |slots|)
  }

  function LivingTown(slots: seq<Slot>): seq<nat>
  {
    LivingTownUpTo(slots, |slots|)
  }

  /** `list` with every occurrence of `x` dropped, order kept (the filter in `pick_excluding`). */
  function Without(list: seq<nat>, x: nat): (r: seq<nat>)
    ensures forall v :: v in r <==> v in list && v != x
    ensures |r| <= |list|
    decreases |list|
  {
    if |list| == 0 then []
    else Without(list[..|list| - 1], x) + (if list[|list| - 1] != x then [list[|list| - 1]] else [])
  }

  /** `pick_random`: the ledger PRNG's `gen_range(0..|list|)` is the caller's
      `draw` reduced into range, so every element of the list is reachable. */
  function PickRandom(list: seq<nat>, draw: nat): (r: Option<nat>)
    ensures r.None? <==> |list| == 0
    ensures r.Some? ==> r.value in list
  {
    if |list| == 0 then None else Some(list[draw % |list|])
  }

  /** Every element of a non-empty list is the pick of some draw: quantifying
      over draws covers every choice the PRNG can make. */
  lemma EveryElementPickable(list: seq<nat>, k: nat)
    requires k < |list|
    ensures PickRandom(list, k) == Some(list[k])
  {
  }

  /** Living Mafia among the seats below `n` (the `mafia_alive` counter of `resolve`). */
  function MafiaAliveUpTo(slots: seq<Slot>, n: nat): nat
    requires n <= |slots|
    decreases n
  {
    if n == 0 then 0
    else MafiaAliveUpTo(slots, n - 1) + (if slots[n - 1].alive && slots[n - 1].role == Mafia then 1 else 0)
  }

  /** Living non-Mafia among the seats below `n` (the `town_alive` counter of `resolve`). */
  function TownAliveUpTo(slots: seq<Slot>, n: nat): nat
    requires n <= |slots|
    decreases n
  {
    if n == 0 then 0
    else TownAliveUpTo(slots, n - 1) + (if slots[n - 1].alive && slots[n - 1].role != Mafia then 1 else 0)
  }

  function MafiaAlive(slots: seq<Slot>): nat
  {
    MafiaAliveUpTo(slots, |slots|)
  }

  function TownAlive(slots: seq<Slot>): nat
  {
    TownAliveUpTo(slots, |slots|)
  }

  /** Seats below `n` that hold `role`, dead or alive. */
  function RoleCountUpTo(slots: seq<Slot>, role: Role, n: nat): nat
    requires n <= |slots|
    decreases n
  {
    if n == 0 then 0
    else RoleCountUpTo(slots, role, n - 1) + (if slots[n - 1].role == role then 1 else 0)
  }

  function RoleCount(slots: seq<Slot>, role: Role): nat
  {
    RoleCountUpTo(slots, role, |slots|)
  }

  /** A role's count is its multiplicity among the dealt roles. */
  lemma {:induction false} RoleCountIsMultiplicity(slots: seq<Slot>, role: Role, n: nat)
    requires n <= |slots|
    ensures RoleCountUpTo(slots, role, n) == multiset(Roles(slots)[..n])[role]
    decreases n
  {
    if n > 0 {
      RoleCountIsMultiplicity(slots, role, n - 1);
      assert Roles(slots)[..n] == Roles(slots)[..n - 1] + [slots[n - 1].role];
    }
  }

  /** The head counts depend only on who is alive and on the roles. */
  lemma {:induction false} CountsFollowLifeAndRole(s1: seq<Slot>, s2: seq<Slot>, n: nat)
    requires n <= |s1| && n <= |s2|
    requires forall i :: 0 <= i < n ==> s1[i].alive == s2[i].alive && s1[i].role == s2[i].role
    ensures MafiaAliveUpTo(s1, n) == MafiaAliveUpTo(s2, n)
    ensures TownAliveUpTo(s1, n) == TownAliveUpTo(s2, n)
    decreases n
  {
    if n > 0 {
      CountsFollowLifeAndRole(s1, s2, n - 1);
    }
  }

  /** The same on whole tables. */
  lemma HeadCountsFollowLifeAndRole(s1: seq<Slot>, s2: seq<Slot>)
    requires |s1| == |s2|
    requires forall i :: 0 <= i < |s1| ==> s1[i].alive == s2[i].alive && s1[i].role == s2[i].role
    ensures MafiaAlive(s1) == MafiaAlive(s2) && TownAlive(s1) == TownAlive(s2)
  {
    CountsFollowLifeAndRole(s1, s2, |s1|);
  }

  /** The role counts depend only on the roles. */
  lemma {:induction false} RoleCountsFollowRoles(s1: seq<Slot>, s2: seq<Slot>, n: nat)
    requires n <= |s1| && n <= |s2|
    requires forall i :: 0 <= i < n ==> s1[i].role == s2[i].role
    ensures forall role :: RoleCountUpTo(s1, role, n) == RoleCountUpTo(s2, role, n)
    decreases n
  {
    if n > 0 {
      RoleCountsFollowRoles(s1, s2, n - 1);
    }
  }

  /** The head counts of `resolve` never exceed the seats counted: each seat
      adds to at most one of them, and a living Mafia only where the role is
      Mafia. */
  lemma {:induction false} HeadCountsBounded(slots: seq<Slot>, n: nat)
    requires n <= |slots|
    ensures MafiaAliveUpTo(slots, n) + TownAliveUpTo(slots, n) <= n
    ensures MafiaAliveUpTo(slots, n) <= RoleCountUpTo(slots, Mafia, n)
    decreases n
  {
    if n > 0 {
      HeadCountsBounded(slots, n - 1);
    }
  }

  /** At a full table every seat below `n` is counted once, and the Mafia count
      is the number of Mafia roles among them. */
  lemma {:induction false} FullTableCounts(slots: seq<Slot>, n: nat)
    requires n <= |slots|
    requires forall i :: 0 <= i < n ==> slots[i].alive
    ensures MafiaAliveUpTo(slots, n) == RoleCountUpTo(slots, Mafia, n)
    ensures MafiaAliveUpTo(slots, n) + TownAliveUpTo(slots, n) == n
    decreases n
  {
    if n > 0 {
      FullTableCounts(slots, n - 1);
    }
  }
}
