/** The game's transitions as functions of the state: processing a match
    list, gravity and refill, the cascade that follows them, and a swap
    attempt. The class in module Game is proved to follow them. */
module Engine {
  import opened Board
  import opened Matching
  import opened Gravity
  import opened Scoring

  /** The state the grid engine updates: the cells, the score, and how many
      fruits have been drawn from the supply so far. */
  datatype State = State(grid: Grid, score: nat, drawn: nat)

  /** `processMatches` on a list: score and clear. */
  function Process(st: State, list: seq<Pos>): State
    requires WellFormed(st.grid) && Listed(st.grid, list)
  {
    State(Clear(st.grid, list), st.score + Gain(st.grid, list), st.drawn)
  }

  /** `dropFruits`: gravity and refill. */
  function Fall(st: State, supply: nat -> Kind): State
    requires WellFormed(st.grid)
  {
    var r := Drop(st.grid, supply, st.drawn);
    State(r.grid, st.score, r.drawn)
  }

  /** The cascade that starts with a non-empty list `m`: process it, drop,
      and rescan for the first matching cell, while that rescan finds one and
      fuel is left. The second component says that a rescan found nothing. */
  function Cascade(supply: nat -> Kind, st: State, m: seq<Pos>, fuel: nat): (r: (State, bool))
    requires WellFormed(st.grid) && Full(st.grid) && m != [] && Listed(st.grid, m)
    ensures WellFormed(r.0.grid) && Full(r.0.grid)
    ensures r.0.score >= st.score + Gain(st.grid, m)
    ensures r.1 ==> Settled(r.0.grid)
    decreases fuel, 1
  {
    var st1 := Fall(Process(st, m), supply);
    DropFull(Clear(st.grid, m), supply, st.drawn);
    AfterRound(supply, st1, FirstMatchFrom(st1.grid, 0, 0), fuel)
  }

  /** What follows a round that left state `st1`, whose rescan is `m'`: stop
      when the rescan is empty or the fuel is spent, otherwise go on. */
  function AfterRound(supply: nat -> Kind, st1: State, m': seq<Pos>, fuel: nat): (r: (State, bool))
    requires WellFormed(st1.grid) && Full(st1.grid) && m' == FirstMatchFrom(st1.grid, 0, 0)
    ensures WellFormed(r.0.grid) && Full(r.0.grid)
    ensures r.0.score >= st1.score
    ensures r.1 ==> Settled(r.0.grid)
    decreases fuel, 0
  {
    FirstMatchListed(st1.grid, 0, 0);
    FirstMatchNone(st1.grid, 0, 0);
    if m' == [] then (st1, true)
    else if fuel == 0 then (st1, false)
    else Cascade(supply, st1, m', fuel - 1)
  }

  /** One round of the cascade, given the state and the rescan it yields. */
  lemma CascadeUnfold(supply: nat -> Kind, st: State, m: seq<Pos>, fuel: nat, st1: State, m': seq<Pos>)
    requires WellFormed(st.grid) && Full(st.grid) && m != [] && Listed(st.grid, m)
    requires st1 == Fall(Process(st, m), supply) && m' == FirstMatchFrom(st1.grid, 0, 0)
    requires Full(st1.grid)
    ensures Cascade(supply, st, m, fuel) == AfterRound(supply, st1, m', fuel)
  {
  }

  /** The outcome of a swap of two board cells. */
  datatype Move = Move(state: State, accepted: bool, settled: bool)

  /** `swapFruits` with the revert done once: exchange the cells; when neither
      endpoint matches, exchange them back, otherwise score the two reports
      concatenated and run the cascade. */
  function Attempt(supply: nat -> Kind, st: State, p: Pos, q: Pos, fuel: nat): (r: Move)
    requires WellFormed(st.grid) && Full(st.grid) && InBounds(p) && InBounds(q)
    ensures WellFormed(r.state.grid) && Full(r.state.grid)
    ensures r.accepted <==>
      Matches(Swap(st.grid, p, q), p.row, p.col) != [] || Matches(Swap(st.grid, p, q), q.row, q.col) != []
    ensures !r.accepted ==> r.state == st
    ensures r.accepted ==> r.state.score > st.score
    ensures r.accepted && r.settled ==> Settled(r.state.grid)
  {
    var g1 := Swap(st.grid, p, q);
    SwapFull(st.grid, p, q);
    var m := Matches(g1, p.row, p.col) + Matches(g1, q.row, q.col);
    if m != [] then
      var c := Cascade(supply, State(g1, st.score, st.drawn), m, fuel);
      Move(c.0, true, c.1)
    else
      SwapInvolution(st.grid, p, q);
      Move(State(Swap(g1, q, p), st.score, st.drawn), false, true)
  }

  /** `Attempt` in terms of the state right after the exchange and the
      concatenated reports. */
  lemma AttemptUnfold(supply: nat -> Kind, st: State, p: Pos, q: Pos, fuel: nat, mid: State, m: seq<Pos>)
    requires WellFormed(st.grid) && Full(st.grid) && InBounds(p) && InBounds(q)
    requires mid == State(Swap(st.grid, p, q), st.score, st.drawn)
    requires m == Matches(mid.grid, p.row, p.col) + Matches(mid.grid, q.row, q.col)
    ensures Full(mid.grid) && (m != [] ==> Listed(mid.grid, m))
    ensures m != [] ==>
      Attempt(supply, st, p, q, fuel) == (var c := Cascade(supply, mid, m, fuel); Move(c.0, true, c.1))
    ensures m == [] ==> Attempt(supply, st, p, q, fuel) == Move(st, false, true)
  {
    SwapFull(st.grid, p, q);
  }
}
