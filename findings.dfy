/** The revert of a rejected swap as `swapFruits` writes it (game.js:154-159).
    When neither endpoint matches, the callback calls `swapFruits` again with
    the endpoints exchanged. That call schedules the same check for the
    restored board. On a board with no match at either endpoint that check
    fails as well, and the exchange is made yet again, for ever. Engine.Attempt
    and Game.FruitGame.SwapFruits instead swap back once and stop. */
module Findings {
  import opened Board
  import opened Matching
  import opened Engine

  /** Where the timer chain started by one `swapFruits` call stands. Pending:
      the cells `first` and `second` have been exchanged, giving `grid`, and
      the callback that checks them is still to run. Processing: a callback
      found a match and passed `list` to `processMatches`, which ends the
      chain. */
  datatype Chain = Pending(grid: Grid, first: Pos, second: Pos) | Processing(grid: Grid, list: seq<Pos>)

  ghost predicate ChainOk(c: Chain)
  {
    WellFormed(c.grid) && (c.Pending? ==> InBounds(c.first) && InBounds(c.second))
  }

  /** `swapFruits(a, b)` as written: exchange the cells and schedule the
      check of a and b. */
  function SwapCall(g: Grid, a: Pos, b: Pos): Chain
    requires WellFormed(g) && InBounds(a) && InBounds(b)
  {
    Pending(Swap(g, a, b), a, b)
  }

  /** The scheduled callback as written: process the two reports when one
      of them is non-empty, otherwise call `swapFruits` with the endpoints
      exchanged. A chain off the board, which no call creates, is left as it
      is. */
  ghost function Callback(c: Chain): (r: Chain)
    ensures ChainOk(c) ==> ChainOk(r)
    ensures ChainOk(c) ==> (r.Processing? <==>
      c.Processing? ||
      Matches(c.grid, c.first.row, c.first.col) != [] || Matches(c.grid, c.second.row, c.second.col) != [])
  {
    match c
    case Processing(_, _) => c
    case Pending(g, a, b) =>
      if !ChainOk(c) then c
      else
        var m := Matches(g, a.row, a.col) + Matches(g, b.row, b.col);
        if m != [] then Processing(g, m) else SwapCall(g, b, a)
  }

  /** The chain after n runs of `step`; the timer chain as written is
      `Iterate(Callback, ...)`. */
  function Iterate(step: Chain -> Chain, c: Chain, n: nat): Chain
    decreases n
  {
    if n == 0 then c else Iterate(step, step(c), n - 1)
  }

  predicate Even(n: nat)
  {
    n == 0 || !Even(n - 1)
  }

  /** Two chain states that are each other's successor alternate for ever. */
  lemma {:induction false} TwoCycle(step: Chain -> Chain, x: Chain, y: Chain, n: nat)
    requires step(x) == y && step(y) == x
    ensures Iterate(step, x, n) == if Even(n) then x else y
    decreases n
  {
    if n > 0 {
      TwoCycle(step, y, x, n - 1);
    }
  }

  /** As written: when neither endpoint matches before the exchange nor
      after it, the chain never reaches `processMatches`. The board flips
      between the exchanged grid and the original at every callback. */
  lemma AsWrittenOscillates(g: Grid, p: Pos, q: Pos, n: nat)
    requires WellFormed(g) && InBounds(p) && InBounds(q)
    requires Matches(g, p.row, p.col) == [] && Matches(g, q.row, q.col) == []
    requires Matches(Swap(g, p, q), p.row, p.col) == [] && Matches(Swap(g, p, q), q.row, q.col) == []
    ensures Iterate(Callback, SwapCall(g, p, q), n) ==
      if Even(n) then Pending(Swap(g, p, q), p, q) else Pending(g, q, p)
    ensures Iterate(Callback, SwapCall(g, p, q), n).Pending?
  {
    var x := SwapCall(g, p, q);
    SwapInvolution(g, p, q);
    var y := Pending(g, q, p);
    assert Callback(x) == y;
    assert Callback(y) == x;
    TwoCycle(Callback, x, y, n);
  }

  /** A board of two alternating kinds. */
  function Checker(): (g: Grid)
    ensures WellFormed(g) && Full(g)
  {
    seq(N, i => seq(N, j => Fruit((i + j) % 2)))
  }

  /** No run of the checkerboard is longer than one cell. */
  lemma CheckerSettled()
    ensures Settled(Checker())
  {
    var g := Checker();
    forall i, j | 0 <= i < N && 0 <= j < N
      ensures Matches(g, i, j) == []
    {
      RunAt(g[i], j, j, j + 1);
      RunAt(Column(g, j), i, i, i + 1);
      MatchesEmptyIff(g, i, j);
    }
  }

  /** Exchanging the two top-left cells of the checkerboard leaves runs of at
      most two cells through them. */
  lemma CheckerSwapQuiet()
    ensures Matches(Swap(Checker(), Pos(0, 0), Pos(0, 1)), 0, 0) == []
    ensures Matches(Swap(Checker(), Pos(0, 0), Pos(0, 1)), 0, 1) == []
  {
    var g := Checker();
    var g1 := Swap(g, Pos(0, 0), Pos(0, 1));
    SwapExact(g, Pos(0, 0), Pos(0, 1));
    assert g1[0][0] == Fruit(1) && g1[1][0] == Fruit(1) && g1[2][0] == Fruit(0);
    assert g1[0][1] == Fruit(0) && g1[0][2] == Fruit(0) && g1[0][3] == Fruit(1);
    assert g1[1][1] == Fruit(0) && g1[2][1] == Fruit(1);
    RunAt(g1[0], 0, 0, 1);
    RunAt(Column(g1, 0), 0, 0, 2);
    RunAt(g1[0], 1, 1, 3);
    RunAt(Column(g1, 1), 0, 0, 2);
    MatchesEmptyIff(g1, 0, 0);
    MatchesEmptyIff(g1, 0, 1);
  }

  /** The input that shows it: on the settled checkerboard, a click on (0, 0)
      and then on its neighbour (0, 1) starts a chain that reaches
      `processMatches` after no number of callbacks. */
  lemma CheckerOscillates(n: nat)
    ensures Settled(Checker()) && IsAdjacent(Pos(0, 0), Pos(0, 1))
    ensures Iterate(Callback, SwapCall(Checker(), Pos(0, 0), Pos(0, 1)), n).Pending?
  {
    CheckerSettled();
    CheckerSwapQuiet();
    AsWrittenOscillates(Checker(), Pos(0, 0), Pos(0, 1), n);
  }

  /** Corrected: the same move is rejected once, leaving the state as it was
      with nothing pending. */
  lemma CheckerRejected(supply: nat -> Kind, score: nat, drawn: nat, fuel: nat)
    ensures Attempt(supply, State(Checker(), score, drawn), Pos(0, 0), Pos(0, 1), fuel) ==
      Move(State(Checker(), score, drawn), false, true)
  {
    CheckerSwapQuiet();
    AttemptUnfold(supply, State(Checker(), score, drawn), Pos(0, 0), Pos(0, 1), fuel,
      State(Swap(Checker(), Pos(0, 0), Pos(0, 1)), score, drawn),
      Matches(Swap(Checker(), Pos(0, 0), Pos(0, 1)), 0, 0) + Matches(Swap(Checker(), Pos(0, 0), Pos(0, 1)), 0, 1));
  }
}
