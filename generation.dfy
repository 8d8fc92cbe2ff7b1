/** Initial-board generation (`generateFruits`, `removeInitialMatches`):
    fill the grid from the supply, then re-roll matching cells pass after pass
    until a pass finds none. */
module Generation {
  import opened Board
  import opened Matching

  /** The state of one pass of `removeInitialMatches`. */
  datatype Pass = Pass(grid: Grid, drawn: nat, rerolled: bool)

  /** One pass from cell (r, c) on, in row-major order: every cell whose
      report is non-empty when the pass reaches it gets a fresh fruit.
      Column N stands for the end of row r. */
  function PassFrom(supply: nat -> Kind, g: Grid, d: nat, r: nat, c: nat, rerolled: bool): (p: Pass)
    requires WellFormed(g) && r <= N && c <= N
    ensures WellFormed(p.grid)
    ensures rerolled ==> p.rerolled
    ensures !p.rerolled ==> p.grid == g && p.drawn == d
    decreases |g| - r, N - c
  {
    if r == N then Pass(g, d, rerolled)
    else if c == N then PassFrom(supply, g, d, r + 1, 0, rerolled)
    else if Matches(g, r, c) != [] then
      PassFrom(supply, SetAt(g, Pos(r, c), Fruit(supply(d))), d + 1, r, c + 1, true)
    else
      PassFrom(supply, g, d, r, c + 1, rerolled)
  }

  /** The part of a pass that runs over row r from column c to the row's
      end. */
  function PassRow(supply: nat -> Kind, g: Grid, d: nat, r: nat, c: nat, rerolled: bool): (p: Pass)
    requires WellFormed(g) && r < N && c <= N
    ensures WellFormed(p.grid)
    ensures forall i :: 0 <= i < N && i != r ==> p.grid[i] == g[i]
    decreases |g| - c
  {
    if c == N then Pass(g, d, rerolled)
    else if Matches(g, r, c) != [] then
      PassRow(supply, SetAt(g, Pos(r, c), Fruit(supply(d))), d + 1, r, c + 1, true)
    else
      PassRow(supply, g, d, r, c + 1, rerolled)
  }

  /** A pass is its run over the rest of row r, then the pass from the next
      row on. */
  lemma {:induction false} PassFromRow(supply: nat -> Kind, g: Grid, d: nat, r: nat, c: nat, rerolled: bool)
    requires WellFormed(g) && r < N && c <= N
    ensures PassFrom(supply, g, d, r, c, rerolled) ==
      (var p := PassRow(supply, g, d, r, c, rerolled); PassFrom(supply, p.grid, p.drawn, r + 1, 0, p.rerolled))
    decreases N - c
  {
    if c < N {
      if Matches(g, r, c) != [] {
        PassFromRow(supply, SetAt(g, Pos(r, c), Fruit(supply(d))), d + 1, r, c + 1, true);
      } else {
        PassFromRow(supply, g, d, r, c + 1, rerolled);
      }
    }
  }

  lemma PassEnd(supply: nat -> Kind, g: Grid, d: nat, rerolled: bool)
    requires WellFormed(g)
    ensures PassFrom(supply, g, d, N, 0, rerolled) == Pass(g, d, rerolled)
  {
  }

  /** A pass keeps a full grid full: it only ever puts fruits in. */
  lemma {:induction false} PassFull(supply: nat -> Kind, g: Grid, d: nat, r: nat, c: nat, rerolled: bool)
    requires WellFormed(g) && r <= N && c <= N
    ensures Full(g) ==> Full(PassFrom(supply, g, d, r, c, rerolled).grid)
    decreases N - r, N - c
  {
    if r < N && c == N {
      PassFull(supply, g, d, r + 1, 0, rerolled);
    } else if r < N && Matches(g, r, c) != [] {
      var g' := SetAt(g, Pos(r, c), Fruit(supply(d)));
      PassFull(supply, g', d + 1, r, c + 1, true);
      if Full(g) {
        SetAtFull(g, Pos(r, c), Fruit(supply(d)));
      }
    } else if r < N {
      PassFull(supply, g, d, r, c + 1, rerolled);
    }
  }

  /** A pass that re-rolls nothing re-rolled nothing at its first cell. */
  lemma PassStep(supply: nat -> Kind, g: Grid, d: nat, r: nat, c: nat, rerolled: bool)
    requires WellFormed(g) && r < N && c < N
    requires !PassFrom(supply, g, d, r, c, rerolled).rerolled
    ensures Matches(g, r, c) == [] && !PassFrom(supply, g, d, r, c + 1, rerolled).rerolled
  {
  }

  /** A pass that re-rolls nothing has seen no matching cell from (r, c) on. */
  lemma {:induction false} PassClean(supply: nat -> Kind, g: Grid, d: nat, r: nat, c: nat, rerolled: bool)
    requires WellFormed(g) && r <= N && c <= N
    requires !PassFrom(supply, g, d, r, c, rerolled).rerolled
    ensures NoMatchFrom(g, r, c)
    decreases N - r, N - c
  {
    if r < N && c == N {
      PassClean(supply, g, d, r + 1, 0, rerolled);
    } else if r < N {
      PassStep(supply, g, d, r, c, rerolled);
      PassClean(supply, g, d, r, c + 1, rerolled);
      NoMatchStep(g, r, c);
    }
  }

  /** Result of `removeInitialMatches` with at most `fuel` passes. */
  datatype Repaired = Repaired(grid: Grid, drawn: nat, ok: bool)

  /** `removeInitialMatches`: passes until one re-rolls nothing; `ok` is false
      when the fuel runs out first. */
  function Repair(supply: nat -> Kind, g: Grid, d: nat, fuel: nat): (r: Repaired)
    requires WellFormed(g)
    ensures WellFormed(r.grid) && (Full(g) ==> Full(r.grid))
    ensures r.ok ==> Settled(r.grid)
    decreases fuel
  {
    if fuel == 0 then Repaired(g, d, false)
    else
      var p := PassFrom(supply, g, d, 0, 0, false);
      if !p.rerolled then
        PassClean(supply, g, d, 0, 0, false);
        Repaired(p.grid, p.drawn, true)
      else
        PassFull(supply, g, d, 0, 0, false);
        Repair(supply, p.grid, p.drawn, fuel - 1)
  }

  /** One pass of `removeInitialMatches`, then the rest. */
  lemma RepairUnfold(supply: nat -> Kind, g: Grid, d: nat, fuel: nat, p: Pass)
    requires WellFormed(g) && fuel > 0 && p == PassFrom(supply, g, d, 0, 0, false)
    ensures Repair(supply, g, d, fuel) ==
      if !p.rerolled then Repaired(p.grid, p.drawn, true)
      else Repair(supply, p.grid, p.drawn, fuel - 1)
  {
  }

  /** The grid `generateFruits` fills in row-major order from index d. */
  function FreshGrid(supply: nat -> Kind, d: nat): (g: Grid)
    ensures WellFormed(g) && Full(g)
  {
    seq(8, i requires 0 <= i < 8 => seq(8, j requires 0 <= j < 8 => Fruit(supply(d + 8 * i + j))))
  }

  /** `generateFruits`: a fresh grid, then `removeInitialMatches`. */
  function Generate(supply: nat -> Kind, d: nat, fuel: nat): (r: Repaired)
    ensures WellFormed(r.grid) && Full(r.grid)
    ensures r.ok ==> Settled(r.grid)
  {
    Repair(supply, FreshGrid(supply, d), d + 64, fuel)
  }

  lemma GenerateUnfold(supply: nat -> Kind, d: nat, fuel: nat, g: Grid)
    requires g == FreshGrid(supply, d)
    ensures Generate(supply, d, fuel) == Repair(supply, g, d + 64, fuel)
  {
  }
}
