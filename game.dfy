/** The `FruitGame` object: the 8×8 array of cells it updates in place, the
    score and level, the selected cell, and the injected supply of random
    palette indices. Each method is proved to change the state as the
    corresponding function of module Engine or Generation says. */
module Game {
  import opened Board
  import opened Matching
  import opened Gravity
  import opened Scoring
  import opened Engine
  import opened Generation

  /** `forEach(f => matches.add(f))` on an insertion-ordered set. */
  method AddEach(s: seq<Pos>, items: seq<Pos>) returns (r: seq<Pos>)
    ensures r == AddAll(s, items)
  {
    r := s;
    for i := 0 to |items|
      invariant AddAll(r, items[i..]) == AddAll(s, items)
    {
      assert items[i..][0] == items[i] && items[i..][1..] == items[i + 1..];
      if items[i] !in r {
        r := r + [items[i]];
      }
    }
    assert items[|items|..] == [];
  }

  class FruitGame {
    /** Replaces `Math.random`: the n-th fruit drawn has kind `supply(n)`. */
    const supply: nat -> Kind
    /** The board, allocated once; `generateFruits` overwrites every cell. */
    const fruits: array2<Cell>
    /** The contents of `fruits`, as a value. */
    ghost var grid: Grid
    var score: nat
    var level: nat
    var selected: Option<Pos>
    /** Number of fruits drawn from `supply` so far. */
    var drawn: nat

    ghost predicate Valid()
      reads this, fruits
    {
      fruits.Length0 == N && fruits.Length1 == N && WellFormed(grid) &&
      (forall i, j :: 0 <= i < N && 0 <= j < N ==> fruits[i, j] == grid[i][j]) &&
      level == Level(score) &&
      (selected.Some? ==> InBounds(selected.value))
    }

    ghost function Now(): State
      reads this
    {
      State(grid, score, drawn)
    }

    /** The fields set by the JavaScript constructor, then the board that
        its `init` produces with `generateFruits`, drawn from the start of the
        supply. */
    constructor (supply: nat -> Kind, fuel: nat)
      ensures Valid() && fresh(fruits) && Full(grid)
      ensures this.supply == supply && score == 0 && level == 1 && selected == None
      ensures grid == Generate(supply, 0, fuel).grid && drawn == Generate(supply, 0, fuel).drawn
    {
      this.supply := supply;
      fruits := new Cell[N, N]((i, j) => Empty);
      grid := seq(N, i => seq(N, j => Empty));
      score, level, selected, drawn := 0, 1, None, 0;
      new;
      var ok := GenerateFruits(fuel);
    }

    /** `createRandomFruit`: the next kind of the supply. */
    method CreateRandomFruit() returns (k: Kind)
      modifies this`drawn
      ensures k == supply(old(drawn)) && drawn == old(drawn) + 1
    {
      k := supply(drawn);
      drawn := drawn + 1;
    }

    method SetCell(p: Pos, x: Cell)
      requires Valid() && InBounds(p)
      modifies fruits, this`grid
      ensures Valid() && grid == SetAt(old(grid), p, x)
    {
      fruits[p.row, p.col] := x;
      grid := SetAt(grid, p, x);
    }

    /** The leftward scan of `checkMatches`: `left` stops on the first cell
        of another kind (or -1), and `run` lists the cells passed over, then
        (row, col). */
    method ScanLeft(row: nat, col: nat) returns (left: int, run: seq<Pos>)
      requires Valid() && row < N && col < N
      ensures -1 <= left < col && left + 1 == RunStart(grid[row], col, grid[row][col])
      ensures run == RowSpan(row, left + 1, col + 1)
    {
      var fruit := fruits[row, col];
      ghost var s := grid[row];
      run := [Pos(row, col)];
      left := col - 1;
      while left >= 0 && fruits[row, left] == fruit
        invariant -1 <= left < col
        invariant RunStart(s, left + 1, fruit) == RunStart(s, col, fruit)
        invariant run == RowSpan(row, left + 1, col + 1)
      {
        RowSpanCons(row, left, col + 1);
        run := [Pos(row, left)] + run;
        left := left - 1;
      }
    }

    /** The rightward scan: appends the cells right of (row, col) up to the
        first of another kind. */
    method ScanRight(row: nat, col: nat, left: int, run: seq<Pos>) returns (horizontal: seq<Pos>)
      requires Valid() && row < N && col < N && -1 <= left < col
      requires run == RowSpan(row, left + 1, col + 1)
      ensures horizontal == RowSpan(row, left + 1, RunEnd(grid[row], col, grid[row][col]))
    {
      var fruit := fruits[row, col];
      ghost var s := grid[row];
      horizontal := run;
      var right := col + 1;
      while right < N && fruits[row, right] == fruit
        invariant col < right <= N
        invariant RunEnd(s, right - 1, fruit) == RunEnd(s, col, fruit)
        invariant horizontal == RowSpan(row, left + 1, right)
      {
        RowSpanSnoc(row, left + 1, right + 1);
        horizontal := horizontal + [Pos(row, right)];
        right := right + 1;
      }
    }

    /** The horizontal scans of `checkMatches`. */
    method ScanRow(row: nat, col: nat) returns (horizontal: seq<Pos>)
      requires Valid() && row < N && col < N
      ensures horizontal == HorizontalRun(grid, row, col)
    {
      var left, run := ScanLeft(row, col);
      horizontal := ScanRight(row, col, left, run);
    }

    /** The upward scan of `checkMatches`. */
    method ScanUp(row: nat, col: nat) returns (up: int, run: seq<Pos>)
      requires Valid() && row < N && col < N
      ensures -1 <= up < row && up + 1 == RunStart(Column(grid, col), row, grid[row][col])
      ensures run == ColSpan(col, up + 1, row + 1)
    {
      var fruit := fruits[row, col];
      ghost var s := Column(grid, col);
      run := [Pos(row, col)];
      up := row - 1;
      while up >= 0 && fruits[up, col] == fruit
        invariant -1 <= up < row
        invariant RunStart(s, up + 1, fruit) == RunStart(s, row, fruit)
        invariant run == ColSpan(col, up + 1, row + 1)
      {
        ColSpanCons(col, up, row + 1);
        run := [Pos(up, col)] + run;
        up := up - 1;
      }
    }

    /** The downward scan. */
    method ScanDown(row: nat, col: nat, up: int, run: seq<Pos>) returns (vertical: seq<Pos>)
      requires Valid() && row < N && col < N && -1 <= up < row
      requires run == ColSpan(col, up + 1, row + 1)
      ensures vertical == ColSpan(col, up + 1, RunEnd(Column(grid, col), row, grid[row][col]))
    {
      var fruit := fruits[row, col];
      ghost var s := Column(grid, col);
      vertical := run;
      var down := row + 1;
      while down < N && fruits[down, col] == fruit
        invariant row < down <= N
        invariant RunEnd(s, down - 1, fruit) == RunEnd(s, row, fruit)
        invariant vertical == ColSpan(col, up + 1, down)
      {
        ColSpanSnoc(col, up + 1, down + 1);
        vertical := vertical + [Pos(down, col)];
        down := down + 1;
      }
    }

    /** The vertical scans of `checkMatches`. */
    method ScanColumn(row: nat, col: nat) returns (vertical: seq<Pos>)
      requires Valid() && row < N && col < N
      ensures vertical == VerticalRun(grid, row, col)
    {
      var up, run := ScanUp(row, col);
      vertical := ScanDown(row, col, up, run);
    }

    /** `checkMatches(row, col)`. The source dereferences every fruit it
        compares, so it needs a board without empty cells. */
    method CheckMatches(row: nat, col: nat) returns (matches: seq<Pos>)
      requires Valid() && Full(grid) && row < N && col < N
      ensures matches == Matches(grid, row, col)
    {
      var horizontal := ScanRow(row, col);
      matches := [];
      if |horizontal| >= 3 {
        matches := AddEach(matches, horizontal);
      }
      var vertical := ScanColumn(row, col);
      if |vertical| >= 3 {
        matches := AddEach(matches, vertical);
      }
    }

    /** The rescan after `dropFruits`: the report of the first matching cell
        in row-major order, or nothing. */
    method FindFirstMatch() returns (matches: seq<Pos>)
      requires Valid() && Full(grid)
      ensures matches == FirstMatchFrom(grid, 0, 0)
    {
      matches := [];
      var hasMatches := false;
      var row := 0;
      while row < N
        invariant 0 <= row <= N && !hasMatches && matches == []
        invariant FirstMatchFrom(grid, row, 0) == FirstMatchFrom(grid, 0, 0)
      {
        var col := 0;
        while col < N
          invariant 0 <= col <= N && !hasMatches && matches == []
          invariant FirstMatchFrom(grid, row, col) == FirstMatchFrom(grid, 0, 0)
        {
          var m := CheckMatches(row, col);
          if |m| > 0 {
            matches := m;
            hasMatches := true;
            break;
          }
          col := col + 1;
        }
        if hasMatches {
          break;
        }
        row := row + 1;
      }
    }

    /** The reduction of `processMatches`: the sum of the listed fruits'
        points. */
    method SumOfPoints(matches: seq<Pos>) returns (sum: nat)
      requires Valid() && Listed(grid, matches)
      ensures sum == SumPoints(grid, matches)
    {
      sum := 0;
      for i := 0 to |matches|
        invariant Listed(grid, matches[i..])
        invariant sum + SumPoints(grid, matches[i..]) == SumPoints(grid, matches)
      {
        assert matches[i..][0] == matches[i] && matches[i..][1..] == matches[i + 1..];
        sum := sum + Points(fruits[matches[i].row, matches[i].col].kind);
      }
      assert matches[|matches|..] == [];
    }

    /** The clearing loop of `processMatches`. */
    method ClearCells(matches: seq<Pos>)
      requires Valid() && forall p :: p in matches ==> InBounds(p)
      modifies fruits, this`grid
      ensures Valid() && grid == Clear(old(grid), matches)
    {
      for i := 0 to |matches|
        invariant Valid()
        invariant forall p :: p in matches[i..] ==> InBounds(p)
        invariant Clear(grid, matches[i..]) == Clear(old(grid), matches)
      {
        assert matches[i..][0] == matches[i] && matches[i..][1..] == matches[i + 1..];
        SetCell(matches[i], Empty);
      }
      assert matches[|matches|..] == [];
    }

    /** `processMatches`: add the sum of the listed fruits' points times the
        length of the list to the score, update the level, and empty every
        listed cell. An empty list changes nothing. */
    method ProcessMatches(matches: seq<Pos>)
      requires Valid() && Listed(grid, matches)
      modifies fruits, this`grid, this`score, this`level
      ensures Valid()
      ensures score == old(score) + Gain(old(grid), matches)
      ensures grid == Clear(old(grid), matches)
      ensures Now() == Process(old(Now()), matches)
    {
      if |matches| == 0 {
        return;
      }
      var sum := SumOfPoints(matches);
      score := score + sum * |matches|;
      level := Level(score);
      ClearCells(matches);
    }

    /** The gravity scan of `dropFruits` on one column: bottom-up, each fruit
        moves to the `emptyRow` cursor, which then moves up. On return the
        cursor is the lowest row left empty. */
    method FallColumn(col: nat) returns (emptyRow: int)
      requires Valid() && col < N
      modifies fruits, this`grid
      ensures Valid()
      ensures grid == WithColumn(old(grid), col, Compact(Column(old(grid), col)))
      ensures emptyRow + 1 == Gaps(Column(old(grid), col))
    {
      ghost var g0 := grid;
      ghost var c0 := Column(grid, col);
      ghost var cs := c0;
      WithColumnOfColumn(g0, col);
      emptyRow := N - 1;
      var row: int := N - 1;
      while row >= 0
        invariant |cs| == N && Valid() && grid == WithColumn(g0, col, cs)
        invariant Falling(c0, cs, row, emptyRow)
        decreases row
      {
        FallingStep(c0, cs, row, emptyRow);
        if fruits[row, col] != Empty {
          if row != emptyRow {
            var moved := fruits[row, col];
            SetAtColumn(g0, col, cs, emptyRow, moved);
            cs := cs[emptyRow := moved];
            SetCell(Pos(emptyRow, col), moved);
            SetAtColumn(g0, col, cs, row, Empty);
            cs := cs[row := Empty];
            SetCell(Pos(row, col), Empty);
          }
          emptyRow := emptyRow - 1;
        }
        row := row - 1;
      }
      FallingDone(c0, cs, emptyRow);
    }

    /** The refill of `dropFruits` on one column: rows `emptyRow` up to 0
        receive fresh fruits, the lowest first. */
    method RefillColumn(col: nat, emptyRow: int)
      requires Valid() && col < N && -1 <= emptyRow < N
      modifies fruits, this`grid, this`drawn
      ensures Valid()
      ensures grid == WithColumn(old(grid), col,
        Fresh(supply, old(drawn), emptyRow + 1) + Column(old(grid), col)[emptyRow + 1..])
      ensures drawn == old(drawn) + emptyRow + 1
    {
      ghost var g0 := grid;
      ghost var c0 := Column(grid, col);
      ghost var cs := c0;
      WithColumnOfColumn(g0, col);
      var row := emptyRow;
      while row >= 0
        invariant |cs| == N && Valid() && grid == WithColumn(g0, col, cs)
        invariant -1 <= row <= emptyRow
        invariant forall i :: 0 <= i < N ==>
          cs[i] == if row < i <= emptyRow then Fruit(supply(old(drawn) + emptyRow - i)) else c0[i]
        invariant drawn == old(drawn) + emptyRow - row
        decreases row
      {
        var k := CreateRandomFruit();
        SetAtColumn(g0, col, cs, row, Fruit(k));
        cs := cs[row := Fruit(k)];
        SetCell(Pos(row, col), Fruit(k));
        row := row - 1;
      }
      assert cs == Fresh(supply, old(drawn), emptyRow + 1) + c0[emptyRow + 1..];
    }

    /** One column of `dropFruits`: gravity, then refill. */
    method DropColumn(col: nat)
      requires Valid() && col < N
      modifies fruits, this`grid, this`drawn
      ensures Valid()
      ensures grid == WithColumn(old(grid), col, SettleColumn(Column(old(grid), col), supply, old(drawn)))
      ensures drawn == old(drawn) + Gaps(Column(old(grid), col))
      ensures DropFrom(old(grid), supply, old(drawn), col) == DropFrom(grid, supply, drawn, col + 1)
    {
      DropFromStep(grid, supply, drawn, col);
      var emptyRow := FallColumn(col);
      ghost var fallen := grid;
      RefillColumn(col, emptyRow);
      FallThenRefill(old(grid), col, supply, old(drawn), fallen, grid);
    }

    /** `dropFruits` without its rescan: gravity and refill, column by column. */
    method DropFruits()
      requires Valid()
      modifies fruits, this`grid, this`drawn
      ensures Valid()
      ensures Dropped(grid, drawn) == Drop(old(grid), supply, old(drawn))
      ensures Now() == Fall(old(Now()), supply)
    {
      for col := 0 to N
        invariant Valid()
        invariant DropFrom(grid, supply, drawn, col) == Drop(old(grid), supply, old(drawn))
      {
        DropColumn(col);
      }
    }

    /** One round of the cascade: `processMatches`, `dropFruits`, and the
        rescan that reports the next list to process. Whatever the fuel, the
        cascade from the old state is what follows this round. */
    method CascadeRound(m: seq<Pos>, ghost fuel: nat) returns (next: seq<Pos>)
      requires Valid() && Full(grid) && m != [] && Listed(grid, m)
      modifies fruits, this`grid, this`score, this`level, this`drawn
      ensures Valid() && Full(grid) && next == FirstMatchFrom(grid, 0, 0)
      ensures Now() == Fall(Process(old(Now()), m), supply)
      ensures Cascade(supply, old(Now()), m, fuel) == AfterRound(supply, Now(), next, fuel)
    {
      ghost var before := Now();
      ProcessMatches(m);
      ghost var processed := Now();
      DropFruits();
      DropFull(processed.grid, supply, processed.drawn);
      next := FindFirstMatch();
      CascadeUnfold(supply, before, m, fuel, Now(), next);
    }

    /** `processMatches`, then `dropFruits` and its rescan, which calls
        `processMatches` again on what it finds, while fuel is left; `settled`
        tells that a rescan found nothing. */
    method ResolveCascade(matches: seq<Pos>, fuel: nat) returns (settled: bool)
      requires Valid() && Full(grid) && matches != [] && Listed(grid, matches)
      modifies fruits, this`grid, this`score, this`level, this`drawn
      ensures Valid() && Full(grid)
      ensures (Now(), settled) == Cascade(supply, old(Now()), matches, fuel)
      decreases fuel, 1
    {
      var m := CascadeRound(matches, fuel);
      settled := ContinueCascade(m, fuel);
    }

    /** The end of a rescan: stop when it found nothing or the fuel is spent,
        otherwise process what it found. */
    method ContinueCascade(m: seq<Pos>, fuel: nat) returns (settled: bool)
      requires Valid() && Full(grid) && m == FirstMatchFrom(grid, 0, 0)
      modifies fruits, this`grid, this`score, this`level, this`drawn
      ensures Valid() && Full(grid)
      ensures (Now(), settled) == AfterRound(supply, old(Now()), m, fuel)
      decreases fuel, 0
    {
      if m == [] {
        settled := true;
      } else if fuel == 0 {
        settled := false;
      } else {
        FirstMatchListed(grid, 0, 0);
        settled := ResolveCascade(m, fuel - 1);
      }
    }

    /** The exchange of the two cells (`swapFruits` before its timer). */
    method SwapCells(p: Pos, q: Pos)
      requires Valid() && InBounds(p) && InBounds(q)
      modifies fruits, this`grid
      ensures Valid() && grid == Swap(old(grid), p, q)
    {
      var a := fruits[p.row, p.col];
      var b := fruits[q.row, q.col];
      SetCell(p, b);
      SetCell(q, a);
    }

    /** `swapFruits` with its timer run at once: exchange the cells, check both
        endpoints, and either resolve the concatenated reports or exchange the
        cells back. */
    method SwapFruits(p: Pos, q: Pos, fuel: nat) returns (accepted: bool, settled: bool)
      requires Valid() && Full(grid) && InBounds(p) && InBounds(q)
      modifies fruits, this`grid, this`score, this`level, this`drawn
      ensures Valid() && Full(grid)
      ensures Move(Now(), accepted, settled) == Attempt(supply, old(Now()), p, q, fuel)
    {
      SwapCells(p, q);
      ghost var mid := Now();
      var matches1 := CheckMatches(p.row, p.col);
      var matches2 := CheckMatches(q.row, q.col);
      AttemptUnfold(supply, old(Now()), p, q, fuel, mid, matches1 + matches2);
      if |matches1| > 0 || |matches2| > 0 {
        accepted := true;
        settled := ResolveCascade(matches1 + matches2, fuel);
      } else {
        accepted, settled := false, true;
        SwapInvolution(old(grid), p, q);
        SwapCells(q, p);
      }
    }

    /** `handleClick` in grid coordinates: a click off the board does nothing;
        the first click selects a cell; the second swaps when it is adjacent
        to the selection and clears the selection either way. */
    method HandleClick(row: int, col: int, fuel: nat)
      requires Valid() && Full(grid)
      modifies fruits, this`grid, this`score, this`level, this`drawn, this`selected
      ensures Valid() && Full(grid)
      ensures !InBounds(Pos(row, col)) ==> selected == old(selected) && Now() == old(Now())
      ensures InBounds(Pos(row, col)) && old(selected).None? ==>
        selected == Some(Pos(row, col)) && Now() == old(Now())
      ensures InBounds(Pos(row, col)) && old(selected).Some? ==>
        selected == None &&
        Now() == if IsAdjacent(old(selected).value, Pos(row, col))
                 then Attempt(supply, old(Now()), old(selected).value, Pos(row, col), fuel).state
                 else old(Now())
    {
      var p := Pos(row, col);
      if InBounds(p) {
        if selected.None? {
          selected := Some(p);
        } else {
          if IsAdjacent(selected.value, p) {
            var accepted, settled := SwapFruits(selected.value, p, fuel);
          }
          selected := None;
        }
      }
    }

    /** The cell step of `removeInitialMatches`: a cell whose report is
        non-empty gets a fresh fruit and marks the pass as having found a
        match. */
    method RerollCell(row: nat, col: nat, hasMatches: bool) returns (found: bool)
      requires Valid() && Full(grid) && row < N && col < N
      modifies fruits, this`grid, this`drawn
      ensures Valid() && Full(grid)
      ensures Matches(old(grid), row, col) != [] ==>
        grid == SetAt(old(grid), Pos(row, col), Fruit(supply(old(drawn)))) && drawn == old(drawn) + 1 && found
      ensures Matches(old(grid), row, col) == [] ==>
        grid == old(grid) && drawn == old(drawn) && found == hasMatches
      ensures PassFrom(supply, old(grid), old(drawn), row, col, hasMatches) ==
              PassFrom(supply, grid, drawn, row, col + 1, found)
    {
      var m := CheckMatches(row, col);
      found := hasMatches;
      if |m| > 0 {
        assert PassFrom(supply, grid, drawn, row, col, hasMatches) ==
          PassFrom(supply, SetAt(grid, Pos(row, col), Fruit(supply(drawn))), drawn + 1, row, col + 1, true);
        var k := CreateRandomFruit();
        SetAtFull(grid, Pos(row, col), Fruit(k));
        SetCell(Pos(row, col), Fruit(k));
        found := true;
      } else {
        assert PassFrom(supply, grid, drawn, row, col, hasMatches) ==
          PassFrom(supply, grid, drawn, row, col + 1, hasMatches);
      }
    }

    /** The inner loop of a `removeInitialMatches` pass: row `row`, left to
        right. */
    method RerollRow(row: nat, hasMatches: bool) returns (found: bool)
      requires Valid() && Full(grid) && row < N
      modifies fruits, this`grid, this`drawn
      ensures Valid() && Full(grid)
      ensures Pass(grid, drawn, found) == PassRow(supply, old(grid), old(drawn), row, 0, hasMatches)
      ensures PassFrom(supply, old(grid), old(drawn), row, 0, hasMatches) ==
              PassFrom(supply, grid, drawn, row + 1, 0, found)
    {
      found := hasMatches;
      for col := 0 to N
        invariant Valid() && Full(grid)
        invariant PassRow(supply, old(grid), old(drawn), row, 0, hasMatches) == PassRow(supply, grid, drawn, row, col, found)
      {
        found := RerollCell(row, col, found);
      }
      PassFromRow(supply, old(grid), old(drawn), row, 0, hasMatches);
    }

    /** One pass of `removeInitialMatches` over the board in row-major order. */
    method RemovalPass() returns (hasMatches: bool)
      requires Valid() && Full(grid)
      modifies fruits, this`grid, this`drawn
      ensures Valid() && Full(grid)
      ensures Pass(grid, drawn, hasMatches) == PassFrom(supply, old(grid), old(drawn), 0, 0, false)
    {
      hasMatches := false;
      for row := 0 to N
        invariant Valid() && Full(grid)
        invariant PassFrom(supply, old(grid), old(drawn), 0, 0, false) == PassFrom(supply, grid, drawn, row, 0, hasMatches)
      {
        hasMatches := RerollRow(row, hasMatches);
      }
      PassEnd(supply, grid, drawn, hasMatches);
    }

    /** `removeInitialMatches` with at most `fuel` passes; `ok` is false when
        the fuel ran out before a pass found no match. */
    method RemoveInitialMatches(fuel: nat) returns (ok: bool)
      requires Valid() && Full(grid)
      modifies fruits, this`grid, this`drawn
      ensures Valid() && Full(grid)
      ensures Repaired(grid, drawn, ok) == Repair(supply, old(grid), old(drawn), fuel)
    {
      var hasMatches := true;
      var budget := fuel;
      while hasMatches && budget > 0
        invariant Valid() && Full(grid)
        invariant hasMatches ==> Repair(supply, grid, drawn, budget) == Repair(supply, old(grid), old(drawn), fuel)
        invariant !hasMatches ==> Repaired(grid, drawn, true) == Repair(supply, old(grid), old(drawn), fuel)
        decreases budget
      {
        ghost var g0, d0 := grid, drawn;
        budget := budget - 1;
        hasMatches := RemovalPass();
        RepairUnfold(supply, g0, d0, budget + 1, Pass(grid, drawn, hasMatches));
      }
      ok := !hasMatches;
    }

    /** The filling loop of `generateFruits`: every cell in row-major order
        gets the next fruit of the supply. */
    method FillGrid()
      requires Valid()
      modifies fruits, this`grid, this`drawn
      ensures Valid() && grid == FreshGrid(supply, old(drawn)) && drawn == old(drawn) + 64
    {
      ghost var initial := FreshGrid(supply, drawn);
      for row := 0 to N
        invariant Valid() && drawn == old(drawn) + 8 * row
        invariant forall i, j :: 0 <= i < row && 0 <= j < N ==> grid[i][j] == initial[i][j]
      {
        for col := 0 to N
          invariant Valid() && drawn == old(drawn) + 8 * row + col
          invariant forall i, j :: 0 <= i < row && 0 <= j < N ==> grid[i][j] == initial[i][j]
          invariant forall j :: 0 <= j < col ==> grid[row][j] == initial[row][j]
        {
          var k := CreateRandomFruit();
          SetCell(Pos(row, col), Fruit(k));
        }
      }
      GridExt(grid, initial);
    }

    /** `generateFruits`: fill the board from the supply, then remove the
        initial matches. */
    method GenerateFruits(fuel: nat) returns (ok: bool)
      requires Valid()
      modifies fruits, this`grid, this`drawn
      ensures Valid() && Full(grid)
      ensures Repaired(grid, drawn, ok) == Generate(supply, old(drawn), fuel)
    {
      FillGrid();
      GenerateUnfold(supply, old(drawn), fuel, grid);
      ok := RemoveInitialMatches(fuel);
    }

    /** `reset` without its display and lifecycle flags: score 0, level 1, no
        selection, and a newly generated board. */
    method Reset(fuel: nat) returns (ok: bool)
      requires Valid()
      modifies fruits, this`grid, this`drawn, this`score, this`level, this`selected
      ensures Valid() && Full(grid)
      ensures score == 0 && level == 1 && selected == None
      ensures Repaired(grid, drawn, ok) == Generate(supply, old(drawn), fuel)
    {
      score, level, selected := 0, 1, None;
      ok := GenerateFruits(fuel);
    }
  }
}
