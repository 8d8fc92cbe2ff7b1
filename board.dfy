/** The board of the fruit game: a square grid of cells, each empty or holding
    a fruit of one of the eight palette kinds, addressed by (row, col) with row 0
    at the top. */
module Board {

  /** Number of rows and of columns (`gridSize`). */
  const N: nat := 8

  /** A fruit kind is its index in the eight-entry palette; matching compares
      only the kind. */
  type Kind = k: nat | k < 8

  /** Points of a palette entry: 10, 15, ..., 45 in palette order. */
  function Points(k: Kind): (p: nat)
    ensures 10 <= p <= 45 && p % 5 == 0
  {
    10 + 5 * k
  }

  datatype Cell = Empty | Fruit(kind: Kind)

  datatype Pos = Pos(row: int, col: int)

  datatype Option<T> = None | Some(value: T)

  type Grid = seq<seq<Cell>>

  ghost predicate WellFormed(g: Grid)
  {
    |g| == N && forall i :: 0 <= i < N ==> |g[i]| == N
  }

  predicate InBounds(p: Pos)
  {
    0 <= p.row < N && 0 <= p.col < N
  }

  function At(g: Grid, p: Pos): Cell
    requires WellFormed(g) && InBounds(p)
  {
    g[p.row][p.col]
  }

  /** No cell is empty (the state between cascade steps). */
  ghost predicate Full(g: Grid)
    requires WellFormed(g)
  {
    forall i, j :: 0 <= i < N && 0 <= j < N ==> g[i][j].Fruit?
  }

  /** Every listed position is on the board and holds a fruit. */
  ghost predicate Listed(g: Grid, ps: seq<Pos>)
    requires WellFormed(g)
  {
    forall p :: p in ps ==> InBounds(p) && At(g, p).Fruit?
  }

  function Abs(x: int): nat
  {
    if x < 0 then -x else x
  }

  /** `isAdjacent`: one step apart along a row or along a column. */
  function IsAdjacent(a: Pos, b: Pos): (r: bool)
    ensures r <==> Abs(a.row - b.row) + Abs(a.col - b.col) == 1
    ensures r ==> a != b
  {
    (Abs(a.row - b.row) == 1 && a.col == b.col) ||
    (Abs(a.col - b.col) == 1 && a.row == b.row)
  }

  function SetAt(g: Grid, p: Pos, x: Cell): (r: Grid)
    requires WellFormed(g) && InBounds(p)
    ensures WellFormed(r)
  {
    g[p.row := g[p.row][p.col := x]]
  }

  /** The exchange of two cells, assigned first at `p`, then at `q`. */
  function Swap(g: Grid, p: Pos, q: Pos): (r: Grid)
    requires WellFormed(g) && InBounds(p) && InBounds(q)
    ensures WellFormed(r)
  {
    SetAt(SetAt(g, p, At(g, q)), q, At(g, p))
  }

  lemma GridExt(a: Grid, b: Grid)
    requires WellFormed(a) && WellFormed(b)
    requires forall i, j :: 0 <= i < N && 0 <= j < N ==> a[i][j] == b[i][j]
    ensures a == b
  {
    forall i | 0 <= i < N
      ensures a[i] == b[i]
    {
      assert forall j :: 0 <= j < N ==> a[i][j] == b[i][j];
    }
  }

  /** A swap moves the cell at `p` to `q` and back, and changes nothing else. */
  lemma SwapExact(g: Grid, p: Pos, q: Pos)
    requires WellFormed(g) && InBounds(p) && InBounds(q)
    ensures forall i, j :: 0 <= i < N && 0 <= j < N ==>
      Swap(g, p, q)[i][j] ==
        if Pos(i, j) == q then At(g, p)
        else if Pos(i, j) == p then At(g, q)
        else g[i][j]
  {
  }

  /** Swapping the same pair back restores the grid. */
  lemma SwapInvolution(g: Grid, p: Pos, q: Pos)
    requires WellFormed(g) && InBounds(p) && InBounds(q)
    ensures Swap(Swap(g, p, q), q, p) == g
  {
    var g1 := Swap(g, p, q);
    SwapExact(g, p, q);
    SwapExact(g1, q, p);
    GridExt(Swap(g1, q, p), g);
  }

  /** The order of the two endpoints does not matter. */
  lemma SwapSymmetric(g: Grid, p: Pos, q: Pos)
    requires WellFormed(g) && InBounds(p) && InBounds(q)
    ensures Swap(g, p, q) == Swap(g, q, p)
  {
    SwapExact(g, p, q);
    SwapExact(g, q, p);
    GridExt(Swap(g, p, q), Swap(g, q, p));
  }

  /** A swap keeps a full grid full. */
  lemma SwapFull(g: Grid, p: Pos, q: Pos)
    requires WellFormed(g) && InBounds(p) && InBounds(q) && Full(g)
    ensures Full(Swap(g, p, q))
  {
    SwapExact(g, p, q);
  }

  /** Column `c` read top to bottom. */
  function Column(g: Grid, c: nat): (s: seq<Cell>)
    requires WellFormed(g) && c < N
    ensures |s| == N && forall i :: 0 <= i < N ==> s[i] == g[i][c]
  {
    seq(N, i requires 0 <= i < N => g[i][c])
  }

  /** The grid with column `c` replaced by `s`. */
  function WithColumn(g: Grid, c: nat, s: seq<Cell>): (r: Grid)
    requires WellFormed(g) && c < N && |s| == N
    ensures WellFormed(r)
    ensures forall i, j :: 0 <= i < N && 0 <= j < N ==> r[i][j] == if j == c then s[i] else g[i][j]
  {
    seq(N, i requires 0 <= i < N => g[i][c := s[i]])
  }

  lemma ColumnOfWithColumn(g: Grid, c: nat, s: seq<Cell>, j: nat)
    requires WellFormed(g) && c < N && |s| == N && j < N
    ensures Column(WithColumn(g, c, s), j) == if j == c then s else Column(g, j)
  {
  }
  /** Setting a cell of column `c` is replacing that column by an updated one. */
  lemma SetAtColumn(g: Grid, c: nat, s: seq<Cell>, r: nat, x: Cell)
    requires WellFormed(g) && c < N && |s| == N && r < N
    ensures SetAt(WithColumn(g, c, s), Pos(r, c), x) == WithColumn(g, c, s[r := x])
  {
    GridExt(SetAt(WithColumn(g, c, s), Pos(r, c), x), WithColumn(g, c, s[r := x]));
  }

  lemma WithColumnOfColumn(g: Grid, c: nat)
    requires WellFormed(g) && c < N
    ensures WithColumn(g, c, Column(g, c)) == g
  {
    GridExt(WithColumn(g, c, Column(g, c)), g);
  }

  lemma WithColumnTwice(g: Grid, c: nat, s: seq<Cell>, t: seq<Cell>)
    requires WellFormed(g) && c < N && |s| == N && |t| == N
    ensures WithColumn(WithColumn(g, c, s), c, t) == WithColumn(g, c, t)
  {
    GridExt(WithColumn(WithColumn(g, c, s), c, t), WithColumn(g, c, t));
  }

  /** Putting a fruit into a full grid keeps it full. */
  lemma SetAtFull(g: Grid, p: Pos, x: Cell)
    requires WellFormed(g) && InBounds(p) && Full(g) && x.Fruit?
    ensures Full(SetAt(g, p, x))
  {
  }
}
