/** Gravity and refill (`dropFruits`): per column, the fruits fall to the
    bottom keeping their order, and the cells left empty at the top receive
    fresh fruits. */
module Gravity {
  import opened Board

  /** The fruits of a column, top to bottom, without its empty cells. */
  function NonEmpty(s: seq<Cell>): (r: seq<Cell>)
    ensures |r| <= |s|
    ensures forall i :: 0 <= i < |r| ==> r[i].Fruit?
  {
    if s == [] then [] else (if s[0].Fruit? then [s[0]] else []) + NonEmpty(s[1..])
  }

  /** Number of empty cells of a column. */
  function Gaps(s: seq<Cell>): nat
  {
    |s| - |NonEmpty(s)|
  }

  function Blanks(n: nat): seq<Cell>
  {
    seq(n, _ => Empty)
  }

  /** Gravity alone: the empty cells on top, the fruits below them. */
  function Compact(s: seq<Cell>): seq<Cell>
  {
    Blanks(Gaps(s)) + NonEmpty(s)
  }

  /** Fresh fruits for the top n cells; the lowest of them is drawn first. */
  function Fresh(supply: nat -> Kind, d: nat, n: nat): seq<Cell>
  {
    seq(n, i requires 0 <= i < n => Fruit(supply(d + n - 1 - i)))
  }

  /** A column after `dropFruits`: compacted, then refilled with fresh fruits
      drawn from index d of the supply. */
  function SettleColumn(s: seq<Cell>, supply: nat -> Kind, d: nat): seq<Cell>
  {
    Fresh(supply, d, Gaps(s)) + NonEmpty(s)
  }

  /** `after` holds the fruits of `before` in their order against the bottom,
      and fruits in every cell above them. */
  ghost predicate Settles(before: seq<Cell>, after: seq<Cell>)
  {
    |after| == |before| &&
    (forall i :: 0 <= i < Gaps(before) ==> after[i].Fruit?) &&
    after[Gaps(before)..] == NonEmpty(before)
  }

  lemma {:induction false} NonEmptyAppend(a: seq<Cell>, b: seq<Cell>)
    ensures NonEmpty(a + b) == NonEmpty(a) + NonEmpty(b)
    decreases |a|
  {
    if a != [] {
      assert (a + b)[0] == a[0] && (a + b)[1..] == a[1..] + b;
      NonEmptyAppend(a[1..], b);
    } else {
      assert a + b == b;
    }
  }

  lemma {:induction false} NonEmptyOfBlanks(n: nat)
    ensures NonEmpty(Blanks(n)) == []
  {
    if n > 0 {
      assert Blanks(n)[1..] == Blanks(n - 1);
      NonEmptyOfBlanks(n - 1);
    }
  }

  lemma {:induction false} NonEmptyOfFruits(s: seq<Cell>)
    requires forall i :: 0 <= i < |s| ==> s[i].Fruit?
    ensures NonEmpty(s) == s
  {
    if s != [] {
      NonEmptyOfFruits(s[1..]);
      assert [s[0]] + s[1..] == s;
    }
  }

  /** Gravity keeps the length and the fruits of a column, in their order. */
  lemma CompactKeepsFruits(s: seq<Cell>)
    ensures |Compact(s)| == |s|
    ensures NonEmpty(Compact(s)) == NonEmpty(s)
  {
    NonEmptyAppend(Blanks(Gaps(s)), NonEmpty(s));
    NonEmptyOfBlanks(Gaps(s));
    NonEmptyOfFruits(NonEmpty(s));
  }

  /** After gravity no empty cell lies below a fruit. */
  lemma CompactPacked(s: seq<Cell>)
    ensures forall i, j :: 0 <= i < j < |Compact(s)| && Compact(s)[i].Fruit? ==> Compact(s)[j].Fruit?
  {
  }

  /** Gravity applied twice moves nothing the second time. */
  lemma CompactIdempotent(s: seq<Cell>)
    ensures Compact(Compact(s)) == Compact(s)
  {
    CompactKeepsFruits(s);
  }

  /** A column [A, empty, B, empty, C] falls to [empty, empty, A, B, C]. */
  lemma GravityExample(a: Kind, b: Kind, c: Kind)
    ensures Compact([Fruit(a), Empty, Fruit(b), Empty, Fruit(c)]) ==
            [Empty, Empty, Fruit(a), Fruit(b), Fruit(c)]
  {
    var s := [Fruit(a), Empty, Fruit(b), Empty, Fruit(c)];
    assert s == [Fruit(a)] + [Empty] + [Fruit(b)] + [Empty] + [Fruit(c)];
    NonEmptyAppend([Fruit(a)] + [Empty] + [Fruit(b)] + [Empty], [Fruit(c)]);
    NonEmptyAppend([Fruit(a)] + [Empty] + [Fruit(b)], [Empty]);
    NonEmptyAppend([Fruit(a)] + [Empty], [Fruit(b)]);
    NonEmptyAppend([Fruit(a)], [Empty]);
    assert NonEmpty(s) == [Fruit(a), Fruit(b), Fruit(c)];
  }

  /** The refilled column keeps every fruit where gravity puts it and has a
      fresh fruit where gravity leaves a hole. */
  lemma SettleAgreesWithCompact(s: seq<Cell>, supply: nat -> Kind, d: nat)
    ensures |SettleColumn(s, supply, d)| == |Compact(s)| == |s|
    ensures forall i :: 0 <= i < |s| ==>
      SettleColumn(s, supply, d)[i] ==
        if Compact(s)[i].Fruit? then Compact(s)[i] else Fruit(supply(d + Gaps(s) - 1 - i))
  {
  }

  lemma SettleColumnSettles(s: seq<Cell>, supply: nat -> Kind, d: nat)
    ensures Settles(s, SettleColumn(s, supply, d))
  {
    var r := SettleColumn(s, supply, d);
    assert r[Gaps(s)..] == NonEmpty(s);
  }

  /** A settled column has no empty cell. */
  lemma SettlesFull(before: seq<Cell>, after: seq<Cell>)
    requires Settles(before, after)
    ensures forall i :: 0 <= i < |after| ==> after[i].Fruit?
  {
    forall i | Gaps(before) <= i < |after|
      ensures after[i].Fruit?
    {
      assert after[i] == after[Gaps(before)..][i - Gaps(before)];
    }
  }

  /** The state of the bottom-up gravity scan of column `c0` once every row
      below `row` has been visited: rows up to `row` are untouched, the rows
      between `row` and the cursor `emptyRow` are empty, and the fruits seen so
      far lie below the cursor in their order. */
  ghost predicate Falling(c0: seq<Cell>, cs: seq<Cell>, row: int, emptyRow: int)
  {
    |c0| == N && |cs| == N && -1 <= row <= emptyRow <= N - 1 &&
    (forall i :: 0 <= i <= row ==> cs[i] == c0[i]) &&
    (forall i :: row < i <= emptyRow ==> cs[i] == Empty) &&
    cs[emptyRow + 1..] == NonEmpty(c0[row + 1..])
  }

  /** One row of the scan: a fruit moves down to the cursor (unless it is
      there already) and the cursor moves up; an empty cell is passed over. */
  lemma FallingStep(c0: seq<Cell>, cs: seq<Cell>, row: nat, emptyRow: nat)
    requires Falling(c0, cs, row, emptyRow)
    ensures cs[row] == c0[row]
    ensures c0[row].Fruit? && row != emptyRow ==>
      Falling(c0, cs[emptyRow := c0[row]][row := Empty], row - 1, emptyRow - 1)
    ensures c0[row].Fruit? && row == emptyRow ==> Falling(c0, cs, row - 1, emptyRow - 1)
    ensures c0[row] == Empty ==> Falling(c0, cs, row - 1, emptyRow)
  {
    assert c0[row..][0] == c0[row] && c0[row..][1..] == c0[row + 1..];
    if c0[row].Fruit? {
      var cs' := if row != emptyRow then cs[emptyRow := c0[row]][row := Empty] else cs;
      assert cs'[emptyRow..] == [c0[row]] + cs[emptyRow + 1..];
    }
  }

  /** At the end of the scan the column is compacted and the cursor is
      the lowest row left empty. */
  lemma FallingDone(c0: seq<Cell>, cs: seq<Cell>, emptyRow: int)
    requires Falling(c0, cs, -1, emptyRow)
    ensures cs == Compact(c0) && emptyRow + 1 == Gaps(c0)
  {
    assert c0[0..] == c0;
    assert cs == Blanks(emptyRow + 1) + NonEmpty(c0);
  }

  /** Gravity on column c, then fresh fruits in the rows it left empty, is
      the settled column. */
  lemma FallThenRefill(g: Grid, c: nat, supply: nat -> Kind, d: nat, g1: Grid, g2: Grid)
    requires WellFormed(g) && c < N
    requires g1 == WithColumn(g, c, Compact(Column(g, c)))
    requires g2 == WithColumn(g1, c, Fresh(supply, d, Gaps(Column(g, c))) + Column(g1, c)[Gaps(Column(g, c))..])
    ensures g2 == WithColumn(g, c, SettleColumn(Column(g, c), supply, d))
  {
    var c0 := Column(g, c);
    CompactKeepsFruits(c0);
    ColumnOfWithColumn(g, c, Compact(c0), c);
    assert Compact(c0)[Gaps(c0)..] == NonEmpty(c0);
    WithColumnTwice(g, c, Compact(c0), SettleColumn(c0, supply, d));
  }

  datatype Dropped = Dropped(grid: Grid, drawn: nat)

  /** `dropFruits` from column c on, drawing fresh fruits from index d. */
  function DropFrom(g: Grid, supply: nat -> Kind, d: nat, c: nat): (r: Dropped)
    requires WellFormed(g) && c <= N
    ensures WellFormed(r.grid)
    decreases |g| - c
  {
    if c == N then Dropped(g, d)
    else
      var s := Column(g, c);
      DropFrom(WithColumn(g, c, SettleColumn(s, supply, d)), supply, d + Gaps(s), c + 1)
  }

  /** One column of `dropFruits`, then the rest. */
  lemma DropFromStep(g: Grid, supply: nat -> Kind, d: nat, c: nat)
    requires WellFormed(g) && c < N
    ensures DropFrom(g, supply, d, c) ==
      DropFrom(WithColumn(g, c, SettleColumn(Column(g, c), supply, d)), supply, d + Gaps(Column(g, c)), c + 1)
  {
  }

  function Drop(g: Grid, supply: nat -> Kind, d: nat): Dropped
    requires WellFormed(g)
  {
    DropFrom(g, supply, d, 0)
  }

  /** `dropFruits` from column c on leaves the columns before c alone and
      settles every other column. */
  lemma {:induction false} DropFromColumns(g: Grid, supply: nat -> Kind, d: nat, c: nat)
    requires WellFormed(g) && c <= N
    ensures forall j :: 0 <= j < c ==> Column(DropFrom(g, supply, d, c).grid, j) == Column(g, j)
    ensures forall j :: c <= j < N ==> Settles(Column(g, j), Column(DropFrom(g, supply, d, c).grid, j))
    decreases N - c
  {
    if c < N {
      var s := Column(g, c);
      var g' := WithColumn(g, c, SettleColumn(s, supply, d));
      DropFromColumns(g', supply, d + Gaps(s), c + 1);
      forall j | 0 <= j < N
        ensures Column(g', j) == if j == c then SettleColumn(s, supply, d) else Column(g, j)
      {
        ColumnOfWithColumn(g, c, SettleColumn(s, supply, d), j);
      }
      SettleColumnSettles(s, supply, d);
    }
  }

  /** After `dropFruits` no cell of the grid is empty. */
  lemma DropFull(g: Grid, supply: nat -> Kind, d: nat)
    requires WellFormed(g)
    ensures Full(Drop(g, supply, d).grid)
  {
    var r: Grid := Drop(g, supply, d).grid;
    DropFromColumns(g, supply, d, 0);
    forall i, j | 0 <= i < N && 0 <= j < N
      ensures r[i][j].Fruit?
    {
      SettlesFull(Column(g, j), Column(r, j));
      assert Column(r, j)[i] == r[i][j];
    }
  }
}
