/** Scoring and clearing (`processMatches`) and the level derived from the
    score (`updateScore`). */
module Scoring {
  import opened Board

  /** Sum of the palette points of the listed fruits, a position counted once
      per occurrence in the list. */
  function SumPoints(g: Grid, list: seq<Pos>): (s: nat)
    requires WellFormed(g) && Listed(g, list)
    ensures 10 * |list| <= s <= 45 * |list|
    decreases |list|
  {
    if list == [] then 0 else Points(At(g, list[0]).kind) + SumPoints(g, list[1..])
  }

  lemma MulBounds(s: nat, n: nat)
    requires 10 * n <= s <= 45 * n
    ensures 10 * n * n <= s * n <= 45 * n * n
  {
  }

  /** Points a list earns: the sum of its points times its length. */
  function Gain(g: Grid, list: seq<Pos>): (r: nat)
    requires WellFormed(g) && Listed(g, list)
    ensures r == 0 <==> list == []
    ensures 10 * |list| * |list| <= r <= 45 * |list| * |list|
  {
    MulBounds(SumPoints(g, list), |list|);
    SumPoints(g, list) * |list|
  }

  /** The points of a concatenated list are the points of its parts: a cell
      listed by both endpoints of a swap is counted twice. */
  lemma {:induction false} SumPointsAppend(g: Grid, a: seq<Pos>, b: seq<Pos>)
    requires WellFormed(g) && Listed(g, a) && Listed(g, b)
    ensures Listed(g, a + b)
    ensures SumPoints(g, a + b) == SumPoints(g, a) + SumPoints(g, b)
    decreases |a|
  {
    if a == [] {
      assert a + b == b;
    } else {
      assert (a + b)[0] == a[0] && (a + b)[1..] == a[1..] + b;
      SumPointsAppend(g, a[1..], b);
    }
  }

  /** Three fruits of the first palette entry (10 points each) earn 90. */
  lemma ThreeOfFirstKind(g: Grid, list: seq<Pos>)
    requires WellFormed(g) && |list| == 3
    requires forall p :: p in list ==> InBounds(p) && At(g, p) == Fruit(0)
    ensures Listed(g, list) && Gain(g, list) == 90
  {
    assert list[0] in list && list[1] in list && list[2] in list;
    assert list[1..][1..][1..] == [];
    assert SumPoints(g, list[2..]) == 10 by {
      assert list[2..][0] == list[2] && list[2..][1..] == [];
    }
    assert SumPoints(g, list[1..]) == 20 by {
      assert list[1..][0] == list[1] && list[1..][1..] == list[2..];
    }
    assert SumPoints(g, list) == 30;
  }

  /** Sets every listed cell to empty, one after the other. */
  function Clear(g: Grid, list: seq<Pos>): (r: Grid)
    requires WellFormed(g) && forall p :: p in list ==> InBounds(p)
    ensures WellFormed(r)
    decreases |list|
  {
    if list == [] then g else Clear(SetAt(g, list[0], Empty), list[1..])
  }

  /** Clearing empties exactly the listed cells and leaves the others alone. */
  lemma {:induction false} ClearExact(g: Grid, list: seq<Pos>)
    requires WellFormed(g) && forall p :: p in list ==> InBounds(p)
    ensures forall i, j :: 0 <= i < N && 0 <= j < N ==>
      Clear(g, list)[i][j] == if Pos(i, j) in list then Empty else g[i][j]
    decreases |list|
  {
    if list != [] {
      ClearExact(SetAt(g, list[0], Empty), list[1..]);
      assert forall p :: p in list <==> p == list[0] || p in list[1..];
    }
  }

  /** `Math.floor(score / 1000) + 1`: level l covers scores from 1000 (l - 1)
      up to, not including, 1000 l. */
  function Level(score: nat): (l: nat)
    ensures l >= 1 && (l - 1) * 1000 <= score < l * 1000
  {
    score / 1000 + 1
  }

  /** A higher score never has a lower level. */
  lemma LevelMonotone(a: nat, b: nat)
    requires a <= b
    ensures Level(a) <= Level(b)
  {
  }
}
