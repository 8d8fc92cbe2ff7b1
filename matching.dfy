/** Local match detection (`checkMatches`) and the whole-board notions built
    on it: a settled board, and the row-major search for the first cell that
    matches. */
module Matching {
  import opened Board

  /** First index of the run of `x` cells that ends just before index `i` of
      the line `s`: the leftward (or upward) scan of `checkMatches`. */
  function RunStart(s: seq<Cell>, i: nat, x: Cell): (a: nat)
    requires i <= |s|
    ensures a <= i
    ensures forall j :: a <= j < i ==> s[j] == x
    ensures a == 0 || s[a - 1] != x
    decreases i
  {
    if i > 0 && s[i - 1] == x then RunStart(s, i - 1, x) else i
  }

  /** One past the last index of the run of `x` cells that starts just after
      index `i`: the rightward (or downward) scan. */
  function RunEnd(s: seq<Cell>, i: nat, x: Cell): (b: nat)
    requires i < |s|
    ensures i < b <= |s|
    ensures forall j :: i < j < b ==> s[j] == x
    ensures b == |s| || s[b] != x
    decreases |s| - i
  {
    if i + 1 < |s| && s[i + 1] == x then RunEnd(s, i + 1, x) else i + 1
  }

  /** Positions (r, a), ..., (r, b - 1). */
  function RowSpan(r: int, a: int, b: int): seq<Pos>
    requires a <= b
  {
    seq(b - a, k => Pos(r, a + k))
  }

  /** Positions (a, c), ..., (b - 1, c). */
  function ColSpan(c: int, a: int, b: int): seq<Pos>
    requires a <= b
  {
    seq(b - a, k => Pos(a + k, c))
  }

  lemma RowSpanCons(r: int, a: int, b: int)
    requires a < b
    ensures RowSpan(r, a, b) == [Pos(r, a)] + RowSpan(r, a + 1, b)
  {
  }

  lemma RowSpanSnoc(r: int, a: int, b: int)
    requires a < b
    ensures RowSpan(r, a, b) == RowSpan(r, a, b - 1) + [Pos(r, b - 1)]
  {
  }

  lemma ColSpanCons(c: int, a: int, b: int)
    requires a < b
    ensures ColSpan(c, a, b) == [Pos(a, c)] + ColSpan(c, a + 1, b)
  {
  }

  lemma ColSpanSnoc(c: int, a: int, b: int)
    requires a < b
    ensures ColSpan(c, a, b) == ColSpan(c, a, b - 1) + [Pos(b - 1, c)]
  {
  }

  /** `horizontalMatches`: the run through (r, c) along row r, left to right. */
  function HorizontalRun(g: Grid, r: nat, c: nat): seq<Pos>
    requires WellFormed(g) && r < N && c < N
  {
    var x := g[r][c];
    RowSpan(r, RunStart(g[r], c, x), RunEnd(g[r], c, x))
  }

  /** `verticalMatches`: the run through (r, c) along column c, top to bottom. */
  function VerticalRun(g: Grid, r: nat, c: nat): seq<Pos>
    requires WellFormed(g) && r < N && c < N
  {
    var s := Column(g, c);
    var x := g[r][c];
    ColSpan(c, RunStart(s, r, x), RunEnd(s, r, x))
  }

  /** A run is kept when it is at least three long. */
  function Keep(run: seq<Pos>): seq<Pos>
  {
    if |run| >= 3 then run else []
  }

  /** Adding the items one by one to an insertion-ordered set, as `Set.add`
      does; `Array.from` then lists the set in that order. */
  function AddAll(s: seq<Pos>, t: seq<Pos>): seq<Pos>
    decreases |t|
  {
    if t == [] then s else AddAll(if t[0] in s then s else s + [t[0]], t[1..])
  }

  /** `checkMatches(r, c)`: the kept horizontal run, then the kept vertical run
      without the cells already listed. */
  function Matches(g: Grid, r: nat, c: nat): (m: seq<Pos>)
    requires WellFormed(g) && r < N && c < N
    ensures forall p :: p in m ==> InBounds(p) && At(g, p) == g[r][c]
  {
    var h := Keep(HorizontalRun(g, r, c));
    var v := Keep(VerticalRun(g, r, c));
    AddAllMembers([], h);
    AddAllMembers(AddAll([], h), v);
    AddAll(AddAll([], h), v)
  }

  ghost predicate Distinct(s: seq<Pos>)
  {
    forall i, j :: 0 <= i < j < |s| ==> s[i] != s[j]
  }

  lemma {:induction false} AddAllMembers(s: seq<Pos>, t: seq<Pos>)
    ensures forall x :: x in AddAll(s, t) <==> x in s || x in t
    decreases |t|
  {
    if t != [] {
      var s' := if t[0] in s then s else s + [t[0]];
      AddAllMembers(s', t[1..]);
      assert forall x :: x in t <==> x == t[0] || x in t[1..];
    }
  }

  lemma {:induction false} AddAllDistinct(s: seq<Pos>, t: seq<Pos>)
    requires Distinct(s)
    ensures Distinct(AddAll(s, t))
    decreases |t|
  {
    if t != [] {
      var s' := if t[0] in s then s else s + [t[0]];
      AddAllDistinct(s', t[1..]);
    }
  }

  /** Adding only ever appends: what was listed stays at the front. */
  lemma {:induction false} AddAllPrefix(s: seq<Pos>, t: seq<Pos>)
    ensures |AddAll(s, t)| >= |s| && AddAll(s, t)[..|s|] == s
    decreases |t|
  {
    if t != [] {
      var s' := if t[0] in s then s else s + [t[0]];
      AddAllPrefix(s', t[1..]);
      assert s'[..|s|] == s;
    }
  }

  /** Adding items that are all new appends them unchanged. */
  lemma {:induction false} AddAllNew(s: seq<Pos>, t: seq<Pos>)
    requires Distinct(s + t)
    ensures AddAll(s, t) == s + t
    decreases |t|
  {
    if t != [] {
      forall i | 0 <= i < |s|
        ensures s[i] != t[0]
      {
        assert (s + t)[i] == s[i] && (s + t)[|s|] == t[0];
      }
      assert s + t == (s + [t[0]]) + t[1..];
      AddAllNew(s + [t[0]], t[1..]);
    }
  }

  /** Any same-kind window that contains `i` lies inside the leftward scan. */
  lemma {:induction false} RunStartBelow(s: seq<Cell>, i: nat, x: Cell, a: nat)
    requires a <= i <= |s|
    requires forall j :: a <= j < i ==> s[j] == x
    ensures RunStart(s, i, x) <= a
    decreases i
  {
    if i > a {
      RunStartBelow(s, i - 1, x, a);
    }
  }

  /** Any same-kind window that contains `i` lies inside the rightward scan. */
  lemma {:induction false} RunEndAbove(s: seq<Cell>, i: nat, x: Cell, b: nat)
    requires i < b <= |s|
    requires forall j :: i < j < b ==> s[j] == x
    ensures RunEnd(s, i, x) >= b
    decreases |s| - i
  {
    if i + 1 < b {
      RunEndAbove(s, i + 1, x, b);
    }
  }

  /** Indices a, ..., b - 1 of `s` form a contiguous segment of one kind. */
  ghost predicate Uniform(s: seq<Cell>, a: int, b: int)
  {
    0 <= a < b <= |s| && forall j :: a <= j < b ==> s[j] == s[a]
  }

  /** Index `j` shares with index `i` a same-kind segment at least three long. */
  ghost predicate InLineMatch(s: seq<Cell>, i: int, j: int)
  {
    exists a, b :: Uniform(s, a, b) && a <= i < b && a <= j < b && b - a >= 3
  }

  /** The two scans from `i` find exactly the maximal segment through `i`. */
  lemma LineMatchIff(s: seq<Cell>, i: nat, j: int)
    requires i < |s|
    ensures InLineMatch(s, i, j) <==>
      (var a, b := RunStart(s, i, s[i]), RunEnd(s, i, s[i]); b - a >= 3 && a <= j < b)
  {
    var x := s[i];
    var a, b := RunStart(s, i, x), RunEnd(s, i, x);
    if InLineMatch(s, i, j) {
      var a', b' :| Uniform(s, a', b') && a' <= i < b' && a' <= j < b' && b' - a' >= 3;
      RunStartBelow(s, i, x, a');
      RunEndAbove(s, i, x, b');
    }
    if b - a >= 3 && a <= j < b {
      assert Uniform(s, a, b);
    }
  }

  lemma RowSpanMembers(r: int, a: int, b: int, p: Pos)
    requires a <= b
    ensures p in RowSpan(r, a, b) <==> p.row == r && a <= p.col < b
  {
    if p.row == r && a <= p.col < b {
      assert RowSpan(r, a, b)[p.col - a] == p;
    }
  }

  lemma ColSpanMembers(c: int, a: int, b: int, p: Pos)
    requires a <= b
    ensures p in ColSpan(c, a, b) <==> p.col == c && a <= p.row < b
  {
    if p.col == c && a <= p.row < b {
      assert ColSpan(c, a, b)[p.row - a] == p;
    }
  }

  /** A position is reported exactly when it shares with (r, c) a same-kind
      horizontal segment of row r, or a same-kind vertical segment of column c,
      at least three long. */
  lemma MatchesExact(g: Grid, r: nat, c: nat, p: Pos)
    requires WellFormed(g) && r < N && c < N
    ensures p in Matches(g, r, c) <==>
      (p.row == r && InLineMatch(g[r], c, p.col)) ||
      (p.col == c && InLineMatch(Column(g, c), r, p.row))
  {
    var h := HorizontalRun(g, r, c);
    var v := VerticalRun(g, r, c);
    AddAllMembers([], Keep(h));
    AddAllMembers(AddAll([], Keep(h)), Keep(v));
    var x := g[r][c];
    RowSpanMembers(r, RunStart(g[r], c, x), RunEnd(g[r], c, x), p);
    ColSpanMembers(c, RunStart(Column(g, c), r, x), RunEnd(Column(g, c), r, x), p);
    LineMatchIff(g[r], c, p.col);
    LineMatchIff(Column(g, c), r, p.row);
  }

  lemma RowSpanDistinct(r: int, a: int, b: int)
    requires a <= b
    ensures Distinct(RowSpan(r, a, b))
  {
  }

  lemma ColSpanDistinct(c: int, a: int, b: int)
    requires a <= b
    ensures Distinct(ColSpan(c, a, b))
  {
  }

  /** No position is reported twice. */
  lemma MatchesDistinct(g: Grid, r: nat, c: nat)
    requires WellFormed(g) && r < N && c < N
    ensures Distinct(Matches(g, r, c))
  {
    AddAllDistinct([], Keep(HorizontalRun(g, r, c)));
    AddAllDistinct(AddAll([], Keep(HorizontalRun(g, r, c))), Keep(VerticalRun(g, r, c)));
  }

  /** A match report is empty or names at least three cells. */
  lemma MatchesSize(g: Grid, r: nat, c: nat)
    requires WellFormed(g) && r < N && c < N
    ensures |Matches(g, r, c)| == 0 || |Matches(g, r, c)| >= 3
  {
    var x := g[r][c];
    var h := Keep(HorizontalRun(g, r, c));
    var v := Keep(VerticalRun(g, r, c));
    RowSpanDistinct(r, RunStart(g[r], c, x), RunEnd(g[r], c, x));
    ColSpanDistinct(c, RunStart(Column(g, c), r, x), RunEnd(Column(g, c), r, x));
    assert [] + h == h && [] + v == v;
    AddAllNew([], h);
    if h != [] {
      AddAllPrefix(h, v);
    } else {
      AddAllNew([], v);
    }
  }

  /** A non-empty report contains the cell it was computed from. */
  lemma MatchesCenter(g: Grid, r: nat, c: nat)
    requires WellFormed(g) && r < N && c < N
    requires Matches(g, r, c) != []
    ensures Pos(r, c) in Matches(g, r, c)
  {
    var p := Matches(g, r, c)[0];
    MatchesExact(g, r, c, p);
    if p.row == r && InLineMatch(g[r], c, p.col) {
      var a, b :| Uniform(g[r], a, b) && a <= c < b && a <= p.col < b && b - a >= 3;
      assert InLineMatch(g[r], c, c);
    } else {
      var a, b :| Uniform(Column(g, c), a, b) && a <= r < b && a <= p.row < b && b - a >= 3;
      assert InLineMatch(Column(g, c), r, r);
    }
    MatchesExact(g, r, c, Pos(r, c));
  }

  /** The report of (r, c) is empty exactly when both runs through it are
      shorter than three. */
  lemma MatchesEmptyIff(g: Grid, r: nat, c: nat)
    requires WellFormed(g) && r < N && c < N
    ensures Matches(g, r, c) == [] <==>
      |HorizontalRun(g, r, c)| < 3 && |VerticalRun(g, r, c)| < 3
  {
    var h := Keep(HorizontalRun(g, r, c));
    var v := Keep(VerticalRun(g, r, c));
    AddAllMembers([], h);
    AddAllMembers(AddAll([], h), v);
    if h != [] {
      assert h[0] in Matches(g, r, c);
    } else if v != [] {
      assert v[0] in Matches(g, r, c);
    }
  }

  /** The scans from `i` stop exactly at the ends of a known segment
      [a, b) of the kind of `s[i]`. */
  lemma RunAt(s: seq<Cell>, i: nat, a: nat, b: nat)
    requires a <= i < b <= |s|
    requires forall k :: a <= k < b ==> s[k] == s[i]
    requires a == 0 || s[a - 1] != s[i]
    requires b == |s| || s[b] != s[i]
    ensures RunStart(s, i, s[i]) == a && RunEnd(s, i, s[i]) == b
  {
    RunStartBelow(s, i, s[i], a);
    RunEndAbove(s, i, s[i], b);
  }

  /** Cell (i, j) comes before cell (r, c) in row-major order. */
  predicate Precedes(i: int, j: int, r: int, c: int)
  {
    i < r || (i == r && j < c)
  }

  /** No cell from (r, c) on, in row-major order, matches. */
  ghost predicate NoMatchFrom(g: Grid, r: int, c: int)
    requires WellFormed(g)
  {
    forall i, j :: 0 <= i < N && 0 <= j < N && !Precedes(i, j, r, c) ==> Matches(g, i, j) == []
  }

  /** No cell matches from (r, c) on exactly when (r, c) does not and no
      cell matches from the next one on. */
  lemma NoMatchStep(g: Grid, r: nat, c: nat)
    requires WellFormed(g) && r < N && c < N
    ensures NoMatchFrom(g, r, c) <==> Matches(g, r, c) == [] && NoMatchFrom(g, r, c + 1)
  {
    if Matches(g, r, c) == [] && NoMatchFrom(g, r, c + 1) {
      forall i, j | 0 <= i < N && 0 <= j < N && !Precedes(i, j, r, c)
        ensures Matches(g, i, j) == []
      {
        if Precedes(i, j, r, c + 1) {
          assert i == r && j == c;
        }
      }
    }
  }

  /** The end of row r is the start of row r + 1. */
  lemma NoMatchRowEnd(g: Grid, r: nat)
    requires WellFormed(g) && r < N
    ensures NoMatchFrom(g, r, N) <==> NoMatchFrom(g, r + 1, 0)
  {
  }

  /** The idle board: no cell takes part in a run of three or more. */
  ghost predicate Settled(g: Grid)
    requires WellFormed(g)
  {
    forall i, j :: 0 <= i < N && 0 <= j < N ==> Matches(g, i, j) == []
  }

  /** The cascade rescan (the nested row/column loop that stops at the first
      hit): the report of the first cell from (r, c) on in row-major order
      whose report is non-empty; empty when there is none. Column N stands
      for the end of row r. */
  function FirstMatchFrom(g: Grid, r: nat, c: nat): seq<Pos>
    requires WellFormed(g) && r <= N && c <= N
    decreases |g| - r, N - c
  {
    if r == N then []
    else if c == N then FirstMatchFrom(g, r + 1, 0)
    else if Matches(g, r, c) != [] then Matches(g, r, c)
    else FirstMatchFrom(g, r, c + 1)
  }

  /** The rescan comes back empty exactly when no cell from (r, c) on
      matches. */
  lemma {:induction false} FirstMatchNone(g: Grid, r: nat, c: nat)
    requires WellFormed(g) && r <= N && c <= N
    ensures FirstMatchFrom(g, r, c) == [] <==> NoMatchFrom(g, r, c)
    decreases N - r, N - c
  {
    if r < N && c == N {
      FirstMatchNone(g, r + 1, 0);
      NoMatchRowEnd(g, r);
    } else if r < N {
      FirstMatchNone(g, r, c + 1);
      NoMatchStep(g, r, c);
    }
  }

  /** A non-empty rescan result is the report of cell (i, j), and no cell
      from (r, c) up to (i, j) matches. */
  lemma {:induction false} FirstMatchIsFirst(g: Grid, r: nat, c: nat) returns (i: nat, j: nat)
    requires WellFormed(g) && r <= N && c <= N
    requires FirstMatchFrom(g, r, c) != []
    ensures i < N && j < N && !Precedes(i, j, r, c)
    ensures FirstMatchFrom(g, r, c) == Matches(g, i, j)
    ensures forall a, b :: 0 <= a < N && 0 <= b < N && !Precedes(a, b, r, c) && Precedes(a, b, i, j) ==>
      Matches(g, a, b) == []
    decreases N - r, N - c
  {
    if c == N {
      i, j := FirstMatchIsFirst(g, r + 1, 0);
    } else if Matches(g, r, c) == [] {
      i, j := FirstMatchIsFirst(g, r, c + 1);
      forall a, b | 0 <= a < N && 0 <= b < N && !Precedes(a, b, r, c) && Precedes(a, b, i, j)
        ensures Matches(g, a, b) == []
      {
        if Precedes(a, b, r, c + 1) {
          assert a == r && b == c;
        }
      }
    } else {
      i, j := r, c;
    }
  }

  /** On a full board the rescan result lists fruit cells only. */
  lemma FirstMatchListed(g: Grid, r: nat, c: nat)
    requires WellFormed(g) && Full(g) && r <= N && c <= N
    ensures Listed(g, FirstMatchFrom(g, r, c))
  {
    if FirstMatchFrom(g, r, c) != [] {
      var i, j := FirstMatchIsFirst(g, r, c);
    }
  }
}
