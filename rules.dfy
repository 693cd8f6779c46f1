/**
 * The pure meaning of one Game of Life generation on a torus: the grid as a
 * value, the Moore neighborhood with wrap-around, the B3/S23 rule, the
 * double-buffered generation step, and the row-major in-place pass that the
 * engine performs when its source and target grids are the same object.
 */
module Rules {

  /** Row-major cells: c[y][x] is the cell in row y, column x. */
  type Cells = seq<seq<bool>>

  /** c has exactly h rows of exactly w cells each. */
  ghost predicate IsGrid(c: Cells, h: int, w: int)
  {
    |c| == h && w >= 0 && forall y :: 0 <= y < |c| ==> |c[y]| == w
  }

  /** The all-dead h x w grid, as a freshly built world holds it. */
  function Dead(h: nat, w: nat): (c: Cells)
    ensures IsGrid(c, h, w)
    ensures forall y, x :: 0 <= y < h && 0 <= x < w ==> !c[y][x]
  {
    seq(h, _ => seq(w, _ => false))
  }

  /** The eight neighbor offsets (dx, dy), in the order the engine visits them. */
  const Deltas: seq<(int, int)> :=
    [(-1, -1), (0, -1), (1, -1),
     (-1, 0), (1, 0),
     (-1, 1), (0, 1), (1, 1)]

  ghost predicate IsOffset(d: (int, int))
  {
    -1 <= d.0 <= 1 && -1 <= d.1 <= 1
  }

  /** The offsets are exactly the eight non-zero ones of the 3 x 3 block, each once. */
  lemma DeltasAreMooreNeighborhood()
    ensures |Deltas| == 8
    ensures forall k :: 0 <= k < 8 ==> IsOffset(Deltas[k]) && Deltas[k] != (0, 0)
    ensures forall k, l :: 0 <= k < l < 8 ==> Deltas[k] != Deltas[l]
    ensures forall dx, dy :: -1 <= dx <= 1 && -1 <= dy <= 1 && (dx, dy) != (0, 0) ==> (dx, dy) in Deltas
  {
  }

  /**
   * Coordinate v moved by d on a ring of n positions. The source computes
   * (v + d + n) % n with Go's truncating remainder; the dividend is never
   * negative here, so Dafny's Euclidean % gives the same value.
   */
  function Wrap(v: int, d: int, n: int): (r: int)
    requires n >= 1 && 0 <= v < n && -1 <= d <= 1
    ensures 0 <= r < n
    ensures 0 <= v + d < n ==> r == v + d
    ensures v + d == -1 ==> r == n - 1
    ensures v + d == n ==> r == 0
  {
    (v + d + n) % n
  }

  /** Whether the neighbor of (x, y) at offset d, wrapped onto the torus, is alive. */
  predicate NeighborAlive(c: Cells, h: int, w: int, x: int, y: int, d: (int, int))
    requires IsGrid(c, h, w) && 0 <= x < w && 0 <= y < h && IsOffset(d)
  {
    c[Wrap(y, d.1, h)][Wrap(x, d.0, w)]
  }

  /** Number of the first n offsets of ds whose wrapped neighbor of (x, y) is alive. */
  function CountAlive(c: Cells, h: int, w: int, x: int, y: int, ds: seq<(int, int)>, n: nat): (r: nat)
    requires IsGrid(c, h, w) && 0 <= x < w && 0 <= y < h && n <= |ds|
    requires forall k :: 0 <= k < |ds| ==> IsOffset(ds[k])
    ensures r <= n
  {
    if n == 0 then 0
    else CountAlive(c, h, w, x, y, ds, n - 1) + (if NeighborAlive(c, h, w, x, y, ds[n - 1]) then 1 else 0)
  }

  /** Live cells among the eight toroidal neighbors of (x, y), counted with multiplicity. */
  function LiveNeighbors(c: Cells, h: int, w: int, x: int, y: int): (n: nat)
    requires IsGrid(c, h, w) && 0 <= x < w && 0 <= y < h
    ensures n <= 8
  {
    CountAlive(c, h, w, x, y, Deltas, 8)
  }

  /** For each offset of ds, whether the wrapped neighbor of (x, y) it leads to is alive. */
  function Flags(c: Cells, h: int, w: int, x: int, y: int, ds: seq<(int, int)>): (f: seq<bool>)
    requires IsGrid(c, h, w) && 0 <= x < w && 0 <= y < h
    requires forall k :: 0 <= k < |ds| ==> IsOffset(ds[k])
  {
    seq(|ds|, k requires 0 <= k < |ds| => NeighborAlive(c, h, w, x, y, ds[k]))
  }

  /** The number of true entries among the first n of bs: live cells among the first n of a row, or offsets whose neighbor is alive. */
  function CountTrue(bs: seq<bool>, n: int): (k: nat)
    requires 0 <= n <= |bs|
    ensures k <= n
  {
    if n == 0 then 0 else CountTrue(bs, n - 1) + Bit(bs[n - 1])
  }

  /** Counting true entries one by one gives the size of the set of their indices. */
  lemma {:induction false} CountTrueIsCardinality(bs: seq<bool>, n: int)
    requires 0 <= n <= |bs|
    ensures CountTrue(bs, n) == |set k | 0 <= k < n && bs[k]|
  {
    if n > 0 {
      CountTrueIsCardinality(bs, n - 1);
      var s := set k | 0 <= k < n - 1 && bs[k];
      var t := set k | 0 <= k < n && bs[k];
      assert n - 1 !in s;
      if bs[n - 1] {
        assert t == s + {n - 1};
      } else {
        assert t == s;
      }
    }
  }

  /** CountAlive counts the true flags. */
  lemma {:induction false} CountAliveIsCountTrue(c: Cells, h: int, w: int, x: int, y: int, ds: seq<(int, int)>, n: nat)
    requires IsGrid(c, h, w) && 0 <= x < w && 0 <= y < h && n <= |ds|
    requires forall k :: 0 <= k < |ds| ==> IsOffset(ds[k])
    ensures CountAlive(c, h, w, x, y, ds, n) == CountTrue(Flags(c, h, w, x, y, ds), n)
  {
    if n > 0 {
      CountAliveIsCountTrue(c, h, w, x, y, ds, n - 1);
    }
  }

  /**
   * The neighbor count as a set size: the number of the eight offsets
   * whose wrapped neighbor is alive.
   */
  lemma LiveNeighborsIsCardinality(c: Cells, h: int, w: int, x: int, y: int)
    requires IsGrid(c, h, w) && 0 <= x < w && 0 <= y < h
    ensures LiveNeighbors(c, h, w, x, y)
            == |set k | 0 <= k < 8 && NeighborAlive(c, h, w, x, y, Deltas[k])|
  {
    var f := Flags(c, h, w, x, y, Deltas);
    CountAliveIsCountTrue(c, h, w, x, y, Deltas, 8);
    CountTrueIsCardinality(f, 8);
    assert (set k | 0 <= k < 8 && f[k]) == (set k | 0 <= k < 8 && NeighborAlive(c, h, w, x, y, Deltas[k]));
  }

  /** When the first n offsets all lead to live cells the count is n; when none do, 0. */
  lemma {:induction false} CountAliveAll(c: Cells, h: int, w: int, x: int, y: int, ds: seq<(int, int)>, n: nat, alive: bool)
    requires IsGrid(c, h, w) && 0 <= x < w && 0 <= y < h && n <= |ds|
    requires forall k :: 0 <= k < |ds| ==> IsOffset(ds[k])
    requires forall k :: 0 <= k < n ==> NeighborAlive(c, h, w, x, y, ds[k]) == alive
    ensures CountAlive(c, h, w, x, y, ds, n) == if alive then n else 0
  {
    if n > 0 {
      CountAliveAll(c, h, w, x, y, ds, n - 1, alive);
    }
  }

  /** On a grid where every cell is alive, every cell has 8 live neighbors, corners included. */
  lemma AllAliveEight(c: Cells, h: int, w: int, x: int, y: int)
    requires IsGrid(c, h, w) && 0 <= x < w && 0 <= y < h
    requires forall r, s :: 0 <= r < h && 0 <= s < w ==> c[r][s]
    ensures LiveNeighbors(c, h, w, x, y) == 8
  {
    CountAliveAll(c, h, w, x, y, Deltas, 8, true);
  }

  /** The all-alive 3 x 3 torus: every cell, corners included, has 8 live neighbors. */
  lemma ThreeByThreeAllAlive()
    ensures forall y, x :: 0 <= y < 3 && 0 <= x < 3 ==>
      LiveNeighbors([[true, true, true], [true, true, true], [true, true, true]], 3, 3, x, y) == 8
  {
    var c := [[true, true, true], [true, true, true], [true, true, true]];
    forall y, x | 0 <= y < 3 && 0 <= x < 3
      ensures LiveNeighbors(c, 3, 3, x, y) == 8
    {
      AllAliveEight(c, 3, 3, x, y);
    }
  }

  function Bit(b: bool): (n: nat) { if b then 1 else 0 }

  /** The neighbor count as the sum of the eight offsets' contributions. */
  lemma LiveNeighborsAsSum(c: Cells, h: int, w: int, x: int, y: int)
    requires IsGrid(c, h, w) && 0 <= x < w && 0 <= y < h
    ensures LiveNeighbors(c, h, w, x, y)
            == Bit(NeighborAlive(c, h, w, x, y, Deltas[0])) + Bit(NeighborAlive(c, h, w, x, y, Deltas[1]))
             + Bit(NeighborAlive(c, h, w, x, y, Deltas[2])) + Bit(NeighborAlive(c, h, w, x, y, Deltas[3]))
             + Bit(NeighborAlive(c, h, w, x, y, Deltas[4])) + Bit(NeighborAlive(c, h, w, x, y, Deltas[5]))
             + Bit(NeighborAlive(c, h, w, x, y, Deltas[6])) + Bit(NeighborAlive(c, h, w, x, y, Deltas[7]))
  {
    DeltasAreMooreNeighborhood();
    CountAliveEight(c, h, w, x, y, Deltas);
  }

  /** Over eight offsets the count is the sum of their contributions. */
  lemma CountAliveEight(c: Cells, h: int, w: int, x: int, y: int, ds: seq<(int, int)>)
    requires IsGrid(c, h, w) && 0 <= x < w && 0 <= y < h && |ds| == 8
    requires forall k :: 0 <= k < |ds| ==> IsOffset(ds[k])
    ensures CountAlive(c, h, w, x, y, ds, 8)
            == Bit(NeighborAlive(c, h, w, x, y, ds[0])) + Bit(NeighborAlive(c, h, w, x, y, ds[1]))
             + Bit(NeighborAlive(c, h, w, x, y, ds[2])) + Bit(NeighborAlive(c, h, w, x, y, ds[3]))
             + Bit(NeighborAlive(c, h, w, x, y, ds[4])) + Bit(NeighborAlive(c, h, w, x, y, ds[5]))
             + Bit(NeighborAlive(c, h, w, x, y, ds[6])) + Bit(NeighborAlive(c, h, w, x, y, ds[7]))
  {
    CountAliveLast(c, h, w, x, y, ds, 1);
    CountAliveLast(c, h, w, x, y, ds, 2);
    CountAliveLast(c, h, w, x, y, ds, 3);
    CountAliveLast(c, h, w, x, y, ds, 4);
    CountAliveLast(c, h, w, x, y, ds, 5);
    CountAliveLast(c, h, w, x, y, ds, 6);
    CountAliveLast(c, h, w, x, y, ds, 7);
    CountAliveLast(c, h, w, x, y, ds, 8);
  }

  /** The count over the first n offsets adds the n-th offset's contribution to the count over the first n - 1. */
  lemma CountAliveLast(c: Cells, h: int, w: int, x: int, y: int, ds: seq<(int, int)>, n: nat)
    requires IsGrid(c, h, w) && 0 <= x < w && 0 <= y < h && 1 <= n <= |ds|
    requires forall k :: 0 <= k < |ds| ==> IsOffset(ds[k])
    ensures CountAlive(c, h, w, x, y, ds, n) == CountAlive(c, h, w, x, y, ds, n - 1) + Bit(NeighborAlive(c, h, w, x, y, ds[n - 1]))
  {
  }

  /** The neighbor count written out over the eight wrapped neighbor cells. */
  lemma LiveNeighborsExpanded(c: Cells, h: int, w: int, x: int, y: int)
    requires IsGrid(c, h, w) && 0 <= x < w && 0 <= y < h
    ensures var xl, xr, yu, yd := Wrap(x, -1, w), Wrap(x, 1, w), Wrap(y, -1, h), Wrap(y, 1, h);
            LiveNeighbors(c, h, w, x, y)
            == Bit(c[yu][xl]) + Bit(c[yu][x]) + Bit(c[yu][xr])
             + Bit(c[y][xl]) + Bit(c[y][xr])
             + Bit(c[yd][xl]) + Bit(c[yd][x]) + Bit(c[yd][xr])
  {
    LiveNeighborsAsSum(c, h, w, x, y);
    assert Wrap(x, 0, w) == x && Wrap(y, 0, h) == y;
  }

  /** On a torus at least 2 wide and 2 high, no neighbor offset leads back to the cell itself. */
  lemma NeighborIsOther(h: int, w: int, x: int, y: int, d: (int, int))
    requires h >= 2 && w >= 2 && 0 <= x < w && 0 <= y < h && IsOffset(d) && d != (0, 0)
    ensures Wrap(y, d.1, h) != y || Wrap(x, d.0, w) != x
  {
  }

  /** A lone live cell on a torus at least 2 x 2 has no live neighbor and dies. */
  lemma LoneCellDies(c: Cells, h: int, w: int, x: int, y: int)
    requires IsGrid(c, h, w) && h >= 2 && w >= 2 && 0 <= x < w && 0 <= y < h
    requires forall r, s :: 0 <= r < h && 0 <= s < w ==> (c[r][s] <==> r == y && s == x)
    ensures LiveNeighbors(c, h, w, x, y) == 0
    ensures !Step(c, h, w)[y][x]
  {
    DeltasAreMooreNeighborhood();
    forall k | 0 <= k < |Deltas|
      ensures !NeighborAlive(c, h, w, x, y, Deltas[k])
    {
      NeighborIsOther(h, w, x, y, Deltas[k]);
    }
    CountAliveAll(c, h, w, x, y, Deltas, 8, false);
  }

  /**
   * Neighbors are counted with multiplicity: on a torus one row high
   * (and at least 2 wide) the offsets (0, -1) and (0, 1) lead back to the
   * cell itself, so a lone live cell sees 2 live neighbors and survives.
   */
  lemma LoneCellSurvivesOnOneRow(c: Cells, w: int, x: int)
    requires IsGrid(c, 1, w) && w >= 2 && 0 <= x < w
    requires forall s :: 0 <= s < w ==> (c[0][s] <==> s == x)
    ensures LiveNeighbors(c, 1, w, x, 0) == 2
    ensures Step(c, 1, w)[0][x]
  {
    LiveNeighborsExpanded(c, 1, w, x, 0);
  }

  /**
   * The B3/S23 rule: a live cell survives with 2 or 3 live neighbors, a
   * dead cell is born with exactly 3, every other cell is dead next.
   */
  function Rule(alive: bool, n: int): (next: bool)
    ensures next <==> (alive && (n == 2 || n == 3)) || (!alive && n == 3)
  {
    if n < 4 && n > 1 && alive then true
    else if !alive && n == 3 then true
    else false
  }

  /** The next state of cell (x, y) of c. */
  function NextCell(c: Cells, h: int, w: int, x: int, y: int): (next: bool)
    requires IsGrid(c, h, w) && 0 <= x < w && 0 <= y < h
    ensures next <==> (c[y][x] && 2 <= LiveNeighbors(c, h, w, x, y) <= 3)
                      || (!c[y][x] && LiveNeighbors(c, h, w, x, y) == 3)
  {
    Rule(c[y][x], LiveNeighbors(c, h, w, x, y))
  }

  /** One generation computed entirely from c (double buffering). */
  function Step(c: Cells, h: int, w: int): (r: Cells)
    requires IsGrid(c, h, w)
    ensures IsGrid(r, h, w)
  {
    seq(h, y requires 0 <= y < h => seq(w, x requires 0 <= x < w => NextCell(c, h, w, x, y)))
  }

  /** Every cell of the next generation is the rule applied to the old grid. */
  lemma StepAt(c: Cells, h: int, w: int, x: int, y: int)
    requires IsGrid(c, h, w) && 0 <= x < w && 0 <= y < h
    ensures Step(c, h, w)[y][x]
            <==> (c[y][x] && 2 <= LiveNeighbors(c, h, w, x, y) <= 3)
                 || (!c[y][x] && LiveNeighbors(c, h, w, x, y) == 3)
  {
  }

  /** c with cell (x, y) set to v. */
  function SetCell(c: Cells, y: int, x: int, v: bool): (r: Cells)
    requires 0 <= y < |c| && 0 <= x < |c[y]|
  {
    c[y := c[y][x := v]]
  }

  /**
   * The in-place pass over row y, columns 0 .. x-1: each cell in turn is
   * replaced by the rule applied to the grid as already updated.
   */
  function SweepRow(c: Cells, h: int, w: int, y: int, x: int): (r: Cells)
    requires IsGrid(c, h, w) && 0 <= y < h && 0 <= x <= w
    ensures IsGrid(r, h, w)
    ensures forall r', s :: 0 <= r' < h && 0 <= s < w && (r' != y || s >= x) ==> r[r'][s] == c[r'][s]
  {
    if x == 0 then c
    else
      var s := SweepRow(c, h, w, y, x - 1);
      SetCell(s, y, x - 1, NextCell(s, h, w, x - 1, y))
  }

  /** The in-place pass over rows 0 .. y-1, in row-major order. */
  function SweepRows(c: Cells, h: int, w: int, y: int): (r: Cells)
    requires IsGrid(c, h, w) && 0 <= y <= h
    ensures IsGrid(r, h, w)
    ensures forall r', s :: y <= r' < h && 0 <= s < w ==> r[r'][s] == c[r'][s]
  {
    if y == 0 then c else SweepRow(SweepRows(c, h, w, y - 1), h, w, y - 1, w)
  }

  /** What one generation computes when source and target are one grid. */
  function InPlaceStep(c: Cells, h: int, w: int): (r: Cells)
    requires IsGrid(c, h, w)
    ensures IsGrid(r, h, w)
  {
    SweepRows(c, h, w, h)
  }

  /**
   * The in-place pass over a whole row of a 3 x 3 grid, cell by cell: each
   * cell takes the value the rule gives on the grid as already updated.
   */
  lemma SweepRowThree(c: Cells, y: int, v0: bool, v1: bool, v2: bool)
    requires IsGrid(c, 3, 3) && 0 <= y < 3
    requires NextCell(c, 3, 3, 0, y) == v0
    requires NextCell(SetCell(c, y, 0, v0), 3, 3, 1, y) == v1
    requires NextCell(SetCell(SetCell(c, y, 0, v0), y, 1, v1), 3, 3, 2, y) == v2
    ensures SweepRow(c, 3, 3, y, 3) == SetCell(SetCell(SetCell(c, y, 0, v0), y, 1, v1), y, 2, v2)
  {
    assert SweepRow(c, 3, 3, y, 1) == SetCell(c, y, 0, v0);
    assert SweepRow(c, 3, 3, y, 2) == SetCell(SetCell(c, y, 0, v0), y, 1, v1);
  }

  /** Row 0 of the in-place pass over the all-alive 3 x 3 torus: its cells see 8, 7 and 6 live neighbors and die. */
  lemma InPlaceAllAliveRow0(g: Cells)
    requires g == [[true, true, true], [true, true, true], [true, true, true]]
    ensures IsGrid(g, 3, 3)
    ensures SweepRow(g, 3, 3, 0, 3) == [[false, false, false], [true, true, true], [true, true, true]]
  {
    assert IsGrid(g, 3, 3);
    var g1 := SetCell(g, 0, 0, false);
    var g2 := SetCell(g1, 0, 1, false);
    LiveNeighborsExpanded(g, 3, 3, 0, 0);
    LiveNeighborsExpanded(g1, 3, 3, 1, 0);
    LiveNeighborsExpanded(g2, 3, 3, 2, 0);
    SweepRowThree(g, 0, false, false, false);
    assert SetCell(g2, 0, 2, false)[0] == [false, false, false];
  }

  /** Row 1 of that pass: its cells see 5, 4 and 3 live neighbors, so the last one survives. */
  lemma InPlaceAllAliveRow1(g: Cells)
    requires g == [[false, false, false], [true, true, true], [true, true, true]]
    ensures IsGrid(g, 3, 3)
    ensures SweepRow(g, 3, 3, 1, 3) == [[false, false, false], [false, false, true], [true, true, true]]
  {
    assert IsGrid(g, 3, 3);
    var g1 := SetCell(g, 1, 0, false);
    var g2 := SetCell(g1, 1, 1, false);
    LiveNeighborsExpanded(g, 3, 3, 0, 1);
    LiveNeighborsExpanded(g1, 3, 3, 1, 1);
    LiveNeighborsExpanded(g2, 3, 3, 2, 1);
    SweepRowThree(g, 1, false, false, true);
    assert SetCell(g2, 1, 2, true)[1] == [false, false, true];
  }

  /** Row 2 of that pass: each of its cells sees 3 live neighbors and survives. */
  lemma InPlaceAllAliveRow2(g: Cells)
    requires g == [[false, false, false], [false, false, true], [true, true, true]]
    ensures IsGrid(g, 3, 3)
    ensures SweepRow(g, 3, 3, 2, 3) == g
  {
    assert IsGrid(g, 3, 3);
    LiveNeighborsExpanded(g, 3, 3, 0, 2);
    LiveNeighborsExpanded(g, 3, 3, 1, 2);
    LiveNeighborsExpanded(g, 3, 3, 2, 2);
    assert g[2][0 := true] == g[2] && g[2][1 := true] == g[2] && g[2][2 := true] == g[2];
    assert SetCell(g, 2, 0, true) == g && SetCell(g, 2, 1, true) == g && SetCell(g, 2, 2, true) == g;
    SweepRowThree(g, 2, true, true, true);
  }

  /**
   * The in-place pass is not the generation step. On the all-alive 3 x 3
   * torus every cell has 8 live neighbors, so the true next generation is
   * all dead; the in-place pass lets the cells visited last see neighbors
   * that have already died, and four of them survive.
   */
  lemma InPlaceStepDiffers(c: Cells)
    requires c == [[true, true, true], [true, true, true], [true, true, true]]
    ensures IsGrid(c, 3, 3)
    ensures Step(c, 3, 3) == Dead(3, 3)
    ensures InPlaceStep(c, 3, 3) == [[false, false, false], [false, false, true], [true, true, true]]
  {
    InPlaceAllAliveRow0(c);
    assert SweepRows(c, 3, 3, 0) == c;
    var r1 := SweepRows(c, 3, 3, 1);
    assert r1 == SweepRow(SweepRows(c, 3, 3, 0), 3, 3, 0, 3);
    InPlaceAllAliveRow1(r1);
    var r2 := SweepRows(c, 3, 3, 2);
    assert r2 == SweepRow(SweepRows(c, 3, 3, 1), 3, 3, 1, 3);
    InPlaceAllAliveRow2(r2);
    assert InPlaceStep(c, 3, 3) == SweepRow(r2, 3, 3, 2, 3);
    var next := Step(c, 3, 3);
    forall y | 0 <= y < 3
      ensures next[y] == Dead(3, 3)[y]
    {
      forall x | 0 <= x < 3
        ensures next[y][x] == Dead(3, 3)[y][x]
      {
        AllAliveEight(c, 3, 3, x, y);
      }
    }
  }

  /** Every cell of row y of the 3 x 3 torus with only row 0 alive comes out alive. */
  lemma ThreeCellsFillRow(g: Cells, y: int)
    requires g == [[true, true, true], [false, false, false], [false, false, false]]
    requires 0 <= y < 3
    ensures IsGrid(g, 3, 3)
    ensures forall x :: 0 <= x < 3 ==> NextCell(g, 3, 3, x, y)
  {
    assert IsGrid(g, 3, 3);
    LiveNeighborsExpanded(g, 3, 3, 0, y);
    LiveNeighborsExpanded(g, 3, 3, 1, y);
    LiveNeighborsExpanded(g, 3, 3, 2, y);
  }

  /**
   * On the 3 x 3 torus every cell neighbors all eight others, so three
   * live cells make every cell alive: the live ones keep 2 neighbors and
   * the dead ones get 3.
   */
  lemma ThreeCellsFillTorus(g: Cells)
    requires g == [[true, true, true], [false, false, false], [false, false, false]]
    ensures IsGrid(g, 3, 3)
    ensures Step(g, 3, 3) == [[true, true, true], [true, true, true], [true, true, true]]
  {
    ThreeCellsFillRow(g, 0);
    ThreeCellsFillRow(g, 1);
    ThreeCellsFillRow(g, 2);
    var next := Step(g, 3, 3);
    forall y | 0 <= y < 3
      ensures next[y] == [true, true, true]
    {
    }
  }

  /**
   * Two generations from three live cells in a row of the 3 x 3 torus: the
   * first step fills the torus and the second empties it, while an
   * in-place pass in the second generation leaves four cells alive.
   */
  lemma SecondGenerationDiverges(g: Cells)
    requires g == [[true, true, true], [false, false, false], [false, false, false]]
    ensures IsGrid(g, 3, 3)
    ensures Step(Step(g, 3, 3), 3, 3) == Dead(3, 3)
    ensures InPlaceStep(Step(g, 3, 3), 3, 3) != Step(Step(g, 3, 3), 3, 3)
  {
    ThreeCellsFillTorus(g);
    InPlaceStepDiffers(Step(g, 3, 3));
    assert Dead(3, 3)[2][2] != InPlaceStep(Step(g, 3, 3), 3, 3)[2][2];
  }

  /** The horizontal blinker on the 5 x 5 torus: row 2, columns 1 to 3 alive. */
  ghost predicate IsHorizontalBlinker(g: Cells)
  {
    g == [[false, false, false, false, false],
          [false, false, false, false, false],
          [false, true, true, true, false],
          [false, false, false, false, false],
          [false, false, false, false, false]]
  }

  /** The vertical blinker on the 5 x 5 torus: column 2, rows 1 to 3 alive. */
  ghost predicate IsVerticalBlinker(g: Cells)
  {
    g == [[false, false, false, false, false],
          [false, false, true, false, false],
          [false, false, true, false, false],
          [false, false, true, false, false],
          [false, false, false, false, false]]
  }

  /** Row y of the generation after the horizontal blinker: alive exactly in column 2 of rows 1 to 3. */
  lemma HorizontalBlinkerRow(g: Cells, y: int)
    requires IsHorizontalBlinker(g) && 0 <= y < 5
    ensures IsGrid(g, 5, 5)
    ensures forall x :: 0 <= x < 5 ==> (NextCell(g, 5, 5, x, y) <==> x == 2 && 1 <= y <= 3)
  {
    assert IsGrid(g, 5, 5);
    LiveNeighborsExpanded(g, 5, 5, 0, y);
    LiveNeighborsExpanded(g, 5, 5, 1, y);
    LiveNeighborsExpanded(g, 5, 5, 2, y);
    LiveNeighborsExpanded(g, 5, 5, 3, y);
    LiveNeighborsExpanded(g, 5, 5, 4, y);
  }

  /** Row y of the generation after the vertical blinker: alive exactly in columns 1 to 3 of row 2. */
  lemma VerticalBlinkerRow(g: Cells, y: int)
    requires IsVerticalBlinker(g) && 0 <= y < 5
    ensures IsGrid(g, 5, 5)
    ensures forall x :: 0 <= x < 5 ==> (NextCell(g, 5, 5, x, y) <==> y == 2 && 1 <= x <= 3)
  {
    assert IsGrid(g, 5, 5);
    LiveNeighborsExpanded(g, 5, 5, 0, y);
    LiveNeighborsExpanded(g, 5, 5, 1, y);
    LiveNeighborsExpanded(g, 5, 5, 2, y);
    LiveNeighborsExpanded(g, 5, 5, 3, y);
    LiveNeighborsExpanded(g, 5, 5, 4, y);
  }

  /** One generation turns the horizontal blinker into the vertical one. */
  lemma HorizontalBlinkerTurns(b: Cells, v: Cells)
    requires IsHorizontalBlinker(b) && IsVerticalBlinker(v)
    ensures IsGrid(b, 5, 5)
    ensures Step(b, 5, 5) == v
  {
    var next := Step(b, 5, 5);
    forall y | 0 <= y < 5
      ensures next[y] == v[y]
    {
      HorizontalBlinkerRow(b, y);
    }
  }

  /** One generation turns the vertical blinker into the horizontal one. */
  lemma VerticalBlinkerTurns(v: Cells, b: Cells)
    requires IsVerticalBlinker(v) && IsHorizontalBlinker(b)
    ensures IsGrid(v, 5, 5)
    ensures Step(v, 5, 5) == b
  {
    var next := Step(v, 5, 5);
    forall y | 0 <= y < 5
      ensures next[y] == b[y]
    {
      VerticalBlinkerRow(v, y);
    }
  }

  /**
   * The blinker on a torus large enough for the wrap not to matter
   * oscillates with period 2: it changes orientation every generation and
   * is back after exactly two.
   */
  lemma BlinkerPeriodTwo(b: Cells, v: Cells)
    requires IsHorizontalBlinker(b) && IsVerticalBlinker(v)
    ensures IsGrid(b, 5, 5)
    ensures Step(b, 5, 5) == v && Step(v, 5, 5) == b
    ensures Step(b, 5, 5) != b && Step(Step(b, 5, 5), 5, 5) == b
  {
    HorizontalBlinkerTurns(b, v);
    VerticalBlinkerTurns(v, b);
    assert v[1][2] != b[1][2];
  }
}
