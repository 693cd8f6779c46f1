/**
 * The pure meaning of density seeding: the row-major fill that marks the
 * first cells alive, the single-cell copies that follow it, and the
 * live-cell counts that say how far the result is from the requested
 * density.
 */
module Seeding {
  import opened Rules

  /** Number of cells in the rows before row r, rows of any length. */
  function Offset(c: Cells, r: int): (k: nat)
    requires 0 <= r <= |c|
  {
    if r == 0 then 0 else Offset(c, r - 1) + |c[r - 1]|
  }

  /** Number of cells of c. */
  function Total(c: Cells): (k: nat)
  {
    Offset(c, |c|)
  }

  /** On a w-wide grid the cells before row r are r full rows: cell (x, y) has row-major index y * w + x. */
  lemma {:induction false} OffsetOfGrid(c: Cells, h: int, w: int, r: int)
    requires IsGrid(c, h, w) && 0 <= r <= h
    ensures Offset(c, r) == r * w
  {
    if r > 0 {
      OffsetOfGrid(c, h, w, r - 1);
      assert (r - 1) * w + w == r * w;
    }
  }

  /** Row-major indices are increasing: every cell of a row comes before the next row's cells. */
  lemma {:induction false} OffsetMonotone(c: Cells, r: int, s: int)
    requires 0 <= r <= s <= |c|
    ensures Offset(c, r) + (if r < s then |c[r]| else 0) <= Offset(c, s)
  {
    if r < s {
      OffsetMonotone(c, r, s - 1);
    }
  }

  ghost predicate SameShape(a: Cells, b: Cells)
  {
    |a| == |b| && forall y :: 0 <= y < |a| ==> |a[y]| == |b[y]|
  }

  /**
   * The grid left by fillAlive(num). When 1 <= num <= Total(c), the fill
   * marks the cells of row-major index 0 .. num-1 alive and stops. For any
   * other num the equality test that stops it never succeeds, so every cell
   * ends alive. No cell is ever set dead.
   */
  function Filled(c: Cells, num: int): (r: Cells)
    ensures SameShape(r, c)
  {
    seq(|c|, y requires 0 <= y < |c| =>
      seq(|c[y]|, x requires 0 <= x < |c[y]| =>
        num < 1 || num > Total(c) || Offset(c, y) + x < num || c[y][x]))
  }

  lemma FilledAt(c: Cells, num: int, x: int, y: int)
    requires 0 <= y < |c| && 0 <= x < |c[y]|
    ensures Filled(c, num)[y][x] == (num < 1 || num > Total(c) || Offset(c, y) + x < num || c[y][x])
  {
  }

  /** On a grid, the fill marks exactly the cells whose row-major index y * w + x is below num. */
  lemma FilledRowMajor(c: Cells, h: int, w: int, num: int, x: int, y: int)
    requires IsGrid(c, h, w) && 1 <= num <= h * w && 0 <= y < h && 0 <= x < w
    ensures Filled(c, num)[y][x] == (y * w + x < num || c[y][x])
  {
    OffsetOfGrid(c, h, w, y);
    OffsetOfGrid(c, h, w, h);
    FilledAt(c, num, x, y);
  }

  /** With num <= 0 or num > h * w, the fill leaves every cell of the grid alive. */
  lemma FilledOutOfRangeAllAlive(c: Cells, h: int, w: int, num: int, x: int, y: int)
    requires IsGrid(c, h, w) && (num < 1 || num > h * w) && 0 <= y < h && 0 <= x < w
    ensures Filled(c, num)[y][x]
  {
    OffsetOfGrid(c, h, w, h);
    FilledAt(c, num, x, y);
  }

  /** Number of live cells in the rows before row n. */
  function LiveRows(c: Cells, n: int): (k: nat)
    requires 0 <= n <= |c|
    ensures k <= Offset(c, n)
  {
    if n == 0 then 0 else LiveRows(c, n - 1) + CountTrue(c[n - 1], |c[n - 1]|)
  }

  /** Number of live cells of c. */
  function LiveCount(c: Cells): (k: nat)
    ensures k <= Total(c)
  {
    LiveRows(c, |c|)
  }

  function Clamp(v: int, lo: int, hi: int): (r: int)
    ensures lo <= hi ==> lo <= r <= hi
  {
    if v < lo then lo else if v > hi then hi else v
  }

  /** A row alive exactly on its first m cells has min(max(m, 0), n) live cells among its first n. */
  lemma {:induction false} CountTruePrefix(row: seq<bool>, m: int, n: int)
    requires 0 <= n <= |row|
    requires forall x :: 0 <= x < |row| ==> row[x] == (x < m)
    ensures CountTrue(row, n) == Clamp(m, 0, n)
  {
    if n > 0 {
      CountTruePrefix(row, m, n - 1);
    }
  }

  /** A row whose first n cells all agree with alive has n or 0 live cells among them. */
  lemma {:induction false} CountTrueUniform(row: seq<bool>, n: int, alive: bool)
    requires 0 <= n <= |row|
    requires forall x :: 0 <= x < |row| ==> row[x] == alive
    ensures CountTrue(row, n) == if alive then n else 0
  {
    if n > 0 {
      CountTrueUniform(row, n - 1, alive);
    }
  }

  /** A grid with every cell alive has as many live cells as cells. */
  lemma {:induction false} LiveRowsAllAlive(c: Cells, n: int)
    requires 0 <= n <= |c|
    requires forall y, x :: 0 <= y < |c| && 0 <= x < |c[y]| ==> c[y][x]
    ensures LiveRows(c, n) == Offset(c, n)
  {
    if n > 0 {
      LiveRowsAllAlive(c, n - 1);
      CountTrueUniform(c[n - 1], |c[n - 1]|, true);
    }
  }

  /** A grid alive exactly on the cells of row-major index below num has min(num, Offset(c, n)) live cells before row n. */
  lemma {:induction false} LiveRowsPrefix(c: Cells, num: int, n: int)
    requires 0 <= num && 0 <= n <= |c|
    requires forall y, x :: 0 <= y < |c| && 0 <= x < |c[y]| ==> c[y][x] == (Offset(c, y) + x < num)
    ensures LiveRows(c, n) == if num < Offset(c, n) then num else Offset(c, n)
  {
    if n > 0 {
      LiveRowsPrefix(c, num, n - 1);
      var o := Offset(c, n - 1);
      var row := c[n - 1];
      assert forall x :: 0 <= x < |row| ==> row[x] == (x < num - o);
      CountTruePrefix(row, num - o, |row|);
    }
  }

  /** Filling from a grid whose cells are all dead marks exactly the cells of row-major index below num. */
  lemma FilledDeadPrefix(c: Cells, num: int)
    requires 1 <= num <= Total(c)
    requires forall y, x :: 0 <= y < |c| && 0 <= x < |c[y]| ==> !c[y][x]
    ensures forall y, x :: 0 <= y < |c| && 0 <= x < |c[y]| ==> Filled(c, num)[y][x] == (Offset(Filled(c, num), y) + x < num)
  {
    var f := Filled(c, num);
    forall y, x | 0 <= y < |c| && 0 <= x < |c[y]|
      ensures f[y][x] == (Offset(f, y) + x < num)
    {
      FilledAt(c, num, x, y);
      SameShapeOffset(f, c, y);
    }
  }

  /**
   * Filling a grid whose cells are all dead leaves exactly num live cells
   * when 1 <= num <= Total(c), and every cell alive otherwise.
   */
  lemma FilledDeadCount(c: Cells, num: int)
    requires forall y, x :: 0 <= y < |c| && 0 <= x < |c[y]| ==> !c[y][x]
    ensures LiveCount(Filled(c, num)) == if 1 <= num <= Total(c) then num else Total(c)
  {
    if 1 <= num <= Total(c) {
      FilledDeadPrefix(c, num);
      LiveRowsPrefix(Filled(c, num), num, |c|);
      SameShapeOffset(Filled(c, num), c, |c|);
    } else {
      LiveRowsAllAlive(Filled(c, num), |c|);
      assert Offset(Filled(c, num), |c|) == Total(c) by {
        SameShapeOffset(Filled(c, num), c, |c|);
      }
    }
  }

  /** Grids of the same shape have the same offsets. */
  lemma {:induction false} SameShapeOffset(a: Cells, b: Cells, n: int)
    requires SameShape(a, b) && 0 <= n <= |a|
    ensures Offset(a, n) == Offset(b, n)
  {
    if n > 0 {
      SameShapeOffset(a, b, n - 1);
    }
  }

  /**
   * One step of the shuffle: the cell at (rowLeft, colLeft) receives the
   * value of the cell at (rowRight, colRight). Named after the source's
   * random coordinates.
   */
  datatype Pick = Pick(rowLeft: int, colLeft: int, rowRight: int, colRight: int)

  /**
   * The ranges the source draws the coordinates from: rowLeft from
   * Intn(width), colLeft from Intn(height), rowRight and colRight from
   * Intn(width).
   */
  predicate Drawn(p: Pick, h: int, w: int)
  {
    0 <= p.rowLeft < w && 0 <= p.colLeft < h && 0 <= p.rowRight < w && 0 <= p.colRight < w
  }

  /** Both cells of the copy lie inside an h x w grid. */
  predicate InGrid(p: Pick, h: int, w: int)
  {
    0 <= p.rowLeft < h && 0 <= p.colLeft < w && 0 <= p.rowRight < h && 0 <= p.colRight < w
  }

  /** Drawn coordinates are inside the grid exactly when the grid is square. */
  lemma DrawnInGridIffSquare(h: int, w: int)
    requires h >= 1 && w >= 1
    ensures (forall p :: Drawn(p, h, w) ==> InGrid(p, h, w)) <==> h == w
  {
    if h != w {
      var p := if w > h then Pick(w - 1, 0, 0, 0) else Pick(0, h - 1, 0, 0);
      assert Drawn(p, h, w) && !InGrid(p, h, w);
    }
  }

  function Copy(c: Cells, h: int, w: int, p: Pick): (r: Cells)
    requires IsGrid(c, h, w) && InGrid(p, h, w)
    ensures IsGrid(r, h, w)
  {
    SetCell(c, p.rowLeft, p.colLeft, c[p.rowRight][p.colRight])
  }

  /** The first n copies of ps applied in order. */
  function ApplyCopies(c: Cells, h: int, w: int, ps: seq<Pick>, n: int): (r: Cells)
    requires IsGrid(c, h, w) && 0 <= n <= |ps|
    requires forall i :: 0 <= i < |ps| ==> InGrid(ps[i], h, w)
    ensures IsGrid(r, h, w)
  {
    if n == 0 then c else Copy(ApplyCopies(c, h, w, ps, n - 1), h, w, ps[n - 1])
  }

  /** The requested number of live cells: percentage * width * height / 100, truncated. */
  function NumAlive(percentage: int, w: int, h: int): (k: int)
    requires percentage >= 0 && w >= 0 && h >= 0
    ensures k >= 0
  {
    percentage * w * h / 100
  }

  /** With a percentage in 0 .. 100 the request never exceeds the number of cells. */
  lemma NumAliveBounds(percentage: int, w: int, h: int)
    requires 0 <= percentage <= 100 && w >= 0 && h >= 0
    ensures 0 <= NumAlive(percentage, w, h) <= w * h
    ensures percentage == 0 ==> NumAlive(percentage, w, h) == 0
  {
    var t := w * h;
    assert percentage * w * h == percentage * t;
    assert percentage * t <= 100 * t;
  }

  /** Changing one cell of a row changes its count by the difference of the two values. */
  lemma {:induction false} CountTrueSet(row: seq<bool>, x: int, v: bool, n: int)
    requires 0 <= x < |row| && 0 <= n <= |row|
    ensures CountTrue(row[x := v], n)
            == CountTrue(row, n) + (if x < n then Bit(v) - Bit(row[x]) else 0)
  {
    if n > 0 {
      CountTrueSet(row, x, v, n - 1);
    }
  }

  /** Changing one cell of a grid changes the live count by the difference of the two values. */
  lemma {:induction false} LiveRowsSet(c: Cells, y: int, x: int, v: bool, n: int)
    requires 0 <= y < |c| && 0 <= x < |c[y]| && 0 <= n <= |c|
    ensures LiveRows(SetCell(c, y, x, v), n)
            == LiveRows(c, n) + (if y < n then Bit(v) - Bit(c[y][x]) else 0)
  {
    if n > 0 {
      LiveRowsSet(c, y, x, v, n - 1);
      if n - 1 == y {
        CountTrueSet(c[y], x, v, |c[y]|);
      }
    }
  }

  /** One copy changes the number of live cells by at most one, in either direction. */
  lemma CopyChangesCountByAtMostOne(c: Cells, h: int, w: int, p: Pick)
    requires IsGrid(c, h, w) && InGrid(p, h, w)
    ensures LiveCount(c) - 1 <= LiveCount(Copy(c, h, w, p)) <= LiveCount(c) + 1
  {
    LiveRowsSet(c, p.rowLeft, p.colLeft, c[p.rowRight][p.colRight], |c|);
  }

  /** After n copies the live count has drifted by at most n from where it started. */
  lemma {:induction false} CopiesDrift(c: Cells, h: int, w: int, ps: seq<Pick>, n: int)
    requires IsGrid(c, h, w) && 0 <= n <= |ps|
    requires forall i :: 0 <= i < |ps| ==> InGrid(ps[i], h, w)
    ensures LiveCount(c) - n <= LiveCount(ApplyCopies(c, h, w, ps, n)) <= LiveCount(c) + n
  {
    if n > 0 {
      CopiesDrift(c, h, w, ps, n - 1);
      CopyChangesCountByAtMostOne(ApplyCopies(c, h, w, ps, n - 1), h, w, ps[n - 1]);
    }
  }

  /** A copy can kill a live cell: the shuffle is not a permutation. */
  lemma CopyCanKill()
    ensures var c := [[true, false]];
            IsGrid(c, 1, 2) && LiveCount(Copy(c, 1, 2, Pick(0, 0, 0, 1))) == LiveCount(c) - 1
  {
    var c := [[true, false]];
    assert IsGrid(c, 1, 2);
    assert [true, false][0 := false] == [false, false];
    assert Copy(c, 1, 2, Pick(0, 0, 0, 1)) == [[false, false]];
  }

  /** The grid RandInit leaves: the fill, then the copies named by the picks. */
  function Seeded(c: Cells, h: int, w: int, percentage: int, ps: seq<Pick>): (r: Cells)
    requires IsGrid(c, h, w) && 0 <= percentage <= 100
    requires forall i :: 0 <= i < |ps| ==> InGrid(ps[i], h, w)
    ensures IsGrid(r, h, w)
  {
    var f := Filled(c, NumAlive(percentage, w, h));
    assert IsGrid(f, h, w);
    ApplyCopies(f, h, w, ps, |ps|)
  }

  /**
   * Seeding an all-dead grid with k = NumAlive(percentage, w, h) and k
   * copies: when k is 0 (percentage 0, or too few cells) every cell ends
   * alive; otherwise the fill marks exactly k cells and the copies leave
   * between 0 and 2k live cells, not necessarily k.
   */
  lemma SeededDensity(h: int, w: int, percentage: int, ps: seq<Pick>)
    requires h >= 0 && w >= 0 && 0 <= percentage <= 100
    requires |ps| == NumAlive(percentage, w, h)
    requires forall i :: 0 <= i < |ps| ==> InGrid(ps[i], h, w)
    ensures NumAlive(percentage, w, h) == 0 ==>
              forall y, x :: 0 <= y < h && 0 <= x < w ==> Seeded(Dead(h, w), h, w, percentage, ps)[y][x]
    ensures NumAlive(percentage, w, h) > 0 ==>
              LiveCount(Filled(Dead(h, w), NumAlive(percentage, w, h))) == NumAlive(percentage, w, h)
              && LiveCount(Seeded(Dead(h, w), h, w, percentage, ps)) <= 2 * NumAlive(percentage, w, h)
  {
    var c := Dead(h, w);
    var k := NumAlive(percentage, w, h);
    NumAliveBounds(percentage, w, h);
    OffsetOfGrid(c, h, w, h);
    if k == 0 {
      forall y, x | 0 <= y < h && 0 <= x < w
        ensures Seeded(c, h, w, percentage, ps)[y][x]
      {
        FilledOutOfRangeAllAlive(c, h, w, k, x, y);
      }
    } else {
      FilledDeadCount(c, k);
      assert IsGrid(Filled(c, k), h, w);
      CopiesDrift(Filled(c, k), h, w, ps, |ps|);
    }
  }

  /**
   * The grid Seed leaves: a cell becomes alive where its draw (a value of
   * Intn(10)) is 1, and is otherwise unchanged.
   */
  function Sprinkled(c: Cells, draws: seq<seq<int>>): (r: Cells)
    requires |draws| == |c| && forall y :: 0 <= y < |c| ==> |draws[y]| == |c[y]|
    ensures SameShape(r, c)
    ensures forall y, x :: 0 <= y < |c| && 0 <= x < |c[y]| && c[y][x] ==> r[y][x]
  {
    seq(|c|, y requires 0 <= y < |c| =>
      seq(|c[y]|, x requires 0 <= x < |c[y]| => c[y][x] || draws[y][x] == 1))
  }

  /** A row that is alive wherever another is has at least as many live cells. */
  lemma {:induction false} CountTrueMonotone(a: seq<bool>, b: seq<bool>, n: int)
    requires |a| == |b| && 0 <= n <= |a|
    requires forall x :: 0 <= x < |a| && a[x] ==> b[x]
    ensures CountTrue(a, n) <= CountTrue(b, n)
  {
    if n > 0 {
      CountTrueMonotone(a, b, n - 1);
    }
  }

  /** A grid that is alive wherever another is has at least as many live cells. */
  lemma {:induction false} LiveRowsMonotone(a: Cells, b: Cells, n: int)
    requires SameShape(a, b) && 0 <= n <= |a|
    requires forall y, x :: 0 <= y < |a| && 0 <= x < |a[y]| && a[y][x] ==> b[y][x]
    ensures LiveRows(a, n) <= LiveRows(b, n)
  {
    if n > 0 {
      LiveRowsMonotone(a, b, n - 1);
      CountTrueMonotone(a[n - 1], b[n - 1], |a[n - 1]|);
    }
  }

  /** Seeding never lowers the number of live cells. */
  lemma SprinkledNeverKills(c: Cells, draws: seq<seq<int>>)
    requires |draws| == |c| && forall y :: 0 <= y < |c| ==> |draws[y]| == |c[y]|
    ensures LiveCount(c) <= LiveCount(Sprinkled(c, draws))
  {
    LiveRowsMonotone(c, Sprinkled(c, draws), |c|);
  }
}
