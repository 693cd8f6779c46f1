/**
 * The Game of Life world: a grid of cells on a torus, the rule that makes
 * one generation from another, the two ways of seeding it and the text
 * state it is saved to and loaded from. Each operation that loops in the
 * program is a method here, proved against the pure definitions of
 * modules Rules, Seeding and Codec.
 */
module Life {
  import opened Wrappers
  import opened Rules
  import opened Seeding
  import opened Codec

  /**
   * A world. Its rows are values; a method that changes cells assigns the
   * field, so a world is changed exactly when its field is assigned, and
   * two references to one world see each other's changes.
   */
  class World {
    var height: int
    var width: int
    var cells: Cells

    /** The fields describe a height x width grid. */
    ghost predicate Valid()
      reads this
    {
      IsGrid(cells, height, width)
    }

    /** NewWorld: a height x width grid of dead cells, allocated row by row. */
    constructor(height: int, width: int)
      requires height >= 0 && width >= 0
      ensures this.height == height && this.width == width
      ensures cells == Dead(height, width)
      ensures Valid()
    {
      var rows: Cells := [];
      var i := 0;
      while i < height
        invariant 0 <= i <= height
        invariant |rows| == i && forall k :: 0 <= k < i ==> rows[k] == seq(width, _ => false)
      {
        rows := rows + [seq(width, _ => false)];
        i := i + 1;
      }
      this.height := height;
      this.width := width;
      cells := rows;
    }

    /** The number of live cells among the eight around (x, y), wrapping at the edges. */
    method Neighbors(x: int, y: int) returns (count: int)
      requires Valid() && 0 <= x < width && 0 <= y < height
      ensures count == LiveNeighbors(cells, height, width, x, y)
      ensures 0 <= count <= 8
    {
      DeltasAreMooreNeighborhood();
      count := 0;
      var deltas := Deltas;
      for i := 0 to |deltas|
        invariant count == CountAlive(cells, height, width, x, y, Deltas, i)
      {
        var d := deltas[i];
        var nx, ny := (x + d.0 + width) % width, (y + d.1 + height) % height;
        assert nx == Wrap(x, d.0, width) && ny == Wrap(y, d.1, height);
        if cells[ny][nx] {
          count := count + 1;
        }
      }
    }

    /** The state of (x, y) in the next generation: alive on 2 or 3 live neighbors (3 if it is dead). */
    method Next(x: int, y: int) returns (next: bool)
      requires Valid() && 0 <= x < width && 0 <= y < height
      ensures next == NextCell(cells, height, width, x, y)
      ensures next <==> (cells[y][x] && 2 <= LiveNeighbors(cells, height, width, x, y) <= 3)
                        || (!cells[y][x] && LiveNeighbors(cells, height, width, x, y) == 3)
    {
      var n := Neighbors(x, y);
      var alive := cells[y][x];
      if n < 4 && n > 1 && alive {
        return true;
      }
      if !alive && n == 3 {
        return true;
      }
      return false;
    }

    /**
     * fillAlive: makes cells alive in row-major order and stops right after
     * the num-th; when num is not in 1 .. Total(cells) it never stops early
     * and every cell ends up alive.
     */
    method FillAlive(num: int)
      modifies this`cells
      ensures cells == Filled(old(cells), num)
      ensures old(Valid()) ==> Valid()
    {
      ghost var c0 := cells;
      var aliveCount := 0;
      var j := 0;
      while j < |cells|
        invariant FillProgress(c0, cells, j, 0)
        invariant aliveCount == Offset(c0, j)
        invariant 1 <= num ==> aliveCount < num
      {
        var k := 0;
        while k < |cells[j]|
          invariant FillProgress(c0, cells, j, k)
          invariant aliveCount == Offset(c0, j) + k
          invariant 1 <= num ==> aliveCount < num
        {
          cells := cells[j := cells[j][k := true]];
          aliveCount := aliveCount + 1;
          if aliveCount == num {
            FillProgressStops(c0, cells, j, k + 1, num);
            return;
          }
          k := k + 1;
        }
        j := j + 1;
      }
      FillProgressComplete(c0, cells, num);
    }

    /**
     * RandInit: fills NumAlive(percentage, width, height) cells, then makes
     * that many copies of one cell onto another. The random coordinates are
     * the picks, drawn from the source's ranges. On a grid that is not
     * square some draws fall outside it and the source may panic; only a
     * square grid guarantees every draw lies inside, so the model requires
     * one whenever it copies at all.
     */
    method RandInit(percentage: int, picks: seq<Pick>)
      requires Valid() && 0 <= percentage <= 100
      requires |picks| == NumAlive(percentage, width, height)
      requires forall i :: 0 <= i < |picks| ==> Drawn(picks[i], height, width)
      requires width == height || |picks| == 0
      modifies this`cells
      ensures Valid()
      ensures forall i :: 0 <= i < |picks| ==> InGrid(picks[i], height, width)
      ensures cells == Seeded(old(cells), height, width, percentage, picks)
    {
      var numAlive := NumAlive(percentage, width, height);
      assert forall i :: 0 <= i < |picks| ==> InGrid(picks[i], height, width);
      ghost var c0 := cells;
      FillAlive(numAlive);
      ghost var filled := cells;
      assert filled == Filled(c0, numAlive);
      assert IsGrid(filled, height, width);
      for i := 0 to numAlive
        invariant IsGrid(cells, height, width)
        invariant cells == ApplyCopies(filled, height, width, picks, i)
      {
        var p := picks[i];
        assert InGrid(p, height, width);
        ghost var before := cells;
        cells := cells[p.rowLeft := cells[p.rowLeft][p.colLeft := cells[p.rowRight][p.colRight]]];
        assert cells == Copy(before, height, width, p);
      }
    }

    /** Seed: makes each cell alive whose draw of Intn(10) is 1. */
    method Seed(draws: seq<seq<int>>)
      requires |draws| == |cells| && forall y :: 0 <= y < |cells| ==> |draws[y]| == |cells[y]|
      requires forall y, x :: 0 <= y < |draws| && 0 <= x < |draws[y]| ==> 0 <= draws[y][x] < 10
      modifies this`cells
      ensures cells == Sprinkled(old(cells), draws)
      ensures old(Valid()) ==> Valid()
    {
      ghost var c0 := cells;
      for y := 0 to |cells|
        invariant SameShape(cells, c0)
        invariant forall r, x :: 0 <= r < |c0| && 0 <= x < |c0[r]| ==>
                    cells[r][x] == if r < y then c0[r][x] || draws[r][x] == 1 else c0[r][x]
      {
        for i := 0 to |cells[y]|
          invariant SameShape(cells, c0)
          invariant forall r, x :: 0 <= r < |c0| && 0 <= x < |c0[r]| ==>
                      cells[r][x] == if r < y || (r == y && x < i) then c0[r][x] || draws[r][x] == 1 else c0[r][x]
        {
          if draws[y][i] == 1 {
            cells := cells[y := cells[y][i := true]];
          }
        }
      }
      ghost var s := Sprinkled(c0, draws);
      forall r | 0 <= r < |c0|
        ensures cells[r] == s[r]
      {
      }
    }

    /** SaveState: the text written to the state file. */
    method SaveState() returns (text: string)
      ensures text == Encode(cells)
    {
      text := "";
      for i := 0 to |cells|
        invariant text == EncodeRows(cells, i)
      {
        var row := cells[i];
        var rowString := "";
        for k := 0 to |row|
          invariant |rowString| == k && forall m :: 0 <= m < k ==> rowString[m] == CellChar(row[m])
        {
          if row[k] {
            rowString := rowString + "1";
          } else {
            rowString := rowString + "0";
          }
        }
        assert rowString == RowText(row);
        if i < |cells| - 1 {
          rowString := rowString + "\n";
        }
        text := text + rowString;
      }
    }

    /**
     * LoadState: decodes the scanned lines of a state file. On success the
     * world takes the decoded height, width and cells; on an error nothing
     * changes.
     */
    method LoadState(lines: seq<string>) returns (err: Option<LoadError>)
      modifies this
      ensures Decode(lines).Success? ==>
                err == None && height == Decode(lines).value.height
                && width == Decode(lines).value.width && cells == Decode(lines).value.cells
      ensures Decode(lines).Failure? ==> err == Some(Decode(lines).error) && unchanged(this)
      ensures Decode(lines).Success? ==>
                (Valid() <==> (forall i :: 0 <= i < |lines| ==> TrimSpace(lines[i]) != [])
                              || (forall i :: 0 <= i < |lines| ==> TrimSpace(lines[i]) == []))
    {
      var r := ReadState(lines);
      if r.Failure? {
        return Some(r.error);
      }
      DecodeIsGrid(lines, r.value);
      height := r.value.height;
      width := r.value.width;
      cells := r.value.cells;
      return None;
    }
  }

  /**
   * The scanning loop of LoadState: trims each line, fixes the width from
   * the first line (or from the next one while it is still 0), rejects a
   * line of another length, then decodes its characters; it stops at the
   * first error.
   */
  method ReadState(lines: seq<string>) returns (r: Result<Loaded, LoadError>)
    ensures r == Decode(lines)
  {
    var rows: Cells := [];
    var w := 0;
    var n := 0;
    while n < |lines|
      invariant 0 <= n <= |lines|
      invariant DecodeLines(lines, n) == Success((w, rows))
    {
      var line := TrimSpace(lines[n]);
      var len := ByteLen(line);
      DecodeLinesNext(lines, n, w, rows);
      if w == 0 {
        w := len;
      } else if w != len {
        FailureIsFinal(lines, n + 1, |lines|);
        return Failure(WidthMismatch);
      }
      var row, ok := DecodeLine(line);
      if !ok {
        FailureIsFinal(lines, n + 1, |lines|);
        return Failure(InvalidCharacter);
      }
      rows := rows + [row];
      n := n + 1;
    }
    return Success(Loaded(|rows|, w, rows));
  }

  /**
   * The character loop of LoadState: allocates a row of ByteLen(line) dead
   * cells and sets each from '1' or '0', failing at the first other
   * character.
   */
  method DecodeLine(line: string) returns (row: seq<bool>, ok: bool)
    ensures ok <==> DecodeRow(line).Some?
    ensures ok ==> row == DecodeRow(line).value
  {
    ByteLenSpec(line);
    var len := ByteLen(line);
    row := seq(len, _ => false);
    var i := 0;
    while i < |line|
      invariant 0 <= i <= |line| && |row| == len
      invariant IsBinary(line[..i])
      invariant forall m :: 0 <= m < i ==> row[m] == (line[m] == '1')
      invariant forall m :: i <= m < len ==> !row[m]
    {
      var cell := line[i];
      if cell == '1' {
        row := row[i := true];
      } else if cell == '0' {
        row := row[i := false];
      } else {
        assert !IsBinary(line);
        return row, false;
      }
      assert line[..i + 1] == line[..i] + [cell];
      i := i + 1;
    }
    assert line[..i] == line;
    BinaryByteLen(line);
    assert row == Bits(line);
    return row, true;
  }

  /** The fill loop's progress: rows before j alive, row j alive before column k, the rest as in c0. */
  ghost predicate FillProgress(c0: Cells, r: Cells, j: int, k: int)
  {
    && SameShape(r, c0) && 0 <= j <= |c0|
    && (j < |c0| ==> 0 <= k <= |c0[j]|)
    && (forall y, x :: 0 <= y < |c0| && 0 <= x < |c0[y]| ==>
          r[y][x] == (y < j || (y == j && x < k) || c0[y][x]))
  }

  /** Stopping right after the (Offset(c0, j) + k)-th cell leaves the fill of that many cells. */
  lemma FillProgressStops(c0: Cells, r: Cells, j: int, k: int, num: int)
    requires FillProgress(c0, r, j, k) && j < |c0| && 1 <= k && num == Offset(c0, j) + k
    ensures r == Filled(c0, num)
  {
    OffsetMonotone(c0, j, |c0|);
    var f := Filled(c0, num);
    forall y | 0 <= y < |c0|
      ensures r[y] == f[y]
    {
      forall x | 0 <= x < |c0[y]|
        ensures r[y][x] == f[y][x]
      {
        FilledAt(c0, num, x, y);
        if y < j {
          OffsetMonotone(c0, y, j);
        } else if y > j {
          OffsetMonotone(c0, j, y);
        }
      }
    }
  }

  /** Running through every cell without stopping leaves the fill of a count outside 1 .. Total(c0). */
  lemma FillProgressComplete(c0: Cells, r: Cells, num: int)
    requires FillProgress(c0, r, |c0|, 0) && (num < 1 || num > Total(c0))
    ensures r == Filled(c0, num)
  {
    var f := Filled(c0, num);
    forall y | 0 <= y < |c0|
      ensures r[y] == f[y]
    {
      forall x | 0 <= x < |c0[y]|
        ensures r[y][x] == f[y][x]
      {
        FilledAt(c0, num, x, y);
      }
    }
  }

  /** The new grid after the cells before (i, j) in row-major order are written from the old grid c. */
  ghost function Written(c: Cells, n: Cells, h: int, w: int, i: int, j: int): (r: Cells)
    requires IsGrid(c, h, w) && IsGrid(n, h, w)
    ensures IsGrid(r, h, w)
  {
    seq(h, y requires 0 <= y < h =>
      seq(w, x requires 0 <= x < w => if y < i || (y == i && x < j) then NextCell(c, h, w, x, y) else n[y][x]))
  }

  lemma WrittenNext(c: Cells, n: Cells, h: int, w: int, i: int, j: int)
    requires IsGrid(c, h, w) && IsGrid(n, h, w) && 0 <= i < h && 0 <= j < w
    ensures Written(c, n, h, w, i, j + 1) == SetCell(Written(c, n, h, w, i, j), i, j, NextCell(c, h, w, j, i))
  {
    var a := Written(c, n, h, w, i, j + 1);
    var b := SetCell(Written(c, n, h, w, i, j), i, j, NextCell(c, h, w, j, i));
    forall y | 0 <= y < h
      ensures a[y] == b[y]
    {
    }
  }

  lemma WrittenRow(c: Cells, n: Cells, h: int, w: int, i: int)
    requires IsGrid(c, h, w) && IsGrid(n, h, w) && 0 <= i < h
    ensures Written(c, n, h, w, i, w) == Written(c, n, h, w, i + 1, 0)
  {
    var a := Written(c, n, h, w, i, w);
    var b := Written(c, n, h, w, i + 1, 0);
    forall y | 0 <= y < h
      ensures a[y] == b[y]
    {
    }
  }

  lemma WrittenStart(c: Cells, n: Cells, h: int, w: int)
    requires IsGrid(c, h, w) && IsGrid(n, h, w)
    ensures Written(c, n, h, w, 0, 0) == n
  {
    var a := Written(c, n, h, w, 0, 0);
    forall y | 0 <= y < h
      ensures a[y] == n[y]
    {
    }
  }

  lemma WrittenAll(c: Cells, n: Cells, h: int, w: int)
    requires IsGrid(c, h, w) && IsGrid(n, h, w)
    ensures Written(c, n, h, w, h, 0) == Step(c, h, w)
  {
    var a := Written(c, n, h, w, h, 0);
    var b := Step(c, h, w);
    forall y | 0 <= y < h
      ensures a[y] == b[y]
    {
    }
  }

  /**
   * One row of NextState: writes the next state of the cells of row i of
   * oldWorld into row i of newWorld, left to right.
   */
  method NextRow(oldWorld: World, newWorld: World, i: int, ghost c0: Cells, ghost n0: Cells)
    requires oldWorld.Valid() && newWorld.Valid() && 0 <= i < oldWorld.height
    requires newWorld.height == oldWorld.height && newWorld.width == oldWorld.width
    requires IsGrid(c0, oldWorld.height, oldWorld.width) && IsGrid(n0, oldWorld.height, oldWorld.width)
    requires oldWorld != newWorld ==> oldWorld.cells == c0 && newWorld.cells == Written(c0, n0, oldWorld.height, oldWorld.width, i, 0)
    requires oldWorld == newWorld ==> newWorld.cells == SweepRows(c0, oldWorld.height, oldWorld.width, i)
    modifies newWorld`cells
    ensures newWorld.Valid()
    ensures oldWorld != newWorld ==> oldWorld.cells == c0 && newWorld.cells == Written(c0, n0, oldWorld.height, oldWorld.width, i + 1, 0)
    ensures oldWorld == newWorld ==> newWorld.cells == SweepRows(c0, oldWorld.height, oldWorld.width, i + 1)
  {
    ghost var h, w := oldWorld.height, oldWorld.width;
    ghost var s := SweepRows(c0, h, w, i);
    var j := 0;
    while j < oldWorld.width
      invariant 0 <= j <= w
      invariant oldWorld.Valid() && newWorld.Valid()
      invariant oldWorld != newWorld ==> oldWorld.cells == c0 && newWorld.cells == Written(c0, n0, h, w, i, j)
      invariant oldWorld == newWorld ==> newWorld.cells == SweepRow(s, h, w, i, j)
    {
      var next := oldWorld.Next(j, i);
      if oldWorld != newWorld {
        WrittenNext(c0, n0, h, w, i, j);
      }
      newWorld.cells := newWorld.cells[i := newWorld.cells[i][j := next]];
      j := j + 1;
    }
    if oldWorld != newWorld {
      WrittenRow(c0, n0, h, w, i);
    }
  }

  /**
   * NextState: writes the next state of every cell of oldWorld into
   * newWorld, row by row. With two distinct worlds newWorld receives the
   * next generation of oldWorld, which is left as it was. With one world
   * passed twice each cell is computed from a grid in which the cells
   * before it are already updated.
   */
  method NextState(oldWorld: World, newWorld: World)
    requires oldWorld.Valid() && newWorld.Valid()
    requires newWorld.height == oldWorld.height && newWorld.width == oldWorld.width
    modifies newWorld`cells
    ensures newWorld.Valid()
    ensures oldWorld != newWorld ==>
              oldWorld.cells == old(oldWorld.cells)
              && newWorld.cells == Step(old(oldWorld.cells), oldWorld.height, oldWorld.width)
    ensures oldWorld == newWorld ==>
              newWorld.cells == InPlaceStep(old(oldWorld.cells), oldWorld.height, oldWorld.width)
  {
    ghost var c0, n0 := oldWorld.cells, newWorld.cells;
    ghost var h, w := oldWorld.height, oldWorld.width;
    WrittenStart(c0, n0, h, w);
    var i := 0;
    while i < oldWorld.height
      invariant 0 <= i <= h
      invariant oldWorld.Valid() && newWorld.Valid()
      invariant oldWorld != newWorld ==> oldWorld.cells == c0 && newWorld.cells == Written(c0, n0, h, w, i, 0)
      invariant oldWorld == newWorld ==> newWorld.cells == SweepRows(c0, h, w, i)
    {
      NextRow(oldWorld, newWorld, i, c0, n0);
      i := i + 1;
    }
    if oldWorld != newWorld {
      WrittenAll(c0, n0, h, w);
    }
  }
}
