/**
 * The character grid built by `PrintAsciiMaze` (maze.cpp): a (2h+1)-by-(2w+1) raster that
 * starts as all walls, opens the centre of every in-maze cell and the wall square between
 * the two endpoints of every passage. The raster is returned instead of printed.
 */
module Ascii {
  import opened Grid

  /** C++ `int` division, which truncates toward zero. */
  function TruncDiv(a: int, b: int): int
    requires b > 0
  {
    if a >= 0 then a / b else -((-a) / b)
  }

  /** The raster square (column, row) between the centres of the cells at `a` and `b`. */
  function WallBetween(a: Pos, b: Pos): Pos {
    Pos(TruncDiv((2 * a.x + 1) + (2 * b.x + 1), 2), TruncDiv((2 * a.y + 1) + (2 * b.y + 1), 2))
  }

  /** Raster column i of row j is the centre of an in-maze cell of the box. */
  ghost predicate CentreOpen(cells: seq<seq<Cell>>, w: int, h: int, i: int, j: int)
    requires IsGridOf(cells, w, h)
  {
    && 1 <= i <= 2 * w - 1 && i % 2 == 1
    && 1 <= j <= 2 * h - 1 && j % 2 == 1
    && cells[(j - 1) / 2][(i - 1) / 2].inMaze
  }

  predicate Opens(p: Passage, i: int, j: int) {
    p.c1.Some? && p.c2.Some? && WallBetween(p.c1.value, p.c2.value) == Pos(i, j)
  }

  /** One of the first n passages opens raster square (i, j). */
  ghost predicate OpenedBy(passages: seq<Passage>, n: nat, i: int, j: int)
    requires n <= |passages|
  {
    n > 0 && (OpenedBy(passages, n - 1, i, j) || Opens(passages[n - 1], i, j))
  }

  lemma {:induction false} OpenedByIsSome(passages: seq<Passage>, n: nat, i: int, j: int)
    requires n <= |passages|
    ensures OpenedBy(passages, n, i, j) <==> exists k :: 0 <= k < n && Opens(passages[k], i, j)
  {
    if n > 0 {
      OpenedByIsSome(passages, n - 1, i, j);
    }
  }

  /** Every passage with two endpoints has its wall square inside the raster. */
  ghost predicate WallsInRaster(passages: seq<Passage>, w: int, h: int) {
    forall k :: 0 <= k < |passages| && passages[k].c1.Some? && passages[k].c2.Some? ==>
      var m := WallBetween(passages[k].c1.value, passages[k].c2.value);
      0 <= m.x < 2 * w + 1 && 0 <= m.y < 2 * h + 1
  }

  /** Passages between adjacent cells of the box, the only kind the generator makes, have their wall squares inside the raster. */
  lemma AdjacentWallsInRaster(passages: seq<Passage>, w: int, h: int)
    requires forall k :: 0 <= k < |passages| ==>
               && passages[k].c1.Some? && passages[k].c2.Some?
               && InBounds(passages[k].c1.value, w, h) && InBounds(passages[k].c2.value, w, h)
               && Adjacent(passages[k].c1.value, passages[k].c2.value)
    ensures WallsInRaster(passages, w, h)
  {
    forall k | 0 <= k < |passages|
      ensures var m := WallBetween(passages[k].c1.value, passages[k].c2.value);
        0 <= m.x < 2 * w + 1 && 0 <= m.y < 2 * h + 1
    {
      AdjacentWallIsBetween(passages[k].c1.value, passages[k].c2.value, w, h);
    }
  }

  ghost predicate Rastered(rows: seq<seq<char>>, w: int, h: int) {
    |rows| == 2 * h + 1 && forall j :: 0 <= j < |rows| ==> |rows[j]| == 2 * w + 1
  }

  /**
   * The grid-building part of `PrintAsciiMaze`. A square is open (' ') exactly when it is
   * the centre of an in-maze cell or the wall square of a passage with two endpoints;
   * every other square is a wall ('#').
   */
  method AsciiMaze(maze: Maze) returns (rows: seq<seq<char>>)
    requires IsGridOf(maze.cells, maze.Width(), maze.Height())
    requires WallsInRaster(maze.passages, maze.Width(), maze.Height())
    ensures Rastered(rows, maze.Width(), maze.Height())
    ensures forall j, i :: 0 <= j < |rows| && 0 <= i < |rows[j]| ==>
              rows[j][i] == if CentreOpen(maze.cells, maze.Width(), maze.Height(), i, j) ||
                               exists k :: 0 <= k < |maze.passages| && Opens(maze.passages[k], i, j)
                            then ' ' else '#'
  {
    var w, h := maze.Width(), maze.Height();
    var cells, passages := maze.cells, maze.passages;
    var height := 2 * h + 1;
    var width := 2 * w + 1;
    rows := seq(height, _ => seq(width, _ => '#'));
    // Open the centre of every walkable cell.
    for y := 0 to h
      invariant Rastered(rows, w, h)
      invariant forall j, i :: 0 <= j < height && 0 <= i < width ==>
                  rows[j][i] == if CentreOpen(cells, w, h, i, j) && (j - 1) / 2 < y then ' ' else '#'
    {
      for x := 0 to w
        invariant Rastered(rows, w, h)
        invariant forall j, i :: 0 <= j < height && 0 <= i < width ==>
                    rows[j][i] == if CentreOpen(cells, w, h, i, j) &&
                                     ((j - 1) / 2 < y || ((j - 1) / 2 == y && (i - 1) / 2 < x))
                                  then ' ' else '#'
      {
        var c := cells[y][x];
        if c.inMaze {
          var gx := 2 * c.posX + 1;
          var gy := 2 * c.posY + 1;
          rows := rows[gy := rows[gy][gx := ' ']];
        }
      }
    }
    // Open the wall square of every passage.
    for k := 0 to |passages|
      invariant Rastered(rows, w, h)
      invariant forall j, i :: 0 <= j < height && 0 <= i < width ==>
                  rows[j][i] == if CentreOpen(cells, w, h, i, j) || OpenedBy(passages, k, i, j)
                                then ' ' else '#'
    {
      var p := passages[k];
      if p.c1.None? || p.c2.None? {
        continue;
      }
      var x1, y1 := p.c1.value.x, p.c1.value.y;
      var x2, y2 := p.c2.value.x, p.c2.value.y;
      var gx1, gy1 := 2 * x1 + 1, 2 * y1 + 1;
      var gx2, gy2 := 2 * x2 + 1, 2 * y2 + 1;
      var wx := TruncDiv(gx1 + gx2, 2);
      var wy := TruncDiv(gy1 + gy2, 2);
      assert Pos(wx, wy) == WallBetween(p.c1.value, p.c2.value);
      rows := rows[wy := rows[wy][wx := ' ']];
    }
    forall j, i | 0 <= j < height && 0 <= i < width {
      OpenedByIsSome(passages, |passages|, i, j);
    }
  }

  /** A passage between two adjacent in-box cells opens the square between them, and no cell centre. */
  lemma AdjacentWallIsBetween(a: Pos, b: Pos, w: int, h: int)
    requires InBounds(a, w, h) && InBounds(b, w, h) && Adjacent(a, b)
    ensures var m := WallBetween(a, b);
      && 0 < m.x < 2 * w && 0 < m.y < 2 * h
      && (m.x % 2 == 0) != (m.y % 2 == 0)
      && (a.x == b.x ==> m.x == 2 * a.x + 1 && (m.y == 2 * a.y || m.y == 2 * b.y))
      && (a.y == b.y ==> m.y == 2 * a.y + 1 && (m.x == 2 * a.x || m.x == 2 * b.x))
  {
  }
}
