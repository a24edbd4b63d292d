/**
 * The grid model of the maze library: cells, passages and the maze that owns them
 * (maze.h and maze.cpp).
 *
 * A cell is a value with two flags; the maze keeps its cells in a grid of rows,
 * `cells[y][x]`, exactly as the source's vector of vectors does. A pointer to the cell
 * at `cells[y][x]` is modelled by the coordinate pair `Pos(x, y)`. After a single MakeGrid
 * on an empty maze there is one cell per coordinate pair and no row grows again, so
 * comparing two such references and comparing the coordinates of the cells they point to
 * (`Cell::operator==`) agree. A second MakeGrid appends a second cell per pair and may move
 * the rows; the model then still reads `Pos(x, y)` as `cells[y][x]` (see README, Left out).
 * A passage endpoint may be a null pointer, so it is an `Option<Pos>`.
 */
module Grid {

  datatype Option<T> = None | Some(value: T)

  /** A reference to the cell at column `x` of row `y`. */
  datatype Pos = Pos(x: int, y: int)

  datatype Cell = Cell(posX: int, posY: int, inMaze: bool, inFrontier: bool)

  /** `Cell(x, y)`: a cell at (x, y) that is neither in the maze nor in the frontier. */
  function NewCell(x: int, y: int): (c: Cell)
    ensures c.posX == x && c.posY == y
    ensures !c.inMaze && !c.inFrontier
  {
    Cell(x, y, false, false)
  }

  /** `Cell::operator==`: cells are compared by their coordinates only. */
  predicate CellEq(a: Cell, b: Cell) {
    a.posX == b.posX && a.posY == b.posY
  }

  lemma CellEqIsEquivalence(a: Cell, b: Cell, c: Cell)
    ensures CellEq(a, a)
    ensures CellEq(a, b) ==> CellEq(b, a)
    ensures CellEq(a, b) && CellEq(b, c) ==> CellEq(a, c)
  {
  }

  /** The flags take no part in equality: two cells at the same place are equal. */
  lemma CellEqIgnoresFlags(a: Cell, b: Cell)
    ensures CellEq(a, b) <==> Pos(a.posX, a.posY) == Pos(b.posX, b.posY)
    ensures CellEq(a, b) ==> forall m: bool, f: bool :: CellEq(a.(inMaze := m, inFrontier := f), b)
  {
  }

  /** An open connection between two cells; a null endpoint is `None`. */
  datatype Passage = Passage(c1: Option<Pos>, c2: Option<Pos>)

  /** `Passage()`: the passage with two null endpoints; it connects no pair of cells. */
  function NullPassage(): (p: Passage)
    ensures p.c1.None? && p.c2.None?
    ensures forall a, b :: !Links(p, a, b)
  {
    Passage(None, None)
  }

  /** The exceptions the core throws. */
  datatype Error =
    | LengthError     // std::vector::resize with a negative (huge unsigned) size
    | NotInitialized  // "Maze dimensions or cells not initialized"

  datatype Outcome = Pass | Fail(error: Error)

  /** No element occurs twice. */
  ghost predicate NoDup<T>(s: seq<T>) {
    forall i, j :: 0 <= i < j < |s| ==> s[i] != s[j]
  }

  /** The cells listed in s, as a set. */
  ghost function Elems(s: seq<Pos>): set<Pos> {
    set q | q in s
  }

  predicate InBounds(p: Pos, w: int, h: int) {
    0 <= p.x < w && 0 <= p.y < h
  }

  /** Two positions differ by one in exactly one coordinate. */
  predicate Adjacent(a: Pos, b: Pos) {
    (a.x == b.x && (a.y - b.y == 1 || b.y - a.y == 1)) ||
    (a.y == b.y && (a.x - b.x == 1 || b.x - a.x == 1))
  }

  /**
   * The rows of `cells` hold, for every (x, y) of the w-by-h box, a cell at `cells[y][x]`
   * whose coordinates are (x, y). Rows may be longer than `w` (MakeGrid run twice) but the
   * box is what every algorithm of the core reads.
   */
  ghost predicate IsGridOf(cells: seq<seq<Cell>>, w: int, h: int) {
    && 0 <= w && 0 <= h && h <= |cells|
    && forall y :: 0 <= y < h ==>
         && w <= |cells[y]|
         && forall x :: 0 <= x < w ==> cells[y][x].posX == x && cells[y][x].posY == y
  }

  /** The grid MakeGrid builds on a fresh maze: h rows of w cells, all flags false. */
  ghost predicate FreshGrid(cells: seq<seq<Cell>>, w: int, h: int) {
    && |cells| == h
    && forall y :: 0 <= y < h ==>
         && |cells[y]| == w
         && forall x :: 0 <= x < w ==> cells[y][x] == NewCell(x, y)
  }

  lemma FreshGridIsGrid(cells: seq<seq<Cell>>, w: int, h: int)
    requires 0 <= w && FreshGrid(cells, w, h)
    ensures IsGridOf(cells, w, h)
    ensures forall p :: InBounds(p, w, h) ==>
              !cells[p.y][p.x].inMaze && !cells[p.y][p.x].inFrontier
  {
  }

  predicate ValidRef(cells: seq<seq<Cell>>, p: Pos) {
    0 <= p.y < |cells| && 0 <= p.x < |cells[p.y]|
  }

  lemma GridRef(cells: seq<seq<Cell>>, w: int, h: int, p: Pos)
    requires IsGridOf(cells, w, h) && InBounds(p, w, h)
    ensures ValidRef(cells, p)
    ensures cells[p.y][p.x].posX == p.x && cells[p.y][p.x].posY == p.y
  {
  }

  /** The cell a reference points to. */
  function CellAt(cells: seq<seq<Cell>>, p: Pos): Cell
    requires ValidRef(cells, p)
  {
    cells[p.y][p.x]
  }

  /** Overwrite the cell a reference points to (a write through the pointer). */
  function SetCell(cells: seq<seq<Cell>>, p: Pos, c: Cell): (r: seq<seq<Cell>>)
    requires ValidRef(cells, p)
    ensures |r| == |cells| && forall y :: 0 <= y < |r| ==> |r[y]| == |cells[y]|
    ensures forall q :: ValidRef(cells, q) ==> CellAt(r, q) == if q == p then c else CellAt(cells, q)
  {
    cells[p.y := cells[p.y][p.x := c]]
  }

  lemma SetCellKeepsGrid(cells: seq<seq<Cell>>, w: int, h: int, p: Pos, c: Cell)
    requires IsGridOf(cells, w, h) && InBounds(p, w, h)
    requires c.posX == p.x && c.posY == p.y
    ensures IsGridOf(SetCell(cells, p, c), w, h)
  {
    GridRef(cells, w, h, p);
    var r: seq<seq<Cell>> := SetCell(cells, p, c);
    forall y: int, x: int | 0 <= y < h && 0 <= x < w
      ensures r[y][x].posX == x && r[y][x].posY == y
    {
      GridRef(cells, w, h, Pos(x, y));
      assert CellAt(r, Pos(x, y)) == r[y][x];
    }
  }

  /** Every position of the w-by-h box. */
  function AllPos(w: int, h: int): set<Pos> {
    set x, y | 0 <= x < w && 0 <= y < h :: Pos(x, y)
  }

  lemma InAllPos(p: Pos, w: int, h: int)
    ensures p in AllPos(w, h) <==> InBounds(p, w, h)
  {
    if InBounds(p, w, h) {
      assert p == Pos(p.x, p.y);
    }
  }

  function RowPos(y: int, w: int): set<Pos> {
    set x | 0 <= x < w :: Pos(x, y)
  }

  lemma RowPosSnoc(y: int, w: nat)
    requires w > 0
    ensures RowPos(y, w) == RowPos(y, w - 1) + {Pos(w - 1, y)}
    ensures Pos(w - 1, y) !in RowPos(y, w - 1)
  {
    var x := w - 1;
    forall p | p in RowPos(y, w)
      ensures p in RowPos(y, x) + {Pos(x, y)}
    {
      if p.x < x {
        assert p == Pos(p.x, y);
      }
    }
  }

  lemma {:induction false} RowPosCard(y: int, w: nat)
    ensures |RowPos(y, w)| == w
  {
    if w > 0 {
      RowPosCard(y, w - 1);
      RowPosSnoc(y, w);
    } else {
      assert RowPos(y, w) == {};
    }
  }

  /** The box of height h is the box of height h - 1 plus its top row. */
  lemma AllPosSplit(w: nat, h: nat)
    requires h >= 1
    ensures AllPos(w, h) == AllPos(w, h - 1) + RowPos(h - 1, w)
  {
    forall p | p in AllPos(w, h)
      ensures p in AllPos(w, h - 1) + RowPos(h - 1, w)
    {
      InAllPos(p, w, h);
      InAllPos(p, w, h - 1);
      if p.y == h - 1 {
        assert p == Pos(p.x, h - 1);
      }
    }
    forall p | p in AllPos(w, h - 1) + RowPos(h - 1, w)
      ensures p in AllPos(w, h)
    {
      InAllPos(p, w, h);
      InAllPos(p, w, h - 1);
    }
  }

  lemma RowPosDisjoint(w: nat, h: nat)
    requires h >= 1
    ensures AllPos(w, h - 1) * RowPos(h - 1, w) == {}
  {
    var y := h - 1;
    forall p | p in AllPos(w, y)
      ensures p !in RowPos(y, w)
    {
      InAllPos(p, w, y);
    }
  }

  /** The box holds exactly w * h positions. */
  lemma {:induction false} AllPosCard(w: nat, h: nat)
    ensures |AllPos(w, h)| == w * h
  {
    if h == 0 {
      assert AllPos(w, h) == {};
    } else {
      AllPosCard(w, h - 1);
      RowPosCard(h - 1, w);
      AllPosSplit(w, h);
      RowPosDisjoint(w, h);
      assert w * h == w * (h - 1) + w;
    }
  }

  // ----- Connectivity carried by the passage list -----

  /** Passage `p` connects `a` to `b` (in either orientation). */
  predicate Links(p: Passage, a: Pos, b: Pos) {
    (p.c1 == Some(a) && p.c2 == Some(b)) || (p.c2 == Some(a) && p.c1 == Some(b))
  }

  ghost predicate Joined(passages: seq<Passage>, a: Pos, b: Pos) {
    exists k :: 0 <= k < |passages| && Links(passages[k], a, b)
  }

  /** A non-empty sequence of cells, each joined to the next by a passage. */
  ghost predicate IsWalk(passages: seq<Passage>, w: seq<Pos>) {
    |w| >= 1 && forall i :: 0 <= i < |w| - 1 ==> Joined(passages, w[i], w[i + 1])
  }

  ghost predicate Reachable(passages: seq<Passage>, a: Pos, b: Pos) {
    exists w :: IsWalk(passages, w) && w[0] == a && w[|w| - 1] == b
  }

  lemma JoinedSymmetric(passages: seq<Passage>, a: Pos, b: Pos)
    ensures Joined(passages, a, b) <==> Joined(passages, b, a)
  {
    if Joined(passages, a, b) {
      var k :| 0 <= k < |passages| && Links(passages[k], a, b);
      assert Links(passages[k], b, a);
    }
    if Joined(passages, b, a) {
      var k :| 0 <= k < |passages| && Links(passages[k], b, a);
      assert Links(passages[k], a, b);
    }
  }

  /** Appending passages never disconnects a walk. */
  lemma WalkExtends(passages: seq<Passage>, more: seq<Passage>, w: seq<Pos>)
    requires IsWalk(passages, w)
    ensures IsWalk(passages + more, w)
  {
    forall i | 0 <= i < |w| - 1
      ensures Joined(passages + more, w[i], w[i + 1])
    {
      var k :| 0 <= k < |passages| && Links(passages[k], w[i], w[i + 1]);
      assert (passages + more)[k] == passages[k];
    }
  }

  lemma WalkSnoc(passages: seq<Passage>, w: seq<Pos>, c: Pos)
    requires IsWalk(passages, w) && Joined(passages, w[|w| - 1], c)
    ensures IsWalk(passages, w + [c])
  {
    var w' := w + [c];
    forall i | 0 <= i < |w'| - 1
      ensures Joined(passages, w'[i], w'[i + 1])
    {
      if i < |w| - 1 {
        assert w'[i] == w[i] && w'[i + 1] == w[i + 1];
      }
    }
  }

  // ----- The maze object -----

  /** `cells.resize(n)`: keep the first n rows, padding with empty rows. */
  function Resize(rows: seq<seq<Cell>>, n: nat): (r: seq<seq<Cell>>)
    ensures |r| == n && forall y :: 0 <= y < n ==> r[y] == OldRow(rows, y)
  {
    if n <= |rows| then rows[..n] else rows + seq(n - |rows|, _ => [])
  }

  function OldRow(rows: seq<seq<Cell>>, y: int): seq<Cell> {
    if 0 <= y < |rows| then rows[y] else []
  }

  /** The cells MakeGrid appends to row y: (0, y) to (w - 1, y), flags false. */
  function RowOf(y: int, w: int): seq<Cell> {
    if w <= 0 then [] else seq(w, x requires 0 <= x < w => NewCell(x, y))
  }

  lemma RowOfSnoc(y: int, x: nat)
    ensures RowOf(y, x + 1) == RowOf(y, x) + [NewCell(x, y)]
  {
    var a, b := RowOf(y, x + 1), RowOf(y, x) + [NewCell(x, y)];
    assert |a| == |b|;
    forall i | 0 <= i < |a| ensures a[i] == b[i] {
    }
  }

  /** Rows built by `MakeGrid` from no rows at all form the fresh grid. */
  lemma FreshRows(cells: seq<seq<Cell>>, w: int, h: int)
    requires 0 <= w && |cells| == h
    requires forall y :: 0 <= y < h ==> cells[y] == OldRow([], y) + RowOf(y, w)
    ensures FreshGrid(cells, w, h)
  {
    forall y | 0 <= y < h
      ensures |cells[y]| == w && forall x :: 0 <= x < w ==> cells[y][x] == NewCell(x, y)
    {
      assert cells[y] == RowOf(y, w);
    }
  }

  class Maze {
    const sizeX: int
    const sizeY: int
    var cells: seq<seq<Cell>>
    var passages: seq<Passage>
    var start: Option<Pos>
    var finish: Option<Pos>

    /** `Maze(sizeX, sizeY)`: no cells yet, no passages, null start and finish. */
    constructor (sizeX: int, sizeY: int)
      ensures this.sizeX == sizeX && this.sizeY == sizeY
      ensures cells == [] && passages == []
      ensures start == None && finish == None
    {
      this.sizeX := sizeX;
      this.sizeY := sizeY;
      cells := [];
      passages := [];
      start := None;
      finish := None;
    }

    function Width(): (w: int)
      ensures w == sizeX
    {
      sizeX
    }

    function Height(): (h: int)
      ensures h == sizeY
    {
      sizeY
    }

    /**
     * `MakeGrid`: resize the rows to `sizeY`, then append the cells (0, y) .. (sizeX - 1, y)
     * to every row y. On a maze without cells this builds the fresh sizeX-by-sizeY grid.
     */
    method MakeGrid() returns (outcome: Outcome)
      modifies this`cells
      ensures outcome == if sizeY < 0 then Fail(LengthError) else Pass
      ensures outcome.Fail? ==> cells == old(cells)
      ensures outcome.Pass? ==>
                && |cells| == sizeY
                && forall y :: 0 <= y < sizeY ==> cells[y] == OldRow(old(cells), y) + RowOf(y, sizeX)
      ensures outcome.Pass? && old(cells) == [] && 0 <= sizeX ==> FreshGrid(cells, sizeX, sizeY)
    {
      if sizeY < 0 {
        return Fail(LengthError);
      }
      ghost var before := cells;
      cells := Resize(cells, sizeY);
      var y := 0;
      while y < sizeY
        invariant 0 <= y <= sizeY && |cells| == sizeY
        invariant forall j :: 0 <= j < y ==> cells[j] == OldRow(before, j) + RowOf(j, sizeX)
        invariant forall j :: y <= j < sizeY ==> cells[j] == OldRow(before, j)
      {
        AppendRow(y);
        y := y + 1;
      }
      outcome := Pass;
      if before == [] && 0 <= sizeX {
        FreshRows(cells, sizeX, sizeY);
      }
    }

    /** The inner loop of `MakeGrid`: append the cells (0, y) .. (sizeX - 1, y) to row y. */
    method AppendRow(y: int)
      requires 0 <= y < |cells|
      modifies this`cells
      ensures cells == old(cells)[y := old(cells)[y] + RowOf(y, sizeX)]
    {
      ghost var before := cells;
      var x := 0;
      assert before[y] + RowOf(y, 0) == before[y];
      while x < sizeX
        invariant 0 <= x && (x <= sizeX || x == 0)
        invariant cells == before[y := before[y] + RowOf(y, x)]
      {
        RowOfSnoc(y, x);
        assert cells[y] + [NewCell(x, y)] == before[y] + RowOf(y, x + 1);
        cells := cells[y := cells[y] + [NewCell(x, y)]];
        x := x + 1;
      }
    }

    /** `MakePassage(a, b)`: append the passage (a, b); nothing else changes. */
    method MakePassage(a: Option<Pos>, b: Option<Pos>)
      modifies this`passages
      ensures passages == old(passages) + [Passage(a, b)]
    {
      passages := passages + [Passage(a, b)];
    }
  }
}
