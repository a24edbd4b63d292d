/**
 * Randomised Prim-style maze generation (maze_generator.cpp).
 *
 * The generator object holds nothing but its random engine; every draw from a
 * `uniform_int_distribution` is modelled by `Uniform`, an arbitrary value of the requested
 * range, so what is proved holds for every sequence of draws.
 */
module Generator {
  import opened Grid
  import Ascii

  /** The direction tables `dirX` / `dirY`: +x, +y, -x, -y. */
  const DirX: seq<int> := [1, 0, -1, 0]
  const DirY: seq<int> := [0, 1, 0, -1]

  function Step(c: Pos, d: int): Pos
    requires 0 <= d < 4
  {
    Pos(c.x + DirX[d], c.y + DirY[d])
  }

  /** The four cells one step away from c, in table order. */
  function Candidates(c: Pos): seq<Pos> {
    seq(4, d requires 0 <= d < 4 => Step(c, d))
  }

  /** The in-bounds cells of ps, in order. */
  function InBox(ps: seq<Pos>, w: int, h: int): seq<Pos> {
    if ps == [] then []
    else InBox(ps[..|ps| - 1], w, h) + (if InBounds(ps[|ps| - 1], w, h) then [ps[|ps| - 1]] else [])
  }

  /** The in-bounds 4-neighbours of c, in the order +x, +y, -x, -y. */
  function Neighbours4(c: Pos, w: int, h: int): seq<Pos> {
    InBox(Candidates(c), w, h)
  }

  ghost predicate AllInBox(ps: seq<Pos>, w: int, h: int) {
    forall i :: 0 <= i < |ps| ==> InBounds(ps[i], w, h)
  }

  lemma InBoxSnoc(ps: seq<Pos>, q: Pos, w: int, h: int)
    ensures InBox(ps + [q], w, h) == InBox(ps, w, h) + (if InBounds(q, w, h) then [q] else [])
  {
    assert (ps + [q])[..|ps|] == ps;
  }

  lemma {:induction false} InBoxSpec(ps: seq<Pos>, w: int, h: int)
    ensures forall q :: q in InBox(ps, w, h) <==> q in ps && InBounds(q, w, h)
    ensures NoDup(ps) ==> NoDup(InBox(ps, w, h))
    ensures AllInBox(InBox(ps, w, h), w, h)
  {
    if ps != [] {
      var init := ps[..|ps| - 1];
      assert ps == init + [ps[|ps| - 1]];
      InBoxSpec(init, w, h);
    }
  }

  lemma CandidatesSpec(c: Pos)
    ensures NoDup(Candidates(c))
    ensures forall q :: q in Candidates(c) <==> Adjacent(c, q)
  {
    forall q | Adjacent(c, q)
      ensures q in Candidates(c)
    {
      if q.x == c.x + 1 {
        assert q == Candidates(c)[0];
      } else if q.y == c.y + 1 {
        assert q == Candidates(c)[1];
      } else if q.x == c.x - 1 {
        assert q == Candidates(c)[2];
      } else {
        assert q == Candidates(c)[3];
      }
    }
  }

  /** A cell's 4-neighbours are exactly the adjacent cells of the box, each listed once. */
  lemma Neighbours4Spec(c: Pos, w: int, h: int)
    ensures NoDup(Neighbours4(c, w, h))
    ensures AllInBox(Neighbours4(c, w, h), w, h)
    ensures forall q :: q in Neighbours4(c, w, h) <==> InBounds(q, w, h) && Adjacent(c, q)
  {
    CandidatesSpec(c);
    InBoxSpec(Candidates(c), w, h);
  }

  lemma NeighboursSymmetric(p: Pos, q: Pos, w: int, h: int)
    requires InBounds(p, w, h)
    ensures q in Neighbours4(p, w, h) ==> p in Neighbours4(q, w, h)
  {
    Neighbours4Spec(p, w, h);
    Neighbours4Spec(q, w, h);
  }


  /** The cells of `ps` that are neither in the maze nor in the frontier, in order. */
  ghost function Unvisited(cells: seq<seq<Cell>>, w: int, h: int, ps: seq<Pos>): seq<Pos>
    requires IsGridOf(cells, w, h) && AllInBox(ps, w, h)
  {
    if ps == [] then []
    else
      var q := ps[|ps| - 1];
      Unvisited(cells, w, h, ps[..|ps| - 1]) +
      (if !cells[q.y][q.x].inMaze && !cells[q.y][q.x].inFrontier then [q] else [])
  }

  /** The cells of `ps` that are in the maze, in order. */
  ghost function InMazeAmong(cells: seq<seq<Cell>>, w: int, h: int, ps: seq<Pos>): seq<Pos>
    requires IsGridOf(cells, w, h) && AllInBox(ps, w, h)
  {
    if ps == [] then []
    else
      var q := ps[|ps| - 1];
      InMazeAmong(cells, w, h, ps[..|ps| - 1]) + (if cells[q.y][q.x].inMaze then [q] else [])
  }

  lemma {:induction false} UnvisitedSpec(cells: seq<seq<Cell>>, w: int, h: int, ps: seq<Pos>)
    requires IsGridOf(cells, w, h) && AllInBox(ps, w, h)
    ensures forall q :: q in Unvisited(cells, w, h, ps) <==>
              q in ps && !cells[q.y][q.x].inMaze && !cells[q.y][q.x].inFrontier
    ensures NoDup(ps) ==> NoDup(Unvisited(cells, w, h, ps))
  {
    if ps != [] {
      var init := ps[..|ps| - 1];
      assert ps == init + [ps[|ps| - 1]];
      UnvisitedSpec(cells, w, h, init);
    }
  }

  lemma {:induction false} InMazeAmongSpec(cells: seq<seq<Cell>>, w: int, h: int, ps: seq<Pos>)
    requires IsGridOf(cells, w, h) && AllInBox(ps, w, h)
    ensures forall q :: q in InMazeAmong(cells, w, h, ps) <==> q in ps && cells[q.y][q.x].inMaze
  {
    if ps != [] {
      var init := ps[..|ps| - 1];
      assert ps == init + [ps[|ps| - 1]];
      InMazeAmongSpec(cells, w, h, init);
    }
  }

  /**
   * `after` is `before` with the inFrontier flag raised on the cells of `marked`:
   * the whole effect of AddFrontierNeighbours on the grid.
   */
  ghost predicate Marked(before: seq<seq<Cell>>, after: seq<seq<Cell>>, marked: seq<Pos>) {
    && |after| == |before|
    && (forall y :: 0 <= y < |before| ==> |after[y]| == |before[y]|)
    && forall y, x :: 0 <= y < |before| && 0 <= x < |before[y]| ==>
         after[y][x] == if Pos(x, y) in marked then before[y][x].(inFrontier := true) else before[y][x]
  }

  /**
   * `AddFrontierNeighbours(maze, frontier, c)`: every in-bounds 4-neighbour of c, in the
   * order +x, +y, -x, -y, that is neither in the maze nor in the frontier is flagged
   * inFrontier and appended to the frontier; nothing else changes.
   */
  method AddFrontierNeighbours(maze: Maze, frontier: seq<Pos>, c: Pos) returns (frontier': seq<Pos>)
    requires IsGridOf(maze.cells, maze.Width(), maze.Height()) && InBounds(c, maze.Width(), maze.Height())
    modifies maze`cells
    ensures IsGridOf(maze.cells, maze.Width(), maze.Height())
    ensures AllInBox(Neighbours4(c, maze.Width(), maze.Height()), maze.Width(), maze.Height())
    ensures frontier' ==
              frontier + Unvisited(old(maze.cells), maze.Width(), maze.Height(), Neighbours4(c, maze.Width(), maze.Height()))
    ensures Marked(old(maze.cells), maze.cells,
                   Unvisited(old(maze.cells), maze.Width(), maze.Height(), Neighbours4(c, maze.Width(), maze.Height())))
  {
    var w, h := maze.Width(), maze.Height();
    ghost var before := maze.cells;
    ghost var cand := Candidates(c);
    CandidatesSpec(c);
    InBoxSpec(cand[..0], w, h);
    MarkedNothing(before);
    frontier' := frontier;
    ghost var done: seq<Pos> := [];
    for dir := 0 to 4
      invariant IsGridOf(maze.cells, w, h)
      invariant AllInBox(InBox(cand[..dir], w, h), w, h)
      invariant done == Unvisited(before, w, h, InBox(cand[..dir], w, h))
      invariant frontier' == frontier + done
      invariant Marked(before, maze.cells, done)
    {
      UnvisitedStep(before, w, h, cand, dir);
      var neighbourX, neighbourY := Step(c, dir).x, Step(c, dir).y;
      if neighbourX < 0 || neighbourX >= w || neighbourY < 0 || neighbourY >= h {
        continue;
      }
      var q := Pos(neighbourX, neighbourY);
      assert q == cand[dir];
      NotYetListed(before, w, h, cand, dir);
      MarkedAt(before, maze.cells, done, q);
      var neighbour := maze.cells[neighbourY][neighbourX];
      if !neighbour.inMaze && !neighbour.inFrontier {
        MarkOne(before, maze.cells, w, h, done, q);
        maze.cells := SetCell(maze.cells, q, neighbour.(inFrontier := true));
        ConcatAssoc(frontier, done, [q]);
        frontier' := frontier' + [q];
        done := done + [q];
      }
    }
    assert cand[..4] == cand;
  }

  lemma ConcatAssoc<T>(a: seq<T>, b: seq<T>, c: seq<T>)
    ensures (a + b) + c == a + (b + c)
  {
  }

  lemma MarkedNothing(cells: seq<seq<Cell>>)
    ensures Marked(cells, cells, [])
  {
  }

  /** The cell at q is as it was before, as long as q is not marked. */
  lemma MarkedAt(before: seq<seq<Cell>>, after: seq<seq<Cell>>, marked: seq<Pos>, q: Pos)
    requires Marked(before, after, marked) && ValidRef(before, q) && q !in marked
    ensures ValidRef(after, q) && after[q.y][q.x] == before[q.y][q.x]
  {
  }

  /** The candidate in direction dir is not among the cells the earlier directions listed. */
  lemma NotYetListed(cells: seq<seq<Cell>>, w: int, h: int, cand: seq<Pos>, dir: nat)
    requires IsGridOf(cells, w, h) && NoDup(cand) && dir < |cand|
    ensures AllInBox(InBox(cand[..dir], w, h), w, h)
    ensures cand[dir] !in Unvisited(cells, w, h, InBox(cand[..dir], w, h))
  {
    InBoxSpec(cand[..dir], w, h);
    UnvisitedSpec(cells, w, h, InBox(cand[..dir], w, h));
  }

  lemma UnvisitedSnoc(cells: seq<seq<Cell>>, w: int, h: int, ps: seq<Pos>, q: Pos)
    requires IsGridOf(cells, w, h) && AllInBox(ps, w, h) && InBounds(q, w, h)
    ensures AllInBox(ps + [q], w, h)
    ensures Unvisited(cells, w, h, ps + [q]) ==
              Unvisited(cells, w, h, ps) + (if !cells[q.y][q.x].inMaze && !cells[q.y][q.x].inFrontier then [q] else [])
  {
    assert (ps + [q])[..|ps|] == ps;
  }

  lemma InMazeAmongSnoc(cells: seq<seq<Cell>>, w: int, h: int, ps: seq<Pos>, q: Pos)
    requires IsGridOf(cells, w, h) && AllInBox(ps, w, h) && InBounds(q, w, h)
    ensures AllInBox(ps + [q], w, h)
    ensures InMazeAmong(cells, w, h, ps + [q]) ==
              InMazeAmong(cells, w, h, ps) + (if cells[q.y][q.x].inMaze then [q] else [])
  {
    assert (ps + [q])[..|ps|] == ps;
  }

  /** What direction dir adds to the unvisited neighbours listed by the earlier directions. */
  lemma UnvisitedStep(cells: seq<seq<Cell>>, w: int, h: int, cand: seq<Pos>, dir: nat)
    requires IsGridOf(cells, w, h) && dir < |cand|
    ensures AllInBox(InBox(cand[..dir], w, h), w, h) && AllInBox(InBox(cand[..dir + 1], w, h), w, h)
    ensures var q := cand[dir];
      Unvisited(cells, w, h, InBox(cand[..dir + 1], w, h)) ==
        Unvisited(cells, w, h, InBox(cand[..dir], w, h)) +
        (if InBounds(q, w, h) && !cells[q.y][q.x].inMaze && !cells[q.y][q.x].inFrontier then [q] else [])
  {
    var q := cand[dir];
    var ps := InBox(cand[..dir], w, h);
    assert cand[..dir + 1] == cand[..dir] + [q];
    InBoxSnoc(cand[..dir], q, w, h);
    InBoxSpec(cand[..dir], w, h);
    InBoxSpec(cand[..dir + 1], w, h);
    assert InBox(cand[..dir + 1], w, h) == ps + (if InBounds(q, w, h) then [q] else []);
    if InBounds(q, w, h) {
      UnvisitedSnoc(cells, w, h, ps, q);
    } else {
      assert InBox(cand[..dir + 1], w, h) == ps;
    }
  }

  /** What direction dir adds to the in-maze neighbours listed by the earlier directions. */
  lemma InMazeAmongStep(cells: seq<seq<Cell>>, w: int, h: int, cand: seq<Pos>, dir: nat)
    requires IsGridOf(cells, w, h) && dir < |cand|
    ensures AllInBox(InBox(cand[..dir], w, h), w, h) && AllInBox(InBox(cand[..dir + 1], w, h), w, h)
    ensures var q := cand[dir];
      InMazeAmong(cells, w, h, InBox(cand[..dir + 1], w, h)) ==
        InMazeAmong(cells, w, h, InBox(cand[..dir], w, h)) +
        (if InBounds(q, w, h) && cells[q.y][q.x].inMaze then [q] else [])
  {
    var q := cand[dir];
    var ps := InBox(cand[..dir], w, h);
    assert cand[..dir + 1] == cand[..dir] + [q];
    InBoxSnoc(cand[..dir], q, w, h);
    InBoxSpec(cand[..dir], w, h);
    InBoxSpec(cand[..dir + 1], w, h);
    assert InBox(cand[..dir + 1], w, h) == ps + (if InBounds(q, w, h) then [q] else []);
    if InBounds(q, w, h) {
      InMazeAmongSnoc(cells, w, h, ps, q);
    } else {
      assert InBox(cand[..dir + 1], w, h) == ps;
    }
  }

  /** Raising the inFrontier flag of one more unmarked cell extends the marking by that cell. */
  lemma MarkOne(before: seq<seq<Cell>>, cells: seq<seq<Cell>>, w: int, h: int, marked: seq<Pos>, q: Pos)
    requires IsGridOf(before, w, h) && IsGridOf(cells, w, h) && InBounds(q, w, h)
    requires Marked(before, cells, marked) && q !in marked
    ensures ValidRef(cells, q)
    ensures IsGridOf(SetCell(cells, q, cells[q.y][q.x].(inFrontier := true)), w, h)
    ensures Marked(before, SetCell(cells, q, cells[q.y][q.x].(inFrontier := true)), marked + [q])
  {
    GridRef(cells, w, h, q);
    var c := cells[q.y][q.x].(inFrontier := true);
    SetCellKeepsGrid(cells, w, h, q, c);
    var r := SetCell(cells, q, c);
    forall y, x | 0 <= y < |before| && 0 <= x < |before[y]|
      ensures r[y][x] == if Pos(x, y) in marked + [q] then before[y][x].(inFrontier := true) else before[y][x]
    {
      assert CellAt(r, Pos(x, y)) == r[y][x];
    }
  }

  /**
   * The first loop of an iteration of GeneratePrim: the in-bounds 4-neighbours of c that
   * are in the maze, in the order +x, +y, -x, -y.
   */
  method CollectMazeNeighbours(maze: Maze, c: Pos) returns (mazeNeighbours: seq<Pos>)
    requires IsGridOf(maze.cells, maze.Width(), maze.Height()) && InBounds(c, maze.Width(), maze.Height())
    ensures AllInBox(Neighbours4(c, maze.Width(), maze.Height()), maze.Width(), maze.Height())
    ensures mazeNeighbours == InMazeAmong(maze.cells, maze.Width(), maze.Height(), Neighbours4(c, maze.Width(), maze.Height()))
  {
    var w, h := maze.Width(), maze.Height();
    var cells := maze.cells;
    ghost var cand := Candidates(c);
    InBoxSpec(cand[..0], w, h);
    mazeNeighbours := [];
    for dir := 0 to 4
      invariant AllInBox(InBox(cand[..dir], w, h), w, h)
      invariant mazeNeighbours == InMazeAmong(cells, w, h, InBox(cand[..dir], w, h))
    {
      InMazeAmongStep(cells, w, h, cand, dir);
      var neighbourX, neighbourY := Step(c, dir).x, Step(c, dir).y;
      if neighbourX < 0 || neighbourX >= w || neighbourY < 0 || neighbourY >= h {
        continue;
      }
      var neighbour := cells[neighbourY][neighbourX];
      if neighbour.inMaze {
        mazeNeighbours := mazeNeighbours + [Pos(neighbourX, neighbourY)];
      }
    }
    assert cand[..4] == cand;
  }

  /** A draw of `uniform_int_distribution<int>(lo, hi)`: any value of [lo, hi]. */
  method Uniform(lo: int, hi: int) returns (r: int)
    requires lo <= hi
    ensures lo <= r <= hi
  {
    r :| lo <= r <= hi;
  }

  /**
   * `frontier[idx] = frontier.back(); frontier.pop_back();`: the last entry moves into
   * slot idx and the sequence shrinks by one, so exactly the entry at idx is removed.
   */
  function SwapRemove<T>(s: seq<T>, idx: nat): (r: seq<T>)
    requires idx < |s|
    ensures |r| == |s| - 1
    ensures forall j :: 0 <= j < |r| ==> r[j] == if j == idx then s[|s| - 1] else s[j]
    ensures multiset(r) == multiset(s) - multiset{s[idx]}
  {
    if idx == |s| - 1 then
      assert s == s[..idx] + [s[idx]];
      s[..idx]
    else
      var last := |s| - 1;
      SwapMiddle(s, idx);
      s[..idx] + [s[last]] + s[idx + 1..last]
  }

  /** The entry at idx, not the last one, is overwritten by the last one, which is then dropped. */
  lemma SwapMiddle<T>(s: seq<T>, idx: nat)
    requires idx < |s| - 1
    ensures var r := s[..idx] + [s[|s| - 1]] + s[idx + 1..|s| - 1];
      && |r| == |s| - 1
      && (forall j :: 0 <= j < |r| ==> r[j] == if j == idx then s[|s| - 1] else s[j])
      && multiset(r) == multiset(s) - multiset{s[idx]}
  {
    var last := |s| - 1;
    var a, x, b, y := s[..idx], s[idx], s[idx + 1..last], s[last];
    assert s == a + [x] + b + [y];
    assert multiset(a + [y] + b) == multiset(a) + multiset{y} + multiset(b);
    assert multiset(a + [x] + b + [y]) == multiset(a) + multiset{x} + multiset(b) + multiset{y};
  }

  lemma SwapRemoveKeepsOthers<T>(s: seq<T>, idx: nat, x: T)
    requires idx < |s| && NoDup(s)
    ensures NoDup(SwapRemove(s, idx))
    ensures x in SwapRemove(s, idx) <==> x in s && x != s[idx]
  {
    SwapRemoveNoDup(s, idx);
    SwapRemoveMember(s, idx, x);
  }

  lemma SwapRemoveNoDup<T>(s: seq<T>, idx: nat)
    requires idx < |s| && NoDup(s)
    ensures NoDup(SwapRemove(s, idx))
  {
    var r := SwapRemove(s, idx);
    var last := |s| - 1;
    forall i, j | 0 <= i < j < |r|
      ensures r[i] != r[j]
    {
      var i' := if i == idx then last else i;
      var j' := if j == idx then last else j;
      assert r[i] == s[i'] && r[j] == s[j'] && i' != j';
    }
  }

  lemma SwapRemoveMember<T>(s: seq<T>, idx: nat, x: T)
    requires idx < |s| && NoDup(s)
    ensures x in SwapRemove(s, idx) <==> x in s && x != s[idx]
  {
    var r := SwapRemove(s, idx);
    var last := |s| - 1;
    if x in s && x != s[idx] {
      var k :| 0 <= k < |s| && s[k] == x;
      if k == last {
        assert r[idx] == x;
      } else {
        assert r[k] == x;
      }
    }
    if x in r {
      var j :| 0 <= j < |r| && r[j] == x;
      if j == idx {
        assert x == s[last] && idx < last;
      } else {
        assert x == s[j];
      }
    }
  }

  // ----- Sets of cells by flag -----

  ghost function InMazeSet(cells: seq<seq<Cell>>, w: int, h: int): set<Pos>
    requires IsGridOf(cells, w, h)
  {
    set p | p in AllPos(w, h) && InBounds(p, w, h) && cells[p.y][p.x].inMaze
  }

  ghost function FlaggedSet(cells: seq<seq<Cell>>, w: int, h: int): set<Pos>
    requires IsGridOf(cells, w, h)
  {
    set p | p in AllPos(w, h) && InBounds(p, w, h) && cells[p.y][p.x].inFrontier
  }

  /** IM and FL are the in-maze cells and the flagged (inFrontier) cells of the grid. */
  ghost predicate Tracks(cells: seq<seq<Cell>>, w: int, h: int, IM: set<Pos>, FL: set<Pos>) {
    && IsGridOf(cells, w, h)
    && (forall p :: p in IM ==> InBounds(p, w, h))
    && (forall p :: p in FL ==> InBounds(p, w, h))
    && forall y, x :: 0 <= y < h && 0 <= x < w ==>
         (cells[y][x].inMaze <==> Pos(x, y) in IM) && (cells[y][x].inFrontier <==> Pos(x, y) in FL)
  }

  lemma SetsTracked(cells: seq<seq<Cell>>, w: int, h: int)
    requires IsGridOf(cells, w, h)
    ensures Tracks(cells, w, h, InMazeSet(cells, w, h), FlaggedSet(cells, w, h))
  {
    forall p | InBounds(p, w, h) {
      InAllPos(p, w, h);
    }
  }

  lemma TrackedSets(cells: seq<seq<Cell>>, w: int, h: int, IM: set<Pos>, FL: set<Pos>)
    requires Tracks(cells, w, h, IM, FL)
    ensures IM == InMazeSet(cells, w, h) && FL == FlaggedSet(cells, w, h)
  {
    forall p
      ensures (p in IM <==> p in InMazeSet(cells, w, h)) && (p in FL <==> p in FlaggedSet(cells, w, h))
    {
      InAllPos(p, w, h);
    }
  }

  /** Setting both flags of the cell at p changes the tracked sets at p only. */
  lemma TracksSetFlags(cells: seq<seq<Cell>>, w: int, h: int, IM: set<Pos>, FL: set<Pos>, p: Pos, m: bool, f: bool)
    requires Tracks(cells, w, h, IM, FL) && InBounds(p, w, h)
    ensures ValidRef(cells, p)
    ensures Tracks(SetCell(cells, p, cells[p.y][p.x].(inMaze := m, inFrontier := f)), w, h,
                   if m then IM + {p} else IM - {p}, if f then FL + {p} else FL - {p})
  {
    GridRef(cells, w, h, p);
    var c := cells[p.y][p.x].(inMaze := m, inFrontier := f);
    SetCellKeepsGrid(cells, w, h, p, c);
    var r := SetCell(cells, p, c);
    forall q | InBounds(q, w, h)
      ensures r[q.y][q.x] == if q == p then c else cells[q.y][q.x]
    {
      GridRef(cells, w, h, q);
      assert CellAt(r, q) == r[q.y][q.x];
    }
  }

  /** `start->inMaze = true`: the start joins the maze, its inFrontier flag is kept. */
  lemma TracksSetInMaze(cells: seq<seq<Cell>>, w: int, h: int, IM: set<Pos>, FL: set<Pos>, p: Pos)
    requires Tracks(cells, w, h, IM, FL) && InBounds(p, w, h)
    ensures ValidRef(cells, p)
    ensures Tracks(SetCell(cells, p, cells[p.y][p.x].(inMaze := true)), w, h, IM + {p}, FL)
  {
    GridRef(cells, w, h, p);
    var f := cells[p.y][p.x].inFrontier;
    assert cells[p.y][p.x].(inMaze := true) == cells[p.y][p.x].(inMaze := true, inFrontier := f);
    TracksSetFlags(cells, w, h, IM, FL, p, true, f);
    assert (if f then FL + {p} else FL - {p}) == FL;
  }

  /** AddFrontierNeighbours' marking flags exactly the marked cells. */
  lemma TracksMarked(c1: seq<seq<Cell>>, c2: seq<seq<Cell>>, w: int, h: int, IM: set<Pos>, FL: set<Pos>, added: seq<Pos>)
    requires Tracks(c1, w, h, IM, FL) && Marked(c1, c2, added) && AllInBox(added, w, h)
    ensures Tracks(c2, w, h, IM, FL + Elems(added))
  {
    forall q | q in added
      ensures InBounds(q, w, h)
    {
      var i :| 0 <= i < |added| && added[i] == q;
    }
    forall q | InBounds(q, w, h)
      ensures (c2[q.y][q.x].inMaze <==> q in IM) && (c2[q.y][q.x].inFrontier <==> q in FL + Elems(added))
    {
      assert Pos(q.x, q.y) == q;
    }
  }

  /** The cells AddFrontierNeighbours appends for p: its neighbours neither in the maze nor flagged, once each. */
  lemma TracksAdded(cells: seq<seq<Cell>>, w: int, h: int, IM: set<Pos>, FL: set<Pos>, p: Pos)
    requires Tracks(cells, w, h, IM, FL)
    ensures AllInBox(Neighbours4(p, w, h), w, h)
    ensures NoDup(Unvisited(cells, w, h, Neighbours4(p, w, h)))
    ensures AllInBox(Unvisited(cells, w, h, Neighbours4(p, w, h)), w, h)
    ensures forall q :: q in Unvisited(cells, w, h, Neighbours4(p, w, h)) <==>
              q in Neighbours4(p, w, h) && q !in IM && q !in FL
  {
    Neighbours4Spec(p, w, h);
    UnvisitedSpec(cells, w, h, Neighbours4(p, w, h));
    InBoxSpec(Unvisited(cells, w, h, Neighbours4(p, w, h)), w, h);
    forall i | 0 <= i < |Unvisited(cells, w, h, Neighbours4(p, w, h))|
      ensures InBounds(Unvisited(cells, w, h, Neighbours4(p, w, h))[i], w, h)
    {
      assert Unvisited(cells, w, h, Neighbours4(p, w, h))[i] in Neighbours4(p, w, h);
    }
  }

  /** The cells CollectMazeNeighbours gathers for p: its neighbours in the maze. */
  lemma TracksMazeNeighbours(cells: seq<seq<Cell>>, w: int, h: int, IM: set<Pos>, FL: set<Pos>, p: Pos)
    requires Tracks(cells, w, h, IM, FL)
    ensures AllInBox(Neighbours4(p, w, h), w, h)
    ensures forall q :: q in InMazeAmong(cells, w, h, Neighbours4(p, w, h)) <==> q in Neighbours4(p, w, h) && q in IM
  {
    Neighbours4Spec(p, w, h);
    InMazeAmongSpec(cells, w, h, Neighbours4(p, w, h));
  }

  // ----- Connectivity of the grid itself -----

  /** Every in-bounds 4-neighbour of a member of S is in S. */
  ghost predicate ClosedUnderNeighbours(S: set<Pos>, w: int, h: int) {
    forall p, q :: p in S && q in Neighbours4(p, w, h) ==> q in S
  }

  lemma {:induction false} LineFill(S: set<Pos>, w: int, h: int, p: Pos, q: Pos)
    requires ClosedUnderNeighbours(S, w, h)
    requires p in S && InBounds(p, w, h) && InBounds(q, w, h) && (p.x == q.x || p.y == q.y)
    ensures q in S
    decreases (if p.x < q.x then q.x - p.x else p.x - q.x) + (if p.y < q.y then q.y - p.y else p.y - q.y)
  {
    if p != q {
      var next :=
        if p.x < q.x then Pos(p.x + 1, p.y)
        else if p.x > q.x then Pos(p.x - 1, p.y)
        else if p.y < q.y then Pos(p.x, p.y + 1)
        else Pos(p.x, p.y - 1);
      Neighbours4Spec(p, w, h);
      assert next in Neighbours4(p, w, h);
      LineFill(S, w, h, next, q);
    }
  }

  /**
   * The grid is connected: a set of cells that holds one cell of the box and every
   * in-bounds neighbour of each of its members holds the whole box.
   */
  lemma GridClosure(S: set<Pos>, w: int, h: int, s: Pos)
    requires ClosedUnderNeighbours(S, w, h) && s in S && InBounds(s, w, h)
    ensures forall p :: InBounds(p, w, h) ==> p in S
  {
    forall p | InBounds(p, w, h)
      ensures p in S
    {
      LineFill(S, w, h, s, Pos(p.x, s.y));
      LineFill(S, w, h, Pos(p.x, s.y), p);
    }
  }

  // ----- The state of Prim's loop -----

  /** Some in-bounds 4-neighbour of e belongs to S. */
  ghost predicate HasMazeNeighbour(S: set<Pos>, e: Pos, w: int, h: int) {
    exists q :: q in Neighbours4(e, w, h) && q in S
  }

  /** Passage p has two endpoints, adjacent cells of the box that both belong to S. */
  ghost predicate GoodPassage(p: Passage, S: set<Pos>, w: int, h: int) {
    && p.c1.Some? && p.c2.Some?
    && InBounds(p.c1.value, w, h) && InBounds(p.c2.value, w, h)
    && Adjacent(p.c1.value, p.c2.value)
    && p.c1.value in S && p.c2.value in S
  }

  /** `passages` is `P0` followed by good passages only. */
  ghost predicate Extends(passages: seq<Passage>, P0: seq<Passage>, S: set<Pos>, w: int, h: int) {
    && |P0| <= |passages| && passages[..|P0|] == P0
    && forall k :: |P0| <= k < |passages| ==> GoodPassage(passages[k], S, w, h)
  }

  /**
   * The frontier lists each entry once; no entry is in the maze (IM) or among the cells
   * flagged before the start (F0), and every entry has a neighbour in the maze.
   */
  ghost predicate FrontierOk(frontier: seq<Pos>, IM: set<Pos>, F0: set<Pos>, w: int, h: int) {
    && NoDup(frontier)
    && forall e :: e in frontier ==>
         InBounds(e, w, h) && e !in IM && e !in F0 && HasMazeNeighbour(IM, e, w, h)
  }

  /** Every in-bounds neighbour of a member of T is in the maze (IM) or flagged (FL). */
  ghost predicate Enclosed(T: set<Pos>, IM: set<Pos>, FL: set<Pos>, w: int, h: int) {
    forall p, q :: p in T && q in Neighbours4(p, w, h) ==> q in IM || q in FL
  }

  /** The maze was just built by MakeGrid: no flags raised and no passages yet. */
  ghost predicate FreshStart(M0: set<Pos>, F0: set<Pos>, P0: seq<Passage>) {
    M0 == {} && F0 == {} && P0 == []
  }

  /**
   * The invariant of the main loop of GeneratePrim. M0, F0 and P0 are the in-maze cells, the
   * flagged cells and the passages of the maze on entry, s the start cell, G the cells that
   * joined the maze since, and `last` the variable `lastVisited`. The maze is M0 + {s} + G;
   * the flagged cells are the frontier and F0. The last passage made starts at `last`, the cell
   * that joined most recently.
   */
  ghost predicate PrimInv(cells: seq<seq<Cell>>, w: int, h: int, frontier: seq<Pos>, passages: seq<Passage>,
                          s: Pos, last: Pos, G: set<Pos>, M0: set<Pos>, F0: set<Pos>, P0: seq<Passage>)
  {
    && 1 <= w && 1 <= h && InBounds(s, w, h)
    && Tracks(cells, w, h, M0 + {s} + G, Elems(frontier) + F0)
    && G !! (M0 + {s})
    && FrontierOk(frontier, M0 + {s} + G, F0, w, h)
    && Enclosed(G + {s}, M0 + {s} + G, Elems(frontier) + F0, w, h)
    && Extends(passages, P0, M0 + {s} + G, w, h) && |passages| - |P0| == |G|
    && (if G == {} then last == s else last in G)
    && (G != {} ==> |passages| > |P0| && passages[|passages| - 1].c1 == Some(last))
    && (FreshStart(M0, F0, P0) ==> forall p :: p in G + {s} ==> Reachable(passages, s, p))
  }

  /** The number of cells that are neither in the maze nor flagged; it never grows. */
  ghost function Unreached(w: int, h: int, frontier: seq<Pos>, s: Pos, G: set<Pos>, M0: set<Pos>, F0: set<Pos>): nat {
    |AllPos(w, h) - (M0 + {s} + G) - (Elems(frontier) + F0)|
  }

  lemma NoDupConcat<T>(a: seq<T>, b: seq<T>)
    requires NoDup(a) && NoDup(b) && forall x :: x in a ==> x !in b
    ensures NoDup(a + b)
  {
    forall i, j | 0 <= i < j < |a + b|
      ensures (a + b)[i] != (a + b)[j]
    {
      if i < |a| && j >= |a| {
        assert (a + b)[i] in a && (a + b)[j] in b;
      }
    }
  }

  /** The state after the start cell joins and its neighbours form the first frontier. */
  lemma StartInv(cells: seq<seq<Cell>>, w: int, h: int, s: Pos, frontier: seq<Pos>,
                 M0: set<Pos>, F0: set<Pos>, P0: seq<Passage>)
    requires 1 <= w && 1 <= h && InBounds(s, w, h)
    requires Tracks(cells, w, h, M0 + {s}, F0 + Elems(frontier))
    requires NoDup(frontier)
    requires forall q :: q in frontier <==> q in Neighbours4(s, w, h) && q !in M0 + {s} && q !in F0
    ensures PrimInv(cells, w, h, frontier, P0, s, s, {}, M0, F0, P0)
  {
    assert M0 + {s} + {} == M0 + {s};
    assert Elems(frontier) + F0 == F0 + Elems(frontier);
    forall e | e in frontier
      ensures HasMazeNeighbour(M0 + {s}, e, w, h)
    {
      NeighboursSymmetric(s, e, w, h);
    }
    assert {} + {s} == {s};
    if FreshStart(M0, F0, P0) {
      assert IsWalk(P0, [s]);
    }
  }

  /** The frontier after p = frontier[idx] joins the maze and its free neighbours are appended. */
  lemma FrontierStep(frontier: seq<Pos>, IM: set<Pos>, FL: set<Pos>, F0: set<Pos>, w: int, h: int,
                     idx: nat, added: seq<Pos>)
    requires FrontierOk(frontier, IM, F0, w, h) && idx < |frontier|
    requires FL == Elems(frontier) + F0
    requires NoDup(added)
    requires forall q :: q in added <==> q in Neighbours4(frontier[idx], w, h) && q !in IM + {frontier[idx]} && q !in FL - {frontier[idx]}
    ensures FrontierOk(SwapRemove(frontier + added, idx), IM + {frontier[idx]}, F0, w, h)
    ensures Elems(SwapRemove(frontier + added, idx)) == Elems(frontier) - {frontier[idx]} + Elems(added)
  {
    var p := frontier[idx];
    var all := frontier + added;
    var f3 := SwapRemove(all, idx);
    NoDupConcat(frontier, added);
    forall x
      ensures x in f3 <==> x in all && x != p
    {
      SwapRemoveKeepsOthers(all, idx, x);
    }
    forall e | e in f3
      ensures InBounds(e, w, h) && e !in IM + {p} && e !in F0
      ensures HasMazeNeighbour(IM + {p}, e, w, h)
    {
      if e in added {
        Neighbours4Spec(p, w, h);
        NeighboursSymmetric(p, e, w, h);
        assert p in Neighbours4(e, w, h);
      } else {
        var q :| q in Neighbours4(e, w, h) && q in IM;
        assert q in IM + {p};
      }
    }
  }

  /** The cells around p are enclosed once p joins and its free neighbours are flagged. */
  lemma EnclosedStep(T: set<Pos>, IM: set<Pos>, FL: set<Pos>, w: int, h: int, p: Pos, added: seq<Pos>)
    requires Enclosed(T, IM, FL, w, h)
    requires forall q :: q in Neighbours4(p, w, h) && q !in IM + {p} && q !in FL - {p} ==> q in added
    ensures Enclosed(T + {p}, IM + {p}, FL - {p} + Elems(added), w, h)
  {
  }

  lemma ExtendsStep(passages: seq<Passage>, P0: seq<Passage>, S: set<Pos>, S2: set<Pos>, w: int, h: int, np: Passage)
    requires Extends(passages, P0, S, w, h) && S <= S2 && GoodPassage(np, S2, w, h)
    ensures Extends(passages + [np], P0, S2, w, h)
  {
    var ps := passages + [np];
    assert ps[..|P0|] == passages[..|P0|];
    forall k | |P0| <= k < |ps|
      ensures GoodPassage(ps[k], S2, w, h)
    {
      if k < |passages| {
        assert ps[k] == passages[k];
      }
    }
  }

  /** Joining p through a passage to an already reachable neighbour keeps every joined cell reachable. */
  lemma ReachStep(passages: seq<Passage>, s: Pos, T: set<Pos>, p: Pos, neighbour: Pos)
    requires forall x :: x in T ==> Reachable(passages, s, x)
    requires neighbour in T
    ensures forall x :: x in T + {p} ==> Reachable(passages + [Passage(Some(p), Some(neighbour))], s, x)
  {
    var np := Passage(Some(p), Some(neighbour));
    var ps := passages + [np];
    forall x | x in T
      ensures Reachable(ps, s, x)
    {
      var wk :| IsWalk(passages, wk) && wk[0] == s && wk[|wk| - 1] == x;
      WalkExtends(passages, [np], wk);
    }
    var wk :| IsWalk(ps, wk) && wk[0] == s && wk[|wk| - 1] == neighbour;
    assert ps[|passages|] == np && Links(np, neighbour, p);
    WalkSnoc(ps, wk, p);
    assert (wk + [p])[0] == s;
  }

  /** Union of the maze and the flagged cells after a join: the old union plus the appended cells. */
  lemma UnreachedStep(w: int, h: int, IM: set<Pos>, FL: set<Pos>, p: Pos, added: seq<Pos>, FL2: set<Pos>)
    requires p in FL && FL2 == FL - {p} + Elems(added)
    requires forall q :: q in added ==> InBounds(q, w, h) && q !in IM && q !in FL
    ensures |AllPos(w, h) - (IM + {p}) - FL2| <= |AllPos(w, h) - IM - FL|
    ensures added != [] ==> |AllPos(w, h) - (IM + {p}) - FL2| < |AllPos(w, h) - IM - FL|
  {
    assert AllPos(w, h) - (IM + {p}) - FL2 == AllPos(w, h) - IM - FL - Elems(added);
    if added != [] {
      InAllPos(added[0], w, h);
      assert added[0] in AllPos(w, h) - IM - FL;
    }
  }

  /** The maze and frontier parts of the invariant after p = frontier[idx] joins. */
  lemma JoinCells(w: int, h: int, frontier: seq<Pos>, s: Pos, G: set<Pos>, M0: set<Pos>, F0: set<Pos>,
                  idx: nat, added: seq<Pos>)
    requires idx < |frontier| && InBounds(s, w, h)
    requires G !! (M0 + {s})
    requires FrontierOk(frontier, M0 + {s} + G, F0, w, h)
    requires Enclosed(G + {s}, M0 + {s} + G, Elems(frontier) + F0, w, h)
    requires NoDup(added)
    requires forall q :: q in added <==>
               q in Neighbours4(frontier[idx], w, h) && q !in M0 + {s} + G + {frontier[idx]} &&
               q !in Elems(frontier) + F0 - {frontier[idx]}
    ensures Elems(SwapRemove(frontier + added, idx)) + F0 == Elems(frontier) + F0 - {frontier[idx]} + Elems(added)
    ensures M0 + {s} + (G + {frontier[idx]}) == M0 + {s} + G + {frontier[idx]}
    ensures (G + {frontier[idx]}) !! (M0 + {s})
    ensures FrontierOk(SwapRemove(frontier + added, idx), M0 + {s} + (G + {frontier[idx]}), F0, w, h)
    ensures Enclosed(G + {frontier[idx]} + {s}, M0 + {s} + (G + {frontier[idx]}),
                     Elems(SwapRemove(frontier + added, idx)) + F0, w, h)
  {
    var p := frontier[idx];
    var IM, FL := M0 + {s} + G, Elems(frontier) + F0;
    assert p in frontier;
    FrontierStep(frontier, IM, FL, F0, w, h, idx, added);
    assert M0 + {s} + (G + {p}) == IM + {p};
    EnclosedStep(G + {s}, IM, FL, w, h, p, added);
    assert G + {p} + {s} == G + {s} + {p};
  }

  /** The passage part of the invariant after p joins through `neighbour`. */
  lemma JoinPassages(w: int, h: int, passages: seq<Passage>, s: Pos, last: Pos, G: set<Pos>,
                     M0: set<Pos>, F0: set<Pos>, P0: seq<Passage>, p: Pos, neighbour: Pos)
    requires InBounds(p, w, h) && p !in M0 + {s} + G
    requires neighbour in Neighbours4(p, w, h) && neighbour in M0 + {s} + G
    requires Extends(passages, P0, M0 + {s} + G, w, h) && |passages| - |P0| == |G|
    requires FreshStart(M0, F0, P0) ==> forall x :: x in G + {s} ==> Reachable(passages, s, x)
    ensures Extends(passages + [Passage(Some(p), Some(neighbour))], P0, M0 + {s} + (G + {p}), w, h)
    ensures |passages + [Passage(Some(p), Some(neighbour))]| - |P0| == |G + {p}|
    ensures FreshStart(M0, F0, P0) ==>
              forall x :: x in G + {p} + {s} ==> Reachable(passages + [Passage(Some(p), Some(neighbour))], s, x)
  {
    Neighbours4Spec(p, w, h);
    var IM := M0 + {s} + G;
    assert M0 + {s} + (G + {p}) == IM + {p};
    ExtendsStep(passages, P0, IM, IM + {p}, w, h, Passage(Some(p), Some(neighbour)));
    assert p !in G;
    if FreshStart(M0, F0, P0) {
      ReachStep(passages, s, G + {s}, p, neighbour);
      assert G + {p} + {s} == G + {s} + {p};
    }
  }

  /** One iteration of the main loop in which p = frontier[idx] joins the maze through `neighbour`. */
  lemma JoinStep(cells: seq<seq<Cell>>, w: int, h: int, frontier: seq<Pos>, passages: seq<Passage>,
                 s: Pos, last: Pos, G: set<Pos>, M0: set<Pos>, F0: set<Pos>, P0: seq<Passage>,
                 idx: nat, neighbour: Pos, added: seq<Pos>, cells2: seq<seq<Cell>>)
    requires PrimInv(cells, w, h, frontier, passages, s, last, G, M0, F0, P0) && idx < |frontier|
    requires neighbour in Neighbours4(frontier[idx], w, h) && neighbour in M0 + {s} + G
    requires NoDup(added)
    requires forall q :: q in added <==>
               q in Neighbours4(frontier[idx], w, h) && q !in M0 + {s} + G + {frontier[idx]} &&
               q !in Elems(frontier) + F0 - {frontier[idx]}
    requires Tracks(cells2, w, h, M0 + {s} + G + {frontier[idx]}, Elems(frontier) + F0 - {frontier[idx]} + Elems(added))
    ensures PrimInv(cells2, w, h, SwapRemove(frontier + added, idx),
                    passages + [Passage(Some(frontier[idx]), Some(neighbour))],
                    s, frontier[idx], G + {frontier[idx]}, M0, F0, P0)
  {
    var p := frontier[idx];
    assert p in frontier;
    JoinCells(w, h, frontier, s, G, M0, F0, idx, added);
    JoinPassages(w, h, passages, s, last, G, M0, F0, P0, p, neighbour);
  }

  /** A join never lets the cells outside maze and frontier grow, and it shrinks them or the frontier. */
  lemma JoinProgress(w: int, h: int, frontier: seq<Pos>, s: Pos, G: set<Pos>, M0: set<Pos>, F0: set<Pos>,
                     idx: nat, added: seq<Pos>)
    requires idx < |frontier| && frontier[idx] !in M0 + {s} + G && frontier[idx] !in F0
    requires NoDup(frontier) && NoDup(added)
    requires forall q :: q in added ==>
               InBounds(q, w, h) && q !in M0 + {s} + G + {frontier[idx]} && q !in Elems(frontier) + F0 - {frontier[idx]}
    ensures Unreached(w, h, SwapRemove(frontier + added, idx), s, G + {frontier[idx]}, M0, F0) <
              Unreached(w, h, frontier, s, G, M0, F0) ||
            (Unreached(w, h, SwapRemove(frontier + added, idx), s, G + {frontier[idx]}, M0, F0) ==
               Unreached(w, h, frontier, s, G, M0, F0) &&
             |SwapRemove(frontier + added, idx)| < |frontier|)
  {
    var p := frontier[idx];
    var IM, FL := M0 + {s} + G, Elems(frontier) + F0;
    var f3 := SwapRemove(frontier + added, idx);
    assert p in frontier;
    NoDupConcat(frontier, added);
    SwapRemoveElems(frontier + added, idx);
    assert Elems(frontier + added) == Elems(frontier) + Elems(added);
    assert M0 + {s} + (G + {p}) == IM + {p};
    UnreachedStep(w, h, IM, FL, p, added, Elems(f3) + F0);
  }

  /** Removing entry idx from a list without duplicates removes exactly that element. */
  lemma SwapRemoveElems(ps: seq<Pos>, idx: nat)
    requires idx < |ps| && NoDup(ps)
    ensures Elems(SwapRemove(ps, idx)) == Elems(ps) - {ps[idx]}
  {
    forall x
      ensures x in SwapRemove(ps, idx) <==> x in ps && x != ps[idx]
    {
      SwapRemoveKeepsOthers(ps, idx, x);
    }
  }


  /** Every cell is in the maze and none in the frontier; w*h - 1 passages connect them all to the start. */
  ghost predicate SpanningTree(cells: seq<seq<Cell>>, passages: seq<Passage>, w: int, h: int, start: Pos)
    requires IsGridOf(cells, w, h)
  {
    && (forall p :: InBounds(p, w, h) ==> cells[p.y][p.x].inMaze && !cells[p.y][p.x].inFrontier)
    && |passages| == w * h - 1
    && forall p :: InBounds(p, w, h) ==> Reachable(passages, start, p)
  }

  /** What GeneratePrim leaves behind on any initialised maze. */
  ghost predicate Generated(before: seq<seq<Cell>>, P0: seq<Passage>, after: seq<seq<Cell>>, passages: seq<Passage>,
                            w: int, h: int, start: Pos, finish: Pos)
    requires IsGridOf(before, w, h)
  {
    && IsGridOf(after, w, h)
    && InBounds(start, w, h) && InBounds(finish, w, h)
    && start in InMazeSet(after, w, h) && finish in InMazeSet(after, w, h)
    && InMazeSet(before, w, h) <= InMazeSet(after, w, h)
    && Extends(passages, P0, InMazeSet(after, w, h), w, h)
    && |passages| - |P0| == |InMazeSet(after, w, h)| - |InMazeSet(before, w, h) + {start}|
    && (finish == start <==> |passages| == |P0|)
    && (finish != start ==> passages[|passages| - 1].c1 == Some(finish))
  }

  /**
   * A grid fresh from MakeGrid, before any passage is made, is the fresh start under which
   * GeneratePrim promises a spanning tree: no cell is in the maze or in the frontier.
   */
  lemma MadeGridIsFresh(cells: seq<seq<Cell>>, w: int, h: int)
    requires 0 <= w && FreshGrid(cells, w, h)
    ensures IsGridOf(cells, w, h)
    ensures FreshStart(InMazeSet(cells, w, h), FlaggedSet(cells, w, h), [])
  {
    FreshGridIsGrid(cells, w, h);
  }

  /**
   * Every passage GeneratePrim adds joins two adjacent cells of the box, so on a maze that had
   * no passages the raster of PrintAsciiMaze can be drawn: every wall square is inside it.
   */
  lemma GeneratedWallsInRaster(before: seq<seq<Cell>>, after: seq<seq<Cell>>, passages: seq<Passage>,
                               w: int, h: int, start: Pos, finish: Pos)
    requires IsGridOf(before, w, h) && Generated(before, [], after, passages, w, h, start, finish)
    ensures Ascii.WallsInRaster(passages, w, h)
  {
    forall k | 0 <= k < |passages|
      ensures GoodPassage(passages[k], InMazeSet(after, w, h), w, h)
    {
    }
    Ascii.AdjacentWallsInRaster(passages, w, h);
  }

  /** On a 1-by-1 maze the only cell is both start and finish, and no passage is added. */
  lemma SingleCell(before: seq<seq<Cell>>, P0: seq<Passage>, after: seq<seq<Cell>>, passages: seq<Passage>,
                   start: Pos, finish: Pos)
    requires IsGridOf(before, 1, 1) && Generated(before, P0, after, passages, 1, 1, start, finish)
    ensures start == finish == Pos(0, 0)
    ensures passages == P0
  {
    assert start == Pos(start.x, start.y) && finish == Pos(finish.x, finish.y);
    assert passages[..|P0|] == P0;
  }

  /** When the frontier runs empty the loop invariant yields the generator's promises. */
  lemma FinishCommon(c0: seq<seq<Cell>>, cells: seq<seq<Cell>>, w: int, h: int, frontier: seq<Pos>, passages: seq<Passage>,
                     s: Pos, last: Pos, G: set<Pos>, M0: set<Pos>, F0: set<Pos>, P0: seq<Passage>)
    requires IsGridOf(c0, w, h) && M0 == InMazeSet(c0, w, h) && F0 == FlaggedSet(c0, w, h) && frontier == []
    requires PrimInv(cells, w, h, frontier, passages, s, last, G, M0, F0, P0)
    ensures Generated(c0, P0, cells, passages, w, h, s, last)
  {
    TrackedSets(cells, w, h, M0 + {s} + G, Elems(frontier) + F0);
    assert |M0 + {s} + G| == |M0 + {s}| + |G|;
  }

  /** On a maze fresh from MakeGrid the frontier running empty means a spanning tree. */
  lemma FinishFresh(cells: seq<seq<Cell>>, w: int, h: int, frontier: seq<Pos>, passages: seq<Passage>,
                    s: Pos, last: Pos, G: set<Pos>, M0: set<Pos>, F0: set<Pos>, P0: seq<Passage>)
    requires frontier == [] && FreshStart(M0, F0, P0)
    requires PrimInv(cells, w, h, frontier, passages, s, last, G, M0, F0, P0)
    ensures IsGridOf(cells, w, h) && SpanningTree(cells, passages, w, h, s)
  {
    assert M0 + {s} + G == G + {s};
    assert Elems(frontier) + F0 == {};
    FreshBox(cells, w, h, s, G);
    FreshFlags(cells, w, h, G + {s});
  }

  /** With the frontier empty, the maze grown from s is the whole box. */
  lemma FreshBox(cells: seq<seq<Cell>>, w: int, h: int, s: Pos, G: set<Pos>)
    requires InBounds(s, w, h) && s !in G
    requires forall p :: p in G + {s} ==> InBounds(p, w, h)
    requires Enclosed(G + {s}, G + {s}, {}, w, h)
    ensures G + {s} == AllPos(w, h) && |G| == w * h - 1
  {
    var IM := G + {s};
    EnclosedIsClosed(IM, w, h);
    assert IM <= AllPos(w, h) by {
      forall p | p in IM
        ensures p in AllPos(w, h)
      {
        InAllPos(p, w, h);
      }
    }
    ClosedIsBox(IM, w, h, s);
    assert |IM| == 1 + |G|;
  }

  /** When the maze is the whole box and nothing is flagged, every cell is in the maze and none in the frontier. */
  lemma FreshFlags(cells: seq<seq<Cell>>, w: int, h: int, IM: set<Pos>)
    requires Tracks(cells, w, h, IM, {}) && IM == AllPos(w, h)
    ensures forall p :: InBounds(p, w, h) ==> cells[p.y][p.x].inMaze && !cells[p.y][p.x].inFrontier
  {
    forall p | InBounds(p, w, h)
      ensures cells[p.y][p.x].inMaze && !cells[p.y][p.x].inFrontier
    {
      InAllPos(p, w, h);
      assert Pos(p.x, p.y) == p;
    }
  }

  lemma EnclosedIsClosed(S: set<Pos>, w: int, h: int)
    requires Enclosed(S, S, {}, w, h)
    ensures ClosedUnderNeighbours(S, w, h)
  {
  }

  /** A neighbour-closed set of in-box cells that holds one cell of the box is the whole box. */
  lemma ClosedIsBox(S: set<Pos>, w: int, h: int, s: Pos)
    requires ClosedUnderNeighbours(S, w, h) && s in S && InBounds(s, w, h)
    requires S <= AllPos(w, h)
    ensures S == AllPos(w, h) && |S| == w * h
  {
    GridClosure(S, w, h, s);
    forall p | p in AllPos(w, h)
      ensures p in S
    {
      InAllPos(p, w, h);
    }
    AllPosCard(w, h);
  }

  /** The promises of GeneratePrim once its loop has ended. */
  lemma Finish(c0: seq<seq<Cell>>, cells: seq<seq<Cell>>, w: int, h: int, passages: seq<Passage>,
               s: Pos, last: Pos, G: set<Pos>, M0: set<Pos>, F0: set<Pos>, P0: seq<Passage>)
    requires IsGridOf(c0, w, h) && M0 == InMazeSet(c0, w, h) && F0 == FlaggedSet(c0, w, h)
    requires PrimInv(cells, w, h, [], passages, s, last, G, M0, F0, P0)
    ensures Generated(c0, P0, cells, passages, w, h, s, last)
    ensures FreshStart(InMazeSet(c0, w, h), FlaggedSet(c0, w, h), P0) ==> SpanningTree(cells, passages, w, h, s)
  {
    FinishCommon(c0, cells, w, h, [], passages, s, last, G, M0, F0, P0);
    if FreshStart(M0, F0, P0) {
      FinishFresh(cells, w, h, [], passages, s, last, G, M0, F0, P0);
    }
  }

  /** The grid after `start->inMaze = true` (maze_generator.cpp line 33). */
  ghost function StartJoined(cells: seq<seq<Cell>>, p: Pos): seq<seq<Cell>>
    requires ValidRef(cells, p)
  {
    SetCell(cells, p, cells[p.y][p.x].(inMaze := true))
  }

  /** The grid after `nextF->inMaze = true; nextF->inFrontier = false` (maze_generator.cpp lines 67-68). */
  ghost function Incorporated(cells: seq<seq<Cell>>, p: Pos): seq<seq<Cell>>
    requires ValidRef(cells, p)
  {
    SetCell(cells, p, cells[p.y][p.x].(inMaze := true, inFrontier := false))
  }

  /**
   * The start of GeneratePrim: a random cell joins the maze and its free neighbours form the
   * first frontier.
   */
  method PrimStart(maze: Maze) returns (frontier: seq<Pos>, start: Pos, ghost M0: set<Pos>, ghost F0: set<Pos>)
    requires maze.Width() >= 1 && maze.Height() >= 1 && IsGridOf(maze.cells, maze.Width(), maze.Height())
    modifies maze`cells
    ensures M0 == InMazeSet(old(maze.cells), maze.Width(), maze.Height())
    ensures F0 == FlaggedSet(old(maze.cells), maze.Width(), maze.Height())
    ensures PrimInv(maze.cells, maze.Width(), maze.Height(), frontier, maze.passages, start, start, {}, M0, F0, maze.passages)
    ensures ValidRef(old(maze.cells), start)
    ensures var c1, w, h := StartJoined(old(maze.cells), start), maze.Width(), maze.Height();
      && IsGridOf(c1, w, h) && AllInBox(Neighbours4(start, w, h), w, h)
      && frontier == Unvisited(c1, w, h, Neighbours4(start, w, h))
      && Marked(c1, maze.cells, frontier)
  {
    var w, h := maze.Width(), maze.Height();
    M0, F0 := InMazeSet(maze.cells, w, h), FlaggedSet(maze.cells, w, h);
    SetsTracked(maze.cells, w, h);
    frontier := [];
    // Pick a random starting position.
    var startX := Uniform(0, w - 1);
    var startY := Uniform(0, h - 1);
    start := Pos(startX, startY);
    TracksSetInMaze(maze.cells, w, h, M0, F0, start);
    maze.cells := SetCell(maze.cells, start, maze.cells[startY][startX].(inMaze := true));
    TracksAdded(maze.cells, w, h, M0 + {start}, F0, start);
    ghost var c1 := maze.cells;
    frontier := AddFrontierNeighbours(maze, frontier, start);
    assert frontier == Unvisited(c1, w, h, Neighbours4(start, w, h));
    TracksMarked(c1, maze.cells, w, h, M0 + {start}, F0, frontier);
    StartInv(maze.cells, w, h, start, frontier, M0, F0, maze.passages);
  }

  /**
   * One pass of GeneratePrim's loop: a random frontier entry joins the maze through a passage
   * to a random neighbour already in the maze, its free neighbours are added to the frontier,
   * and it leaves the frontier by swap-with-last removal.
   */
  method PrimIteration(maze: Maze, frontier: seq<Pos>, lastVisited: Pos,
                       ghost start: Pos, ghost G: set<Pos>, ghost M0: set<Pos>, ghost F0: set<Pos>, ghost P0: seq<Passage>)
    returns (frontier': seq<Pos>, lastVisited': Pos, idx: nat, neighbour: Pos, ghost G': set<Pos>)
    requires frontier != []
    requires PrimInv(maze.cells, maze.Width(), maze.Height(), frontier, maze.passages, start, lastVisited, G, M0, F0, P0)
    modifies maze`cells, maze`passages
    ensures PrimInv(maze.cells, maze.Width(), maze.Height(), frontier', maze.passages, start, lastVisited', G', M0, F0, P0)
    ensures Unreached(maze.Width(), maze.Height(), frontier', start, G', M0, F0) <
              Unreached(maze.Width(), maze.Height(), frontier, start, G, M0, F0) ||
            (Unreached(maze.Width(), maze.Height(), frontier', start, G', M0, F0) ==
               Unreached(maze.Width(), maze.Height(), frontier, start, G, M0, F0) &&
             |frontier'| < |frontier|)
    ensures idx < |frontier| && lastVisited' == frontier[idx] && G' == G + {frontier[idx]}
    ensures neighbour in Neighbours4(frontier[idx], maze.Width(), maze.Height()) && neighbour in M0 + {start} + G
    ensures maze.passages == old(maze.passages) + [Passage(Some(frontier[idx]), Some(neighbour))]
    ensures ValidRef(old(maze.cells), frontier[idx])
    ensures var c1, w, h := Incorporated(old(maze.cells), frontier[idx]), maze.Width(), maze.Height();
      && IsGridOf(c1, w, h) && AllInBox(Neighbours4(frontier[idx], w, h), w, h)
      && frontier' == SwapRemove(frontier + Unvisited(c1, w, h, Neighbours4(frontier[idx], w, h)), idx)
      && Marked(c1, maze.cells, Unvisited(c1, w, h, Neighbours4(frontier[idx], w, h)))
  {
    var w, h := maze.Width(), maze.Height();
    ghost var IM, FL := M0 + {start} + G, Elems(frontier) + F0;
    idx := Uniform(0, |frontier| - 1);
    var nextF := frontier[idx];
    var mazeNeighbours := CollectMazeNeighbours(maze, nextF);
    TracksMazeNeighbours(maze.cells, w, h, IM, FL, nextF);
    ChosenHasMazeNeighbour(maze.cells, w, h, frontier, IM, F0, idx);
    var k := Uniform(0, |mazeNeighbours| - 1);
    neighbour := mazeNeighbours[k];
    assert neighbour in mazeNeighbours;
    ghost var cs := maze.cells;
    maze.MakePassage(Some(nextF), Some(neighbour));
    TracksSetFlags(maze.cells, w, h, IM, FL, nextF, true, false);
    maze.cells := SetCell(maze.cells, nextF, maze.cells[nextF.y][nextF.x].(inMaze := true, inFrontier := false));
    lastVisited' := nextF;
    TracksAdded(maze.cells, w, h, IM + {nextF}, FL - {nextF}, nextF);
    ghost var c1 := maze.cells;
    ghost var added := Unvisited(c1, w, h, Neighbours4(nextF, w, h));
    frontier' := AddFrontierNeighbours(maze, frontier, nextF);
    TracksMarked(c1, maze.cells, w, h, IM + {nextF}, FL - {nextF}, added);
    JoinStep(cs, w, h, frontier, old(maze.passages), start, lastVisited, G, M0, F0, P0, idx, neighbour, added, maze.cells);
    JoinProgress(w, h, frontier, start, G, M0, F0, idx, added);
    G' := G + {nextF};
    frontier' := SwapRemove(frontier', idx);
  }

  /** The main loop of GeneratePrim (maze_generator.cpp lines 37-77): iterate until the frontier is empty. */
  method PrimLoop(maze: Maze, frontier0: seq<Pos>, start: Pos, ghost M0: set<Pos>, ghost F0: set<Pos>, ghost P0: seq<Passage>)
    returns (lastVisited: Pos, ghost G: set<Pos>)
    requires PrimInv(maze.cells, maze.Width(), maze.Height(), frontier0, maze.passages, start, start, {}, M0, F0, P0)
    modifies maze`cells, maze`passages
    ensures PrimInv(maze.cells, maze.Width(), maze.Height(), [], maze.passages, start, lastVisited, G, M0, F0, P0)
  {
    var frontier := frontier0;
    lastVisited := start;
    G := {};
    while frontier != []
      invariant PrimInv(maze.cells, maze.Width(), maze.Height(), frontier, maze.passages, start, lastVisited, G, M0, F0, P0)
      decreases Unreached(maze.Width(), maze.Height(), frontier, start, G, M0, F0), |frontier|
    {
      var idx, neighbour;
      frontier, lastVisited, idx, neighbour, G := PrimIteration(maze, frontier, lastVisited, start, G, M0, F0, P0);
    }
  }

  /** GeneratePrim on an initialised maze, before `start` and `finish` are recorded. */
  method GrowMaze(maze: Maze) returns (start: Pos, lastVisited: Pos)
    requires maze.Width() >= 1 && maze.Height() >= 1 && IsGridOf(maze.cells, maze.Width(), maze.Height())
    modifies maze`cells, maze`passages
    ensures Generated(old(maze.cells), old(maze.passages), maze.cells, maze.passages,
                      maze.Width(), maze.Height(), start, lastVisited)
    ensures FreshStart(InMazeSet(old(maze.cells), maze.Width(), maze.Height()),
                       FlaggedSet(old(maze.cells), maze.Width(), maze.Height()), old(maze.passages)) ==>
              SpanningTree(maze.cells, maze.passages, maze.Width(), maze.Height(), start)
  {
    var w, h := maze.Width(), maze.Height();
    var frontier;
    ghost var M0, F0;
    frontier, start, M0, F0 := PrimStart(maze);
    ghost var G;
    lastVisited, G := PrimLoop(maze, frontier, start, M0, F0, old(maze.passages));
    Finish(old(maze.cells), maze.cells, w, h, maze.passages, start, lastVisited, G, M0, F0, old(maze.passages));
  }

  /**
   * `GeneratePrim`: on a maze whose size or cells are missing it fails and changes nothing.
   * Otherwise it grows the maze from a random start cell until the frontier is empty: the
   * start and `finish` (the last cell to join) are in the maze, the old passages are kept and
   * one good passage is added per cell that joined, and finish is the start exactly when no
   * cell joined. On a maze fresh from MakeGrid the passages form a spanning tree of the grid.
   */
  method GeneratePrim(maze: Maze) returns (outcome: Outcome)
    requires maze.Width() >= 1 && maze.Height() >= 1 && maze.cells != [] && maze.cells[0] != [] ==>
               IsGridOf(maze.cells, maze.Width(), maze.Height())
    modifies maze`cells, maze`passages, maze`start, maze`finish
    ensures outcome == if maze.Width() < 1 || maze.Height() < 1 || old(maze.cells) == [] || old(maze.cells)[0] == []
                       then Fail(NotInitialized) else Pass
    ensures outcome.Fail? ==>
              && maze.cells == old(maze.cells) && maze.passages == old(maze.passages)
              && maze.start == old(maze.start) && maze.finish == old(maze.finish)
    ensures outcome.Pass? ==>
              && IsGridOf(old(maze.cells), maze.Width(), maze.Height())
              && maze.start.Some? && maze.finish.Some?
              && Generated(old(maze.cells), old(maze.passages), maze.cells, maze.passages,
                           maze.Width(), maze.Height(), maze.start.value, maze.finish.value)
    ensures outcome.Pass? && FreshStart(InMazeSet(old(maze.cells), maze.Width(), maze.Height()),
                                        FlaggedSet(old(maze.cells), maze.Width(), maze.Height()), old(maze.passages)) ==>
              SpanningTree(maze.cells, maze.passages, maze.Width(), maze.Height(), maze.start.value)
  {
    var w, h := maze.Width(), maze.Height();
    if w < 1 || h < 1 || maze.cells == [] || maze.cells[0] == [] {
      return Fail(NotInitialized);
    }
    var start, lastVisited := GrowMaze(maze);
    maze.start := Some(start);
    maze.finish := Some(lastVisited);
    return Pass;
  }

  /** The entry frontier[idx] chosen by GeneratePrim always has a neighbour in the maze. */
  lemma ChosenHasMazeNeighbour(cells: seq<seq<Cell>>, w: int, h: int, frontier: seq<Pos>, IM: set<Pos>, F0: set<Pos>, idx: nat)
    requires FrontierOk(frontier, IM, F0, w, h) && idx < |frontier|
    requires IsGridOf(cells, w, h) && AllInBox(Neighbours4(frontier[idx], w, h), w, h)
    requires forall q :: q in InMazeAmong(cells, w, h, Neighbours4(frontier[idx], w, h)) <==>
               q in Neighbours4(frontier[idx], w, h) && q in IM
    ensures InMazeAmong(cells, w, h, Neighbours4(frontier[idx], w, h)) != []
  {
    assert frontier[idx] in frontier;
    var q :| q in Neighbours4(frontier[idx], w, h) && q in IM;
    assert q in InMazeAmong(cells, w, h, Neighbours4(frontier[idx], w, h));
  }
}
