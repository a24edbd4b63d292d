/**
 * The A* solver of maze_solver.cpp: neighbour lookup through the passage list, the
 * Manhattan metric, parent-chain reconstruction and the search itself. Cell pointers are
 * `Pos` values and a null pointer is `None`; the `float` costs of the source are exact
 * small integers under the Manhattan heuristic and are modelled as `int`.
 */
module Solver {
  import opened Grid

  // ----- FindNeighbours -----

  /** What one passage contributes to the neighbour list of c. */
  function Contribution(p: Passage, c: Pos): seq<Pos> {
    if p.c1 == Some(c) && p.c2.Some? then [p.c2.value]
    else if p.c2 == Some(c) && p.c1.Some? then [p.c1.value]
    else []
  }

  /** The neighbour list of c, in passage-list order. */
  function NeighboursOf(passages: seq<Passage>, c: Pos): seq<Pos> {
    if passages == [] then []
    else NeighboursOf(passages[..|passages| - 1], c) + Contribution(passages[|passages| - 1], c)
  }

  lemma ContributionSpec(p: Passage, c: Pos, q: Pos)
    ensures q in Contribution(p, c) <==> Links(p, c, q)
  {
  }

  /** The neighbours of c are exactly the cells a passage joins to c. */
  lemma {:induction false} NeighboursOfSpec(passages: seq<Passage>, c: Pos)
    ensures forall q :: q in NeighboursOf(passages, c) <==> Joined(passages, c, q)
    ensures |NeighboursOf(passages, c)| <= |passages|
  {
    if passages != [] {
      var n := |passages| - 1;
      var front := passages[..n];
      NeighboursOfSpec(front, c);
      forall q
        ensures q in NeighboursOf(passages, c) <==> Joined(passages, c, q)
      {
        ContributionSpec(passages[n], c, q);
        if Joined(passages, c, q) {
          var k :| 0 <= k < |passages| && Links(passages[k], c, q);
          if k < n {
            assert front[k] == passages[k];
          }
        }
        if Joined(front, c, q) {
          var k :| 0 <= k < |front| && Links(front[k], c, q);
          assert passages[k] == front[k];
        }
      }
    }
  }

  /** Every neighbour of c is an endpoint of some passage and joined to c. */
  lemma NeighbourJoined(passages: seq<Passage>, c: Pos, q: Pos)
    requires q in NeighboursOf(passages, c)
    ensures Joined(passages, c, q) && q in Endpoints(passages)
  {
    NeighboursOfSpec(passages, c);
    var k :| 0 <= k < |passages| && Links(passages[k], c, q);
    EndpointsSpec(passages, k);
  }

  /** `FindNeighbours`: scans the passage list once. */
  method FindNeighbours(maze: Maze, c: Pos) returns (neighbours: seq<Pos>)
    ensures neighbours == NeighboursOf(maze.passages, c)
  {
    neighbours := [];
    var passages := maze.passages;
    for k := 0 to |passages|
      invariant neighbours == NeighboursOf(passages[..k], c)
    {
      assert passages[..k + 1][..k] == passages[..k];
      var p := passages[k];
      if p.c1.Some? && p.c1.value == c && p.c2.Some? {
        neighbours := neighbours + [p.c2.value];
      } else if p.c2.Some? && p.c2.value == c && p.c1.Some? {
        neighbours := neighbours + [p.c1.value];
      }
    }
    assert passages[..|passages|] == passages;
  }

  /** Every cell some passage names. */
  ghost function Endpoints(passages: seq<Passage>): set<Pos> {
    if passages == [] then {}
    else
      var p := passages[|passages| - 1];
      Endpoints(passages[..|passages| - 1])
        + (if p.c1.Some? then {p.c1.value} else {})
        + (if p.c2.Some? then {p.c2.value} else {})
  }

  lemma {:induction false} EndpointsSpec(passages: seq<Passage>, k: int)
    requires 0 <= k < |passages|
    ensures passages[k].c1.Some? ==> passages[k].c1.value in Endpoints(passages)
    ensures passages[k].c2.Some? ==> passages[k].c2.value in Endpoints(passages)
  {
    var n := |passages| - 1;
    if k < n {
      EndpointsSpec(passages[..n], k);
    }
  }

  // ----- Distances -----

  function Abs(a: int): nat {
    if a < 0 then -a else a
  }

  /**
   * `ManhattanDistance`, also the heuristic of the default build: zero only between equal
   * cells, and 1 exactly between grid-adjacent cells.
   */
  function ManhattanDistance(a: Pos, b: Pos): (d: nat)
    ensures d == 0 <==> a == b
    ensures d == 1 <==> Adjacent(a, b)
  {
    Abs(a.x - b.x) + Abs(a.y - b.y)
  }

  // ----- ReconstructPath -----

  /** `std::reverse`: the element at i moves to the mirrored position. */
  function Reverse<T>(s: seq<T>): (r: seq<T>)
    ensures |r| == |s|
    ensures forall i :: 0 <= i < |s| ==> r[i] == s[|s| - 1 - i]
  {
    if s == [] then [] else [s[|s| - 1]] + Reverse(s[..|s| - 1])
  }

  /** Parents have a strictly smaller rank than their children: the parent map has no cycle. */
  ghost predicate Ranked(parent: map<Pos, Pos>, rank: map<Pos, nat>) {
    forall k :: k in parent ==> k in rank && parent[k] in rank && rank[parent[k]] < rank[k]
  }

  /** The parent of c, or null. */
  function ParentOf(parent: map<Pos, Pos>, c: Pos): Option<Pos> {
    if c in parent then Some(parent[c]) else None
  }

  /** The cells `ReconstructPath` visits from cur: cur, its parent, its grandparent, ... */
  ghost function Up(parent: map<Pos, Pos>, cur: Option<Pos>, rank: map<Pos, nat>): seq<Pos>
    requires Ranked(parent, rank) && (cur.Some? ==> cur.value in rank)
    decreases if cur.Some? then rank[cur.value] + 1 else 0
  {
    match cur
    case None => []
    case Some(c) => [c] + Up(parent, ParentOf(parent, c), rank)
  }

  /** The chain from the root down to c, root first. */
  ghost function Chain(parent: map<Pos, Pos>, c: Pos, rank: map<Pos, nat>): seq<Pos>
    requires Ranked(parent, rank) && c in rank
    decreases rank[c]
  {
    (if c in parent then Chain(parent, parent[c], rank) else []) + [c]
  }

  /**
   * `ReconstructPath`: appends the parent chain of current to path and reverses the whole
   * vector. The loop ends because the parent map is acyclic (`Ranked`).
   */
  method ReconstructPath(parent: map<Pos, Pos>, current: Option<Pos>, path: seq<Pos>, ghost rank: map<Pos, nat>)
    returns (path': seq<Pos>)
    requires Ranked(parent, rank) && (current.Some? ==> current.value in rank)
    ensures path' == Reverse(path + Up(parent, current, rank))
  {
    var acc := path;
    var cur := current;
    while cur.Some?
      invariant cur.Some? ==> cur.value in rank
      invariant acc + Up(parent, cur, rank) == path + Up(parent, current, rank)
      decreases if cur.Some? then rank[cur.value] + 1 else 0
    {
      acc := acc + [cur.value];
      cur := if cur.value in parent then Some(parent[cur.value]) else None;
    }
    path' := Reverse(acc);
  }

  /** Reversing the upward walk gives the downward chain. */
  lemma {:induction false} ReverseUp(parent: map<Pos, Pos>, c: Pos, rank: map<Pos, nat>)
    requires Ranked(parent, rank) && c in rank
    ensures Reverse(Up(parent, Some(c), rank)) == Chain(parent, c, rank)
    decreases rank[c]
  {
    var rest := Up(parent, ParentOf(parent, c), rank);
    assert Up(parent, Some(c), rank) == [c] + rest;
    ReverseCons(c, rest);
    if c in parent {
      ReverseUp(parent, parent[c], rank);
    } else {
      assert rest == [];
    }
  }

  lemma ReverseCons<T>(x: T, s: seq<T>)
    ensures Reverse([x] + s) == Reverse(s) + [x]
  {
    var a, b := Reverse([x] + s), Reverse(s) + [x];
    assert |a| == |b|;
    forall i | 0 <= i < |a|
      ensures a[i] == b[i]
    {
      if i < |s| {
        assert a[i] == ([x] + s)[|s| - i] == s[|s| - 1 - i];
      }
    }
  }

  /**
   * The chain down to c starts at a cell without a parent, ends at c, visits no cell twice,
   * and each element is the parent of the next.
   */
  lemma {:induction false} ChainSpec(parent: map<Pos, Pos>, c: Pos, rank: map<Pos, nat>)
    requires Ranked(parent, rank) && c in rank
    ensures var ch := Chain(parent, c, rank);
      && |ch| >= 1 && ch[|ch| - 1] == c && ch[0] !in parent
      && (forall i :: 0 < i < |ch| ==> ch[i] in parent && parent[ch[i]] == ch[i - 1])
      && (forall i :: 0 <= i < |ch| ==> ch[i] in rank && rank[ch[i]] <= rank[c])
      && NoDup(ch)
    decreases rank[c]
  {
    if c in parent {
      ChainSpec(parent, parent[c], rank);
      var pre := Chain(parent, parent[c], rank);
      var ch := pre + [c];
      assert Chain(parent, c, rank) == ch;
      forall i | 0 < i < |ch|
        ensures ch[i] in parent && parent[ch[i]] == ch[i - 1]
      {
        if i < |pre| {
          assert ch[i] == pre[i] && ch[i - 1] == pre[i - 1];
        }
      }
      forall i, j | 0 <= i < j < |ch|
        ensures ch[i] != ch[j]
      {
        if j == |pre| {
          assert rank[ch[i]] <= rank[parent[c]] < rank[c];
        } else {
          assert ch[i] == pre[i] && ch[j] == pre[j];
        }
      }
    }
  }

  // ----- The A* search state and one step of its loop -----

  /** The open and closed lists and the g, f and parent maps of `AStar`. */
  datatype Search = Search(
    open: seq<Pos>,
    closed: seq<Pos>,
    g: map<Pos, int>,
    f: map<Pos, int>,
    parent: map<Pos, Pos>)

  /** `unordered_map<Cell*, float>::operator[]`: a missing key reads as 0. */
  function Lookup(m: map<Pos, int>, k: Pos): int {
    if k in m then m[k] else 0
  }

  /** The scan of maze_solver.cpp lines 71-76 over the cells of s, starting from init. */
  function SelectFrom(s: seq<Pos>, f: map<Pos, int>, init: Pos): Pos {
    if s == [] then init
    else
      var c := SelectFrom(s[..|s| - 1], f, init);
      if Lookup(f, s[|s| - 1]) < Lookup(f, c) then s[|s| - 1] else c
  }

  /** The scan keeps a cell of s, of minimal f-cost among the cells of s. */
  lemma {:induction false} SelectFromMin(s: seq<Pos>, f: map<Pos, int>)
    requires s != []
    ensures var c := SelectFrom(s, f, s[0]);
      c in s && forall x :: x in s ==> Lookup(f, c) <= Lookup(f, x)
  {
    var n := |s| - 1;
    var front := s[..n];
    if n == 0 {
      assert SelectFrom(front, f, s[0]) == s[0];
    } else {
      assert front[0] == s[0];
      SelectFromMin(front, f);
      assert s == front + [s[n]];
    }
  }

  /** No cell of s before the kept one has the same f-cost. */
  lemma {:induction false} SelectFromFirst(s: seq<Pos>, f: map<Pos, int>)
    requires s != []
    ensures var c := SelectFrom(s, f, s[0]);
      forall j :: 0 <= j < |s| && Lookup(f, s[j]) == Lookup(f, c) ==> c in s[..j + 1]
  {
    var n := |s| - 1;
    var front := s[..n];
    if n == 0 {
      assert SelectFrom(front, f, s[0]) == s[0];
    } else {
      assert front[0] == s[0];
      var c' := SelectFrom(front, f, s[0]);
      SelectFromMin(front, f);
      if Lookup(f, s[n]) < Lookup(f, c') {
        FirstAtEnd(s, f);
      } else {
        SelectFromFirst(front, f);
        FirstKept(front, s, f, c');
      }
    }
  }

  /** A last cell strictly cheaper than all before it is the first of its cost. */
  lemma FirstAtEnd(s: seq<Pos>, f: map<Pos, int>)
    requires |s| >= 2
    requires forall x :: x in s[..|s| - 1] ==> Lookup(f, s[|s| - 1]) < Lookup(f, x)
    ensures forall j :: 0 <= j < |s| && Lookup(f, s[j]) == Lookup(f, s[|s| - 1]) ==> s[|s| - 1] in s[..j + 1]
  {
    var n := |s| - 1;
    forall j | 0 <= j < |s| && Lookup(f, s[j]) == Lookup(f, s[n])
      ensures s[n] in s[..j + 1]
    {
      if j == n {
        assert s[..j + 1][j] == s[j];
      }
    }
  }

  /** A cell of the front that is first of its cost there stays so when a costlier-or-equal cell is appended. */
  lemma FirstKept(front: seq<Pos>, s: seq<Pos>, f: map<Pos, int>, c: Pos)
    requires |s| >= 2 && front == s[..|s| - 1]
    requires c in front
    requires forall j :: 0 <= j < |front| && Lookup(f, front[j]) == Lookup(f, c) ==> c in front[..j + 1]
    ensures forall j :: 0 <= j < |s| && Lookup(f, s[j]) == Lookup(f, c) ==> c in s[..j + 1]
  {
    var n := |s| - 1;
    forall j | 0 <= j < |s| && Lookup(f, s[j]) == Lookup(f, c)
      ensures c in s[..j + 1]
    {
      if j < n {
        assert s[..n][j] == s[j];
        assert s[..n][..j + 1] == s[..j + 1];
      } else {
        assert s[..j + 1] == s;
      }
    }
  }

  /**
   * The cell the loop expands next: the first cell of the open list whose f-cost is minimal
   * (a later cell replaces the candidate only when strictly cheaper).
   */
  function SelectCurrent(open: seq<Pos>, f: map<Pos, int>): (c: Pos)
    requires open != []
    ensures c in open
    ensures forall x :: x in open ==> Lookup(f, c) <= Lookup(f, x)
    ensures forall j :: 0 <= j < |open| && Lookup(f, open[j]) == Lookup(f, c) ==> c in open[..j + 1]
  {
    SelectFromMin(open, f);
    SelectFromFirst(open, f);
    SelectFrom(open, f, open[0])
  }

  /** `erase(remove(s.begin(), s.end(), x), s.end())`: the elements other than x, in their order. */
  function RemoveAll(s: seq<Pos>, x: Pos): (r: seq<Pos>)
    ensures forall y :: y in r <==> y in s && y != x
    ensures NoDup(s) ==> NoDup(r)
  {
    if s == [] then []
    else
      var front := s[..|s| - 1];
      assert forall y :: y in front ==> y in s;
      NoDupFront(s);
      RemoveAll(front, x) + (if s[|s| - 1] == x then [] else [s[|s| - 1]])
  }

  /**
   * The removal keeps the order of the other elements: without x the list is unchanged, and
   * in a list without duplicates the one occurrence of x is cut out.
   */
  lemma {:induction false} RemoveAllKeepsOrder(s: seq<Pos>, x: Pos)
    ensures x !in s ==> RemoveAll(s, x) == s
    ensures NoDup(s) ==> forall i :: 0 <= i < |s| && s[i] == x ==> RemoveAll(s, x) == s[..i] + s[i + 1..]
  {
    if s != [] {
      var front := s[..|s| - 1];
      var last := s[|s| - 1];
      RemoveAllKeepsOrder(front, x);
      assert s == front + [last];
      assert RemoveAll(s, x) == RemoveAll(front, x) + (if last == x then [] else [last]);
      if x !in s {
        assert x !in front;
      }
      if NoDup(s) {
        NoDupFront(s);
        forall i | 0 <= i < |s| && s[i] == x
          ensures RemoveAll(s, x) == s[..i] + s[i + 1..]
        {
          CutLast(s, front, i);
          if i < |front| {
            assert front[i] == x;
          }
        }
      }
    }
  }

  /** Cutting entry i out of s = front + [last], for i before last and for i at last. */
  lemma CutLast(s: seq<Pos>, front: seq<Pos>, i: nat)
    requires s != [] && front == s[..|s| - 1] && i < |s|
    ensures i < |front| ==> s[..i] + s[i + 1..] == front[..i] + front[i + 1..] + [s[|s| - 1]]
    ensures i == |front| ==> s[..i] + s[i + 1..] == front
  {
  }

  lemma NoDupFront<T>(s: seq<T>)
    requires s != []
    ensures NoDup(s) ==> NoDup(s[..|s| - 1]) && s[|s| - 1] !in s[..|s| - 1]
  {
  }

  /** maze_solver.cpp lines 87-88: current leaves the open list and joins the closed list. */
  function Close(st: Search, current: Pos): (r: Search)
    ensures r.closed == st.closed + [current]
    ensures current !in r.open && forall y :: y in r.open <==> y in st.open && y != current
    ensures r.g == st.g && r.f == st.f && r.parent == st.parent
  {
    st.(open := RemoveAll(st.open, current), closed := st.closed + [current])
  }

  /** maze_solver.cpp lines 91-104 for one neighbour of current. */
  function RelaxOne(finish: Pos, st: Search, current: Pos, neighbour: Pos): Search {
    if neighbour in st.closed then st
    else
      var tentative := Lookup(st.g, current) + ManhattanDistance(current, neighbour);
      var inOpen := neighbour in st.open;
      if !inOpen || tentative < Lookup(st.g, neighbour) then
        Search(
          if inOpen then st.open else st.open + [neighbour],
          st.closed,
          st.g[neighbour := tentative],
          st.f[neighbour := tentative + ManhattanDistance(neighbour, finish)],
          st.parent[neighbour := current])
      else st
  }

  /** maze_solver.cpp lines 90-105: the neighbours of current handled in list order. */
  function RelaxAll(finish: Pos, st: Search, current: Pos, ns: seq<Pos>): Search {
    if ns == [] then st
    else RelaxOne(finish, RelaxAll(finish, st, current, ns[..|ns| - 1]), current, ns[|ns| - 1])
  }

  /** One pass of the loop of maze_solver.cpp lines 69-106 that does not reach finish. */
  function Step(passages: seq<Passage>, finish: Pos, st: Search): Search
    requires st.open != []
  {
    var current := SelectCurrent(st.open, st.f);
    RelaxAll(finish, Close(st, current), current, NeighboursOf(passages, current))
  }

  // ----- The loop invariant -----

  /** The cells the search can ever see: the start and the endpoints of the passages. */
  ghost function Universe(passages: seq<Passage>, start: Pos): set<Pos> {
    Endpoints(passages) + {start}
  }

  predicate Seen(st: Search, x: Pos) {
    x in st.open || x in st.closed
  }

  /** Every neighbour of x has been seen. */
  ghost predicate Expanded(passages: seq<Passage>, st: Search, x: Pos) {
    forall q :: q in NeighboursOf(passages, x) ==> Seen(st, q)
  }

  /** Everything seen in st is still seen in st'. */
  ghost predicate Grows(st: Search, st': Search) {
    forall y :: Seen(st, y) ==> Seen(st', y)
  }

  /** Each parent edge is a passage, points at a closed cell, and never enters the start. */
  ghost predicate ParentsOk(passages: seq<Passage>, start: Pos, st: Search) {
    forall k :: k in st.parent ==>
      && Seen(st, k) && k != start
      && st.parent[k] in st.closed && Joined(passages, st.parent[k], k)
  }

  /** A closed cell was closed after its parent. */
  ghost predicate ClosedAfterParent(st: Search) {
    forall i, j ::
      0 <= i < |st.closed| && 0 <= j < |st.closed| &&
      st.closed[j] in st.parent && st.parent[st.closed[j]] == st.closed[i]
      ==> i < j
  }

  /** What holds at the head of the loop and after every neighbour update. */
  ghost predicate Core(passages: seq<Passage>, start: Pos, finish: Pos, st: Search) {
    && NoDup(st.open) && NoDup(st.closed)
    && (forall x :: x in st.open ==> x !in st.closed)
    && (if st.closed == [] then st.open == [start] else start in st.closed)
    && (forall x :: Seen(st, x) ==> x in Universe(passages, start))
    && finish !in st.closed
    && ParentsOk(passages, start, st)
    && ClosedAfterParent(st)
    && (forall x :: Seen(st, x) && x != start ==> x in st.parent)
  }

  /** The loop invariant: also, every closed cell has had all its neighbours seen. */
  ghost predicate SearchInv(passages: seq<Passage>, start: Pos, finish: Pos, st: Search) {
    && Core(passages, start, finish, st)
    && forall x :: x in st.closed ==> Expanded(passages, st, x)
  }

  /** The invariant while the neighbours of current are being handled. */
  ghost predicate MidInv(passages: seq<Passage>, start: Pos, finish: Pos, st: Search, current: Pos) {
    && Core(passages, start, finish, st)
    && |st.closed| > 0 && st.closed[|st.closed| - 1] == current
    && forall x :: x in st.closed && x != current ==> Expanded(passages, st, x)
  }

  /** The parents of closed cells are never changed. */
  ghost predicate KeepsClosedParents(st: Search, st': Search) {
    forall k :: k in st.closed && k in st.parent ==> k in st'.parent && st'.parent[k] == st.parent[k]
  }

  lemma ExpandedGrows(passages: seq<Passage>, st: Search, st': Search, x: Pos)
    requires Expanded(passages, st, x) && Grows(st, st')
    ensures Expanded(passages, st', x)
  {
  }

  /** Closing the selected cell keeps the invariant, except that its neighbours are pending. */
  lemma CloseMid(passages: seq<Passage>, start: Pos, finish: Pos, st: Search, c: Pos)
    requires SearchInv(passages, start, finish, st) && c in st.open && c != finish
    ensures MidInv(passages, start, finish, Close(st, c), c)
    ensures Grows(st, Close(st, c)) && KeepsClosedParents(st, Close(st, c))
  {
    var st' := Close(st, c);
    assert forall y :: Seen(st', y) <==> Seen(st, y);
    forall i, j |
      0 <= i < |st'.closed| && 0 <= j < |st'.closed| &&
      st'.closed[j] in st'.parent && st'.parent[st'.closed[j]] == st'.closed[i]
      ensures i < j
    {
      var n := |st.closed|;
      if j < n && i < n {
        assert st'.closed[i] == st.closed[i] && st'.closed[j] == st.closed[j];
      }
    }
    assert ClosedAfterParent(st');
    forall x | x in st'.closed && x != c
      ensures Expanded(passages, st', x)
    {
      ExpandedGrows(passages, st, st', x);
    }
  }

  /** Giving nb the parent c, and opening it if it is not open: the core facts survive. */
  lemma ReparentCore(passages: seq<Passage>, start: Pos, finish: Pos, st: Search, st': Search, c: Pos, nb: Pos)
    requires Core(passages, start, finish, st) && c in st.closed
    requires nb !in st.closed && Joined(passages, c, nb) && nb in Endpoints(passages)
    requires st'.open == (if nb in st.open then st.open else st.open + [nb])
    requires st'.closed == st.closed && st'.parent == st.parent[nb := c]
    ensures Core(passages, start, finish, st')
  {
    assert forall y :: Seen(st', y) <==> Seen(st, y) || y == nb;
    forall k | k in st'.parent
      ensures Seen(st', k) && k != start
      ensures st'.parent[k] in st'.closed && Joined(passages, st'.parent[k], k)
    {
      if k != nb {
        assert k in st.parent;
      }
    }
    assert ParentsOk(passages, start, st');
    forall i, j |
      0 <= i < |st'.closed| && 0 <= j < |st'.closed| &&
      st'.closed[j] in st'.parent && st'.parent[st'.closed[j]] == st'.closed[i]
      ensures i < j
    {
      assert st'.closed[j] != nb;
    }
  }

  lemma ReparentMid(passages: seq<Passage>, start: Pos, finish: Pos, st: Search, st': Search, c: Pos, nb: Pos)
    requires MidInv(passages, start, finish, st, c) && nb in NeighboursOf(passages, c) && nb !in st.closed
    requires st'.open == (if nb in st.open then st.open else st.open + [nb])
    requires st'.closed == st.closed && st'.parent == st.parent[nb := c]
    ensures MidInv(passages, start, finish, st', c) && Seen(st', nb)
    ensures Grows(st, st') && KeepsClosedParents(st, st')
  {
    NeighbourJoined(passages, c, nb);
    assert st.closed[|st.closed| - 1] in st.closed;
    ReparentCore(passages, start, finish, st, st', c, nb);
    assert Grows(st, st');
    forall x | x in st'.closed && x != c
      ensures Expanded(passages, st', x)
    {
      ExpandedGrows(passages, st, st', x);
    }
  }

  /** Handling one neighbour of current keeps the invariant and leaves that neighbour seen. */
  lemma RelaxOneMid(passages: seq<Passage>, start: Pos, finish: Pos, st: Search, c: Pos, nb: Pos)
    requires MidInv(passages, start, finish, st, c) && nb in NeighboursOf(passages, c)
    ensures var st' := RelaxOne(finish, st, c, nb);
      && MidInv(passages, start, finish, st', c) && Seen(st', nb)
      && Grows(st, st') && st'.closed == st.closed && KeepsClosedParents(st, st')
  {
    var tentative := Lookup(st.g, c) + ManhattanDistance(c, nb);
    if nb !in st.closed && (nb !in st.open || tentative < Lookup(st.g, nb)) {
      ReparentMid(passages, start, finish, st, RelaxOne(finish, st, c, nb), c, nb);
    } else {
      assert RelaxOne(finish, st, c, nb) == st;
    }
  }

  lemma {:induction false} RelaxAllMid(passages: seq<Passage>, start: Pos, finish: Pos, st: Search, c: Pos, ns: seq<Pos>)
    requires MidInv(passages, start, finish, st, c)
    requires forall q :: q in ns ==> q in NeighboursOf(passages, c)
    ensures var st' := RelaxAll(finish, st, c, ns);
      && MidInv(passages, start, finish, st', c) && (forall q :: q in ns ==> Seen(st', q))
      && Grows(st, st') && st'.closed == st.closed && KeepsClosedParents(st, st')
  {
    if ns != [] {
      var front := ns[..|ns| - 1];
      var nb := ns[|ns| - 1];
      assert forall q :: q in front ==> q in ns;
      RelaxAllMid(passages, start, finish, st, c, front);
      var mid := RelaxAll(finish, st, c, front);
      RelaxOneMid(passages, start, finish, mid, c, nb);
      var st' := RelaxOne(finish, mid, c, nb);
      assert RelaxAll(finish, st, c, ns) == st';
      assert forall q :: q in ns ==> q in front || q == nb;
      assert forall q :: q in ns ==> Seen(st', q);
      assert Grows(st, st');
      assert KeepsClosedParents(st, st');
    }
  }

  lemma ExcludeOne(U: set<Pos>, closed: seq<Pos>, c: Pos)
    requires c in U && c !in closed
    ensures |U - Elems(closed + [c])| < |U - Elems(closed)|
  {
    assert Elems(closed + [c]) == Elems(closed) + {c};
    assert U - Elems(closed) == (U - Elems(closed + [c])) + {c};
  }

  /** Closing current and handling all its neighbours. */
  lemma StepMid(passages: seq<Passage>, start: Pos, finish: Pos, st: Search, c: Pos)
    requires SearchInv(passages, start, finish, st) && st.open != []
    requires c == SelectCurrent(st.open, st.f) && c != finish
    ensures var st' := Step(passages, finish, st);
      && MidInv(passages, start, finish, st', c)
      && (forall q :: q in NeighboursOf(passages, c) ==> Seen(st', q))
      && st'.closed == st.closed + [c] && KeepsClosedParents(st, st')
  {
    var mid := Close(st, c);
    CloseMid(passages, start, finish, st, c);
    RelaxAllMid(passages, start, finish, mid, c, NeighboursOf(passages, c));
  }

  /** Once all neighbours of current are seen, the loop invariant holds again. */
  lemma MidDone(passages: seq<Passage>, start: Pos, finish: Pos, st: Search, c: Pos)
    requires MidInv(passages, start, finish, st, c)
    requires forall q :: q in NeighboursOf(passages, c) ==> Seen(st, q)
    ensures SearchInv(passages, start, finish, st)
  {
    assert Expanded(passages, st, c);
  }

  /** One step keeps the invariant, closes exactly the selected cell, and brings the search closer to its end. */
  lemma StepInv(passages: seq<Passage>, start: Pos, finish: Pos, st: Search)
    requires SearchInv(passages, start, finish, st) && st.open != []
    requires SelectCurrent(st.open, st.f) != finish
    ensures var st' := Step(passages, finish, st);
      && SearchInv(passages, start, finish, st')
      && st'.closed == st.closed + [SelectCurrent(st.open, st.f)]
      && KeepsClosedParents(st, st')
      && |Universe(passages, start) - Elems(st'.closed)| < |Universe(passages, start) - Elems(st.closed)|
  {
    var c := SelectCurrent(st.open, st.f);
    var st' := Step(passages, finish, st);
    StepMid(passages, start, finish, st, c);
    MidDone(passages, start, finish, st', c);
    assert Seen(st, c);
    ExcludeOne(Universe(passages, start), st.closed, c);
  }

  // ----- The reference run of the search -----

  /** The first position of x in s. */
  function IndexOf(s: seq<Pos>, x: Pos): (i: nat)
    requires x in s
    ensures i < |s| && s[i] == x
  {
    if s[0] == x then 0 else 1 + IndexOf(s[1..], x)
  }

  /** A rank under which every parent ranks below its child: closed cells by closing order, open cells last. */
  ghost function RankOf(st: Search): map<Pos, nat> {
    map x | x in Elems(st.open) + Elems(st.closed) :: if x in st.closed then IndexOf(st.closed, x) else |st.closed|
  }

  lemma CoreRanked(passages: seq<Passage>, start: Pos, finish: Pos, st: Search)
    requires Core(passages, start, finish, st)
    ensures Ranked(st.parent, RankOf(st))
    ensures forall x :: x in RankOf(st) <==> Seen(st, x)
  {
    var rank := RankOf(st);
    forall k | k in st.parent
      ensures k in rank && st.parent[k] in rank && rank[st.parent[k]] < rank[k]
    {
      var i := IndexOf(st.closed, st.parent[k]);
      if k in st.closed {
        var j := IndexOf(st.closed, k);
        assert st.closed[j] in st.parent && st.parent[st.closed[j]] == st.closed[i];
      }
    }
  }

  /** r is a walk along passages from a to b that visits no cell twice. */
  ghost predicate PathBetween(passages: seq<Passage>, r: seq<Pos>, a: Pos, b: Pos) {
    IsWalk(passages, r) && r[0] == a && r[|r| - 1] == b && NoDup(r)
  }

  /** A parent chain whose edges are passages and whose only parentless cell is root is a path from root. */
  lemma ChainPath(passages: seq<Passage>, parent: map<Pos, Pos>, rank: map<Pos, nat>, root: Pos, c: Pos)
    requires Ranked(parent, rank) && c in rank
    requires forall k :: k in parent ==> Joined(passages, parent[k], k)
    requires forall x :: x in rank && x !in parent ==> x == root
    ensures PathBetween(passages, Chain(parent, c, rank), root, c)
  {
    ChainSpec(parent, c, rank);
    var ch := Chain(parent, c, rank);
    forall i | 0 <= i < |ch| - 1
      ensures Joined(passages, ch[i], ch[i + 1])
    {
      assert ch[i + 1] in parent && parent[ch[i + 1]] == ch[i];
    }
  }

  /** When the selected cell is the finish, the reconstructed path is a path from the start to it. */
  lemma FoundPath(passages: seq<Passage>, start: Pos, finish: Pos, st: Search, c: Pos)
    requires Core(passages, start, finish, st) && Seen(st, c)
    ensures Ranked(st.parent, RankOf(st)) && c in RankOf(st)
    ensures PathBetween(passages, Reverse(Up(st.parent, Some(c), RankOf(st))), start, c)
  {
    var rank := RankOf(st);
    CoreRanked(passages, start, finish, st);
    assert ParentsOk(passages, start, st);
    assert forall x :: x in rank && x !in st.parent ==> x == start;
    ChainPath(passages, st.parent, rank, start, c);
    ReverseUp(st.parent, c, rank);
  }

  lemma {:induction false} WalkStaysIn(passages: seq<Passage>, C: set<Pos>, w: seq<Pos>, i: nat)
    requires forall c, q :: c in C && Joined(passages, c, q) ==> q in C
    requires IsWalk(passages, w) && w[0] in C && i < |w|
    ensures w[i] in C
  {
    if i > 0 {
      WalkStaysIn(passages, C, w, i - 1);
      assert Joined(passages, w[i - 1], w[i]);
    }
  }

  /** No walk leaves a set of cells closed under passages. */
  lemma Blocked(passages: seq<Passage>, C: set<Pos>, a: Pos, b: Pos)
    requires forall c, q :: c in C && Joined(passages, c, q) ==> q in C
    requires a in C && b !in C
    ensures !Reachable(passages, a, b)
  {
    if Reachable(passages, a, b) {
      var w :| IsWalk(passages, w) && w[0] == a && w[|w| - 1] == b;
      WalkStaysIn(passages, C, w, |w| - 1);
    }
  }

  /** When the open list runs out, the finish cannot be reached from the start. */
  lemma Exhausted(passages: seq<Passage>, start: Pos, finish: Pos, st: Search)
    requires SearchInv(passages, start, finish, st) && st.open == []
    ensures !Reachable(passages, start, finish)
  {
    var C := Elems(st.closed);
    forall c, q | c in C && Joined(passages, c, q)
      ensures q in C
    {
      NeighboursOfSpec(passages, c);
      assert Expanded(passages, st, c);
    }
    Blocked(passages, C, start, finish);
  }

  /** The loop of maze_solver.cpp lines 69-106 run to its end from st: the path returned, or [] when the open list empties. */
  ghost function Run(passages: seq<Passage>, start: Pos, finish: Pos, st: Search): seq<Pos>
    requires SearchInv(passages, start, finish, st)
    decreases |Universe(passages, start) - Elems(st.closed)|
  {
    if st.open == [] then []
    else
      var current := SelectCurrent(st.open, st.f);
      if current == finish then
        CoreRanked(passages, start, finish, st);
        Reverse(Up(st.parent, Some(current), RankOf(st)))
      else
        StepInv(passages, start, finish, st);
        Run(passages, start, finish, Step(passages, finish, st))
  }

  /** The run returns a path from the start to the finish, or [] exactly when there is none. */
  lemma {:induction false} RunCorrect(passages: seq<Passage>, start: Pos, finish: Pos, st: Search)
    requires SearchInv(passages, start, finish, st)
    ensures var r := Run(passages, start, finish, st);
      && (r != [] ==> PathBetween(passages, r, start, finish))
      && (r == [] ==> !Reachable(passages, start, finish))
    decreases |Universe(passages, start) - Elems(st.closed)|
  {
    if st.open == [] {
      Exhausted(passages, start, finish, st);
    } else {
      var current := SelectCurrent(st.open, st.f);
      if current == finish {
        FoundPath(passages, start, finish, st, current);
      } else {
        StepInv(passages, start, finish, st);
        RunCorrect(passages, start, finish, Step(passages, finish, st));
      }
    }
  }

  /** The state after maze_solver.cpp lines 56-67. */
  function Init(start: Pos, finish: Pos): Search {
    Search([start], [], map[start := 0], map[start := ManhattanDistance(start, finish)], map[])
  }

  lemma InitInv(passages: seq<Passage>, start: Pos, finish: Pos)
    requires start != finish
    ensures SearchInv(passages, start, finish, Init(start, finish))
  {
  }

  /** What `AStar` returns for a maze with these passages and endpoints. */
  ghost function AStarSpec(passages: seq<Passage>, start: Option<Pos>, finish: Option<Pos>): seq<Pos> {
    if start.None? || finish.None? then []
    else if start.value == finish.value then [start.value]
    else
      InitInv(passages, start.value, finish.value);
      Run(passages, start.value, finish.value, Init(start.value, finish.value))
  }

  /**
   * Without both endpoints the result is empty. With both, it is a path along passages from
   * the start to the finish visiting no cell twice, and it is empty exactly when no such walk exists.
   */
  lemma AStarCorrect(passages: seq<Passage>, start: Option<Pos>, finish: Option<Pos>)
    ensures var r := AStarSpec(passages, start, finish);
      && (start.None? || finish.None? ==> r == [])
      && (start.Some? && finish.Some? ==>
            && (r != [] <==> Reachable(passages, start.value, finish.value))
            && (r != [] ==> PathBetween(passages, r, start.value, finish.value)))
  {
    if start.Some? && finish.Some? {
      var s, f := start.value, finish.value;
      if s == f {
        assert IsWalk(passages, [s]);
      } else {
        InitInv(passages, s, f);
        RunCorrect(passages, s, f, Init(s, f));
        var r := AStarSpec(passages, start, finish);
        if r != [] {
          assert IsWalk(passages, r) && r[0] == s && r[|r| - 1] == f;
        }
      }
    }
  }

  // ----- AStar -----

  /** maze_solver.cpp lines 71-76: scan the open list for the first cell of minimal f-cost. */
  method SelectScan(open: seq<Pos>, f: map<Pos, int>) returns (current: Pos)
    requires open != []
    ensures current == SelectCurrent(open, f)
  {
    current := open[0];
    for i := 0 to |open|
      invariant current == SelectFrom(open[..i], f, open[0])
    {
      assert open[..i + 1][..i] == open[..i];
      var cell := open[i];
      if Lookup(f, cell) < Lookup(f, current) {
        current := cell;
      }
    }
    assert open[..|open|] == open;
  }

  /** maze_solver.cpp lines 91-104 for one neighbour. */
  method Relax(finish: Pos, st: Search, current: Pos, neighbour: Pos) returns (st': Search)
    ensures st' == RelaxOne(finish, st, current, neighbour)
  {
    var open, closed, g, f, parent := st.open, st.closed, st.g, st.f, st.parent;
    if neighbour in closed {
      return st;
    }
    var tentative := Lookup(g, current) + ManhattanDistance(current, neighbour);
    var inOpen := neighbour in open;
    if !inOpen || tentative < Lookup(g, neighbour) {
      parent := parent[neighbour := current];
      g := g[neighbour := tentative];
      f := f[neighbour := tentative + ManhattanDistance(neighbour, finish)];
      if !inOpen {
        open := open + [neighbour];
      }
    }
    st' := Search(open, closed, g, f, parent);
  }

  /** maze_solver.cpp lines 90-105: update every not-yet-closed neighbour of current. */
  method RelaxNeighbours(maze: Maze, finish: Pos, st: Search, current: Pos) returns (st': Search)
    ensures st' == RelaxAll(finish, st, current, NeighboursOf(maze.passages, current))
  {
    var neighbours := FindNeighbours(maze, current);
    st' := st;
    for j := 0 to |neighbours|
      invariant st' == RelaxAll(finish, st, current, neighbours[..j])
    {
      assert neighbours[..j + 1][..j] == neighbours[..j];
      st' := Relax(finish, st', current, neighbours[j]);
    }
    assert neighbours[..|neighbours|] == neighbours;
  }

  /**
   * `AStar`: the open list, closed list and cost maps are local; the maze is only read.
   * The result is the one the reference run gives, so `AStarCorrect` describes it.
   */
  method AStar(maze: Maze) returns (path: seq<Pos>)
    ensures path == AStarSpec(maze.passages, maze.start, maze.finish)
  {
    if maze.start.None? || maze.finish.None? {
      return [];
    }
    if maze.start == maze.finish {
      return [maze.start.value];
    }
    var start, finish := maze.start.value, maze.finish.value;
    ghost var passages := maze.passages;
    var st := Init(start, finish);
    InitInv(passages, start, finish);
    ghost var result := Run(passages, start, finish, st);
    assert result == AStarSpec(passages, maze.start, maze.finish);
    while st.open != []
      invariant SearchInv(passages, start, finish, st)
      invariant Run(passages, start, finish, st) == result
      decreases |Universe(passages, start) - Elems(st.closed)|
    {
      var current := SelectScan(st.open, st.f);
      if current == finish {
        CoreRanked(passages, start, finish, st);
        path := ReconstructPath(st.parent, Some(current), [], RankOf(st));
        assert [] + Up(st.parent, Some(current), RankOf(st)) == Up(st.parent, Some(current), RankOf(st));
        assert path == Run(passages, start, finish, st);
        return;
      }
      StepInv(passages, start, finish, st);
      var closing := Close(st, current);
      st := RelaxNeighbours(maze, finish, closing, current);
    }
    assert Run(passages, start, finish, st) == [];
    return [];
  }
}
