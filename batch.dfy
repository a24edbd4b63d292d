/**
 * Batch solving (maze_solver.cpp): `SolveSeq`, and the work split of `SolveMPI`, where
 * rank r of `size` processes solves the mazes [r*k, min(r*k+k, n)) with k = ceil(n/size)
 * and rank 0 appends the results of ranks 1, 2, ... to its own. The messages themselves
 * are not modelled: what rank s sends is an input of the gather.
 */
module Batch {
  import opened Grid
  import opened Solver

  /** What `AStar` returns for one maze. */
  ghost function Solution(maze: Maze): seq<Pos>
    reads maze
  {
    AStarSpec(maze.passages, maze.start, maze.finish)
  }

  /** The solutions of the mazes, in input order. */
  ghost function Solutions(mazes: seq<Maze>): (r: seq<seq<Pos>>)
    reads mazes
  {
    seq(|mazes|, i reads mazes requires 0 <= i < |mazes| => Solution(mazes[i]))
  }

  /** `SolveSeq`: one result per maze, the i-th being what `AStar` returns for the i-th maze. */
  method SolveSeq(mazes: seq<Maze>) returns (results: seq<seq<Pos>>)
    ensures results == Solutions(mazes)
  {
    results := [];
    for i := 0 to |mazes|
      invariant results == Solutions(mazes)[..i]
    {
      var path := AStar(mazes[i]);
      SolutionIs(mazes, i, path);
      SliceSnoc(Solutions(mazes), 0, i);
      results := results + [path];
    }
    assert Solutions(mazes)[..|mazes|] == Solutions(mazes);
  }

  // ----- The partition of SolveMPI -----

  /** `mazesPerProcess = (num_mazes + size - 1) / size`: the numerator is non-negative, so C++ and Dafny division agree. */
  function BlockSize(n: nat, size: nat): (k: nat)
    requires size >= 1
    ensures size * k >= n
    ensures n > 0 ==> k >= 1
    ensures n == 0 ==> k == 0
    ensures k >= 1 ==> size * (k - 1) < n
  {
    var k := (n + size - 1) / size;
    assert n + size - 1 == size * k + (n + size - 1) % size;
    k
  }

  function BlockStart(rank: nat, k: nat): nat {
    rank * k
  }

  function BlockEnd(rank: nat, k: nat, n: nat): (e: nat)
    ensures e <= n && e <= BlockStart(rank, k) + k
    ensures BlockStart(rank, k) <= n ==> BlockStart(rank, k) <= e
  {
    if rank * k + k < n then rank * k + k else n
  }

  /** The part of xs that rank r handles when blocks have size k. */
  function Block<T>(xs: seq<T>, r: nat, k: nat): seq<T> {
    var lo := if BlockStart(r, k) < |xs| then BlockStart(r, k) else |xs|;
    xs[lo..BlockEnd(r, k, |xs|)]
  }

  lemma MulLe(a: nat, b: nat, k: nat)
    requires a <= b
    ensures a * k <= b * k
  {
    if a < b {
      MulLe(a, b - 1, k);
    }
  }

  /** A later rank's block starts where or after an earlier rank's block ends. */
  lemma BlocksOrdered(n: nat, k: nat, r1: nat, r2: nat)
    requires r1 < r2
    ensures BlockEnd(r1, k, n) <= BlockStart(r2, k)
  {
    MulLe(r1 + 1, r2, k);
  }

  /** Every index below n lies in the block of exactly one rank below size, the rank i / k. */
  lemma BlocksPartition(n: nat, size: nat, i: nat)
    requires size >= 1 && i < n
    ensures var k := BlockSize(n, size);
      && i / k < size && BlockStart(i / k, k) <= i < BlockEnd(i / k, k, n)
      && forall r :: 0 <= r < size && BlockStart(r, k) <= i < BlockEnd(r, k, n) ==> r == i / k
  {
    var k := BlockSize(n, size);
    var q := i / k;
    DivBounds(i, k);
    if q >= size {
      MulLe(size, q, k);
    }
    forall r | 0 <= r < size && BlockStart(r, k) <= i < BlockEnd(r, k, n)
      ensures r == q
    {
      if r < q {
        BlocksOrdered(n, k, r, q);
      } else if q < r {
        BlocksOrdered(n, k, q, r);
      }
    }
  }

  lemma DivBounds(i: nat, k: nat)
    requires k >= 1
    ensures (i / k) * k <= i < (i / k) * k + k
  {
    assert i == (i / k) * k + i % k;
  }

  /** maze_solver.cpp lines 141-143: solve the mazes with index in [startIndex, endIndex), in order. */
  method SolveRange(mazes: seq<Maze>, startIndex: nat, endIndex: nat) returns (localResults: seq<seq<Pos>>)
    requires endIndex <= |mazes|
    ensures localResults == if startIndex < endIndex then Solutions(mazes)[startIndex..endIndex] else []
  {
    ghost var all := Solutions(mazes);
    localResults := [];
    var i := startIndex;
    while i < endIndex
      invariant i == startIndex || startIndex < i <= endIndex
      invariant i == startIndex ==> localResults == []
      invariant i != startIndex ==> localResults == all[startIndex..i]
    {
      var path := AStar(mazes[i]);
      SolutionIs(mazes, i, path);
      SliceSnoc(all, startIndex, i);
      localResults := localResults + [path];
      i := i + 1;
    }
  }

  lemma SolutionIs(mazes: seq<Maze>, i: nat, path: seq<Pos>)
    requires i < |mazes| && path == AStarSpec(mazes[i].passages, mazes[i].start, mazes[i].finish)
    ensures Solutions(mazes)[i] == path
  {
  }

  lemma SliceSnoc<T>(xs: seq<T>, lo: nat, i: nat)
    requires lo <= i < |xs|
    ensures xs[lo..i + 1] == xs[lo..i] + [xs[i]]
  {
  }

  /** The per-rank part of `SolveMPI` (maze_solver.cpp lines 134-143): rank r solves its block, in order. */
  method SolveLocal(mazes: seq<Maze>, rank: nat, size: nat) returns (localResults: seq<seq<Pos>>)
    requires 1 <= size && rank < size
    ensures localResults == Block(Solutions(mazes), rank, BlockSize(|mazes|, size))
  {
    var numMazes := |mazes|;
    var mazesPerProcess := BlockSize(numMazes, size);
    var startIndex := BlockStart(rank, mazesPerProcess);
    var endIndex := BlockEnd(rank, mazesPerProcess, numMazes);
    localResults := SolveRange(mazes, startIndex, endIndex);
  }

  /** The concatenation of xss in order. */
  function Flatten<T>(xss: seq<seq<T>>): seq<T> {
    if xss == [] then [] else Flatten(xss[..|xss| - 1]) + xss[|xss| - 1]
  }

  /**
   * The gather of `SolveMPI` on rank 0: its own results first, then the paths received from
   * ranks 1, 2, ... in rank order, each rank's paths in the order sent.
   */
  method GatherOnRoot<T>(received: seq<seq<T>>) returns (allResults: seq<T>)
    requires |received| >= 1
    ensures allResults == Flatten(received)
  {
    assert received[..1] == [received[0]];
    allResults := received[0];
    for source := 1 to |received|
      invariant allResults == Flatten(received[..source])
    {
      assert received[..source + 1][..source] == received[..source];
      var paths := received[source];
      for i := 0 to |paths|
        invariant allResults == Flatten(received[..source]) + paths[..i]
      {
        allResults := allResults + [paths[i]];
        assert paths[..i + 1] == paths[..i] + [paths[i]];
      }
      assert paths[..|paths|] == paths;
    }
    assert received[..|received|] == received;
  }

  /** The blocks of ranks 0 .. m-1, in rank order. */
  function Blocks<T>(xs: seq<T>, k: nat, m: nat): (bs: seq<seq<T>>)
    ensures |bs| == m
  {
    if m == 0 then [] else Blocks(xs, k, m - 1) + [Block(xs, m - 1, k)]
  }

  /** The blocks of the first m ranks, concatenated, are a prefix of xs. */
  lemma {:induction false} BlocksPrefix<T>(xs: seq<T>, k: nat, m: nat)
    ensures Flatten(Blocks(xs, k, m)) == xs[..if m * k < |xs| then m * k else |xs|]
  {
    if m > 0 {
      var bs := Blocks(xs, k, m);
      assert bs == Blocks(xs, k, m - 1) + [Block(xs, m - 1, k)];
      assert bs[..m - 1] == Blocks(xs, k, m - 1);
      BlocksPrefix(xs, k, m - 1);
      var p := (m - 1) * k;
      var q := m * k;
      assert q == p + k by {
        assert m * k == (m - 1) * k + k;
      }
      var a := if p < |xs| then p else |xs|;
      var b := if q < |xs| then q else |xs|;
      assert Block(xs, m - 1, k) == xs[a..b];
      assert Flatten(bs) == Flatten(bs[..m - 1]) + bs[m - 1];
      PrefixConcat(xs, a, b);
    }
  }

  lemma PrefixConcat<T>(xs: seq<T>, a: nat, b: nat)
    requires a <= b <= |xs|
    ensures xs[..a] + xs[a..b] == xs[..b]
  {
  }

  /**
   * Gathering the per-rank blocks in rank order gives back the whole sequence: `SolveMPI`
   * on rank 0 returns the same results, in the same order, as `SolveSeq`.
   */
  lemma GatherPreservesOrder<T>(xs: seq<T>, size: nat)
    requires size >= 1
    ensures Flatten(Blocks(xs, BlockSize(|xs|, size), size)) == xs
  {
    BlocksPrefix(xs, BlockSize(|xs|, size), size);
    assert xs[..|xs|] == xs;
  }

  /**
   * `SolveMPI` and `SolveSeq` agree: when what rank r contributes to the gather is what
   * `SolveLocal` computes on rank r, the gathered results are the sequential ones.
   */
  lemma MPIMatchesSeq(mazes: seq<Maze>, size: nat, received: seq<seq<seq<Pos>>>)
    requires size >= 1 && |received| == size
    requires forall r :: 0 <= r < size ==> received[r] == Block(Solutions(mazes), r, BlockSize(|mazes|, size))
    ensures Flatten(received) == Solutions(mazes)
  {
    var xs := Solutions(mazes);
    var k := BlockSize(|mazes|, size);
    BlocksAt(xs, k, size);
    assert received == Blocks(xs, k, size);
    GatherPreservesOrder(xs, size);
  }

  /**
   * `SolveMPI` on rank `rank` of `size`: every rank solves its block; rank 0 appends the paths
   * received from ranks 1 .. size-1 (`remote[s]` is what rank s sends; `remote[0]` is unused)
   * and returns them all, every other rank returns no paths. When each rank s sent the results
   * of its own block, rank 0 returns exactly what `SolveSeq` returns.
   */
  method SolveMPI(mazes: seq<Maze>, rank: nat, size: nat, remote: seq<seq<seq<Pos>>>) returns (allResults: seq<seq<Pos>>)
    requires 1 <= size && rank < size && |remote| == size
    ensures var k := BlockSize(|mazes|, size);
      rank == 0 ==> allResults == Flatten([Block(Solutions(mazes), 0, k)] + remote[1..])
    ensures rank != 0 ==> allResults == []
    ensures var k := BlockSize(|mazes|, size);
      rank == 0 && (forall s :: 1 <= s < size ==> remote[s] == Block(Solutions(mazes), s, k)) ==>
        allResults == Solutions(mazes)
  {
    var localResults := SolveLocal(mazes, rank, size);
    if rank == 0 {
      var received := [localResults] + remote[1..];
      allResults := GatherOnRoot(received);
      ghost var k := BlockSize(|mazes|, size);
      if forall s :: 1 <= s < size ==> remote[s] == Block(Solutions(mazes), s, k) {
        assert forall r :: 0 <= r < size ==> received[r] == Block(Solutions(mazes), r, k);
        MPIMatchesSeq(mazes, size, received);
      }
    } else {
      allResults := [];
    }
  }

  lemma {:induction false} BlocksAt<T>(xs: seq<T>, k: nat, m: nat)
    ensures forall r :: 0 <= r < m ==> Blocks(xs, k, m)[r] == Block(xs, r, k)
  {
    if m > 0 {
      BlocksAt(xs, k, m - 1);
    }
  }
}
