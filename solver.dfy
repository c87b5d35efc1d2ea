/** The solver (MazeSolver.java): depth-first and breadth-first search from the start
    cell to the end cell, and reconstruction of the path from the parent links that the
    search leaves in the maze. */
module MazeSolver {
  import opened Wrappers
  import opened Grid
  import opened ParentChain

  datatype SolveError =
    | NoPathFound            // the frontier ran out before the end cell was reached
    | InvalidReconstruction  // the parent links from the end cell never lead to the start cell

  /** How the frontier gives up its next cell. Both searches add cells at the back
      (Stack.push, Queue.add); Lifo takes the newest one back (Stack.pop, depth-first),
      Fifo the oldest (Queue.remove, breadth-first). */
  datatype Discipline = Lifo | Fifo

  /** The next cell and the rest of the frontier, or None when the frontier is empty
      (where Stack.pop and Queue.remove throw). */
  function Take(d: Discipline, frontier: seq<Pos>): (r: Option<(Pos, seq<Pos>)>)
    ensures r.None? <==> frontier == []
    ensures r.Some? && d == Lifo ==> frontier == r.value.1 + [r.value.0]
    ensures r.Some? && d == Fifo ==> frontier == [r.value.0] + r.value.1
  {
    if frontier == [] then None
    else if d == Lifo then Some((frontier[|frontier| - 1], frontier[..|frontier| - 1]))
    else Some((frontier[0], frontier[1..]))
  }

  /** What one step of the search changes: the explored cells, the parent links and
      the frontier. */
  datatype Step = Step(explored: set<Pos>, parent: map<Pos, Pos>, frontier: seq<Pos>)

  /** [p] if p is open and not in explored (Maze.isValidCell), else []. */
  function Kept(maze: Maze, explored: set<Pos>, p: Pos): (r: seq<Pos>)
    ensures r == [] || r == [p]
    ensures p in r <==> maze.Open(p) && p !in explored
  {
    if maze.Open(p) && p !in explored then [p] else []
  }

  /** The neighbours of cell that Maze.isValidCell accepts, in the order the search
      tries them: north, east, south, west. */
  function ValidNeighbours(maze: Maze, explored: set<Pos>, cell: Pos): (r: seq<Pos>)
    ensures forall q :: q in r <==> Adjacent(cell, q) && maze.Open(q) && q !in explored
    ensures Distinct(r)
  {
    var k0 := Kept(maze, explored, Pos(cell.row - 1, cell.col));
    var k1 := Kept(maze, explored, Pos(cell.row, cell.col + 1));
    var k2 := Kept(maze, explored, Pos(cell.row + 1, cell.col));
    var k3 := Kept(maze, explored, Pos(cell.row, cell.col - 1));
    DistinctAppend(k0, k1);
    DistinctAppend(k0 + k1, k2);
    DistinctAppend(k0 + k1 + k2, k3);
    k0 + k1 + k2 + k3
  }

  lemma DistinctAppend(a: seq<Pos>, b: seq<Pos>)
    requires Distinct(a) && Distinct(b) && forall x :: x in a ==> x !in b
    ensures Distinct(a + b)
  {
    forall i, j | 0 <= i < j < |a + b|
      ensures (a + b)[i] != (a + b)[j]
    {
      if i < |a| <= j {
        assert a[i] in a && b[j - |a|] in b;
      }
    }
  }

  /** One neighbour test of the search loop: if n is a valid cell, mark it explored,
      make cell its parent and add it at the back of the frontier; otherwise nothing
      changes. */
  function Visit(maze: Maze, s: Step, cell: Pos, n: Pos): (r: Step)
    ensures forall q :: q in r.explored <==> q in s.explored || (q == n && maze.Open(q))
    ensures r.frontier == s.frontier + Kept(maze, s.explored, n)
    ensures forall p :: p in r.parent <==> p in s.parent || (p == n && maze.Open(n) && n !in s.explored)
    ensures forall p {:trigger r.parent[p]} :: p in r.parent ==>
              r.parent[p] == if p == n && maze.Open(n) && n !in s.explored then cell else s.parent[p]
  {
    if maze.Open(n) && n !in s.explored then Step(s.explored + {n}, s.parent[n := cell], s.frontier + [n])
    else s
  }

  /** The four neighbour tests of one iteration of the search loop, north, east, south,
      west: the valid neighbours of cell join the frontier in that order, every open
      neighbour of cell ends up explored, and each newly explored cell gets cell as its
      parent while every other link stays as it was. */
  function ExpandStep(maze: Maze, s: Step, cell: Pos): (r: Step)
  {
    var s1 := Visit(maze, s, cell, Pos(cell.row - 1, cell.col));
    var s2 := Visit(maze, s1, cell, Pos(cell.row, cell.col + 1));
    var s3 := Visit(maze, s2, cell, Pos(cell.row + 1, cell.col));
    Visit(maze, s3, cell, Pos(cell.row, cell.col - 1))
  }

  /** The valid neighbours of cell join the frontier at the back, north, east, south,
      west. */
  lemma ExpandFrontier(maze: Maze, s: Step, cell: Pos)
    ensures ExpandStep(maze, s, cell).frontier == s.frontier + ValidNeighbours(maze, s.explored, cell)
  {
    // Each later test sees the same verdict as against s.explored, since the four
    // neighbours are distinct; then regroup the appends.
    var north, east := Pos(cell.row - 1, cell.col), Pos(cell.row, cell.col + 1);
    var south, west := Pos(cell.row + 1, cell.col), Pos(cell.row, cell.col - 1);
    var s1 := Visit(maze, s, cell, north);
    var s2 := Visit(maze, s1, cell, east);
    var s3 := Visit(maze, s2, cell, south);
    var k0, k1 := Kept(maze, s.explored, north), Kept(maze, s.explored, east);
    var k2, k3 := Kept(maze, s.explored, south), Kept(maze, s.explored, west);
    assert Kept(maze, s1.explored, east) == k1;
    assert Kept(maze, s2.explored, south) == k2;
    assert Kept(maze, s3.explored, west) == k3;
    AppendAssoc(s.frontier, k0, k1);
    AppendAssoc(s.frontier, k0 + k1, k2);
    AppendAssoc(s.frontier, k0 + k1 + k2, k3);
  }

  /** Afterwards every open neighbour of cell is explored, and nothing else is newly
      explored. */
  lemma ExpandExplored(maze: Maze, s: Step, cell: Pos)
    ensures forall q :: q in ExpandStep(maze, s, cell).explored <==>
              q in s.explored || (Adjacent(cell, q) && maze.Open(q))
  {
  }

  /** The cells that have a parent afterwards: those that had one, and the valid
      neighbours of cell. */
  lemma ExpandLinked(maze: Maze, s: Step, cell: Pos)
    ensures forall p :: p in ExpandStep(maze, s, cell).parent <==>
              p in s.parent || (Adjacent(cell, p) && maze.Open(p) && p !in s.explored)
  {
  }

  /** Each valid neighbour of cell gets cell as its parent; every other link stays. */
  lemma ExpandParent(maze: Maze, s: Step, cell: Pos)
    ensures forall p :: p in ExpandStep(maze, s, cell).parent ==>
              ExpandStep(maze, s, cell).parent[p] ==
                if Adjacent(cell, p) && maze.Open(p) && p !in s.explored then cell else s.parent[p]
  {
  }

  lemma AppendAssoc(a: seq<Pos>, b: seq<Pos>, c: seq<Pos>)
    ensures a + b + c == a + (b + c)
  {
  }

  /** Discover's state as a Step. */
  function StateOf(maze: Maze, frontier: seq<Pos>): (r: Step)
    reads maze
  {
    Step(maze.explored, maze.parent, frontier)
  }

  /** One neighbour test, on the maze: if Maze.isValidCell accepts n, mark it explored,
      make cell its parent and push it on the frontier. */
  method Discover(maze: Maze, cell: Pos, n: Pos, frontier: seq<Pos>) returns (next: seq<Pos>)
    requires maze.Valid() && maze.Open(cell) && Adjacent(cell, n)
    modifies maze
    ensures maze.Valid()
    ensures StateOf(maze, next) == Visit(maze, old(StateOf(maze, frontier)), cell, n)
  {
    next := frontier;
    if maze.IsValidCell(n) {
      maze.explored := maze.explored + {n};
      maze.parent := maze.parent[n := cell];
      next := frontier + [n];
    }
  }

  /** The body of the search loop before the next cell is taken: the four neighbour
      tests, on the maze. */
  method Expand(maze: Maze, cell: Pos, frontier: seq<Pos>) returns (next: seq<Pos>)
    requires maze.Valid() && maze.Open(cell)
    modifies maze
    ensures maze.Valid()
    ensures next == frontier + ValidNeighbours(maze, old(maze.explored), cell)
    ensures forall q :: q in maze.explored <==> q in old(maze.explored) || (Adjacent(cell, q) && maze.Open(q))
    ensures forall p :: p in maze.parent <==>
              p in old(maze.parent) || (Adjacent(cell, p) && maze.Open(p) && p !in old(maze.explored))
    ensures forall p :: p in maze.parent ==>
              maze.parent[p] ==
                if Adjacent(cell, p) && maze.Open(p) && p !in old(maze.explored) then cell else old(maze.parent)[p]
  {
    ghost var before := StateOf(maze, frontier);
    var north, east := Pos(cell.row - 1, cell.col), Pos(cell.row, cell.col + 1);
    var south, west := Pos(cell.row + 1, cell.col), Pos(cell.row, cell.col - 1);
    next := Discover(maze, cell, north, frontier);
    next := Discover(maze, cell, east, next);
    next := Discover(maze, cell, south, next);
    next := Discover(maze, cell, west, next);
    assert StateOf(maze, next) == ExpandStep(maze, before, cell);
    ExpandFrontier(maze, before, cell);
    ExpandExplored(maze, before, cell);
    ExpandLinked(maze, before, cell);
    ExpandParent(maze, before, cell);
  }

  /** What the search loop keeps true, over plain values: e0 and p0 are the explored
      cells and parent links it started from, e and p the current ones, pending the
      cells still to be expanded (the current cell and the frontier), pushed every cell
      in the order it entered the frontier, rank the length of pushed when each entered,
      and expanded the cells already expanded. */
  ghost predicate SearchState(maze: Maze, e0: set<Pos>, p0: map<Pos, Pos>, e: set<Pos>, p: map<Pos, Pos>,
                              pending: seq<Pos>, pushed: seq<Pos>, rank: map<Pos, nat>, expanded: set<Pos>)
  {
    && Tracked(maze, e0, e, pushed, rank)
    && RankedTowards(p, rank, maze.start)
    && KeptLinks(e0, p0, p)
    && Waiting(maze, pending, rank)
    && Closed(maze, expanded, e)
    && Covered(maze, rank, expanded, pending)
  }

  /** The cells explored during the search are exactly the pushed ones, each pushed
      once, open and not explored before, and ranked by its position in pushed. */
  ghost predicate Tracked(maze: Maze, e0: set<Pos>, e: set<Pos>, pushed: seq<Pos>, rank: map<Pos, nat>)
  {
    && (forall q :: q in rank <==> q in pushed)
    && (forall q :: q in rank ==> rank[q] < |pushed| && maze.Open(q) && q !in e0)
    && (forall q :: q in e <==> q in e0 || q in rank)
    && Distinct(pushed)
  }

  /** The parent links of the cells explored before the search are untouched. */
  ghost predicate KeptLinks(e0: set<Pos>, p0: map<Pos, Pos>, p: map<Pos, Pos>)
  {
    forall q :: q in e0 ==> (q in p <==> q in p0) && (q in p0 ==> p[q] == p0[q])
  }

  /** Every pending cell is open and is the start cell or a pushed one. */
  ghost predicate Waiting(maze: Maze, pending: seq<Pos>, rank: map<Pos, nat>)
  {
    forall q :: q in pending ==> maze.Open(q) && (q in rank || q == maze.start)
  }

  /** Every open neighbour of a cell of s is in e. */
  ghost predicate Closed(maze: Maze, s: set<Pos>, e: set<Pos>)
  {
    forall a, b :: a in s && Adjacent(a, b) && maze.Open(b) ==> b in e
  }

  /** Every pushed cell, and the start cell, is expanded or pending; the end cell is
      not expanded. */
  ghost predicate Covered(maze: Maze, rank: map<Pos, nat>, expanded: set<Pos>, pending: seq<Pos>)
  {
    && (forall q :: q in rank ==> q in expanded || q in pending)
    && (maze.start in expanded || maze.start in pending)
    && maze.end !in expanded
  }

  /** rank with every cell of added ranked n. */
  function RankAfter(rank: map<Pos, nat>, added: seq<Pos>, n: nat): (r: map<Pos, nat>)
    ensures forall q :: q in r <==> q in rank || q in added
  {
    rank + map q | q in added :: n
  }

  /** The cells found by expanding a cell were not explored, so none of them is ranked. */
  lemma AddedUnranked(maze: Maze, e0: set<Pos>, e: set<Pos>, pushed: seq<Pos>, rank: map<Pos, nat>,
                      cell: Pos, added: seq<Pos>)
    requires Tracked(maze, e0, e, pushed, rank)
    requires added == ValidNeighbours(maze, e, cell)
    ensures forall q :: q in added ==> q !in rank && q !in pushed && q !in e && Adjacent(cell, q) && maze.Open(q)
    ensures forall q :: q in rank ==> RankAfter(rank, added, |pushed|)[q] == rank[q]
  { }

  lemma TrackedGrows(maze: Maze, e0: set<Pos>, e: set<Pos>, e': set<Pos>, pushed: seq<Pos>, rank: map<Pos, nat>,
                     cell: Pos, added: seq<Pos>)
    requires Tracked(maze, e0, e, pushed, rank)
    requires added == ValidNeighbours(maze, e, cell)
    requires forall q :: q in e' <==> q in e || (Adjacent(cell, q) && maze.Open(q))
    ensures Tracked(maze, e0, e', pushed + added, RankAfter(rank, added, |pushed|))
  {
    AddedUnranked(maze, e0, e, pushed, rank, cell, added);
    DistinctAppend(pushed, added);
  }

  lemma RankedGrows(maze: Maze, e0: set<Pos>, e: set<Pos>, p: map<Pos, Pos>, p': map<Pos, Pos>,
                    pushed: seq<Pos>, rank: map<Pos, nat>, cell: Pos, added: seq<Pos>)
    requires Tracked(maze, e0, e, pushed, rank) && RankedTowards(p, rank, maze.start)
    requires cell in rank || cell == maze.start
    requires added == ValidNeighbours(maze, e, cell)
    requires forall q :: q in p' <==> q in p || (Adjacent(cell, q) && maze.Open(q) && q !in e)
    requires forall q :: q in p' ==> p'[q] == if Adjacent(cell, q) && maze.Open(q) && q !in e then cell else p[q]
    ensures RankedTowards(p', RankAfter(rank, added, |pushed|), maze.start)
  {
    var rank' := RankAfter(rank, added, |pushed|);
    AddedUnranked(maze, e0, e, pushed, rank, cell, added);
    forall q | q in rank'
      ensures q in p' && (p'[q] == maze.start || (p'[q] in rank' && rank'[p'[q]] < rank'[q]))
    {
      if q in added {
        assert p'[q] == cell;
      } else {
        assert q in e && q in p;
      }
    }
  }

  /** Expanding a cell other than the end cell keeps the search state: the newly found
      neighbours join the frontier and pushed, ranked after every earlier cell, and the
      cell joins the expanded ones. */
  lemma ExpandKeepsState(maze: Maze, e0: set<Pos>, p0: map<Pos, Pos>, e: set<Pos>, p: map<Pos, Pos>,
                         e': set<Pos>, p': map<Pos, Pos>, cell: Pos, toVisit: seq<Pos>, added: seq<Pos>,
                         pushed: seq<Pos>, rank: map<Pos, nat>, expanded: set<Pos>)
    requires SearchState(maze, e0, p0, e, p, [cell] + toVisit, pushed, rank, expanded)
    requires cell != maze.end
    requires added == ValidNeighbours(maze, e, cell)
    requires forall q :: q in e' <==> q in e || (Adjacent(cell, q) && maze.Open(q))
    requires forall q :: q in p' <==> q in p || (Adjacent(cell, q) && maze.Open(q) && q !in e)
    requires forall q :: q in p' ==> p'[q] == if Adjacent(cell, q) && maze.Open(q) && q !in e then cell else p[q]
    ensures SearchState(maze, e0, p0, e', p', toVisit + added, pushed + added,
                        RankAfter(rank, added, |pushed|), expanded + {cell})
  {
    var rank' := RankAfter(rank, added, |pushed|);
    assert cell in [cell] + toVisit;
    TrackedGrows(maze, e0, e, e', pushed, rank, cell, added);
    RankedGrows(maze, e0, e, p, p', pushed, rank, cell, added);
    assert KeptLinks(e0, p0, p') by {
      forall q | q in e0 ensures (q in p' <==> q in p0) && (q in p0 ==> p'[q] == p0[q]) {
        assert q in e;
      }
    }
    AddedUnranked(maze, e0, e, pushed, rank, cell, added);
    assert Waiting(maze, toVisit + added, rank');
    ClosedGrows(maze, expanded, e, e', cell);
    assert Covered(maze, rank', expanded + {cell}, toVisit + added);
  }

  /** Expanding cell adds its open neighbours to e, so s plus cell stays closed. */
  lemma ClosedGrows(maze: Maze, s: set<Pos>, e: set<Pos>, e': set<Pos>, cell: Pos)
    requires Closed(maze, s, e)
    requires forall q :: q in e' <==> q in e || (Adjacent(cell, q) && maze.Open(q))
    ensures Closed(maze, s + {cell}, e')
  { }

  /** The search state depends only on which cells are pending, not on their order. */
  lemma PendingReorder(maze: Maze, e0: set<Pos>, p0: map<Pos, Pos>, e: set<Pos>, p: map<Pos, Pos>,
                       a: seq<Pos>, b: seq<Pos>, pushed: seq<Pos>, rank: map<Pos, nat>, expanded: set<Pos>)
    requires SearchState(maze, e0, p0, e, p, a, pushed, rank, expanded)
    requires forall q :: q in a <==> q in b
    ensures SearchState(maze, e0, p0, e, p, b, pushed, rank, expanded)
  { }

  /** Every pushed cell is a distinct cell of the grid, so at most rows * cols are pushed. */
  lemma PushedBound(maze: Maze, e0: set<Pos>, p0: map<Pos, Pos>, e: set<Pos>, p: map<Pos, Pos>,
                    pending: seq<Pos>, pushed: seq<Pos>, rank: map<Pos, nat>, expanded: set<Pos>)
    requires SearchState(maze, e0, p0, e, p, pending, pushed, rank, expanded)
    ensures |pushed| <= maze.rows * maze.cols
  {
    forall i | 0 <= i < |pushed|
      ensures 0 <= pushed[i].row < maze.rows && 0 <= pushed[i].col < maze.cols
    {
      assert pushed[i] in rank;
    }
    DistinctCellsBound(pushed, maze.rows, maze.cols);
  }

  /** When nothing is pending, the expanded cells are closed under moving to an open
      neighbour, contain the start cell and miss the end cell; so if the search began
      with nothing explored, the end cell cannot be reached from the start cell. */
  lemma ExhaustedSeparates(maze: Maze, e0: set<Pos>, p0: map<Pos, Pos>, e: set<Pos>, p: map<Pos, Pos>,
                           pushed: seq<Pos>, rank: map<Pos, nat>, expanded: set<Pos>)
    requires SearchState(maze, e0, p0, e, p, [], pushed, rank, expanded)
    requires e0 == {}
    ensures !Connected(maze, maze.start, maze.end)
  {
    assert Closed(maze, expanded, e);
    ClosedSetSeparates(maze, expanded, maze.start, maze.end);
  }

  /** Every cell outside e has the parent link it had in p0 (or none, as in p0). */
  ghost predicate Untouched(e: set<Pos>, p0: map<Pos, Pos>, p: map<Pos, Pos>)
  {
    forall q :: q !in e ==> (q in p <==> q in p0) && (q in p0 ==> p[q] == p0[q])
  }

  /** Expanding a cell links only cells it also marks explored, so the cells still
      unexplored keep their links. */
  lemma UntouchedGrows(maze: Maze, e: set<Pos>, p0: map<Pos, Pos>, p: map<Pos, Pos>,
                       e': set<Pos>, p': map<Pos, Pos>, cell: Pos)
    requires Untouched(e, p0, p)
    requires forall q :: q in e' <==> q in e || (Adjacent(cell, q) && maze.Open(q))
    requires forall q :: q in p' <==> q in p || (Adjacent(cell, q) && maze.Open(q) && q !in e)
    requires forall q :: q in p' ==> p'[q] == if Adjacent(cell, q) && maze.Open(q) && q !in e then cell else p[q]
    ensures Untouched(e', p0, p')
  {
  }

  /** One round of the search loop: expand cell (which is not the end cell), then take
      the next cell from the frontier, or None when the frontier is empty. */
  method Advance(maze: Maze, d: Discipline, cell: Pos, toVisit: seq<Pos>, ghost e0: set<Pos>, ghost p0: map<Pos, Pos>,
                 ghost pushed: seq<Pos>, ghost rank: map<Pos, nat>, ghost expanded: set<Pos>)
    returns (step: Option<(Pos, seq<Pos>)>,
             ghost pushed': seq<Pos>, ghost rank': map<Pos, nat>, ghost expanded': set<Pos>)
    requires maze.Valid() && cell != maze.end
    requires SearchState(maze, e0, p0, maze.explored, maze.parent, [cell] + toVisit, pushed, rank, expanded)
    modifies maze
    ensures maze.Valid()
    ensures step.None? ==> SearchState(maze, e0, p0, maze.explored, maze.parent, [], pushed', rank', expanded')
    ensures step.Some? ==>
              SearchState(maze, e0, p0, maze.explored, maze.parent, [step.value.0] + step.value.1,
                          pushed', rank', expanded')
    ensures step == Take(d, toVisit + ValidNeighbours(maze, old(maze.explored), cell))
    ensures pushed' == pushed + ValidNeighbours(maze, old(maze.explored), cell)
    ensures forall q :: q in maze.explored <==> q in old(maze.explored) || (Adjacent(cell, q) && maze.Open(q))
    ensures forall q :: q in maze.parent <==>
              q in old(maze.parent) || (Adjacent(cell, q) && maze.Open(q) && q !in old(maze.explored))
    ensures forall q :: q in maze.parent ==>
              maze.parent[q] ==
                if Adjacent(cell, q) && maze.Open(q) && q !in old(maze.explored) then cell else old(maze.parent)[q]
    ensures |pushed| <= |pushed'| <= maze.rows * maze.cols
    ensures step.Some? && |pushed'| == |pushed| ==> |step.value.1| < |toVisit|
  {
    ghost var e, p := maze.explored, maze.parent;
    var frontier := Expand(maze, cell, toVisit);
    ghost var added := ValidNeighbours(maze, e, cell);
    ExpandKeepsState(maze, e0, p0, e, p, maze.explored, maze.parent, cell, toVisit, added, pushed, rank, expanded);
    rank', pushed', expanded' := RankAfter(rank, added, |pushed|), pushed + added, expanded + {cell};
    PushedBound(maze, e0, p0, maze.explored, maze.parent, frontier, pushed', rank', expanded');
    step := Take(d, frontier);
    if step.Some? {
      PendingReorder(maze, e0, p0, maze.explored, maze.parent, frontier, [step.value.0] + step.value.1,
                     pushed', rank', expanded');
    }
  }

  /** solveMazeDFS and solveMazeBFS: the search loop, with the frontier discipline as a
      parameter. Starting from the start cell (not marked explored when the search
      begins, so a neighbour of the start can later rediscover it), expand the current
      cell and take the next one from the frontier until the current cell is the end
      cell; then rebuild the path with GetSolution, whose result is returned. pushed is
      every cell in the order it entered the frontier. */
  method Search(maze: Maze, d: Discipline) returns (r: Result<seq<Pos>, SolveError>, ghost pushed: seq<Pos>)
    requires maze.Valid()
    modifies maze
    ensures maze.Valid()
    ensures r.Ok? ==> IsOpenPath(maze, r.value) && r.value[0] == maze.start && r.value[|r.value| - 1] == maze.end
    ensures r.Ok? ==> forall i :: 0 < i < |r.value| ==> maze.Parent(r.value[i]) == Some(r.value[i - 1])
    ensures r.Ok? ==> Distinct(r.value)
    ensures r.Ok? ==> forall i :: 0 <= i < |r.value| ==> maze.Ancestor(maze.end, i) == Some(r.value[|r.value| - 1 - i])
    ensures r.Err? ==> r.error == NoPathFound
    ensures r.Err? && old(maze.explored) == {} ==> !Connected(maze, maze.start, maze.end)
    ensures forall q :: q in maze.explored <==> q in old(maze.explored) || q in pushed
    ensures Distinct(pushed) && |pushed| <= maze.rows * maze.cols
    ensures forall q :: q in pushed ==> maze.Open(q) && q !in old(maze.explored)
    ensures forall p :: p in old(maze.explored) ==> maze.Parent(p) == old(maze.Parent(p))
    ensures forall p :: p !in maze.explored ==> maze.Parent(p) == old(maze.Parent(p))
  {
    ghost var e0, p0 := maze.explored, maze.parent;
    var cell := maze.start;
    var toVisit: seq<Pos> := [];
    pushed := [];
    ghost var size := maze.rows * maze.cols;
    ghost var rank: map<Pos, nat> := map[];
    ghost var expanded: set<Pos> := {};
    while cell != maze.end
      invariant maze.Valid()
      invariant SearchState(maze, e0, p0, maze.explored, maze.parent, [cell] + toVisit, pushed, rank, expanded)
      invariant |pushed| <= size
      invariant Untouched(maze.explored, p0, maze.parent)
      decreases size - |pushed|, |toVisit|
    {
      ghost var e, p := maze.explored, maze.parent;
      var step;
      step, pushed, rank, expanded := Advance(maze, d, cell, toVisit, e0, p0, pushed, rank, expanded);
      UntouchedGrows(maze, e, p0, p, maze.explored, maze.parent, cell);
      match step
      case None =>
        if e0 == {} {
          ExhaustedSeparates(maze, e0, p0, maze.explored, maze.parent, pushed, rank, expanded);
        }
        return Err(NoPathFound), pushed;
      case Some((next, rest)) =>
        cell, toVisit := next, rest;
    }
    ghost var k: nat := 0;
    if cell != maze.start {
      RankedReachesRoot(maze, rank, maze.start, cell);
      k :| maze.Ancestor(maze.end, k) == Some(maze.start);
    }
    assert maze.Ancestor(maze.end, k) == Some(maze.start);
    r := GetSolution(maze);
    assert maze.Ancestor(maze.end, k) == Some(maze.start);
  }

  /** solveMazeDFS: the search with a stack as the frontier. */
  method SolveMazeDFS(maze: Maze) returns (r: Result<seq<Pos>, SolveError>)
    requires maze.Valid()
    modifies maze
    ensures maze.Valid()
    ensures r.Ok? ==> IsOpenPath(maze, r.value) && r.value[0] == maze.start && r.value[|r.value| - 1] == maze.end
    ensures r.Ok? ==> forall i :: 0 < i < |r.value| ==> maze.Parent(r.value[i]) == Some(r.value[i - 1])
    ensures r.Ok? ==> Distinct(r.value)
    ensures r.Ok? ==> forall i :: 0 <= i < |r.value| ==> maze.Ancestor(maze.end, i) == Some(r.value[|r.value| - 1 - i])
    ensures r.Err? ==> r.error == NoPathFound
    ensures r.Err? && old(maze.explored) == {} ==> !Connected(maze, maze.start, maze.end)
    ensures old(maze.explored) <= maze.explored
    ensures forall q :: q in maze.explored && q !in old(maze.explored) ==> maze.Open(q)
    ensures forall p :: p in old(maze.explored) ==> maze.Parent(p) == old(maze.Parent(p))
    ensures forall p :: p !in maze.explored ==> maze.Parent(p) == old(maze.Parent(p))
  {
    ghost var pushed;
    r, pushed := Search(maze, Lifo);
  }

  /** solveMazeBFS: the search with a queue as the frontier. */
  method SolveMazeBFS(maze: Maze) returns (r: Result<seq<Pos>, SolveError>)
    requires maze.Valid()
    modifies maze
    ensures maze.Valid()
    ensures r.Ok? ==> IsOpenPath(maze, r.value) && r.value[0] == maze.start && r.value[|r.value| - 1] == maze.end
    ensures r.Ok? ==> forall i :: 0 < i < |r.value| ==> maze.Parent(r.value[i]) == Some(r.value[i - 1])
    ensures r.Ok? ==> Distinct(r.value)
    ensures r.Ok? ==> forall i :: 0 <= i < |r.value| ==> maze.Ancestor(maze.end, i) == Some(r.value[|r.value| - 1 - i])
    ensures r.Err? ==> r.error == NoPathFound
    ensures r.Err? && old(maze.explored) == {} ==> !Connected(maze, maze.start, maze.end)
    ensures old(maze.explored) <= maze.explored
    ensures forall q :: q in maze.explored && q !in old(maze.explored) ==> maze.Open(q)
    ensures forall p :: p in old(maze.explored) ==> maze.Parent(p) == old(maze.Parent(p))
    ensures forall p :: p !in maze.explored ==> maze.Parent(p) == old(maze.Parent(p))
  {
    ghost var pushed;
    r, pushed := Search(maze, Fifo);
  }

  /** getSolution: follow parent links from the end cell back to the start cell,
      pushing each cell on a stack, then pop the stack into the path, start first.
      Where the Java loop would dereference a missing parent or go round a cycle for
      ever, this returns InvalidReconstruction. */
  method GetSolution(maze: Maze) returns (r: Result<seq<Pos>, SolveError>)
    requires maze.Valid()
    ensures r.Err? ==> r.error == InvalidReconstruction
    ensures r.Err? ==> forall k: nat :: maze.Ancestor(maze.end, k) != Some(maze.start)
    ensures r.Ok? ==> exists k: nat :: maze.Ancestor(maze.end, k) == Some(maze.start)
    ensures r.Ok? ==> IsOpenPath(maze, r.value) && Distinct(r.value)
    ensures r.Ok? ==> r.value[0] == maze.start && r.value[|r.value| - 1] == maze.end
    ensures r.Ok? ==> forall i :: 0 <= i < |r.value| ==>
              maze.Ancestor(maze.end, i) == Some(r.value[|r.value| - 1 - i])
    ensures r.Ok? ==> forall i :: 0 < i < |r.value| ==>
              maze.Parent(r.value[i]) == Some(r.value[i - 1]) && r.value[i] != maze.start
  {
    var climbed := Climb(maze);
    if climbed.Err? {
      return Err(climbed.error);
    }
    var route := climbed.value + [maze.start];
    var solution := PopAll(route);
    ReversedChainIsPath(maze, route, solution);
    r := Ok(solution);
  }

  /** The first loop of getSolution: from the end cell, push each cell on the stack and
      step to its parent, until the current cell is the start cell. Returns the stack,
      end cell at the bottom, start cell not included. */
  method Climb(maze: Maze) returns (r: Result<seq<Pos>, SolveError>)
    requires maze.Valid()
    ensures r.Err? ==> r.error == InvalidReconstruction
    ensures r.Err? ==> forall k: nat :: maze.Ancestor(maze.end, k) != Some(maze.start)
    ensures r.Ok? ==> LinkedFrom(maze, maze.end, r.value + [maze.start])
    ensures r.Ok? ==> Distinct(r.value + [maze.start])
  {
    var route: seq<Pos> := [];  // the stack, top at the back
    var cell := maze.end;
    var start := maze.start;
    ghost var size := maze.rows * maze.cols;
    while cell != start
      invariant maze.Open(cell)
      invariant LinkedFrom(maze, maze.end, route + [cell])
      invariant forall i :: 0 <= i < |route| ==> route[i] != start && maze.InBounds(route[i])
      invariant Distinct(route) && |route| <= size
      decreases size - |route|
    {
      if cell in route {
        RepeatedCellNeverReaches(maze, route, cell);
        return Err(InvalidReconstruction);
      }
      DistinctCellsBound(route + [cell], maze.rows, maze.cols);
      match maze.Parent(cell)
      case None =>
        MissingParentNeverReaches(maze, route, cell);
        return Err(InvalidReconstruction);
      case Some(p) =>
        LinkedExtend(maze, maze.end, route + [cell], p);
        route, cell := route + [cell], p;
    }
    assert Distinct(route + [cell]);
    r := Ok(route);
  }

  /** Climb meets a cell it has already pushed: the chain from the end cell cycles
      without meeting the start cell. */
  lemma RepeatedCellNeverReaches(maze: Maze, route: seq<Pos>, cell: Pos)
    requires LinkedFrom(maze, maze.end, route + [cell]) && cell in route && cell != maze.start
    requires forall i :: 0 <= i < |route| ==> route[i] != maze.start
    ensures forall k: nat :: maze.Ancestor(maze.end, k) != Some(maze.start)
  {
    var j :| 0 <= j < |route| && route[j] == cell;
    LinkedAreAncestors(maze, maze.end, route + [cell]);
    CycleNeverReaches(maze, maze.end, maze.start, j, |route|);
  }

  /** Climb meets a cell with no parent: the chain from the end cell breaks without
      meeting the start cell. */
  lemma MissingParentNeverReaches(maze: Maze, route: seq<Pos>, cell: Pos)
    requires LinkedFrom(maze, maze.end, route + [cell]) && maze.Parent(cell) == None && cell != maze.start
    requires forall i :: 0 <= i < |route| ==> route[i] != maze.start
    ensures forall k: nat :: maze.Ancestor(maze.end, k) != Some(maze.start)
  {
    LinkedAreAncestors(maze, maze.end, route + [cell]);
    assert maze.Ancestor(maze.end, |route| + 1) == None;
    BrokenNeverReaches(maze, maze.end, maze.start, |route| + 1);
  }

  /** The parent chain from the end cell to the start cell, read backwards, is an open
      path from start to end along parent links. */
  lemma ReversedChainIsPath(maze: Maze, chain: seq<Pos>, path: seq<Pos>)
    requires maze.Valid() && |chain| > 0 && chain[|chain| - 1] == maze.start
    requires LinkedFrom(maze, maze.end, chain) && Distinct(chain)
    requires |path| == |chain| && forall i :: 0 <= i < |path| ==> path[i] == chain[|chain| - 1 - i]
    ensures IsOpenPath(maze, path) && Distinct(path)
    ensures path[0] == maze.start && path[|path| - 1] == maze.end
    ensures forall i :: 0 <= i < |path| ==> maze.Ancestor(maze.end, i) == Some(path[|path| - 1 - i])
    ensures forall i :: 0 < i < |path| ==> maze.Parent(path[i]) == Some(path[i - 1]) && path[i] != maze.start
    ensures exists k: nat :: maze.Ancestor(maze.end, k) == Some(maze.start)
  {
    var n := |chain|;
    LinkedAreAncestors(maze, maze.end, chain);
    forall i | 0 < i < n
      ensures maze.Parent(path[i]) == Some(path[i - 1]) && path[i] != maze.start
    {
      var k := n - 1 - i;
      assert maze.Ancestor(maze.end, k + 1) == Some(chain[k + 1]);
    }
    assert maze.Ancestor(maze.end, n - 1) == Some(maze.start);
  }

  /** The second loop of getSolution: pop the whole stack into a list. The list holds the
      stack's cells from the top (the back) down. */
  method PopAll(stack: seq<Pos>) returns (list: seq<Pos>)
    ensures |list| == |stack|
    ensures forall i :: 0 <= i < |list| ==> list[i] == stack[|stack| - 1 - i]
  {
    var rest := stack;
    list := [];
    while rest != []
      invariant |rest| + |list| == |stack|
      invariant rest == stack[..|rest|]
      invariant forall i :: 0 <= i < |list| ==> list[i] == stack[|stack| - 1 - i]
    {
      list := list + [rest[|rest| - 1]];
      rest := rest[..|rest| - 1];
    }
  }
}
