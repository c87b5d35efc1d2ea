/** Facts about following parent links: once the chain from a cell breaks or repeats a
    cell without having met a target, it never meets it; and a chain whose links lead to
    strictly earlier discoveries always ends at the root. */
module ParentChain {
  import opened Wrappers
  import opened Grid

  /** Following k + 1 links is following one link, then k more. */
  lemma {:induction false} AncestorPrepend(maze: Maze, p: Pos, k: nat)
    ensures maze.Ancestor(p, k + 1) == match maze.Parent(p)
                                         case None => None
                                         case Some(q) => maze.Ancestor(q, k)
  {
    if k > 0 {
      AncestorPrepend(maze, p, k - 1);
    }
  }

  /** c starts at `from` and each cell of c is the parent of the one before it. */
  ghost predicate LinkedFrom(maze: Maze, from: Pos, c: seq<Pos>)
    reads maze
  {
    && |c| > 0 && c[0] == from
    && forall i :: 0 < i < |c| ==> maze.Parent(c[i - 1]) == Some(c[i])
  }

  /** A linked sequence extends by the parent of its last cell. */
  lemma LinkedExtend(maze: Maze, from: Pos, c: seq<Pos>, p: Pos)
    requires LinkedFrom(maze, from, c) && maze.Parent(c[|c| - 1]) == Some(p)
    ensures LinkedFrom(maze, from, c + [p])
  {
  }

  /** A linked sequence lists the first ancestors of its first cell, in order. */
  lemma {:induction false} LinkedAreAncestors(maze: Maze, from: Pos, c: seq<Pos>)
    requires LinkedFrom(maze, from, c)
    ensures forall i :: 0 <= i < |c| ==> maze.Ancestor(from, i) == Some(c[i])
  {
    if |c| > 1 {
      var front := c[..|c| - 1];
      assert LinkedFrom(maze, from, front);
      LinkedAreAncestors(maze, from, front);
      assert maze.Ancestor(from, |c| - 2) == Some(c[|c| - 2]);
    }
  }

  /** A chain that has broken stays broken. */
  lemma {:induction false} BrokenStaysBroken(maze: Maze, p: Pos, m: nat, t: nat)
    requires maze.Ancestor(p, m) == None
    ensures maze.Ancestor(p, m + t) == None
  {
    if t > 0 {
      BrokenStaysBroken(maze, p, m, t - 1);
    }
  }

  /** Once the chain returns to the cell it held j links earlier, it repeats that stretch. */
  lemma {:induction false} RepeatShift(maze: Maze, p: Pos, j: nat, m: nat, t: nat)
    requires j < m && maze.Ancestor(p, m) == maze.Ancestor(p, j)
    ensures maze.Ancestor(p, m + t) == maze.Ancestor(p, j + t)
  {
    if t > 0 {
      RepeatShift(maze, p, j, m, t - 1);
    }
  }

  /** A chain that breaks after m links without meeting target never meets it. */
  lemma BrokenNeverReaches(maze: Maze, p: Pos, target: Pos, m: nat)
    requires maze.Ancestor(p, m) == None
    requires forall i :: 0 <= i < m ==> maze.Ancestor(p, i) != Some(target)
    ensures forall k: nat :: maze.Ancestor(p, k) != Some(target)
  {
    forall k: nat ensures maze.Ancestor(p, k) != Some(target) {
      if k >= m {
        BrokenStaysBroken(maze, p, m, k - m);
      }
    }
  }

  /** A chain that comes back to an earlier cell after m links without meeting target
      never meets it: it cycles through the same m cells for ever. */
  lemma CycleNeverReaches(maze: Maze, p: Pos, target: Pos, j: nat, m: nat)
    requires j < m && maze.Ancestor(p, m) == maze.Ancestor(p, j)
    requires forall i :: 0 <= i < m ==> maze.Ancestor(p, i) != Some(target)
    ensures forall k: nat :: maze.Ancestor(p, k) != Some(target)
  {
    forall k: nat ensures maze.Ancestor(p, k) != Some(target) {
      CycleAvoids(maze, p, target, j, m, k);
    }
  }

  lemma {:induction false} CycleAvoids(maze: Maze, p: Pos, target: Pos, j: nat, m: nat, k: nat)
    requires j < m && maze.Ancestor(p, m) == maze.Ancestor(p, j)
    requires forall i :: 0 <= i < m ==> maze.Ancestor(p, i) != Some(target)
    ensures maze.Ancestor(p, k) != Some(target)
    decreases k
  {
    if k >= m {
      RepeatShift(maze, p, j, m, k - m);
      CycleAvoids(maze, p, target, j, m, j + (k - m));
    }
  }

  /** Every ranked cell has a parent that is the root or a ranked cell of smaller rank:
      the shape of the links a search leaves behind, where a cell's rank is when it
      was discovered. */
  ghost predicate RankedTowards(parent: map<Pos, Pos>, rank: map<Pos, nat>, root: Pos)
  {
    forall q {:trigger q in parent} :: q in rank ==>
      && q in parent
      && (parent[q] == root || (parent[q] in rank && rank[parent[q]] < rank[q]))
  }

  /** Under RankedTowards, the chain from any ranked cell reaches the root. */
  lemma {:induction false} RankedReachesRoot(maze: Maze, rank: map<Pos, nat>, root: Pos, q: Pos)
    requires RankedTowards(maze.parent, rank, root) && q in rank
    ensures exists k: nat :: maze.Ancestor(q, k) == Some(root)
    decreases rank[q]
  {
    assert q in maze.parent;
    var p := maze.parent[q];
    AncestorPrepend(maze, q, 0);
    if p == root {
      assert maze.Ancestor(q, 1) == Some(root);
    } else {
      RankedReachesRoot(maze, rank, root, p);
      var k: nat :| maze.Ancestor(p, k) == Some(root);
      AncestorPrepend(maze, q, k);
      assert maze.Ancestor(q, k + 1) == Some(root);
    }
  }
}
