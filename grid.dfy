/** The grid the solver works on: a rectangle of cells, each a wall or open, with a
    per-cell "explored" flag and a parent link set when the search discovers the cell. */
module Grid {
  import opened Wrappers

  /** A cell is identified by its position; cells never move. */
  datatype Pos = Pos(row: int, col: int)

  /** p and q share a side (4-connectivity, no diagonals). */
  predicate Adjacent(p: Pos, q: Pos) {
    || (p.row == q.row && (p.col - q.col == 1 || q.col - p.col == 1))
    || (p.col == q.col && (p.row - q.row == 1 || q.row - p.row == 1))
  }

  predicate Distinct<T(==)>(s: seq<T>) {
    forall i, j :: 0 <= i < j < |s| ==> s[i] != s[j]
  }

  /** The maze: fixed dimensions and wall layout, a start and an end cell, and the two
      things a search changes in every cell, its explored flag (the set of explored
      cells) and its parent link (a map from a cell to the cell it was discovered from). */
  class Maze {
    const rows: nat
    const cols: nat
    const walls: seq<seq<bool>>  // walls[r][c]: cell (r, c) is a wall
    const start: Pos
    const end: Pos
    var explored: set<Pos>
    var parent: map<Pos, Pos>

    predicate InBounds(p: Pos) {
      0 <= p.row < rows && 0 <= p.col < cols
    }

    /** In bounds and not a wall. */
    predicate Open(p: Pos) {
      InBounds(p) && p.row < |walls| && p.col < |walls[p.row]| && !walls[p.row][p.col]
    }

    /** The cell p was discovered from, if any. */
    function Parent(p: Pos): (r: Option<Pos>)
      reads this
    {
      if p in parent then Some(parent[p]) else None
    }

    /** Maze.isValidCell(row, col): in bounds, not a wall and not yet explored. */
    predicate IsValidCell(p: Pos)
      reads this
    {
      Open(p) && p !in explored
    }

    /** The grid invariant: the layout is rows by cols, the start and end cells are
        open, every parent link joins two adjacent open cells, and every explored cell
        other than the start has a parent. */
    ghost predicate Valid()
      reads this
    {
      && |walls| == rows && (forall r :: 0 <= r < rows ==> |walls[r]| == cols)
      && Open(start) && Open(end)
      && (forall p :: p in parent ==> Open(p) && Open(parent[p]) && Adjacent(p, parent[p]))
      && (forall p :: p in explored && p != start ==> p in parent)
    }

    /** Builds a maze from a rectangular wall layout (true = wall), with no cell explored
        and no parent links. */
    constructor (layout: seq<seq<bool>>, start: Pos, end: Pos)
      requires |layout| > 0 && forall r :: 0 <= r < |layout| ==> |layout[r]| == |layout[0]|
      requires 0 <= start.row < |layout| && 0 <= start.col < |layout[0]| && !layout[start.row][start.col]
      requires 0 <= end.row < |layout| && 0 <= end.col < |layout[0]| && !layout[end.row][end.col]
      ensures Valid()
      ensures rows == |layout| && cols == |layout[0]| && walls == layout
      ensures this.start == start && this.end == end
      ensures explored == {} && parent == map[]
    {
      rows, cols, walls := |layout|, |layout[0]|, layout;
      this.start, this.end := start, end;
      explored, parent := {}, map[];
    }

    /** The cell reached by following k parent links from p, if the chain is that long. */
    ghost function Ancestor(p: Pos, k: nat): (r: Option<Pos>)
      reads this
    {
      if k == 0 then Some(p)
      else match Ancestor(p, k - 1)
        case None => None
        case Some(q) => Parent(q)
    }
  }

  /** A non-empty sequence of open cells, each adjacent to the next. */
  ghost predicate IsOpenPath(maze: Maze, path: seq<Pos>)
  {
    && |path| > 0
    && (forall i :: 0 <= i < |path| ==> maze.Open(path[i]))
    && (forall i :: 0 < i < |path| ==> Adjacent(path[i - 1], path[i]))
  }

  /** Some open path leads from one cell to the other. */
  ghost predicate Connected(maze: Maze, from: Pos, to: Pos)
  {
    exists path :: IsOpenPath(maze, path) && path[0] == from && path[|path| - 1] == to
  }

  /** A set of cells that holds `from`, not `to`, and every open neighbour of its members
      separates the two: no open path joins them. */
  lemma ClosedSetSeparates(maze: Maze, s: set<Pos>, from: Pos, to: Pos)
    requires forall p, q :: p in s && Adjacent(p, q) && maze.Open(q) ==> q in s
    requires from in s && to !in s
    ensures !Connected(maze, from, to)
  {
    if Connected(maze, from, to) {
      var path :| IsOpenPath(maze, path) && path[0] == from && path[|path| - 1] == to;
      PathStaysInClosedSet(maze, s, path);
    }
  }

  lemma {:induction false} PathStaysInClosedSet(maze: Maze, s: set<Pos>, path: seq<Pos>)
    requires forall p, q :: p in s && Adjacent(p, q) && maze.Open(q) ==> q in s
    requires IsOpenPath(maze, path) && path[0] in s
    ensures forall i :: 0 <= i < |path| ==> path[i] in s
  {
    if |path| > 1 {
      var front := path[..|path| - 1];
      assert IsOpenPath(maze, front);
      PathStaysInClosedSet(maze, s, front);
      assert path[|path| - 2] in s;
    }
  }

  /** Distinct cells of a rows-by-cols grid number at most rows * cols. */
  lemma DistinctCellsBound(cells: seq<Pos>, rows: nat, cols: nat)
    requires Distinct(cells)
    requires forall i :: 0 <= i < |cells| ==> 0 <= cells[i].row < rows && 0 <= cells[i].col < cols
    ensures |cells| <= rows * cols
  {
    var s := set i | 0 <= i < |cells| :: cells[i];
    DistinctCardinality(cells);
    CellSetBound(s, rows, cols);
  }

  lemma {:induction false} DistinctCardinality(cells: seq<Pos>)
    requires Distinct(cells)
    ensures |set i | 0 <= i < |cells| :: cells[i]| == |cells|
  {
    if cells != [] {
      var front := cells[..|cells| - 1];
      DistinctCardinality(front);
      var s := set i | 0 <= i < |cells| :: cells[i];
      var t := set i | 0 <= i < |front| :: front[i];
      assert s == t + {cells[|cells| - 1]};
      assert cells[|cells| - 1] !in t;
    }
  }

  lemma {:induction false} CellSetBound(s: set<Pos>, rows: nat, cols: nat)
    requires forall p :: p in s ==> 0 <= p.row < rows && 0 <= p.col < cols
    ensures |s| <= rows * cols
  {
    if rows == 0 {
      assert s == {} by {
        forall p | p in s ensures false { }
      }
    } else {
      var last := set p | p in s && p.row == rows - 1;
      var rest := s - last;
      CellSetBound(rest, rows - 1, cols);
      RowBound(last, rows - 1, cols);
      assert s == rest + last;
      assert (rows - 1) * cols + cols == rows * cols;
    }
  }

  lemma {:induction false} RowBound(s: set<Pos>, row: int, cols: nat)
    requires forall p :: p in s ==> p.row == row && 0 <= p.col < cols
    ensures |s| <= cols
  {
    if cols == 0 {
      assert s == {} by {
        forall p | p in s ensures false { }
      }
    } else {
      var rest := s - {Pos(row, cols - 1)};
      RowBound(rest, row, cols - 1);
    }
  }
}
