# Maze solver, modelled in Dafny

A model of `MazeSolver` from a small Java maze program. The class solves a grid maze
in one of two ways: depth-first search (`solveMazeDFS`, with a stack) or breadth-first
search (`solveMazeBFS`, with a queue). Both then rebuild the path with `getSolution`,
which follows the cells' parent links back from the end cell to the start cell.

Files:

- `wrappers.dfy` holds `Option` and `Result`.
- `grid.dfy` (module `Grid`) is the maze, a class `Maze`.
  - Constant fields: rows, cols, the wall layout, the start cell and the end cell.
  - State changed in place by a search: the set of explored cells (each cell's
    `explored` flag) and a map from a cell to its parent cell (each cell's `parent`
    link).
  - `IsValidCell` means in bounds, not a wall and not explored.
  - `Valid()` is the invariant every search keeps: every parent link joins two adjacent
    open cells, and every explored cell other than the start has a parent.
  - Also open paths, connectivity, and the bound on distinct cells of a grid.
- `chain.dfy` (module `ParentChain`) is about following parent links.
  - `Ancestor(p, k)` is the cell k links above p.
  - A chain that breaks or comes back to an earlier cell never reaches a given target.
  - A chain whose links always lead to an earlier discovery always reaches the root.
- `solver.dfy` (module `MazeSolver`) holds the three operations.
  - `Discover`: one neighbour test, with a pure reference `Visit`.
  - `Expand`: the four neighbour tests of one loop iteration, with a pure reference
    `ExpandStep`.
  - `Search`: the loop, with a `Discipline` argument. `Lifo` takes the newest cell
    (Stack.pop) and `Fifo` the oldest (Queue.remove). Both add at the back.
  - `SolveMazeDFS` and `SolveMazeBFS`: the two entry points.
  - `GetSolution` with its two loops `Climb` and `PopAll`.

Cells are identified by position. The Java code compares `MazeCell` objects with `!=`.
The model assumes that `getCell`, `getStartCell` and `getEndCell` return the one
`MazeCell` of each position, so that comparing positions says the same thing.

`Maze.java` and `MazeCell.java` are not part of this model. The grid, its `isValidCell`
test and its `explored`/`parent` accessors are modelled from how `MazeSolver` uses
them. Walls, dimensions, start and end are `const`, so a search cannot change them.

Neither search marks the start cell explored when it begins (lines 64 and 111). When a
neighbour of the start is expanded, the start passes `isValidCell`: it is marked explored,
gets that neighbour as its parent and is pushed. The model keeps this behaviour. The proofs
allow for it: the start may appear in the pushed cells, and `GetSolution` still stops
at the start cell.

`Grid.Maze`'s constructor stands for a freshly loaded maze: a rectangular layout with
open start and end cells, no cell explored and no parent links. It shows that the grid
invariant holds in the state that the searches' completeness promise assumes. What the
loader and `reset` in `Maze.java` do is an assumption, since that file is not part of
this model.

## Model

| member | source | states |
|---|---|---|
| MazeSolver.SolveMazeDFS | src/MazeSolver.java:62-103 | Keeps the grid invariant. On success the result is what getSolution returns (line 102): an open path of adjacent cells from start to end, without repeats, whose cell i from the back is the i-th ancestor of the end cell, and each cell's parent is the cell before it. A failure is only ever NoPathFound (the stack ran empty). When the search began with nothing explored, failure means no open path joins start and end. Earlier explored cells keep their parent links, and so does every cell the search leaves unexplored (only cells passing isValidCell get a new parent); newly explored cells are open. |
| MazeSolver.SolveMazeBFS | src/MazeSolver.java:109-149 | The same promises as the depth-first search, with a queue as the frontier: a success is the repeat-free reversed parent chain that getSolution returns (line 148), including that cells the search leaves unexplored keep their parent links. |
| MazeSolver.Search | src/MazeSolver.java:64-102 | The shared loop, with the entry points' promises, including that a success is the repeat-free reversed parent chain from the end cell that GetSolution returns. Its ghost result pushed has no repeats and at most rows*cols cells, and every pushed cell is open and was not explored before. The cells explored afterwards are exactly those explored before plus those in pushed. Every cell the search leaves unexplored keeps its parent link, since lines 77-95 set a parent only on a cell they also mark explored. That pushed is the cells appended to the frontier, in order, is carried by Advance's contract, which the loop invariant uses. |
| MazeSolver.Advance | src/MazeSolver.java:68-100 | One iteration. The next cell and the remaining frontier are Take of the old frontier followed by the valid neighbours of the cell, north, east, south, west: the newest cell for a stack, the oldest for a queue. pushed grows by exactly those neighbours. Afterwards a cell is explored exactly when it was before or is an open neighbour. Exactly the previously unexplored open neighbours gain the cell as parent; every other link is unchanged. The search state (SearchState) is kept, and the pushed cells stay within rows*cols. Either a new cell was pushed or the frontier got shorter, so the loop terminates. |
| MazeSolver.Take | src/MazeSolver.java:99 | None exactly when the frontier is empty. Lifo yields the last-added cell and the rest in order (Stack.pop). Fifo yields the first-added cell (Queue.remove, line 145). |
| MazeSolver.Discover | src/MazeSolver.java:75-79 | Keeps the grid invariant. The new explored set, parent map and frontier are those of the pure reference Visit applied to the old ones. |
| MazeSolver.Visit | src/MazeSolver.java:75-79 | A cell that passes isValidCell becomes explored, gets the current cell as parent and joins the frontier at the back. Otherwise nothing changes. No other cell's state changes. |
| MazeSolver.Expand | src/MazeSolver.java:71-97 | Keeps the grid invariant. The frontier gains exactly the valid neighbours, in the order north, east, south, west. Afterwards every open neighbour is explored and nothing else is newly explored. Exactly the previously unexplored open neighbours get the current cell as parent; every other link is unchanged. |
| MazeSolver.ValidNeighbours | src/MazeSolver.java:75-97 | The neighbours that pass isValidCell: a cell is in the list if and only if it is adjacent, open and unexplored. No cell appears twice. |
| MazeSolver.Kept | src/MazeSolver.java:75 | One neighbour's contribution to the frontier: the cell itself exactly when it is open and unexplored, otherwise nothing. |
| MazeSolver.ExpandFrontier | src/MazeSolver.java:75-97 | The four tests in sequence append exactly the valid neighbours of the current cell, north, east, south, west. A cell explored by an earlier test cannot affect a later one. |
| MazeSolver.ExpandExplored | src/MazeSolver.java:76-94 | After the four tests, a cell is explored if and only if it was before or it is an open neighbour of the current cell. |
| MazeSolver.ExpandLinked | src/MazeSolver.java:77-95 | After the four tests, a cell has a parent if and only if it had one before or it is an open neighbour that was unexplored. |
| MazeSolver.ExpandParent | src/MazeSolver.java:77-95 | Each previously unexplored open neighbour has the current cell as parent. Every other parent link is as before. |
| MazeSolver.ExpandKeepsState | src/MazeSolver.java:68-97 | Expanding a cell other than the end keeps the loop invariant. Explored cells are exactly the earlier ones plus the pushed ones. Pushed cells are distinct and open; each has as rank the length of pushed when it entered, so cells added later have a larger rank than those added before them. Every parent link leads to the start or to an earlier-pushed cell. Earlier explored cells keep their links. Expanded cells have all open neighbours explored. Start and end sit correctly relative to expanded and pending cells. |
| MazeSolver.TrackedGrows | src/MazeSolver.java:76-96 | The newly pushed cells are fresh: the explored set and the distinct pushed sequence grow together. |
| MazeSolver.RankedGrows | src/MazeSolver.java:77-95 | Giving the new neighbours the current cell as parent keeps every link pointing to the start or to an earlier-pushed cell. |
| MazeSolver.PushedBound | src/MazeSolver.java:75-99 | Under the loop invariant, the pushed cells number at most rows*cols. |
| MazeSolver.ExhaustedSeparates | src/MazeSolver.java:99 | When the frontier runs empty on a search that began with nothing explored, no open path joins start and end. |
| MazeSolver.PendingReorder | src/MazeSolver.java:99 | The loop invariant depends only on which cells are pending, not on their order. So both Stack.pop and Queue.remove keep it. |
| MazeSolver.UntouchedGrows | src/MazeSolver.java:75-97 | One iteration sets a parent link only on a cell it also marks explored, so every cell still unexplored afterwards keeps the link it had when the search began. |
| ParentChain.RankedReachesRoot | src/MazeSolver.java:68-102 | If every link of a cell leads to the root or to a cell discovered earlier, then following links from any discovered cell reaches the root. That is why getSolution succeeds once the end cell is reached. |
| MazeSolver.GetSolution | src/MazeSolver.java:32-56 | Fails, with InvalidReconstruction, only when the parent chain from the end never reaches the start. On success the result is a non-empty open path without repeats. It starts at the start cell and ends at the end cell. It is the parent chain from the end read backwards: element i from the back is the i-th ancestor of the end cell, and each cell's parent is the one before it. |
| MazeSolver.Climb | src/MazeSolver.java:37-43 | The first loop of getSolution. On success the stack holds the parent chain from the end cell up to, but not including, the start cell. With the start cell appended it is linked by parent links and has no repeats. GetSolution appends the start cell, as line 45 pushes it. The climb fails only when the chain breaks (a missing parent) or cycles without reaching the start. |
| MazeSolver.RepeatedCellNeverReaches | src/MazeSolver.java:40-43 | If the climb meets a cell it already pushed, the chain never reaches the start. |
| MazeSolver.MissingParentNeverReaches | src/MazeSolver.java:40-43 | If the climb meets a cell with no parent, the chain never reaches the start. |
| ParentChain.CycleNeverReaches | src/MazeSolver.java:40-43 | A chain that returns to an earlier cell without meeting a target never meets it. |
| ParentChain.BrokenNeverReaches | src/MazeSolver.java:40-43 | A chain that ends without meeting a target never meets it. |
| ParentChain.LinkedAreAncestors | src/MazeSolver.java:40-43 | The cells the climb pushes are, in order, the 0th, 1st, 2nd ... ancestors of the end cell. |
| MazeSolver.ReversedChainIsPath | src/MazeSolver.java:45-53 | The parent chain from end to start, read backwards, is an open path from start to end without repeats, along parent links. |
| MazeSolver.PopAll | src/MazeSolver.java:51-53 | Popping the whole stack yields its cells from the top down: the list is the stack reversed. |
| Grid.ClosedSetSeparates | src/MazeSolver.java:99 | A set of cells that holds the start and not the end, and that contains every open neighbour of its members, leaves no open path from start to end. |
| Grid.DistinctCellsBound | src/MazeSolver.java:75-99 | Distinct cells of a rows-by-cols grid number at most rows*cols. |

## Left out

- `main` is left out. It loads a maze from a file, prints solutions and resets the maze between solves, all of which is file and console I/O.
- The constructors and `setMaze` are left out. They only store the maze; here the maze is a parameter of each operation.
- `Maze` and `MazeCell` internals (parsing, printing, `reset`) are left out. Those files are not part of this model. Their accessors are modelled as the fields of `Grid.Maze`.
- Java's `Stack` and `LinkedList` are modelled as sequences.
- A failure in Java is an exception or a hang; here it is a `Result`.
  - Popping an empty frontier throws. It is modelled as `Err(NoPathFound)`.
  - In `getSolution`, a missing parent dereferences null and a cyclic chain loops for ever. Both are modelled as `Err(InvalidReconstruction)`, returned as soon as the climb meets a cell without a parent or one it has already pushed.
- MazeSolver.SolveMazeDFS: completeness (failure means no open path) is stated only when the search starts with no cell explored. That is the state after loading or `reset`. From an arbitrary explored set, the code can fail although a path exists.
- MazeSolver.SolveMazeBFS: the same restriction on completeness applies.
- MazeSolver.SolveMazeBFS: the shortest-path property of breadth-first search is not stated. Proving it would need an extra invariant: the queue holds cells in order of distance from the start, and the distances of any two queued cells differ by at most one. That is a separate development on top of this model.
- MazeSolver.Search: the grid is not shown to be unchanged except for the explored cells and parent links. This needs no statement: the maze's other fields are `const`.
