/**
 * The maze grid and its generator: a randomized growing-tree (Prim-style)
 * carve on the odd-coordinate lattice with step 2.
 *
 * A maze of interior size w x h is an `array2<int>` of (h + 2) rows and
 * (w + 2) columns, indexed `maze[y, x]`; 1 is a wall and 0 is open.
 * Cells with both coordinates odd are lattice cells (rooms); a cell with one
 * even coordinate is a wall that the carve may knock through; a cell with
 * both coordinates even is never carved.
 *
 * Properties that hold cell by cell and mention neighbouring cells are
 * written as a per-cell predicate quantified on its own application, so the
 * solver only unfolds them where a proof asks for them.
 */
module MazeGrid {

  /** A grid coordinate (x, y): x is the column, y the row. */
  type Cell = (int, int)

  /**
   * The corner (0, 0), used where a cell parameter means "none": no frontier
   * entry being expanded, no cell exempt from a shape rule. It is a border
   * cell, which is never open.
   */
  const NoCell: Cell := (0, 0)

  /** The four lattice steps the carve tries, in the order it tries them. */
  const Steps: seq<Cell> := [(2, 0), (-2, 0), (0, 2), (0, -2)]

  /** (dx, dy) is one of the four lattice steps. */
  predicate LatticeStep(dx: int, dy: int) {
    (dx == 2 && dy == 0) || (dx == -2 && dy == 0) || (dx == 0 && dy == 2) || (dx == 0 && dy == -2)
  }

  predicate Interior(w: int, h: int, x: int, y: int) {
    1 <= x <= w && 1 <= y <= h
  }

  predicate OnLattice(x: int, y: int) {
    x % 2 == 1 && y % 2 == 1
  }

  /** (u, v) is a cell of the grid: row v, column u. */
  predicate InGrid(maze: array2<int>, v: int, u: int) {
    0 <= v < maze.Length0 && 0 <= u < maze.Length1
  }

  /** The cell exists in the grid and is open. */
  predicate IsOpen(maze: array2<int>, x: int, y: int)
    reads maze
  {
    0 <= y < maze.Length0 && 0 <= x < maze.Length1 && maze[y, x] == 0
  }

  ghost predicate Sized(maze: array2<int>, w: int, h: int) {
    maze.Length0 == h + 2 && maze.Length1 == w + 2
  }

  /** Every cell is a wall (1) or open (0). */
  ghost predicate Binary(maze: array2<int>)
    reads maze
  {
    forall y, x :: 0 <= y < maze.Length0 && 0 <= x < maze.Length1 ==> maze[y, x] == 0 || maze[y, x] == 1
  }

  /** Only interior cells are open. */
  ghost predicate OpenOnlyInside(maze: array2<int>, w: int, h: int)
    reads maze
  {
    forall y, x :: 0 <= y < maze.Length0 && 0 <= x < maze.Length1 && maze[y, x] == 0 ==> Interior(w, h, x, y)
  }

  /** Row 0, row h + 1, column 0 and column w + 1 are all wall. */
  ghost predicate BorderWalled(maze: array2<int>, w: int, h: int)
    reads maze
  {
    forall y, x :: 0 <= y < maze.Length0 && 0 <= x < maze.Length1 && (y == 0 || y == h + 1 || x == 0 || x == w + 1) ==>
      maze[y, x] == 1
  }

  /**
   * The parity shape at (x, y), unless (x, y) is `except`: if the cell is
   * open, it does not have both coordinates even, and if it has one even
   * coordinate it joins the two open lattice cells on either side of it.
   */
  ghost predicate ShapeAt(maze: array2<int>, except: Cell, x: int, y: int)
    reads maze
  {
    IsOpen(maze, x, y) && (x, y) != except ==>
      && (x % 2 == 1 || y % 2 == 1)
      && (x % 2 == 0 ==> IsOpen(maze, x - 1, y) && IsOpen(maze, x + 1, y))
      && (y % 2 == 0 ==> IsOpen(maze, x, y - 1) && IsOpen(maze, x, y + 1))
  }

  ghost predicate LatticeShape(maze: array2<int>, except: Cell)
    reads maze
  {
    forall x, y :: ShapeAt(maze, except, x, y)
  }

  /** The neighbour of c two cells away along d is open whenever it is inside. */
  ghost predicate NeighbourOpen(maze: array2<int>, w: int, h: int, c: Cell, d: Cell)
    reads maze
  {
    Interior(w, h, c.0 + d.0, c.1 + d.1) ==> IsOpen(maze, c.0 + d.0, c.1 + d.1)
  }

  /** Every inside lattice neighbour of c is open: c has been fully expanded. */
  ghost predicate Expanded(maze: array2<int>, w: int, h: int, c: Cell)
    reads maze
  {
    forall k :: 0 <= k < |Steps| ==> NeighbourOpen(maze, w, h, c, Steps[k])
  }

  /** If (x, y) is an open lattice cell, it has been fully expanded. */
  ghost predicate ClosedAt(maze: array2<int>, w: int, h: int, x: int, y: int)
    reads maze
  {
    Interior(w, h, x, y) && OnLattice(x, y) && IsOpen(maze, x, y) ==> Expanded(maze, w, h, (x, y))
  }

  /** Every open lattice cell has all its inside lattice neighbours open. */
  ghost predicate LatticeClosed(maze: array2<int>, w: int, h: int)
    reads maze
  {
    forall x, y :: ClosedAt(maze, w, h, x, y)
  }

  /** Every lattice cell of the interior is open. */
  ghost predicate AllLatticeOpen(maze: array2<int>, w: int, h: int)
    reads maze
  {
    forall y, x :: Interior(w, h, x, y) && OnLattice(x, y) ==> IsOpen(maze, x, y)
  }

  /** The wall position half-way between two lattice cells. */
  function Mid(a: Cell, b: Cell): Cell {
    ((a.0 + b.0) / 2, (a.1 + b.1) / 2)
  }

  predicate Adjacent(a: Cell, b: Cell) {
    (a.0 == b.0 && (a.1 - b.1 == 1 || b.1 - a.1 == 1)) ||
    (a.1 == b.1 && (a.0 - b.0 == 1 || b.0 - a.0 == 1))
  }

  /** A walk of cardinal unit steps over open cells. */
  ghost predicate IsPath(maze: array2<int>, p: seq<Cell>)
    reads maze
  {
    && (forall i :: 0 <= i < |p| ==> IsOpen(maze, p[i].0, p[i].1))
    && (forall i :: 0 <= i < |p| - 1 ==> Adjacent(p[i], p[i + 1]))
  }

  /** c can be walked to from the entry (1, 1). */
  ghost predicate Reachable(maze: array2<int>, c: Cell)
    reads maze
  {
    exists p :: IsPath(maze, p) && |p| > 0 && p[0] == (1, 1) && p[|p| - 1] == c
  }

  /**
   * The ghost spanning tree at c: a ranked cell is an open lattice cell and,
   * unless it is the entry, has a parent of smaller rank one lattice step
   * away, with the wall between them knocked through.
   */
  ghost predicate RankedAt(maze: array2<int>, w: int, h: int, rank: map<Cell, nat>, parent: map<Cell, Cell>, x: int, y: int)
    reads maze
  {
    var c := (x, y);
    c in rank ==>
      && Interior(w, h, c.0, c.1) && OnLattice(c.0, c.1) && IsOpen(maze, c.0, c.1)
      && (c != (1, 1) ==>
            && c in parent && parent[c] in rank && rank[parent[c]] < rank[c]
            && LatticeStep(c.0 - parent[c].0, c.1 - parent[c].1)
            && IsOpen(maze, Mid(parent[c], c).0, Mid(parent[c], c).1))
  }

  /** An open lattice cell (x, y) is ranked. */
  ghost predicate IndexedAt(maze: array2<int>, w: int, h: int, rank: map<Cell, nat>, x: int, y: int)
    reads maze
  {
    Interior(w, h, x, y) && OnLattice(x, y) && IsOpen(maze, x, y) ==> (x, y) in rank
  }

  ghost predicate Tree(maze: array2<int>, w: int, h: int, rank: map<Cell, nat>, parent: map<Cell, Cell>)
    reads maze
  {
    && (1, 1) in rank
    && (forall x, y :: RankedAt(maze, w, h, rank, parent, x, y))
    && (forall x, y :: IndexedAt(maze, w, h, rank, x, y))
  }

  /** a is b's parent in the ghost spanning tree: the carve reached b from a. */
  ghost predicate TreeEdge(rank: map<Cell, nat>, parent: map<Cell, Cell>, a: Cell, b: Cell) {
    b in rank && b != (1, 1) && b in parent && parent[b] == a
  }

  /**
   * An open wall cell (x, y), unless it is `except`, is the passage of a tree
   * edge between the two lattice cells on either side of it.
   */
  ghost predicate PassageAt(maze: array2<int>, rank: map<Cell, nat>, parent: map<Cell, Cell>, except: Cell, x: int, y: int)
    reads maze
  {
    IsOpen(maze, x, y) && (x, y) != except && !OnLattice(x, y) ==>
      && (x % 2 == 0 ==> TreeEdge(rank, parent, (x - 1, y), (x + 1, y)) || TreeEdge(rank, parent, (x + 1, y), (x - 1, y)))
      && (y % 2 == 0 ==> TreeEdge(rank, parent, (x, y - 1), (x, y + 1)) || TreeEdge(rank, parent, (x, y + 1), (x, y - 1)))
  }

  /** A ranked cell other than `current` is on the frontier or fully expanded. */
  ghost predicate PendingAt(maze: array2<int>, w: int, h: int, walls: seq<Cell>, current: Cell, rank: map<Cell, nat>, x: int, y: int)
    reads maze
  {
    var c := (x, y);
    c in rank ==> c in walls || c == current || Expanded(maze, w, h, c)
  }

  /**
   * What holds of the carve between two steps: the grid is well formed, the
   * ghost tree spans the open lattice cells and every open wall is one of
   * its edges, every frontier entry is an open lattice cell and appears
   * once, every open lattice cell other than `current` is either on the
   * frontier or fully expanded, and every lattice cell still wall is
   * unvisited.
   */
  ghost predicate Carving(maze: array2<int>, w: int, h: int, walls: seq<Cell>, current: Cell,
                          rank: map<Cell, nat>, parent: map<Cell, Cell>, counter: nat, unvisited: set<Cell>)
    reads maze
  {
    && Sized(maze, w, h) && Binary(maze) && OpenOnlyInside(maze, w, h)
    && LatticeShape(maze, NoCell)
    && Tree(maze, w, h, rank, parent)
    && (forall x, y :: PassageAt(maze, rank, parent, NoCell, x, y))
    && (forall j :: 0 <= j < |walls| ==> walls[j] in rank)
    && (forall i, j :: 0 <= i < j < |walls| ==> walls[i] != walls[j])
    && (forall x, y :: PendingAt(maze, w, h, walls, current, rank, x, y))
    && (forall c :: c in rank ==> rank[c] < counter)
    && (forall y, x :: Interior(w, h, x, y) && OnLattice(x, y) && maze[y, x] == 1 ==> (x, y) in unvisited)
  }

  /**
   * Builds a maze of interior size w x h (index.js:44-65): all walls, then the
   * entry (1, 1) is opened and becomes the first frontier entry; while the
   * frontier is not empty an arbitrary entry is spliced out and expanded;
   * finally the exit (w, h) is forced open.
   * The random index is an arbitrary choice: the contract holds for all.
   */
  method Generate(w: int, h: int) returns (maze: array2<int>)
    requires 1 <= w && 1 <= h
    ensures fresh(maze) && Generated(maze, w, h)
  {
    maze := new int[h + 2, w + 2]((_, _) => 1);
    maze[1, 1] := 0;
    var walls: seq<Cell> := [(1, 1)];
    ghost var rank: map<Cell, nat> := map[(1, 1) := 0];
    ghost var parent: map<Cell, Cell> := map[];
    ghost var counter: nat := 1;
    ghost var unvisited: set<Cell> := LatticeCells(w, h) - {(1, 1)};
    CarveStart(maze, w, h);

    while |walls| > 0
      invariant Carving(maze, w, h, walls, NoCell, rank, parent, counter, unvisited)
      decreases unvisited, |walls|
    {
      var i :| 0 <= i < |walls|;
      var (x, y) := walls[i];
      ghost var walls1 := walls;
      walls := walls[..i] + walls[i + 1..];
      Spliced(maze, w, h, walls1, i, rank, parent, counter, unvisited);
      walls, rank, parent, counter, unvisited := ExpandEntry(maze, w, h, walls, x, y, rank, parent, counter, unvisited);
    }

    FrontierDrained(maze, w, h, rank, parent, counter, unvisited);
    LatticeFilled(maze, w, h);
    OpenExit(maze, w, h, rank, parent);
    if w % 2 == 1 || h % 2 == 1 {
      AllReachable(maze, w, h, rank, parent);
    }
    NoLatticeCycle(maze, w, h, rank, parent);
  }

  /**
   * What the generator guarantees of a maze of interior size w x h: walls
   * all round and only 0/1 inside; the entry and the exit open; every
   * lattice cell open and every open wall joining two of them (the exit
   * aside); no loop through the lattice; and, when the exit sits next to a
   * lattice cell (w or h odd), every open cell reachable from the entry.
   */
  ghost predicate Generated(maze: array2<int>, w: int, h: int)
    reads maze
  {
    && 1 <= w && 1 <= h && Sized(maze, w, h)
    && Binary(maze) && BorderWalled(maze, w, h) && OpenOnlyInside(maze, w, h)
    && maze[1, 1] == 0 && maze[h, w] == 0
    && AllLatticeOpen(maze, w, h) && LatticeClosed(maze, w, h)
    && LatticeShape(maze, (w, h))
    && (forall c :: !LatticeCycle(maze, w, h, c))
    && (w % 2 == 1 || h % 2 == 1 ==>
          forall y, x :: 0 <= y < h + 2 && 0 <= x < w + 2 && maze[y, x] == 0 ==> Reachable(maze, (x, y)))
  }

  /**
   * The last step of generation (index.js:63): the exit (w, h) is forced
   * open, which keeps every carved passage, the spanning tree and the
   * closure of the lattice, and walls off nothing.
   */
  method OpenExit(maze: array2<int>, w: int, h: int, ghost rank: map<Cell, nat>, ghost parent: map<Cell, Cell>)
    requires 1 <= w && 1 <= h && Sized(maze, w, h)
    requires Binary(maze) && OpenOnlyInside(maze, w, h) && LatticeShape(maze, NoCell)
    requires AllLatticeOpen(maze, w, h) && LatticeClosed(maze, w, h) && Tree(maze, w, h, rank, parent)
    requires forall u, v :: PassageAt(maze, rank, parent, NoCell, u, v)
    modifies maze
    ensures forall v, u :: 0 <= v < maze.Length0 && 0 <= u < maze.Length1 ==>
              maze[v, u] == if (u, v) == (w, h) then 0 else old(maze[v, u])
    ensures Binary(maze) && OpenOnlyInside(maze, w, h) && BorderWalled(maze, w, h)
    ensures LatticeShape(maze, (w, h)) && AllLatticeOpen(maze, w, h) && LatticeClosed(maze, w, h)
    ensures Tree(maze, w, h, rank, parent) && forall u, v :: PassageAt(maze, rank, parent, (w, h), u, v)
  {
    maze[h, w] := 0;
    forall u, v ensures PassageAt(maze, rank, parent, (w, h), u, v) {
      assert old(PassageAt(maze, rank, parent, NoCell, u, v));
    }
    forall u, v ensures ShapeAt(maze, (w, h), u, v) {
      assert old(ShapeAt(maze, NoCell, u, v));
    }
    forall u, v ensures ClosedAt(maze, w, h, u, v) {
      assert old(ClosedAt(maze, w, h, u, v));
      if Interior(w, h, u, v) && OnLattice(u, v) {
        forall k | 0 <= k < |Steps| ensures NeighbourOpen(maze, w, h, (u, v), Steps[k]) {
          assert old(NeighbourOpen(maze, w, h, (u, v), Steps[k]));
        }
      }
    }
    forall u, v ensures RankedAt(maze, w, h, rank, parent, u, v) {
      assert old(RankedAt(maze, w, h, rank, parent, u, v));
    }
    forall u, v ensures IndexedAt(maze, w, h, rank, u, v) {
      assert old(IndexedAt(maze, w, h, rank, u, v));
    }
  }

  /**
   * The four neighbours of the spliced frontier entry (x, y), in the order of
   * `Steps` (index.js:53-60).
   */
  method ExpandEntry(maze: array2<int>, w: int, h: int, walls: seq<Cell>, x: int, y: int,
                     ghost rank: map<Cell, nat>, ghost parent: map<Cell, Cell>, ghost counter: nat, ghost unvisited: set<Cell>)
    returns (walls': seq<Cell>, ghost rank': map<Cell, nat>, ghost parent': map<Cell, Cell>, ghost counter': nat, ghost unvisited': set<Cell>)
    requires Carving(maze, w, h, walls, (x, y), rank, parent, counter, unvisited) && (x, y) in rank
    modifies maze
    ensures Carving(maze, w, h, walls', NoCell, rank', parent', counter', unvisited')
    ensures Expanded(maze, w, h, (x, y))
    ensures walls' == walls + Targets(x, y, old(CarvableSteps(maze, w, h, x, y)), |Steps|)
    ensures forall v, u {:trigger InGrid(maze, v, u)} :: InGrid(maze, v, u) ==>
              maze[v, u] == old(maze[v, u]) || (old(maze[v, u]) == 1 && maze[v, u] == 0 && InReach(x, y, u, v))
    ensures unvisited' < unvisited || (unvisited' == unvisited && walls' == walls)
  {
    walls', rank', parent', counter', unvisited' := walls, rank, parent, counter, unvisited;
    ghost var can := CarvableSteps(maze, w, h, x, y);
    for k := 0 to |Steps|
      invariant Carving(maze, w, h, walls', (x, y), rank', parent', counter', unvisited') && (x, y) in rank'
      invariant forall j :: 0 <= j < k ==> NeighbourOpen(maze, w, h, (x, y), Steps[j])
      invariant walls' == walls + Targets(x, y, can, k)
      invariant forall j :: k <= j < |Steps| ==> Carvable(maze, w, h, x, y, Steps[j]) == can[j]
      invariant forall v, u {:trigger InGrid(maze, v, u)} :: InGrid(maze, v, u) ==>
                  maze[v, u] == old(maze[v, u]) || (old(maze[v, u]) == 1 && maze[v, u] == 0 && InReach(x, y, u, v))
      invariant unvisited' <= unvisited && (unvisited' == unvisited ==> walls' == walls)
    {
      walls', rank', parent', counter', unvisited' := Expand(maze, w, h, walls', x, y, k, walls, can, rank', parent', counter', unvisited');
    }
    EntryExpanded(maze, w, h, walls', x, y, rank', parent', counter', unvisited');
  }

  /** The neighbour of (x, y) two cells along d is inside and still wall. */
  ghost predicate Carvable(maze: array2<int>, w: int, h: int, x: int, y: int, d: Cell)
    requires Sized(maze, w, h)
    reads maze
  {
    Interior(w, h, x + d.0, y + d.1) && maze[y + d.1, x + d.0] == 1
  }

  /** Pushing the k-th marked neighbour extends the frontier by the first k + 1 targets. */
  lemma TargetsNext(walls: seq<Cell>, before: seq<Cell>, after: seq<Cell>, x: int, y: int, can: seq<bool>, k: nat)
    requires k < |can| <= |Steps|
    requires before == walls + Targets(x, y, can, k)
    requires after == before + if can[k] then [(x + Steps[k].0, y + Steps[k].1)] else []
    ensures after == walls + Targets(x, y, can, k + 1)
  {
  }

  /** For each of the four steps, whether it leads from (x, y) to a neighbour inside and still wall. */
  ghost function CarvableSteps(maze: array2<int>, w: int, h: int, x: int, y: int): (r: seq<bool>)
    requires Sized(maze, w, h)
    reads maze
    ensures |r| == |Steps| && forall j :: 0 <= j < |Steps| ==> r[j] == Carvable(maze, w, h, x, y, Steps[j])
  {
    [Carvable(maze, w, h, x, y, Steps[0]), Carvable(maze, w, h, x, y, Steps[1]),
     Carvable(maze, w, h, x, y, Steps[2]), Carvable(maze, w, h, x, y, Steps[3])]
  }

  /**
   * The lattice neighbours of (x, y), in step order, among the first n steps
   * marked in can: the cells one expansion pushes.
   */
  function Targets(x: int, y: int, can: seq<bool>, n: nat): seq<Cell>
    requires n <= |can| <= |Steps|
  {
    if n == 0 then []
    else
      var d := Steps[n - 1];
      Targets(x, y, can, n - 1) + if can[n - 1] then [(x + d.0, y + d.1)] else []
  }

  /**
   * Step k touches two cells within reach of (x, y), neither of which is
   * the neighbour a later step looks at.
   */
  lemma StepGeometry(x: int, y: int, k: int)
    requires 0 <= k < |Steps|
    ensures var d := Steps[k]; var m := Mid((x, y), (x + d.0, y + d.1));
            && InReach(x, y, x + d.0, y + d.1) && InReach(x, y, m.0, m.1)
            && forall j :: k < j < |Steps| ==> Steps[j] != d && (x + Steps[j].0, y + Steps[j].1) != m
  {
  }

  /** (u, v) is at most two cells from (x, y) along a row or a column. */
  predicate InReach(x: int, y: int, u: int, v: int) {
    (u == x && -2 <= v - y <= 2) || (v == y && -2 <= u - x <= 2)
  }

  /**
   * The k-th direction (dx, dy) of Steps tried from the spliced frontier
   * entry (x, y) (index.js:53-59): when (x + dx, y + dy) is inside and still
   * wall, it is carved. `start` is the frontier and `can` the carvable
   * directions as they were before the first direction was tried.
   */
  method Expand(maze: array2<int>, w: int, h: int, walls: seq<Cell>, x: int, y: int, k: int,
                ghost start: seq<Cell>, ghost can: seq<bool>,
                ghost rank: map<Cell, nat>, ghost parent: map<Cell, Cell>, ghost counter: nat, ghost unvisited: set<Cell>)
    returns (walls': seq<Cell>, ghost rank': map<Cell, nat>, ghost parent': map<Cell, Cell>, ghost counter': nat, ghost unvisited': set<Cell>)
    requires Carving(maze, w, h, walls, (x, y), rank, parent, counter, unvisited) && (x, y) in rank
    requires 0 <= k < |Steps| == |can|
    requires walls == start + Targets(x, y, can, k)
    requires forall j :: k <= j < |Steps| ==> Carvable(maze, w, h, x, y, Steps[j]) == can[j]
    modifies maze
    ensures var d := Steps[k]; walls' == walls + if old(Carvable(maze, w, h, x, y, d)) then [(x + d.0, y + d.1)] else []
    ensures walls' == start + Targets(x, y, can, k + 1)
    ensures forall j :: k < j < |Steps| ==> Carvable(maze, w, h, x, y, Steps[j]) == can[j]
    ensures var d := Steps[k];
            forall v, u {:trigger InGrid(maze, v, u)} :: InGrid(maze, v, u) ==>
              maze[v, u] == if old(Carvable(maze, w, h, x, y, d)) && ((u, v) == (x + d.0, y + d.1) || (u, v) == Mid((x, y), (x + d.0, y + d.1)))
                            then 0 else old(maze[v, u])
    ensures Carving(maze, w, h, walls', (x, y), rank', parent', counter', unvisited')
    ensures NeighbourOpen(maze, w, h, (x, y), Steps[k])
    ensures forall j :: 0 <= j < |Steps| && old(NeighbourOpen(maze, w, h, (x, y), Steps[j])) ==> NeighbourOpen(maze, w, h, (x, y), Steps[j])
    ensures rank.Keys <= rank'.Keys
    ensures unvisited' <= unvisited && (unvisited' == unvisited ==> walls' == walls)
  {
    walls', rank', parent', counter', unvisited' := walls, rank, parent, counter, unvisited;
    StepIsLatticeStep(k);
    StepGeometry(x, y, k);
    var (dx, dy) := Steps[k];
    var nx, ny := x + dx, y + dy;
    if nx > 0 && ny > 0 && nx <= w && ny <= h && maze[ny, nx] == 1 {
      label Before:
      walls', rank', parent', counter', unvisited' := Carve(maze, w, h, walls, x, y, nx, ny, rank, parent, counter, unvisited);
      NeighboursKept@Before(maze, w, h, x, y, k, can);
    } else {
      Uncarvable(maze, w, h, x, y, k);
    }
    TargetsNext(start, walls, walls', x, y, can, k);
  }

  /**
   * Carves from the frontier entry (x, y) to its lattice neighbour (nx, ny),
   * which is inside and still wall (index.js:56-58): the wall between and the
   * neighbour are opened and the neighbour is pushed on the frontier.
   */
  method Carve(maze: array2<int>, w: int, h: int, walls: seq<Cell>, x: int, y: int, nx: int, ny: int,
               ghost rank: map<Cell, nat>, ghost parent: map<Cell, Cell>, ghost counter: nat, ghost unvisited: set<Cell>)
    returns (walls': seq<Cell>, ghost rank': map<Cell, nat>, ghost parent': map<Cell, Cell>, ghost counter': nat, ghost unvisited': set<Cell>)
    requires Carving(maze, w, h, walls, (x, y), rank, parent, counter, unvisited) && (x, y) in rank
    requires LatticeStep(nx - x, ny - y) && Interior(w, h, nx, ny) && maze[ny, nx] == 1
    modifies maze
    ensures Carved(maze, w, h, x, y, nx, ny)
    ensures walls' == walls + [(nx, ny)]
    ensures Carving(maze, w, h, walls', (x, y), rank', parent', counter', unvisited')
    ensures rank.Keys <= rank'.Keys && unvisited' < unvisited
  {
    var dx, dy := nx - x, ny - y;
    CarveTarget(maze, w, h, walls, x, y, nx, ny, rank, parent, counter, unvisited);
    label Before:
    maze[y + dy / 2, x + dx / 2] := 0;
    maze[ny, nx] := 0;
    assert forall v, u {:trigger InGrid(maze, v, u)} :: InGrid(maze, v, u) ==>
             maze[v, u] == if (u, v) == (nx, ny) || (u, v) == (x + dx / 2, y + dy / 2) then 0 else old(maze[v, u]);
    walls' := walls + [(nx, ny)];
    rank' := rank[(nx, ny) := counter];
    parent' := parent[(nx, ny) := (x, y)];
    counter' := counter + 1;
    unvisited' := unvisited - {(nx, ny)};
    ShapeKept@Before(maze, w, h, x, y, nx, ny);
    TreeKept@Before(maze, w, h, x, y, nx, ny, rank, parent, counter, rank', parent');
    PassagesKept@Before(maze, w, h, x, y, nx, ny, rank, parent, counter, rank', parent');
    PendingKept@Before(maze, w, h, walls, x, y, nx, ny, rank, walls', rank');
  }

  /**
   * The state change of one carve: the wall between (x, y) and its lattice
   * neighbour (nx, ny), and the neighbour itself, were opened; nothing else
   * changed.
   */
  twostate predicate Carved(maze: array2<int>, w: int, h: int, x: int, y: int, nx: int, ny: int)
    reads maze
  {
    && Sized(maze, w, h) && Interior(w, h, nx, ny) && LatticeStep(nx - x, ny - y)
    && old(maze[ny, nx]) == 1
    && forall v, u :: 0 <= v < maze.Length0 && 0 <= u < maze.Length1 ==>
         maze[v, u] == if (u, v) == (nx, ny) || (u, v) == Mid((x, y), (nx, ny)) then 0 else old(maze[v, u])
  }

  // The twostate lemmas below declare every parameter `new`, values included:
  // with Dafny 4.11, a call of one that mixes `new` and plain parameters from
  // Expand produces prover input that the solver rejects. A `new` parameter
  // used under `old` must be shown allocated in the earlier state, hence the
  // `old(allocated(...))` preconditions.

  /**
   * A carve along Steps[k] opens that neighbour of (x, y), keeps every open
   * neighbour open, and leaves the later neighbours as carvable as they were.
   */
  twostate lemma NeighboursKept(new maze: array2<int>, new w: int, new h: int, new x: int, new y: int, new k: int, new can: seq<bool>)
    requires old(allocated(maze))
    requires 0 <= k < |Steps| == |can|
    requires Carved(maze, w, h, x, y, x + Steps[k].0, y + Steps[k].1)
    requires forall j :: k <= j < |Steps| ==> old(Carvable(maze, w, h, x, y, Steps[j])) == can[j]
    ensures NeighbourOpen(maze, w, h, (x, y), Steps[k])
    ensures forall j :: 0 <= j < |Steps| && old(NeighbourOpen(maze, w, h, (x, y), Steps[j])) ==> NeighbourOpen(maze, w, h, (x, y), Steps[j])
    ensures forall j :: k < j < |Steps| ==> Carvable(maze, w, h, x, y, Steps[j]) == can[j]
  {
    StepGeometry(x, y, k);
  }

  /** A neighbour that is not carvable is outside or already open. */
  lemma Uncarvable(maze: array2<int>, w: int, h: int, x: int, y: int, k: int)
    requires Sized(maze, w, h) && Binary(maze) && 0 <= k < |Steps|
    requires !Carvable(maze, w, h, x, y, Steps[k])
    ensures NeighbourOpen(maze, w, h, (x, y), Steps[k])
  {
  }

  twostate lemma ShapeKept(new maze: array2<int>, new w: int, new h: int, new x: int, new y: int, new nx: int, new ny: int)
    requires old(allocated(maze))
    requires old(LatticeShape(maze, NoCell)) && old(IsOpen(maze, x, y)) && OnLattice(x, y)
    requires Carved(maze, w, h, x, y, nx, ny)
    ensures LatticeShape(maze, NoCell)
  {
    forall u, v ensures ShapeAt(maze, NoCell, u, v) {
      assert old(ShapeAt(maze, NoCell, u, v));
    }
  }

  /** The neighbour a carve opens is a fresh lattice cell. */
  lemma CarveTarget(maze: array2<int>, w: int, h: int, walls: seq<Cell>, x: int, y: int, nx: int, ny: int,
                    rank: map<Cell, nat>, parent: map<Cell, Cell>, counter: nat, unvisited: set<Cell>)
    requires Carving(maze, w, h, walls, (x, y), rank, parent, counter, unvisited) && (x, y) in rank
    requires LatticeStep(nx - x, ny - y) && Interior(w, h, nx, ny) && maze[ny, nx] == 1
    ensures OnLattice(x, y) && IsOpen(maze, x, y)
    ensures (nx, ny) !in rank && (nx, ny) !in walls && (nx, ny) in unvisited
    ensures Mid((x, y), (nx, ny)) == (x + (nx - x) / 2, y + (ny - y) / 2)
  {
    assert RankedAt(maze, w, h, rank, parent, x, y);
    MidBetween(x, y, nx, ny);
    assert RankedAt(maze, w, h, rank, parent, nx, ny);
  }

  /** The wall between a lattice cell and its lattice neighbour has exactly one even coordinate. */
  lemma MidBetween(x: int, y: int, nx: int, ny: int)
    requires OnLattice(x, y) && LatticeStep(nx - x, ny - y)
    ensures Mid((x, y), (nx, ny)) == (x + (nx - x) / 2, y + (ny - y) / 2)
    ensures Adjacent((x, y), Mid((x, y), (nx, ny))) && Adjacent(Mid((x, y), (nx, ny)), (nx, ny))
    ensures OnLattice(nx, ny) && !OnLattice(Mid((x, y), (nx, ny)).0, Mid((x, y), (nx, ny)).1)
    ensures Mid((x, y), (nx, ny)).0 % 2 == 1 || Mid((x, y), (nx, ny)).1 % 2 == 1
  {
  }

  twostate lemma TreeKept(new maze: array2<int>, new w: int, new h: int, new x: int, new y: int, new nx: int, new ny: int,
                          new rank: map<Cell, nat>, new parent: map<Cell, Cell>, new counter: nat,
                          new rank': map<Cell, nat>, new parent': map<Cell, Cell>)
    requires old(allocated(maze)) && old(allocated((rank, parent)))
    requires old(Tree(maze, w, h, rank, parent)) && (x, y) in rank && (nx, ny) !in rank
    requires forall c :: c in rank ==> rank[c] < counter
    requires rank' == rank[(nx, ny) := counter] && parent' == parent[(nx, ny) := (x, y)]
    requires Carved(maze, w, h, x, y, nx, ny)
    ensures Tree(maze, w, h, rank', parent')
  {
    RankedKept(maze, w, h, x, y, nx, ny, rank, parent, counter, rank', parent');
    assert old(RankedAt(maze, w, h, rank, parent, x, y));
    MidBetween(x, y, nx, ny);
    forall u, v ensures IndexedAt(maze, w, h, rank', u, v) {
      assert old(IndexedAt(maze, w, h, rank, u, v));
    }
  }

  twostate lemma RankedKept(new maze: array2<int>, new w: int, new h: int, new x: int, new y: int, new nx: int, new ny: int,
                            new rank: map<Cell, nat>, new parent: map<Cell, Cell>, new counter: nat,
                            new rank': map<Cell, nat>, new parent': map<Cell, Cell>)
    requires old(allocated(maze)) && old(allocated((rank, parent)))
    requires old(forall u, v :: RankedAt(maze, w, h, rank, parent, u, v)) && (x, y) in rank && (nx, ny) !in rank
    requires forall c :: c in rank ==> rank[c] < counter
    requires rank' == rank[(nx, ny) := counter] && parent' == parent[(nx, ny) := (x, y)]
    requires Carved(maze, w, h, x, y, nx, ny)
    ensures forall u, v :: RankedAt(maze, w, h, rank', parent', u, v)
  {
    assert old(RankedAt(maze, w, h, rank, parent, x, y));
    forall u, v ensures RankedAt(maze, w, h, rank', parent', u, v) {
      assert old(RankedAt(maze, w, h, rank, parent, u, v));
    }
  }

  twostate lemma PendingKept(new maze: array2<int>, new w: int, new h: int, new walls: seq<Cell>, new x: int, new y: int, new nx: int, new ny: int,
                             new rank: map<Cell, nat>, new walls': seq<Cell>, new rank': map<Cell, nat>)
    requires old(allocated(maze)) && old(allocated((walls, rank)))
    requires old(forall u, v :: PendingAt(maze, w, h, walls, (x, y), rank, u, v))
    requires walls' == walls + [(nx, ny)] && rank'.Keys == rank.Keys + {(nx, ny)}
    requires Carved(maze, w, h, x, y, nx, ny)
    ensures forall u, v :: PendingAt(maze, w, h, walls', (x, y), rank', u, v)
  {
    forall u, v ensures PendingAt(maze, w, h, walls', (x, y), rank', u, v) {
      assert old(PendingAt(maze, w, h, walls, (x, y), rank, u, v));
      if (u, v) in rank && (u, v) != (x, y) && (u, v) !in walls {
        forall k | 0 <= k < |Steps| ensures NeighbourOpen(maze, w, h, (u, v), Steps[k]) {
          assert old(NeighbourOpen(maze, w, h, (u, v), Steps[k]));
        }
      }
    }
  }

  /**
   * A carve keeps every open wall the passage of a tree edge: the new one
   * joins the carved cell to the cell that carved it.
   */
  twostate lemma PassagesKept(new maze: array2<int>, new w: int, new h: int, new x: int, new y: int, new nx: int, new ny: int,
                              new rank: map<Cell, nat>, new parent: map<Cell, Cell>, new counter: nat,
                              new rank': map<Cell, nat>, new parent': map<Cell, Cell>)
    requires old(allocated(maze)) && old(allocated((rank, parent)))
    requires old(forall u, v :: PassageAt(maze, rank, parent, NoCell, u, v))
    requires OnLattice(x, y) && (1, 1) in rank && (nx, ny) !in rank
    requires rank' == rank[(nx, ny) := counter] && parent' == parent[(nx, ny) := (x, y)]
    requires Carved(maze, w, h, x, y, nx, ny)
    ensures forall u, v :: PassageAt(maze, rank', parent', NoCell, u, v)
  {
    MidBetween(x, y, nx, ny);
    assert TreeEdge(rank', parent', (x, y), (nx, ny));
    forall u, v ensures PassageAt(maze, rank', parent', NoCell, u, v) {
      assert old(PassageAt(maze, rank, parent, NoCell, u, v));
    }
  }

  lemma StepIsLatticeStep(k: int)
    requires 0 <= k < |Steps|
    ensures LatticeStep(Steps[k].0, Steps[k].1)
  {
  }

  /** The grid of walls with only the entry open starts the carve. */
  lemma CarveStart(maze: array2<int>, w: int, h: int)
    requires 1 <= w && 1 <= h && Sized(maze, w, h)
    requires forall v, u :: 0 <= v < maze.Length0 && 0 <= u < maze.Length1 ==> maze[v, u] == if (u, v) == (1, 1) then 0 else 1
    ensures Carving(maze, w, h, [(1, 1)], NoCell, map[(1, 1) := 0], map[], 1, LatticeCells(w, h) - {(1, 1)})
  {
  }

  /** Splicing entry i out of the frontier makes it the entry being expanded. */
  lemma Spliced(maze: array2<int>, w: int, h: int, walls: seq<Cell>, i: int,
                rank: map<Cell, nat>, parent: map<Cell, Cell>, counter: nat, unvisited: set<Cell>)
    requires Carving(maze, w, h, walls, NoCell, rank, parent, counter, unvisited) && 0 <= i < |walls|
    ensures Carving(maze, w, h, walls[..i] + walls[i + 1..], walls[i], rank, parent, counter, unvisited)
    ensures walls[i] in rank
  {
    var rest := walls[..i] + walls[i + 1..];
    forall j | 0 <= j < |rest| ensures rest[j] in rank {
      assert rest[j] == if j < i then walls[j] else walls[j + 1];
    }
    forall a, b | 0 <= a < b < |rest| ensures rest[a] != rest[b] {
      assert rest[a] == if a < i then walls[a] else walls[a + 1];
      assert rest[b] == if b < i then walls[b] else walls[b + 1];
    }
    forall u, v ensures PendingAt(maze, w, h, rest, walls[i], rank, u, v) {
      assert PendingAt(maze, w, h, walls, NoCell, rank, u, v);
      if (u, v) in walls && (u, v) != walls[i] {
        var j :| 0 <= j < |walls| && walls[j] == (u, v);
        assert rest[if j < i then j else j - 1] == (u, v);
      }
    }
  }

  /** After trying all four steps, the entry being expanded is fully expanded. */
  lemma EntryExpanded(maze: array2<int>, w: int, h: int, walls: seq<Cell>, x: int, y: int,
                 rank: map<Cell, nat>, parent: map<Cell, Cell>, counter: nat, unvisited: set<Cell>)
    requires Carving(maze, w, h, walls, (x, y), rank, parent, counter, unvisited)
    requires forall j :: 0 <= j < |Steps| ==> NeighbourOpen(maze, w, h, (x, y), Steps[j])
    ensures Carving(maze, w, h, walls, NoCell, rank, parent, counter, unvisited)
  {
    forall u, v ensures PendingAt(maze, w, h, walls, NoCell, rank, u, v) {
      assert PendingAt(maze, w, h, walls, (x, y), rank, u, v);
      assert RankedAt(maze, w, h, rank, parent, u, v);
    }
  }

  /** Once the frontier is empty, every open lattice cell has been fully expanded. */
  lemma FrontierDrained(maze: array2<int>, w: int, h: int, rank: map<Cell, nat>, parent: map<Cell, Cell>,
                        counter: nat, unvisited: set<Cell>)
    requires Carving(maze, w, h, [], NoCell, rank, parent, counter, unvisited)
    ensures LatticeClosed(maze, w, h)
  {
    forall u, v ensures ClosedAt(maze, w, h, u, v) {
      assert IndexedAt(maze, w, h, rank, u, v);
      assert PendingAt(maze, w, h, [], NoCell, rank, u, v);
    }
  }

  /**
   * A maze whose open lattice cells are all fully expanded, with the entry
   * open, has every lattice cell open.
   */
  lemma LatticeFilled(maze: array2<int>, w: int, h: int)
    requires Sized(maze, w, h) && 1 <= w && 1 <= h && maze[1, 1] == 0
    requires LatticeClosed(maze, w, h)
    ensures AllLatticeOpen(maze, w, h)
  {
    forall y, x | Interior(w, h, x, y) && OnLattice(x, y) ensures IsOpen(maze, x, y) {
      LatticeCellOpen(maze, w, h, x, y);
    }
  }

  lemma {:induction false} LatticeCellOpen(maze: array2<int>, w: int, h: int, x: int, y: int)
    requires Sized(maze, w, h) && 1 <= w && 1 <= h && maze[1, 1] == 0
    requires LatticeClosed(maze, w, h)
    requires Interior(w, h, x, y) && OnLattice(x, y)
    ensures IsOpen(maze, x, y)
    decreases x + y
  {
    if x > 1 {
      LatticeCellOpen(maze, w, h, x - 2, y);
      assert ClosedAt(maze, w, h, x - 2, y);
      assert NeighbourOpen(maze, w, h, (x - 2, y), Steps[0]);
    } else if y > 1 {
      LatticeCellOpen(maze, w, h, x, y - 2);
      assert ClosedAt(maze, w, h, x, y - 2);
      assert NeighbourOpen(maze, w, h, (x, y - 2), Steps[2]);
    }
  }

  /** Every ranked cell is reached from the entry by walking back up the tree. */
  lemma PathToRanked(maze: array2<int>, w: int, h: int, rank: map<Cell, nat>, parent: map<Cell, Cell>, c: Cell)
    returns (p: seq<Cell>)
    requires Tree(maze, w, h, rank, parent) && c in rank
    ensures IsPath(maze, p) && |p| > 0 && p[0] == (1, 1) && p[|p| - 1] == c
    decreases rank[c]
  {
    assert RankedAt(maze, w, h, rank, parent, c.0, c.1);
    if c == (1, 1) {
      p := [c];
    } else {
      var b := parent[c];
      MidBetween(b.0, b.1, c.0, c.1);
      var q := PathToRanked(maze, w, h, rank, parent, b);
      p := q + [Mid(b, c), c];
      forall i | 0 <= i < |p| - 1 ensures Adjacent(p[i], p[i + 1]) {
        if i < |q| - 1 {
          assert p[i] == q[i] && p[i + 1] == q[i + 1];
        }
      }
    }
  }

  /**
   * When the exit is next to a lattice cell (w or h odd), every open cell of
   * the finished maze is reached from the entry.
   */
  lemma AllReachable(maze: array2<int>, w: int, h: int, rank: map<Cell, nat>, parent: map<Cell, Cell>)
    requires 1 <= w && 1 <= h && Sized(maze, w, h) && (w % 2 == 1 || h % 2 == 1)
    requires Tree(maze, w, h, rank, parent) && OpenOnlyInside(maze, w, h)
    requires LatticeShape(maze, (w, h)) && AllLatticeOpen(maze, w, h)
    ensures forall y, x :: 0 <= y < h + 2 && 0 <= x < w + 2 && maze[y, x] == 0 ==> Reachable(maze, (x, y))
  {
    forall y, x | 0 <= y < h + 2 && 0 <= x < w + 2 && maze[y, x] == 0 ensures Reachable(maze, (x, y)) {
      var b: Cell;
      if OnLattice(x, y) {
        b := (x, y);
      } else if (x, y) != (w, h) {
        assert ShapeAt(maze, (w, h), x, y);
        b := if x % 2 == 0 then (x - 1, y) else (x, y - 1);
      } else {
        b := if w % 2 == 0 then (w - 1, h) else (w, h - 1);
      }
      assert IndexedAt(maze, w, h, rank, b.0, b.1);
      var q := PathToRanked(maze, w, h, rank, parent, b);
      if b != (x, y) {
        var p := q + [(x, y)];
        assert IsPath(maze, p);
      }
    }
  }

  /**
   * a and b are interior lattice cells one lattice step apart, and the wall
   * between them is open.
   */
  ghost predicate LatticeEdge(maze: array2<int>, w: int, h: int, a: Cell, b: Cell)
    reads maze
  {
    && Interior(w, h, a.0, a.1) && OnLattice(a.0, a.1) && Interior(w, h, b.0, b.1)
    && LatticeStep(b.0 - a.0, b.1 - a.1) && IsOpen(maze, Mid(a, b).0, Mid(a, b).1)
  }

  /** The walk never turns straight back on itself. */
  ghost predicate NoTurnBack(c: seq<Cell>) {
    forall i :: 0 <= i < |c| - 2 ==> c[i] != c[i + 2]
  }

  /**
   * A loop in the maze: a closed walk through open walls from lattice cell
   * to lattice cell that never turns straight back, not even where it
   * closes.
   */
  ghost predicate LatticeCycle(maze: array2<int>, w: int, h: int, c: seq<Cell>)
    reads maze
  {
    && |c| >= 3 && c[0] == c[|c| - 1] && c[1] != c[|c| - 2]
    && (forall i :: 0 <= i < |c| - 1 ==> LatticeEdge(maze, w, h, c[i], c[i + 1]))
    && NoTurnBack(c)
  }

  /** Every step of c goes along a tree edge, one way or the other. */
  ghost predicate AlongTree(rank: map<Cell, nat>, parent: map<Cell, Cell>, c: seq<Cell>) {
    forall i :: 0 <= i < |c| - 1 ==> TreeEdge(rank, parent, c[i], c[i + 1]) || TreeEdge(rank, parent, c[i + 1], c[i])
  }

  /** A parent is ranked below its child. */
  ghost predicate Descending(rank: map<Cell, nat>, parent: map<Cell, Cell>) {
    forall a, b :: TreeEdge(rank, parent, a, b) ==> a in rank && rank[a] < rank[b]
  }

  /** In the spanning tree every parent is ranked below its child. */
  lemma TreeDescends(maze: array2<int>, w: int, h: int, rank: map<Cell, nat>, parent: map<Cell, Cell>)
    requires Tree(maze, w, h, rank, parent)
    ensures Descending(rank, parent)
  {
    forall a, b | TreeEdge(rank, parent, a, b) ensures a in rank && rank[a] < rank[b] {
      assert RankedAt(maze, w, h, rank, parent, b.0, b.1);
    }
  }

  /** In the finished maze, the open wall between two lattice cells is a tree edge. */
  lemma EdgeInTree(maze: array2<int>, w: int, h: int, rank: map<Cell, nat>, parent: map<Cell, Cell>, a: Cell, b: Cell)
    requires forall u, v :: PassageAt(maze, rank, parent, (w, h), u, v)
    requires LatticeEdge(maze, w, h, a, b)
    ensures TreeEdge(rank, parent, a, b) || TreeEdge(rank, parent, b, a)
  {
    MidBetween(a.0, a.1, b.0, b.1);
    assert PassageAt(maze, rank, parent, (w, h), Mid(a, b).0, Mid(a, b).1);
  }

  /**
   * A walk that never turns back and whose first step goes from parent to
   * child keeps going from parent to child, so the ranks rise along it.
   */
  lemma {:induction false} DownTree(rank: map<Cell, nat>, parent: map<Cell, Cell>, c: seq<Cell>, k: int)
    requires Descending(rank, parent) && AlongTree(rank, parent, c) && NoTurnBack(c)
    requires 1 <= k < |c| && TreeEdge(rank, parent, c[0], c[1])
    ensures TreeEdge(rank, parent, c[k - 1], c[k])
    ensures c[0] in rank && c[k] in rank && rank[c[0]] < rank[c[k]]
    decreases k
  {
    if k > 1 {
      DownTree(rank, parent, c, k - 1);
      assert c[k - 2] != c[k];
    }
  }

  /** The same walk taken backwards. */
  lemma Backwards(rank: map<Cell, nat>, parent: map<Cell, Cell>, c: seq<Cell>) returns (r: seq<Cell>)
    requires AlongTree(rank, parent, c) && NoTurnBack(c)
    ensures |r| == |c| && forall i :: 0 <= i < |c| ==> r[i] == c[|c| - 1 - i]
    ensures AlongTree(rank, parent, r) && NoTurnBack(r)
  {
    r := seq(|c|, i requires 0 <= i < |c| => c[|c| - 1 - i]);
    forall i | 0 <= i < |r| - 1
      ensures TreeEdge(rank, parent, r[i], r[i + 1]) || TreeEdge(rank, parent, r[i + 1], r[i])
    {
      var j := |c| - 2 - i;
      assert r[i] == c[j + 1] && r[i + 1] == c[j];
    }
    forall i | 0 <= i < |r| - 2 ensures r[i] != r[i + 2] {
      var j := |c| - 1 - i;
      assert r[i] == c[j] && r[i + 2] == c[j - 2];
    }
  }

  /**
   * The finished maze has no loop: every open wall is a tree edge, and a
   * closed walk along tree edges that never turns back would have to rise
   * in rank all the way round.
   */
  lemma NoLatticeCycle(maze: array2<int>, w: int, h: int, rank: map<Cell, nat>, parent: map<Cell, Cell>)
    requires Tree(maze, w, h, rank, parent) && forall u, v :: PassageAt(maze, rank, parent, (w, h), u, v)
    ensures forall c :: !LatticeCycle(maze, w, h, c)
  {
    TreeDescends(maze, w, h, rank, parent);
    forall c ensures !LatticeCycle(maze, w, h, c) {
      if LatticeCycle(maze, w, h, c) {
        forall i | 0 <= i < |c| - 1
          ensures TreeEdge(rank, parent, c[i], c[i + 1]) || TreeEdge(rank, parent, c[i + 1], c[i])
        {
          EdgeInTree(maze, w, h, rank, parent, c[i], c[i + 1]);
        }
        var n := |c| - 1;
        if TreeEdge(rank, parent, c[0], c[1]) {
          DownTree(rank, parent, c, n);
        } else {
          var r := Backwards(rank, parent, c);
          assert r[0] == c[0] && r[1] == c[n - 1] && r[n] == c[0];
          assert TreeEdge(rank, parent, r[0], r[1]);
          DownTree(rank, parent, r, n);
        }
        assert false;
      }
    }
  }

  ghost function LatticeCells(w: int, h: int): set<Cell> {
    set x, y | 1 <= x <= w && 1 <= y <= h && OnLattice(x, y) :: (x, y)
  }
}
