/** An n-by-n percolation grid over weighted quick-union (Percolation.java). Cells
    are addressed by row i and column j, both from 1 to n; cell (i, j) is union-find
    node (i - 1) * n + j, and node 0 is a virtual top that every open cell of the
    first row is joined to. The grid percolates when a cell of the last row is in
    the class of node 0. */
module PercolationGrid {
  import opened Errors
  import opened UnionFind

  // ---------------------------------------------------------------------------
  // Cell addressing
  // ---------------------------------------------------------------------------

  /** Row i and column j both lie in 1 .. n. */
  predicate InGrid(n: int, i: int, j: int)
  {
    1 <= i <= n && 1 <= j <= n
  }

  /** The number of nodes in the rows above row i, (i - 1) * n, counted one row at
      a time so that neighbouring rows differ by n. */
  function RowStart(n: int, i: int): int
  {
    if i <= 1 then 0 else RowStart(n, i - 1) + n
  }

  /** On the rows of the grid, RowStart is the product (i - 1) * n. */
  lemma {:induction false} RowStartIsProduct(n: int, i: int)
    requires i >= 1
    ensures RowStart(n, i) == (i - 1) * n
  {
    if i > 1 {
      RowStartIsProduct(n, i - 1);
    }
  }

  /** The union-find node of cell (i, j): row-major order from node 1. */
  function CellIndex(n: int, i: int, j: int): int
  {
    RowStart(n, i) + j
  }

  /** Every cell's node lies in 1 .. n*n, so it is a node of a structure of
      n*n + 1 nodes and never the virtual top. */
  lemma CellIndexInRange(n: int, i: int, j: int)
    requires InGrid(n, i, j)
    ensures 1 <= CellIndex(n, i, j) <= n * n
  {
    RowStartIsProduct(n, i);
    assert (i - 1) * n <= (n - 1) * n by {
      MulLeft(i - 1, n - 1, n);
    }
  }

  /** Two cells share a node only when they are the same cell. */
  lemma CellIndexInjective(n: int, i: int, j: int, i': int, j': int)
    requires InGrid(n, i, j) && InGrid(n, i', j')
    ensures CellIndex(n, i, j) == CellIndex(n, i', j') <==> i == i' && j == j'
  {
    RowStartIsProduct(n, i);
    RowStartIsProduct(n, i');
    if i < i' {
      MulLeft(i, i' - 1, n);
      assert CellIndex(n, i, j) < CellIndex(n, i', j');
    } else if i' < i {
      MulLeft(i', i - 1, n);
      assert CellIndex(n, i', j') < CellIndex(n, i, j);
    }
  }

  /** Every node in 1 .. n*n is the node of some cell. */
  lemma CellOfIndex(n: int, k: int) returns (i: int, j: int)
    requires 0 < n && 1 <= k <= n * n
    ensures InGrid(n, i, j) && CellIndex(n, i, j) == k
  {
    i, j := (k - 1) / n + 1, (k - 1) % n + 1;
    if (k - 1) / n >= n {
      MulLeft(n, (k - 1) / n, n);
      assert false;
    }
    RowStartIsProduct(n, i);
  }

  /** The nodes of the four neighbours of a cell are its own node plus or minus
      one row (n) or one column (1). */
  lemma CellIndexNeighbours(n: int, i: int, j: int)
    requires i >= 1
    ensures i > 1 ==> CellIndex(n, i - 1, j) == CellIndex(n, i, j) - n
    ensures CellIndex(n, i + 1, j) == CellIndex(n, i, j) + n
    ensures CellIndex(n, i, j + 1) == CellIndex(n, i, j) + 1
    ensures CellIndex(n, i, j - 1) == CellIndex(n, i, j) - 1
  {
  }

  /** Multiplication by a non-negative number keeps the order. */
  lemma MulLeft(a: int, b: int, n: int)
    requires a <= b && 0 <= n
    ensures a * n <= b * n
  {
    assert b * n - a * n == (b - a) * n;
  }

  // ---------------------------------------------------------------------------
  // The grid of open and closed cells
  // ---------------------------------------------------------------------------

  /** Cell (i, j) is open in `grid` (0 open, 1 closed). */
  predicate IsOpenCell(n: int, grid: seq<int>, i: int, j: int)
  {
    InGrid(n, i, j) && 0 <= CellIndex(n, i, j) < |grid| && grid[CellIndex(n, i, j)] == 0
  }

  /** Cell (i, j) is closed in `grid`. */
  predicate IsClosedCell(n: int, grid: seq<int>, i: int, j: int)
  {
    InGrid(n, i, j) && 0 <= CellIndex(n, i, j) < |grid| && grid[CellIndex(n, i, j)] != 0
  }

  /** The grid after cell (i, j) is opened. */
  function Opened(n: int, grid: seq<int>, i: int, j: int): (grid': seq<int>)
    requires InGrid(n, i, j) && |grid| == n * n + 1
    ensures |grid'| == |grid|
  {
    CellIndexInRange(n, i, j);
    grid[CellIndex(n, i, j) := 0]
  }

  /** The open cells of `grid`. */
  ghost function OpenCells(n: int, grid: seq<int>): set<(int, int)>
  {
    set i, j | 1 <= i <= n && 1 <= j <= n && IsOpenCell(n, grid, i, j) :: (i, j)
  }

  /** Opening cell (i, j) adds exactly that cell to the open cells: no open cell
      closes and no other cell opens. */
  lemma OpenAddsCell(n: int, grid: seq<int>, i: int, j: int)
    requires InGrid(n, i, j) && |grid| == n * n + 1
    ensures OpenCells(n, Opened(n, grid, i, j)) == OpenCells(n, grid) + {(i, j)}
  {
    CellIndexInRange(n, i, j);
    var grid' := Opened(n, grid, i, j);
    forall c | c in OpenCells(n, grid') + OpenCells(n, grid) + {(i, j)}
      ensures c in OpenCells(n, grid') <==> c in OpenCells(n, grid) + {(i, j)}
    {
      CellIndexInRange(n, c.0, c.1);
      CellIndexInjective(n, c.0, c.1, i, j);
    }
  }

  /** The number of closed entries of `grid`. */
  function CountClosed(grid: seq<int>): (c: nat)
    ensures c <= |grid|
  {
    if |grid| == 0 then 0
    else CountClosed(grid[..|grid| - 1]) + (if grid[|grid| - 1] != 0 then 1 else 0)
  }

  /** Opening one closed entry lowers the count of closed entries by exactly one. */
  lemma {:induction false} CountClosedOpen(grid: seq<int>, k: int)
    requires 0 <= k < |grid| && grid[k] != 0
    ensures CountClosed(grid[k := 0]) == CountClosed(grid) - 1
  {
    var m := |grid| - 1;
    assert grid[k := 0][..m] == if k == m then grid[..m] else grid[..m][k := 0];
    if k < m {
      CountClosedOpen(grid[..m], k);
    }
  }

  /** The count is positive exactly when some entry is closed. */
  lemma {:induction false} CountClosedPositive(grid: seq<int>)
    ensures CountClosed(grid) > 0 <==> exists k :: 0 <= k < |grid| && grid[k] != 0
  {
    if |grid| > 0 {
      var m := |grid| - 1;
      CountClosedPositive(grid[..m]);
      if CountClosed(grid[..m]) > 0 {
        var k :| 0 <= k < m && grid[..m][k] != 0;
        assert grid[k] != 0;
      }
      if exists k :: 0 <= k < |grid| && grid[k] != 0 {
        var k :| 0 <= k < |grid| && grid[k] != 0;
        if k < m {
          assert grid[..m][k] != 0;
        }
      }
    }
  }

  /** A grid with node 0 open and every other node closed. */
  function FreshGrid(n: int): (grid: seq<int>)
    requires n > 0
    ensures |grid| == n * n + 1
  {
    seq(n * n + 1, k => if k == 0 then 0 else 1)
  }

  /** A fresh grid has every one of its n*n cells closed. */
  lemma {:induction false} CountClosedFresh(n: int)
    requires n > 0
    ensures CountClosed(FreshGrid(n)) == n * n
    ensures forall i, j :: InGrid(n, i, j) ==> IsClosedCell(n, FreshGrid(n), i, j)
  {
    var g := FreshGrid(n);
    forall m | 0 <= m <= |g| ensures CountClosed(g[..m]) == if m == 0 then 0 else m - 1 {
      CountPrefix(g, m);
    }
    assert g[..|g|] == g;
    forall i, j | InGrid(n, i, j) ensures IsClosedCell(n, g, i, j) {
      CellIndexInRange(n, i, j);
    }
  }

  lemma {:induction false} CountPrefix(g: seq<int>, m: int)
    requires 0 <= m <= |g| && |g| > 0 && g[0] == 0
    requires forall k :: 0 < k < |g| ==> g[k] != 0
    ensures CountClosed(g[..m]) == if m == 0 then 0 else m - 1
  {
    if m > 0 {
      CountPrefix(g, m - 1);
      assert g[..m][..m - 1] == g[..m - 1];
    }
  }

  /** Some cell is closed exactly when the count of closed entries is positive,
      for a grid whose node 0 is open. */
  lemma SomeCellClosed(n: int, grid: seq<int>)
    requires 0 < n && |grid| == n * n + 1 && grid[0] == 0
    ensures (exists i, j :: IsClosedCell(n, grid, i, j)) <==> CountClosed(grid) > 0
  {
    CountClosedPositive(grid);
    if CountClosed(grid) > 0 {
      var k :| 0 <= k < |grid| && grid[k] != 0;
      var i, j := CellOfIndex(n, k);
      assert IsClosedCell(n, grid, i, j);
    }
  }

  // ---------------------------------------------------------------------------
  // What the union-find structure knows about the grid
  // ---------------------------------------------------------------------------

  /** Cell (i, j) is full: its class is the class of the virtual top. */
  ghost predicate IsFullCell(n: int, part: seq<int>, i: int, j: int)
  {
    InGrid(n, i, j) && 0 <= CellIndex(n, i, j) < |part| && part[CellIndex(n, i, j)] == part[0]
  }

  /** Some cell of the last row is full. */
  ghost predicate Percolating(n: int, part: seq<int>)
  {
    exists j :: 1 <= j <= n && IsFullCell(n, part, n, j)
  }

  /** No cell of the last row left of column j is full. */
  ghost predicate NoneFullBefore(n: int, part: seq<int>, j: int)
    decreases j
  {
    j <= 1 || (NoneFullBefore(n, part, j - 1) && !IsFullCell(n, part, n, j - 1))
  }

  /** When no cell of the last row is full the grid does not percolate. */
  lemma {:induction false} NoneFullMeansNotPercolating(n: int, part: seq<int>)
    requires NoneFullBefore(n, part, n + 1)
    ensures !Percolating(n, part)
  {
    forall j | 1 <= j <= n ensures !IsFullCell(n, part, n, j) {
      NoneFullBeforeAt(n, part, n + 1, j);
    }
  }

  lemma {:induction false} NoneFullBeforeAt(n: int, part: seq<int>, j: int, j': int)
    requires NoneFullBefore(n, part, j) && 1 <= j' < j
    ensures !IsFullCell(n, part, n, j')
    decreases j
  {
    if j' < j - 1 {
      NoneFullBeforeAt(n, part, j - 1, j');
    }
  }

  /** Two cells that share a side, the second below or to the right of the first. */
  predicate Adjacent(n: int, i: int, j: int, i': int, j': int)
  {
    InGrid(n, i, j) && InGrid(n, i', j') && ((i' == i + 1 && j' == j) || (i' == i && j' == j + 1))
  }

  /** Every closed entry is a class of its own: its own root, and nobody else's. */
  ghost predicate ClosedIsolated(grid: seq<int>, part: seq<int>)
  {
    && |grid| == |part|
    && (forall k :: 0 <= k < |grid| && grid[k] != 0 ==> part[k] == k)
    && (forall k, m :: 0 <= k < |grid| && 0 <= m < |part| && grid[k] != 0 && part[m] == k ==> m == k)
  }

  /** Every open cell of the first row is with the virtual top, and every two open
      cells that share a side are in one class. */
  ghost predicate OpenJoined(n: int, grid: seq<int>, part: seq<int>)
    requires |grid| == |part| == n * n + 1
  {
    && (forall j :: 1 <= j <= n && IsOpenCell(n, grid, 1, j) ==> part[CellIndex(n, 1, j)] == part[0])
    && (forall i, j, i', j' {:trigger Adjacent(n, i, j, i', j')} ::
          Adjacent(n, i, j, i', j') && IsOpenCell(n, grid, i, j) && IsOpenCell(n, grid, i', j') ==>
            part[CellIndex(n, i, j)] == part[CellIndex(n, i', j')])
  }

  /** The invariant of a grid: entries are 0 or 1, node 0 is open, closed cells are
      isolated and neighbouring open cells are joined. */
  ghost predicate Sound(n: int, grid: seq<int>, part: seq<int>)
  {
    && 0 < n && |grid| == |part| == n * n + 1
    && grid[0] == 0
    && (forall k :: 0 <= k < |grid| ==> grid[k] == 0 || grid[k] == 1)
    && ClosedIsolated(grid, part)
    && OpenJoined(n, grid, part)
  }

  /** A full cell is open: a closed cell is alone in its class, which is not the
      class of the open virtual top. */
  lemma FullCellIsOpen(n: int, grid: seq<int>, part: seq<int>, i: int, j: int)
    requires Sound(n, grid, part) && IsFullCell(n, part, i, j)
    ensures IsOpenCell(n, grid, i, j)
  {
    var k := CellIndex(n, i, j);
    CellIndexInRange(n, i, j);
  }

  /** The grid percolates exactly when some open cell of the last row is full. */
  lemma PercolatingIffOpenFull(n: int, grid: seq<int>, part: seq<int>)
    requires Sound(n, grid, part)
    ensures Percolating(n, part) <==>
              exists j :: 1 <= j <= n && IsOpenCell(n, grid, n, j) && IsFullCell(n, part, n, j)
  {
    if Percolating(n, part) {
      var j :| 1 <= j <= n && IsFullCell(n, part, n, j);
      FullCellIsOpen(n, grid, part, n, j);
    }
  }

  /** In a fresh grid, with every node its own class, nothing percolates. */
  lemma FreshNotPercolating(n: int)
    requires n > 0
    ensures !Percolating(n, seq(n * n + 1, k => k))
  {
    if Percolating(n, seq(n * n + 1, k => k)) {
      var j :| 1 <= j <= n && IsFullCell(n, seq(n * n + 1, k => k), n, j);
      CellIndexInRange(n, n, j);
      assert false;
    }
  }

  /** The fresh grid with every node its own class is sound. */
  lemma FreshSound(n: int)
    requires n > 0
    ensures Sound(n, FreshGrid(n), seq(n * n + 1, k => k))
  {
    var g, part := FreshGrid(n), seq(n * n + 1, k => k);
    forall j | 1 <= j <= n && IsOpenCell(n, g, 1, j) ensures false {
      CellIndexInRange(n, 1, j);
    }
    forall i, j, i', j' | Adjacent(n, i, j, i', j') && IsOpenCell(n, g, i, j) ensures false {
      CellIndexInRange(n, i, j);
    }
  }

  // ---------------------------------------------------------------------------
  // Opening a cell
  // ---------------------------------------------------------------------------

  /** The classes that opening cell (i, j) fuses: its own, the virtual top's when it
      is in the first row, and those of its open neighbours above, below, to the
      right and to the left. */
  ghost function JoinedRoots(n: int, grid: seq<int>, part: seq<int>, i: int, j: int): set<int>
    requires InGrid(n, i, j) && |grid| == |part| == n * n + 1
  {
    CellIndexInRange(n, i, j);
    var c := CellIndex(n, i, j);
    var own := if i == 1 then {part[c]} + {part[0]} else {part[c]};
    var up := WithNeighbour(n, grid, part, own, i - 1, j);
    var down := WithNeighbour(n, grid, part, up, i + 1, j);
    var right := WithNeighbour(n, grid, part, down, i, j + 1);
    WithNeighbour(n, grid, part, right, i, j - 1)
  }

  /** JoinedRoots built up one neighbour at a time, in the order opening joins them. */
  lemma JoinedRootsInSteps(n: int, grid: seq<int>, part: seq<int>, i: int, j: int, c: int,
                           own: set<int>, up: set<int>, down: set<int>, right: set<int>, left: set<int>)
    requires InGrid(n, i, j) && |grid| == |part| == n * n + 1
    requires c == CellIndex(n, i, j) && 0 <= c < |part|
    requires own == if i == 1 then {part[c]} + {part[0]} else {part[c]}
    requires up == WithNeighbour(n, grid, part, own, i - 1, j)
    requires down == WithNeighbour(n, grid, part, up, i + 1, j)
    requires right == WithNeighbour(n, grid, part, down, i, j + 1)
    requires left == WithNeighbour(n, grid, part, right, i, j - 1)
    ensures left == JoinedRoots(n, grid, part, i, j)
  {
  }

  /** `roots` with the class of cell (a, b) added when that cell is open. */
  ghost function WithNeighbour(n: int, grid: seq<int>, part: seq<int>, roots: set<int>, a: int, b: int): set<int>
    requires |grid| == |part|
  {
    if IsOpenCell(n, grid, a, b) then roots + {part[CellIndex(n, a, b)]} else roots
  }

  /** Opening a cell other than (a, b) leaves (a, b) as open or closed as it was. */
  lemma OtherCellUnchanged(n: int, grid: seq<int>, i: int, j: int, a: int, b: int)
    requires InGrid(n, i, j) && |grid| == n * n + 1 && (a, b) != (i, j)
    ensures IsOpenCell(n, Opened(n, grid, i, j), a, b) <==> IsOpenCell(n, grid, a, b)
  {
    CellIndexInRange(n, i, j);
    if InGrid(n, a, b) {
      CellIndexInjective(n, a, b, i, j);
    }
  }

  /** A class fused by opening a cell is the class of an open node or of the cell
      itself, so it is never a closed node other than that cell. */
  lemma JoinedRootsNotClosed(n: int, grid: seq<int>, part: seq<int>, i: int, j: int, k: int)
    requires InGrid(n, i, j) && |grid| == |part| == n * n + 1 && grid[0] == 0
    requires 0 <= k < |grid| && grid[k] != 0 && k != CellIndex(n, i, j)
    requires forall m :: 0 <= m < |part| && part[m] == k ==> m == k
    ensures k !in JoinedRoots(n, grid, part, i, j)
  {
    CellIndexInRange(n, i, j);
    var c := CellIndex(n, i, j);
    var own := if i == 1 then {part[c]} + {part[0]} else {part[c]};
    var up := WithNeighbour(n, grid, part, own, i - 1, j);
    var down := WithNeighbour(n, grid, part, up, i + 1, j);
    var right := WithNeighbour(n, grid, part, down, i, j + 1);
    NeighbourNotClosed(n, grid, part, own, i - 1, j, k);
    NeighbourNotClosed(n, grid, part, up, i + 1, j, k);
    NeighbourNotClosed(n, grid, part, down, i, j + 1, k);
    NeighbourNotClosed(n, grid, part, right, i, j - 1, k);
  }

  /** Adding an open neighbour's class never adds an isolated closed node. */
  lemma NeighbourNotClosed(n: int, grid: seq<int>, part: seq<int>, roots: set<int>, a: int, b: int, k: int)
    requires |grid| == |part| && 0 <= k < |grid| && grid[k] != 0 && k !in roots
    requires forall m :: 0 <= m < |part| && part[m] == k ==> m == k
    ensures k !in WithNeighbour(n, grid, part, roots, a, b)
  {
  }

  /** Opening cell (i, j) keeps every closed cell isolated. */
  lemma OpenKeepsIsolated(n: int, grid: seq<int>, part: seq<int>, i: int, j: int, w: int)
    requires Sound(n, grid, part) && InGrid(n, i, j)
    requires w in JoinedRoots(n, grid, part, i, j)
    ensures ClosedIsolated(Opened(n, grid, i, j), Relabel(part, JoinedRoots(n, grid, part, i, j), w))
  {
    CellIndexInRange(n, i, j);
    var c := CellIndex(n, i, j);
    var merged := JoinedRoots(n, grid, part, i, j);
    var grid', part' := Opened(n, grid, i, j), Relabel(part, merged, w);
    forall k | 0 <= k < |grid'| && grid'[k] != 0
      ensures part'[k] == k && k != w && k !in merged
    {
      assert forall m :: 0 <= m < |part| && part[m] == k ==> m == k;
      JoinedRootsNotClosed(n, grid, part, i, j, k);
    }
  }

  /** Opening cell (i, j) joins it to its open neighbours, and to the virtual top in
      the first row, and keeps all the joins there were. */
  lemma OpenKeepsJoined(n: int, grid: seq<int>, part: seq<int>, i: int, j: int, w: int)
    requires Sound(n, grid, part) && InGrid(n, i, j)
    requires w in JoinedRoots(n, grid, part, i, j)
    ensures OpenJoined(n, Opened(n, grid, i, j), Relabel(part, JoinedRoots(n, grid, part, i, j), w))
  {
    CellIndexInRange(n, i, j);
    var c := CellIndex(n, i, j);
    var merged := JoinedRoots(n, grid, part, i, j);
    var grid', part' := Opened(n, grid, i, j), Relabel(part, merged, w);
    forall j' | 1 <= j' <= n && IsOpenCell(n, grid', 1, j')
      ensures part'[CellIndex(n, 1, j')] == part'[0]
    {
      if (1, j') != (i, j) {
        OtherCellUnchanged(n, grid, i, j, 1, j');
      }
    }
    forall a, b, a', b' | Adjacent(n, a, b, a', b') && IsOpenCell(n, grid', a, b) && IsOpenCell(n, grid', a', b')
      ensures part'[CellIndex(n, a, b)] == part'[CellIndex(n, a', b')]
    {
      if (a, b) != (i, j) {
        OtherCellUnchanged(n, grid, i, j, a, b);
      }
      if (a', b') != (i, j) {
        OtherCellUnchanged(n, grid, i, j, a', b');
      }
    }
  }

  /** Opening cell (i, j) and fusing the classes it joins keeps the grid sound. */
  lemma OpenKeepsSound(n: int, grid: seq<int>, part: seq<int>, i: int, j: int, w: int)
    requires Sound(n, grid, part) && InGrid(n, i, j)
    requires w in JoinedRoots(n, grid, part, i, j)
    ensures Sound(n, Opened(n, grid, i, j), Relabel(part, JoinedRoots(n, grid, part, i, j), w))
  {
    OpenKeepsIsolated(n, grid, part, i, j, w);
    OpenKeepsJoined(n, grid, part, i, j, w);
  }

  /** The classes fused by opening a cell include the cell's own and, in the first
      row, the virtual top's. */
  lemma JoinedRootsHasOwn(n: int, grid: seq<int>, part: seq<int>, i: int, j: int)
    requires InGrid(n, i, j) && |grid| == |part| == n * n + 1
    ensures 0 <= CellIndex(n, i, j) < |part| && part[CellIndex(n, i, j)] in JoinedRoots(n, grid, part, i, j)
    ensures i == 1 ==> part[0] in JoinedRoots(n, grid, part, i, j)
  {
    CellIndexInRange(n, i, j);
    var c := CellIndex(n, i, j);
    var own := if i == 1 then {part[c]} + {part[0]} else {part[c]};
    var up := WithNeighbour(n, grid, part, own, i - 1, j);
    var down := WithNeighbour(n, grid, part, up, i + 1, j);
    var right := WithNeighbour(n, grid, part, down, i, j + 1);
    NeighbourKeepsRoots(n, grid, part, own, i - 1, j);
    NeighbourKeepsRoots(n, grid, part, up, i + 1, j);
    NeighbourKeepsRoots(n, grid, part, down, i, j + 1);
    NeighbourKeepsRoots(n, grid, part, right, i, j - 1);
  }

  /** Adding a neighbour's class keeps every class already there. */
  lemma NeighbourKeepsRoots(n: int, grid: seq<int>, part: seq<int>, roots: set<int>, a: int, b: int)
    requires |grid| == |part|
    ensures roots <= WithNeighbour(n, grid, part, roots, a, b)
  {
  }

  /** A cell of the first row is full once it has been opened. */
  lemma FirstRowOpenIsFull(n: int, grid: seq<int>, part: seq<int>, j: int, w: int)
    requires InGrid(n, 1, j) && |grid| == |part| == n * n + 1
    requires w in JoinedRoots(n, grid, part, 1, j)
    ensures IsFullCell(n, Relabel(part, JoinedRoots(n, grid, part, 1, j), w), 1, j)
  {
    JoinedRootsHasOwn(n, grid, part, 1, j);
  }

  /** Opening an open cell again fuses nothing: its neighbours are already joined
      to it, and the first row to the virtual top. */
  lemma ReopenJoinsNothing(n: int, grid: seq<int>, part: seq<int>, i: int, j: int)
    requires Sound(n, grid, part) && IsOpenCell(n, grid, i, j)
    ensures JoinedRoots(n, grid, part, i, j) == {part[CellIndex(n, i, j)]}
    ensures Opened(n, grid, i, j) == grid
  {
    var c := CellIndex(n, i, j);
    var own := if i == 1 then {part[c]} + {part[0]} else {part[c]};
    assert own == {part[c]};
    OpenNeighbourJoined(n, grid, part, i, j, i - 1, j);
    OpenNeighbourJoined(n, grid, part, i, j, i + 1, j);
    OpenNeighbourJoined(n, grid, part, i, j, i, j + 1);
    OpenNeighbourJoined(n, grid, part, i, j, i, j - 1);
  }

  /** An open neighbour (a, b) of an open cell (i, j) is already in its class. */
  lemma OpenNeighbourJoined(n: int, grid: seq<int>, part: seq<int>, i: int, j: int, a: int, b: int)
    requires Sound(n, grid, part) && IsOpenCell(n, grid, i, j)
    requires (a, b) in {(i - 1, j), (i + 1, j), (i, j + 1), (i, j - 1)}
    ensures WithNeighbour(n, grid, part, {part[CellIndex(n, i, j)]}, a, b) == {part[CellIndex(n, i, j)]}
  {
    if IsOpenCell(n, grid, a, b) {
      if (a, b) == (i - 1, j) || (a, b) == (i, j - 1) {
        assert Adjacent(n, a, b, i, j);
      } else {
        assert Adjacent(n, i, j, a, b);
      }
    }
  }

  // ---------------------------------------------------------------------------
  // The structure
  // ---------------------------------------------------------------------------

  class Percolation {
    /** The side n of the grid. */
    const size: int
    /** The union-find structure over the virtual top (node 0) and the n*n cells. */
    const qu: QuickUnion
    /** 0 for an open node and 1 for a closed one; node 0 is open. */
    const gridOpen: array<int>
    /** Row and column of the cell opened last. */
    const last: array<int>

    ghost predicate Valid()
      reads this, qu, qu.id, qu.treeSize, gridOpen, last
    {
      && qu.Valid()
      && gridOpen.Length == qu.id.Length
      && last.Length == 2
      && gridOpen != last && gridOpen != qu.id && gridOpen != qu.treeSize
      && last != qu.id && last != qu.treeSize
      && Sound(size, gridOpen[..], qu.Partition)
    }

    /** An n-by-n grid with every cell closed, each node a class of its own. */
    constructor Init(n: int)
      requires n > 0
      ensures Valid()
      ensures fresh(qu) && fresh(qu.id) && fresh(qu.treeSize) && fresh(gridOpen) && fresh(last)
      ensures size == n && gridOpen[..] == FreshGrid(n) && last[..] == [0, 0]
      ensures qu.Partition == seq(n * n + 1, k => k)
    {
      size := n;
      qu := new QuickUnion.Init(n * n + 1);
      last := new int[][0, 0];
      var grid := new int[n * n + 1];
      grid[0] := 0;
      var i := 1;
      while i < grid.Length
        invariant 1 <= i <= grid.Length
        invariant grid[0] == 0 && forall k :: 1 <= k < i ==> grid[k] == 1
        modifies grid
      {
        grid[i] := 1;
        i := i + 1;
      }
      gridOpen := grid;
      assert grid[..] == FreshGrid(n);
      FreshSound(n);
    }

    /** The constructor with its argument check: a side that is not positive is
        refused before anything is allocated. */
    static method New(n: int) returns (r: Result<Percolation>)
      ensures r.Err? <==> n <= 0
      ensures r.Err? ==> r.error == IllegalArgument
      ensures r.Ok? ==> fresh(r.value) && r.value.Valid() && r.value.size == n
      ensures r.Ok? ==> r.value.gridOpen[..] == FreshGrid(n) && !Percolating(n, r.value.qu.Partition)
    {
      if n <= 0 {
        return Err(IllegalArgument);
      }
      var p := new Percolation.Init(n);
      FreshNotPercolating(n);
      return Ok(p);
    }

    /** The coordinate check: a row outside 1 .. n is refused first, then a column
        outside 1 .. n. */
    function CheckCell(i: int, j: int): (o: Outcome)
      reads this
      ensures o.Pass? <==> InGrid(size, i, j)
      ensures o.Fail? && !(1 <= i <= size) ==> o.error == IndexOutOfBounds("i", i)
      ensures o.Fail? && 1 <= i <= size ==> o.error == IndexOutOfBounds("j", j)
    {
      if i <= 0 || i > size then Fail(IndexOutOfBounds("i", i))
      else if j <= 0 || j > size then Fail(IndexOutOfBounds("j", j))
      else Pass
    }

    /** Whether cell (i, j) is open. */
    function IsOpen(i: int, j: int): (r: Result<bool>)
      requires 0 < size && gridOpen.Length == size * size + 1
      reads this, gridOpen
      ensures r.Err? <==> !InGrid(size, i, j)
      ensures r.Err? ==> r.error == CheckCell(i, j).error
      ensures r.Ok? ==> (r.value <==> IsOpenCell(size, gridOpen[..], i, j))
    {
      var c := CheckCell(i, j);
      if c.Fail? then Err(c.error)
      else
        CellIndexInRange(size, i, j);
        Ok(gridOpen[CellIndex(size, i, j)] == 0)
    }

    /** Whether cell (i, j) is full, that is, in the class of the virtual top. Only
        the paths of the union-find structure change. */
    method IsFull(i: int, j: int) returns (r: Result<bool>)
      requires Valid()
      modifies qu.id
      ensures Valid()
      ensures r.Err? <==> !InGrid(size, i, j)
      ensures r.Err? ==> r.error == CheckCell(i, j).error && unchanged(qu.id)
      ensures r.Ok? ==> (r.value <==> IsFullCell(size, qu.Partition, i, j))
      ensures r.Ok? && r.value ==> IsOpenCell(size, gridOpen[..], i, j)
    {
      var c := CheckCell(i, j);
      if c.Fail? {
        return Err(c.error);
      }
      CellIndexInRange(size, i, j);
      r := qu.Connected(CellIndex(size, i, j), 0);
      assert gridOpen[..] == old(gridOpen[..]);
      if r.Ok? && r.value {
        FullCellIsOpen(size, gridOpen[..], qu.Partition, i, j);
      }
    }

    /** Whether some cell of the last row is full. */
    method Percolates() returns (b: bool)
      requires Valid()
      modifies qu.id
      ensures Valid()
      ensures b <==> Percolating(size, qu.Partition)
    {
      for j := 1 to size + 1
        invariant Valid()
        invariant NoneFullBefore(size, qu.Partition, j)
      {
        var f := IsFull(size, j);
        if f == Ok(true) {
          return true;
        }
      }
      NoneFullMeansNotPercolating(size, qu.Partition);
      return false;
    }

    /** Opens cell (i, j) and joins it to the virtual top when it is in the first
        row and to each open neighbour, above, below, right and left in that order;
        a coordinate out of range is refused before anything changes. The classes
        fused are the cell's own, the top's in the first row and the open
        neighbours'; opening an open cell again only repeats joins already made. */
    method Open(i: int, j: int) returns (o: Outcome)
      requires Valid()
      modifies gridOpen, last, qu, qu.id, qu.treeSize
      ensures Valid()
      ensures o == CheckCell(i, j)
      ensures o.Fail? ==> unchanged(gridOpen, last, qu, qu.id, qu.treeSize)
      ensures o.Pass? ==> gridOpen[..] == Opened(size, old(gridOpen[..]), i, j) && last[..] == [i, j]
      ensures o.Pass? ==>
        var merged := JoinedRoots(size, old(gridOpen[..]), old(qu.Partition), i, j);
        exists w :: w in merged && qu.Partition == Relabel(old(qu.Partition), merged, w)
      ensures o.Pass? ==> OpenCells(size, gridOpen[..]) == OpenCells(size, old(gridOpen[..])) + {(i, j)}
      ensures o.Pass? && old(IsOpenCell(size, gridOpen[..], i, j)) ==>
        gridOpen[..] == old(gridOpen[..]) && qu.Partition == old(qu.Partition)
    {
      o := CheckCell(i, j);
      if o.Fail? {
        return;
      }
      var index := (i - 1) * size + j;
      RowStartIsProduct(size, i);
      CellIndexInRange(size, i, j);
      ghost var grid0, part0 := gridOpen[..], qu.Partition;
      gridOpen[index] := 0;
      assert gridOpen[..] == Opened(size, grid0, i, j);
      ghost var merged: set<int> := {part0[index]};
      ghost var w := part0[index];
      assert qu.Partition == Relabel(part0, merged, w);
      if i == 1 {
        merged, w := Join(index, 0, part0, merged, w);
      }
      assert Opening(i, j, index, grid0);
      w := JoinNeighbours(i, j, index, grid0, part0, merged, w);
      last[0] := i;
      last[1] := j;
      OpenKeepsSound(size, grid0, part0, i, j, w);
      assert gridOpen[..] == Opened(size, grid0, i, j);
      assert qu.Partition == Relabel(part0, JoinedRoots(size, grid0, part0, i, j), w);
      OpenAddsCell(size, grid0, i, j);
      if IsOpenCell(size, grid0, i, j) {
        ReopenJoinsNothing(size, grid0, part0, i, j);
        assert qu.Partition == part0;
      }
    }

    /** Opens a closed cell chosen at random. The choice of the cell is left open:
        any closed cell may be the one. When no cell is closed the choice never
        ends, so one is required to exist. */
    method OpenRandom()
      requires Valid() && exists i, j :: IsClosedCell(size, gridOpen[..], i, j)
      modifies gridOpen, last, qu, qu.id, qu.treeSize
      ensures Valid()
      ensures IsClosedCell(size, old(gridOpen[..]), last[0], last[1])
      ensures gridOpen[..] == Opened(size, old(gridOpen[..]), last[0], last[1])
      ensures CountClosed(gridOpen[..]) == CountClosed(old(gridOpen[..])) - 1
      ensures var merged := JoinedRoots(size, old(gridOpen[..]), old(qu.Partition), last[0], last[1]);
        exists w :: w in merged && qu.Partition == Relabel(old(qu.Partition), merged, w)
    {
      var i, j :| 1 <= i <= size && 1 <= j <= size && IsClosedCell(size, gridOpen[..], i, j);
      CellIndexInRange(size, i, j);
      CountClosedOpen(gridOpen[..], CellIndex(size, i, j));
      var _ := Open(i, j);
    }

    /** The unions of opening cell (i, j), whose index is `index`, with each open
        neighbour above, below, right and left, after the one with the virtual top
        for a first-row cell. Together they fuse exactly the classes that
        JoinedRoots names. */
    method JoinNeighbours(i: int, j: int, index: int, ghost grid0: seq<int>, ghost part0: seq<int>,
                          ghost own: set<int>, ghost w0: int)
        returns (ghost w: int)
      requires Opening(i, j, index, grid0) && Fused(index, part0, own, w0)
      requires own == if i == 1 then {part0[index]} + {part0[0]} else {part0[index]}
      modifies qu, qu.id, qu.treeSize
      ensures qu.Valid()
      ensures w in JoinedRoots(size, grid0, part0, i, j)
      ensures qu.Partition == Relabel(part0, JoinedRoots(size, grid0, part0, i, j), w)
    {
      CellIndexNeighbours(size, i, j);
      ghost var up, down, right, left;
      up, w := JoinIfOpen(i, j, index, i - 1 > 0, i - 1, j, index - size, grid0, part0, own, w0);
      down, w := JoinIfOpen(i, j, index, i + 1 <= size, i + 1, j, index + size, grid0, part0, up, w);
      right, w := JoinIfOpen(i, j, index, j + 1 <= size, i, j + 1, index + 1, grid0, part0, down, w);
      left, w := JoinIfOpen(i, j, index, j - 1 > 0, i, j - 1, index - 1, grid0, part0, right, w);
      JoinedRootsInSteps(size, grid0, part0, i, j, index, own, up, down, right, left);
      assert qu.Partition == Relabel(part0, left, w);
    }

    /** Cell (i, j), at `index`, has just been opened in `grid0`, and the union-find
        structure is valid. */
    ghost predicate Opening(i: int, j: int, index: int, grid0: seq<int>)
      reads this, qu, qu.id, qu.treeSize, gridOpen
    {
      && qu.Valid() && 0 < size && gridOpen.Length == qu.id.Length == size * size + 1
      && gridOpen != qu.id && gridOpen != qu.treeSize
      && InGrid(size, i, j) && index == CellIndex(size, i, j)
      && |grid0| == qu.id.Length && gridOpen[..] == Opened(size, grid0, i, j)
    }

    /** The classes in `merged` of the partition `part0`, among them that of
        `index`, have been fused into the class `w`. */
    ghost predicate Fused(index: int, part0: seq<int>, merged: set<int>, w: int)
      reads this, qu
    {
      && 0 <= index < |part0| && |part0| == |qu.Partition|
      && w in merged && part0[index] in merged && qu.Partition == Relabel(part0, merged, w)
    }

    /** One neighbour step of opening cell (i, j): when `inBounds` (the caller's
        range test for the neighbour (a, b), whose index is `other`) holds and that
        neighbour is open, unions the opened cell with it. The neighbour's class is
        then among the fused ones exactly when the neighbour was open before. */
    method JoinIfOpen(i: int, j: int, index: int, inBounds: bool, a: int, b: int, other: int,
                      ghost grid0: seq<int>, ghost part0: seq<int>, ghost merged: set<int>, ghost w: int)
        returns (ghost merged': set<int>, ghost w': int)
      requires Opening(i, j, index, grid0) && Fused(index, part0, merged, w)
      requires (a, b) != (i, j) && (inBounds <==> InGrid(size, a, b))
      requires inBounds ==> other == CellIndex(size, a, b)
      modifies qu, qu.id, qu.treeSize
      ensures Opening(i, j, index, grid0) && Fused(index, part0, merged', w')
      ensures merged' == WithNeighbour(size, grid0, part0, merged, a, b)
    {
      OtherCellUnchanged(size, grid0, i, j, a, b);
      merged', w' := merged, w;
      if inBounds && IsOpen(a, b) == Ok(true) {
        CellIndexInRange(size, a, b);
        merged', w' := Join(index, other, part0, merged, w);
      }
    }

    /** Unions `index` with `other`, for opening: when the classes in `merged` of
        the original partition `part0` have been fused, the class of `other` is
        fused with them too. */
    method Join(index: int, other: int, ghost part0: seq<int>, ghost merged: set<int>, ghost w: int)
        returns (ghost merged': set<int>, ghost w': int)
      requires qu.Valid()
      requires 0 <= index < qu.id.Length && 0 <= other < qu.id.Length && |part0| == qu.id.Length
      requires w in merged && part0[index] in merged && qu.Partition == Relabel(part0, merged, w)
      modifies qu, qu.id, qu.treeSize
      ensures qu.Valid()
      ensures merged' == merged + {part0[other]} && w' in merged'
      ensures qu.Partition == Relabel(part0, merged', w')
    {
      ghost var before := qu.Partition;
      var _ := qu.Union(index, other);
      w' :| w' in {before[index], before[other]} && qu.Partition == Relabel(before, {before[index], before[other]}, w');
      RelabelStep(part0, merged, w, index, other, w');
      merged' := merged + {part0[other]};
    }

    /** The side n of the grid, which has n*n cells besides the virtual top. */
    function GridSize(): (r: int)
      requires Valid()
      reads this, qu, qu.id, qu.treeSize, gridOpen, last
      ensures r > 0 && gridOpen.Length == r * r + 1 && qu.id.Length == r * r + 1
    {
      size
    }
  }

  /** A one-cell grid percolates as soon as its cell is opened. */
  method SingleCellGridPercolates() returns (b: bool)
    ensures b
  {
    var p := new Percolation.Init(1);
    ghost var grid0, part0 := p.gridOpen[..], p.qu.Partition;
    var o := p.Open(1, 1);
    ghost var w :| w in JoinedRoots(1, grid0, part0, 1, 1)
      && p.qu.Partition == Relabel(part0, JoinedRoots(1, grid0, part0, 1, 1), w);
    FirstRowOpenIsFull(1, grid0, part0, 1, w);
    b := p.Percolates();
  }

  /** A grid with every cell closed does not percolate. */
  method FreshGridDoesNotPercolate(n: int) returns (b: bool)
    requires n > 0
    ensures !b
  {
    var p := new Percolation.Init(n);
    FreshNotPercolating(n);
    b := p.Percolates();
  }
}
