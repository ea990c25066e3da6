# Percolation on an n-by-n grid, over weighted quick-union

This project models the core of a percolation simulator. The simulator has two parts:

- **`QuickUnion`** is a weighted quick-union (disjoint-set) structure over the nodes `0 .. n-1`.
  - It holds two arrays: parent links `id` and weights `treeSize`.
  - `root` halves paths: each node it visits is pointed at its grandparent.
  - `connected` compares roots.
  - `union` links two roots. Node 0 always wins. Otherwise the lighter root goes under the heavier one, and the heavier root's weight becomes the sum of both weights.
- **`Percolation`** is an n-by-n grid. It owns a `QuickUnion` of n²+1 nodes.
  - Node 0 is a virtual top node.
  - Cell (i, j), 1-indexed, is node `(i-1)*n + j`.
  - `gridOpen` holds 0 for an open cell and 1 for a closed one.
  - `open` marks a cell open. It unions the cell with node 0 when the cell is in row 1, and with every open neighbour.
  - `isFull` asks whether a cell is in node 0's class.
  - `percolates` scans the last row for a full cell.

Three files, one module each:

- `errors.dfy` (`Errors`) turns the source's exceptions into values. `IllegalArgument` stands for a non-positive size. `IndexOutOfBounds(name, value)` stands for an index out of range and keeps the name and value that the message prints. `Outcome` models `void` operations and `Result<T>` models value-returning ones.
- `union_find.dfy` (`UnionFind`) holds class `QuickUnion`, with the arrays `id` and `treeSize` updated in place. It carries two ghost fields:
  - `Partition` gives the root of every node, i.e. the abstract partition.
  - `rank` is a ranking in which every parent outranks its child. It proves that the links have no cycles, and it gives the `root` loop its termination measure.
  - The predicate `Consistent` ties these ghost fields to the arrays. It also says that node 0 is a root of weight 0, and that every other root's weight is the sum of the indices in its class. That sum comes from the weights being seeded with each node's own index (`QuickUnion.java:28`), which the model reproduces exactly.
- `percolation.dfy` (`PercolationGrid`) holds class `Percolation` with `size`, `qu`, `gridOpen` and `last`. Its invariant `Sound` says:
  - every closed cell is a class of its own;
  - every open first-row cell is with node 0;
  - any two open cells that share a side are in one class.
  - From `Sound` it follows that a full cell is always open.

Points about the code that the model makes explicit:

- Weights start at the node's index, not at 1. The model proves this does not affect which classes exist. It only affects which root survives a union.
- `openRandom` has no guard for a fully open grid; the code would loop forever. The model requires that a closed cell exists.
- `isFull` (Percolation.java:123-127) does not check that the cell is open. The model proves that a full cell is always open (`FullCellIsOpen`).

## Model

| member | source | states |
|---|---|---|
| `UnionFind.QuickUnion.Init` | Percolation/src/Methods/QuickUnion.java:16-30 | for n > 0, every node is its own parent and its weight is its own index; the partition is n singletons and the state is consistent |
| `UnionFind.QuickUnion.New` | Percolation/src/Methods/QuickUnion.java:16-20 | fails with IllegalArgument exactly when n <= 0, before anything is allocated; otherwise gives n singleton nodes |
| `UnionFind.QuickUnion.CheckIndex` | Percolation/src/Methods/QuickUnion.java:97-103 | passes exactly for indices in 0 .. n-1; otherwise fails with IndexOutOfBounds carrying the index |
| `UnionFind.QuickUnion.Root` | Percolation/src/Methods/QuickUnion.java:36-47 | terminates (measure: rank of the root minus rank of the current node) and returns the node's root r with id[r] == r; it only redirects links to grandparents, so the partition and the weights stay as they were |
| `UnionFind.QuickUnion.Connected` | Percolation/src/Methods/QuickUnion.java:54-60 | refuses an out-of-range p, then q, before any link changes; otherwise true exactly when p and q have the same root, which makes it reflexive and symmetric |
| `UnionFind.QuickUnion.Union` | Percolation/src/Methods/QuickUnion.java:66-95 | refuses an out-of-range p, then q, with nothing changed; otherwise fuses exactly the classes of p and q, so p and q become connected and no other pair's connectivity changes; a no-op on the partition when they were already connected; node 0 stays a root; weights change only at the surviving root, which gets the sum unless the survivor is node 0 (then no weight changes) |
| `UnionFind.QuickUnion.Link` | Percolation/src/Methods/QuickUnion.java:80-94 | links the loser root under the survivor and changes no other link; the survivor's weight becomes the sum of both weights unless the survivor is node 0 |
| `UnionFind.Survivor` | Percolation/src/Methods/QuickUnion.java:80-94 | node 0 survives whenever it is one of the two roots; otherwise the second root survives exactly when its weight is strictly larger |
| `UnionFind.HalvingKeepsPartition` | Percolation/src/Methods/QuickUnion.java:41-45 | redirecting a non-root to its grandparent keeps the links ranked and the root of every node unchanged |
| `UnionFind.HalvingStep` | Percolation/src/Methods/QuickUnion.java:41-45 | one loop step keeps the state consistent, keeps the links a halving of the original links, and leaves the links above the next node untouched |
| `UnionFind.LinkKeepsPartition` | Percolation/src/Methods/QuickUnion.java:81-93 | linking one root under another keeps the links acyclic and fuses exactly those two classes, under the survivor |
| `UnionFind.LinkKeepsWeights` | Percolation/src/Methods/QuickUnion.java:87-94 | after a link, every root other than 0 still weighs the sum of the indices in its class |
| `UnionFind.LinkKeepsConsistent` | Percolation/src/Methods/QuickUnion.java:80-94 | a link made as union makes it keeps the whole state consistent |
| `UnionFind.WeightOfSingleton` | Percolation/src/Methods/QuickUnion.java:25-29 | with every node its own root, the weight of root r is r, matching the seed treeSize[r] = r |
| `UnionFind.WeightOfMerge` | Percolation/src/Methods/QuickUnion.java:90-93 | the fused class weighs the sum of the two class weights |
| `UnionFind.WeightOfBystander` | Percolation/src/Methods/QuickUnion.java:87-94 | a class that takes no part in a union keeps its weight |
| `UnionFind.LabelsUniqueAt` | Percolation/src/Methods/QuickUnion.java:41-46 | the root a node's links lead to does not depend on which ranking proves the links acyclic |
| `UnionFind.LabelsUnique` | Percolation/src/Methods/QuickUnion.java:41-46 | the ghost partition is a function of the parent links alone |
| `UnionFind.RelabelConnectivity` | Percolation/src/Methods/QuickUnion.java:66-95 | after classes are fused, two nodes share a class exactly when they did before or both were in fused classes |
| `UnionFind.RelabelMerges` | Percolation/src/Methods/QuickUnion.java:66-95 | fusing the classes of x and y under one of their roots merges exactly those two classes |
| `UnionFind.RelabelStep` | Percolation/src/Methods/Percolation.java:68-83 | a second union made while opening a cell adds the neighbour's class to the classes already fused |
| `PercolationGrid.RowStartIsProduct` | Percolation/src/Methods/Percolation.java:64 | the row offset equals (i-1)*n |
| `PercolationGrid.CellIndexInRange` | Percolation/src/Methods/Percolation.java:64 | the node of every cell with 1 <= i, j <= n lies in 1 .. n², so it is never the virtual top |
| `PercolationGrid.CellIndexInjective` | Percolation/src/Methods/Percolation.java:115 | distinct cells map to distinct nodes |
| `PercolationGrid.CellOfIndex` | Percolation/src/Methods/Percolation.java:51-54 | every node in 1 .. n² is the node of some cell |
| `PercolationGrid.CellIndexNeighbours` | Percolation/src/Methods/Percolation.java:70-83 | the neighbour above, below, right and left is at index - n, + n, + 1 and - 1 |
| `PercolationGrid.OpenAddsCell` | Percolation/src/Methods/Percolation.java:65 | opening a cell adds exactly that cell to the open cells: no cell closes and no other cell opens |
| `PercolationGrid.OtherCellUnchanged` | Percolation/src/Methods/Percolation.java:64-65 | opening a cell leaves every other cell as open or closed as it was |
| `PercolationGrid.CountClosedOpen` | Percolation/src/Methods/Percolation.java:104 | opening a closed cell lowers the number of closed cells by exactly one |
| `PercolationGrid.CountClosedPositive` | Percolation/src/Methods/Percolation.java:99-103 | the count of closed entries is positive exactly when some entry is closed |
| `PercolationGrid.CountClosedFresh` | Percolation/src/Methods/Percolation.java:50-54 | a fresh grid has all n² cells closed |
| `PercolationGrid.SomeCellClosed` | Percolation/src/Methods/Percolation.java:99-103 | some cell is closed exactly when the count of closed cells is positive, so the random pick can succeed exactly then |
| `PercolationGrid.FullCellIsOpen` | Percolation/src/Methods/Percolation.java:123-127 | in a sound grid every full cell is open |
| `PercolationGrid.PercolatingIffOpenFull` | Percolation/src/Methods/Percolation.java:132-139 | the grid percolates exactly when some open cell of the last row is connected to node 0 |
| `PercolationGrid.NoneFullBeforeAt` | Percolation/src/Methods/Percolation.java:134-136 | a last-row cell already scanned past is not full |
| `PercolationGrid.NoneFullMeansNotPercolating` | Percolation/src/Methods/Percolation.java:132-139 | when the scan finds no full cell in row n, the grid does not percolate |
| `PercolationGrid.FreshNotPercolating` | Percolation/src/Methods/Percolation.java:42-54 | a fresh grid, with every node its own class, does not percolate |
| `PercolationGrid.FreshSound` | Percolation/src/Methods/Percolation.java:46-54 | the fresh grid satisfies the grid invariant |
| `PercolationGrid.JoinedRootsInSteps` | Percolation/src/Methods/Percolation.java:67-83 | the classes fused by open, built one neighbour at a time in the source's order, are the classes JoinedRoots names |
| `PercolationGrid.JoinedRootsNotClosed` | Percolation/src/Methods/Percolation.java:70-83 | opening a cell never fuses the class of any other closed cell |
| `PercolationGrid.NeighbourNotClosed` | Percolation/src/Methods/Percolation.java:70-83 | a union with an open neighbour never brings in an isolated closed node |
| `PercolationGrid.OpenKeepsIsolated` | Percolation/src/Methods/Percolation.java:61-83 | after open, every closed cell is still a class of its own |
| `PercolationGrid.OpenKeepsJoined` | Percolation/src/Methods/Percolation.java:61-83 | after open, the opened cell is joined to its open neighbours (and to node 0 in row 1), and every earlier join still holds |
| `PercolationGrid.OpenKeepsSound` | Percolation/src/Methods/Percolation.java:61-83 | open preserves the grid invariant, so only open cells ever join node 0's class |
| `PercolationGrid.JoinedRootsHasOwn` | Percolation/src/Methods/Percolation.java:68-69 | the fused classes include the cell's own class, and node 0's class for a row-1 cell |
| `PercolationGrid.NeighbourKeepsRoots` | Percolation/src/Methods/Percolation.java:70-83 | a neighbour union never removes a class from those already fused |
| `PercolationGrid.FirstRowOpenIsFull` | Percolation/src/Methods/Percolation.java:68-69 | an opened row-1 cell is full |
| `PercolationGrid.ReopenJoinsNothing` | Percolation/src/Methods/Percolation.java:65-83 | reopening an open cell fuses nothing and leaves the grid as it was |
| `PercolationGrid.OpenNeighbourJoined` | Percolation/src/Methods/Percolation.java:70-83 | an open neighbour of an open cell is already in its class |
| `PercolationGrid.Percolation.Init` | Percolation/src/Methods/Percolation.java:36-55 | n > 0 gives a sound grid: node 0 open, every cell closed, every node its own class, last = (0, 0) |
| `PercolationGrid.Percolation.New` | Percolation/src/Methods/Percolation.java:41-43 | fails with IllegalArgument exactly when n <= 0; otherwise gives a fresh grid that does not percolate |
| `PercolationGrid.Percolation.CheckCell` | Percolation/src/Methods/Percolation.java:145-152 | passes exactly for 1 <= i, j <= n; a bad row is reported as "i" before a bad column is reported as "j" |
| `PercolationGrid.Percolation.IsOpen` | Percolation/src/Methods/Percolation.java:112-116 | fails for coordinates out of range; otherwise true exactly when the cell's entry is 0 |
| `PercolationGrid.Percolation.IsFull` | Percolation/src/Methods/Percolation.java:123-127 | fails for coordinates out of range, with no link changed; otherwise true exactly when the cell is in node 0's class, and then the cell is open |
| `PercolationGrid.Percolation.Percolates` | Percolation/src/Methods/Percolation.java:132-139 | true exactly when some cell of row n is in node 0's class |
| `PercolationGrid.Percolation.Open` | Percolation/src/Methods/Percolation.java:61-88 | refuses a bad cell before anything changes; otherwise opens exactly that cell, sets last = (i, j), and fuses exactly the cell's class, node 0's class for row 1, and the classes of its open neighbours; opening an open cell again changes neither the grid nor the partition; the invariant is kept |
| `PercolationGrid.Percolation.OpenRandom` | Percolation/src/Methods/Percolation.java:92-105 | given that some cell is closed, opens exactly one cell that was closed, leaving one closed cell fewer |
| `PercolationGrid.Percolation.JoinNeighbours` | Percolation/src/Methods/Percolation.java:70-83 | the four neighbour unions together fuse exactly the classes JoinedRoots names |
| `PercolationGrid.Percolation.JoinIfOpen` | Percolation/src/Methods/Percolation.java:70-83 | a neighbour's class is added to the fused classes exactly when that neighbour is in bounds and open |
| `PercolationGrid.Percolation.Join` | Percolation/src/Methods/Percolation.java:69 | each union made by open adds the other node's class to the classes already fused |
| `PercolationGrid.Percolation.GridSize` | Percolation/src/Methods/Percolation.java:196-199 | the side n is positive, and the grid and the union-find structure both have n*n + 1 nodes |
| `PercolationGrid.SingleCellGridPercolates` | Percolation/src/Methods/Percolation.java:132-139 | on a 1-by-1 grid, open(1, 1) makes percolates() true |
| `PercolationGrid.FreshGridDoesNotPercolate` | Percolation/src/Methods/Percolation.java:42-54 | for every n > 0, a fresh grid's percolates() is false |

## Left out

- `Percolation.paintComponent` is Swing rendering that depends on the frame size and colours. It is not modelled.
- The random number generator in `openRandom` is replaced by a nondeterministic pick among the closed cells. The rejection-sampling loop has no termination guarantee, so the model does not reproduce it.
- `OpenRandom` requires that some cell is closed. On a fully open grid the source loops forever and never raises an error.
- `PercolationStats` is left out. It does floating-point statistics (mean, standard deviation with `Math.sqrt`, 1.96 confidence bounds) over randomized trials.
- The GUI classes, `Controller` and `Constants` are left out. They are presentation and wiring.
- The `Controller` reference that `Percolation` keeps is left out, because it is used only for painting.
- Java's 32-bit `int` arithmetic is not modelled. Sizes and weights are unbounded integers. In the source, `n * n + 1` overflows for n above 46340, and a weight sum can overflow on a very large structure.
- `UnionFind.QuickUnion.Root` requires an index in range. The source's `root` checks the index again, but both its callers have already checked it, so that throw can never be reached.
- Exceptions become `Outcome`/`Result` values. The model keeps each exception's kind, the variable name the message prints and the offending value, but not the rest of the message text.
