# rust-battlesnake: occupancy grid and breadth-first pathfinder

This project models the board-occupancy grid and the pathfinder of the rust-battlesnake
Battlesnake server in Dafny, and proves what they promise:

- `utils.dfy` (module `SnakeUtils`): `TwoDimensionalMap<T>`, a class over one `array<T>` of
  `width * height` cells. Reads (`Get`, for `index`) and writes (`Set`, for `index_mut` followed by
  an assignment) go through the slot `y * height + x`, exactly as the source computes it: the
  stride is the height, not the width. A read or write requires `Addressable`: `x < width` and
  `y < height` (the two assertions) and a slot inside the vector (the vector's own bounds check).
  The lemmas pin down on which board shapes that formula behaves. Every in-bounds slot lies
  inside the vector exactly when the board has no columns, at most one row, or no more rows than
  columns (`SlotsFitIff`): a 0 x 3 board fits, a 1 x 2 board does not. Distinct in-bounds cells
  have distinct slots exactly when the board has no more columns than rows, or at most one row
  (`SlotsInjectiveIff`): a 5 x 1 board keeps its cells apart. On a board with at least two rows
  and more columns than rows, (height, 0) and (0, 1) share a slot.
- `map.dfy` (module `SnakeMap`): `BoardSpace`, the part of the request's `Board` that the map
  reads, and class `Map`. `Map::new` writes FOOD at every food coordinate and then SNAKE at every
  body coordinate. The result is specified slot by slot by the function `Occupancy`, and the
  constructor is proved to build exactly that vector. The lemmas say what each cell then reads:
  SNAKE on every body coordinate, FOOD on a food coordinate no body shares, EMPTY elsewhere. On
  a square board this is exactly the board (`SquareBoardCells`). On other shapes it holds slot
  by slot, so aliased cells read alike.
- `path.dfy` (module `SnakePath`): `Move`, `is_valid_node`, `bfs_to` and `shortest_path_to`.
  - The search sees a map as a `Grid`: its dimensions and the set of cells that read SNAKE.
    `Terrain(m)` is read off the map's vector. For a map built from a board it is that board's
    grid (`BuiltTerrain`).
  - A walk is a sequence of cells in which every cell after the first is adjacent to the one
    before it and traversable. The first cell, where the snake's head is, is not checked.
  - The predecessor links of BFS nodes are arena indices into the sequence of expanded nodes.
    The search is proved correct against these definitions. It finds the target exactly when a
    walk reaches it, and the node it returns has a chain of predecessors that is a walk of least
    length. The path that `shortest_path_to` builds from that chain is a walk from start to target
    whose every node names the move onto the next node, with none on the last node.
  - Of several walks of least length, the search returns the one first in probe order: at the
    first cell where two walks part, the one whose next move is probed first, in the order
    Right, Left, Up, Down. A second invariant of the search loop carries this: the arena and the
    queue stay in the order nodes were enqueued, each node hangs off the earliest expanded node
    next to it, and every expanded node's chain is first in probe order among the walks as short
    as it.
- `path_tests.dfy` (module `SnakePathScenarios`): the four unit tests of `path.rs`. Each builds the
  test's map, calls `ShortestPathTo`, and proves the exact outcome the test asserts. One more case
  shows the probe order breaking a tie: from (0, 0) to (1, 1) on the empty board the path goes
  Right, then Down.

## Model

| member | source | states |
|---|---|---|
| SnakeUtils.SlotsFitIff | src/snake/utils.rs:14-21 | every in-bounds cell's slot `y * height + x` lies inside the `width * height` vector if and only if the board has no columns, at most one row, or no more rows than columns |
| SnakeUtils.SlotFits | src/snake/utils.rs:14-21 | on those shapes a read or write of an in-bounds cell stays inside the vector |
| SnakeUtils.LastSlotOverflows | src/snake/utils.rs:14-21 | on a board with more rows than columns (and at least two rows), the last cell of the last row indexes past the end of the vector |
| SnakeUtils.SlotsInjectiveIff | src/snake/utils.rs:14-34 | distinct in-bounds cells have distinct slots if and only if the board has no more columns than rows, or at most one row |
| SnakeUtils.RowsDoNotOverlap | src/snake/utils.rs:14-21 | with stride `height`, a cell of an earlier row whose x is below the stride has a smaller slot than any cell of a later row |
| SnakeUtils.SquareCellsIndependent | src/snake/utils.rs:14-34 | on a square board every in-bounds cell is addressable, and two cells share a slot only if they are the same cell |
| SnakeUtils.TwoDimensionalMap.constructor | src/snake/utils.rs:40-47 | `new` keeps the dimensions it is given and allocates exactly `width * height` slots, each holding the default value, so every addressable cell reads the default |
| SnakeUtils.TwoDimensionalMap.Set | src/snake/utils.rs:25-34 | a write requires `x < width`, `y < height` and a slot inside the vector. It changes exactly slot `y * height + x`, the value reads back at (x, y), and on a square board every other cell keeps its value |
| SnakeUtils.AddValuesScenario | src/snake/utils.rs:56-65 | on a 30 x 30 map, 15 written at (25, 20) and -12 at (13, 9) both read back |
| SnakeUtils.OutOfBoundsScenario | src/snake/utils.rs:67-81 | on a 30 x 30 map, (31, 15) and (15, 31) are not addressable, so the source's assertions reject them |
| SnakeMap.BodiesMembership | src/snake/map.rs:35-39 | a coordinate is among the body coordinates the map writes if and only if it lies on some snake's body |
| SnakeMap.PaintAt | src/snake/map.rs:30-39 | writing a value at a list of coordinates, in order, puts it at exactly their slots and leaves every other slot as it was |
| SnakeMap.PaintConcat | src/snake/map.rs:35-39 | writing one list of coordinates and then another is writing their concatenation, so body after body equals all bodies at once |
| SnakeMap.Occupancy | src/snake/map.rs:26-39 | the vector `Map::new` builds has `width * height` cells |
| SnakeMap.OccupancyAt | src/snake/map.rs:26-39 | slot by slot, that vector holds SNAKE where a body coordinate lands, otherwise FOOD where a food coordinate lands, otherwise the default EMPTY |
| SnakeMap.BodyCellsReadSnake | src/snake/map.rs:35-39 | after construction every coordinate of every snake body is addressable and reads SNAKE, on any board shape |
| SnakeMap.FoodCellsRead | src/snake/map.rs:30-39 | a food coordinate reads FOOD, unless a body coordinate shares its slot, in which case it reads SNAKE: snakes are written after food |
| SnakeMap.UntouchedCellsReadEmpty | src/snake/map.rs:11-13 | a coordinate whose slot no food and no body coordinate lands on reads the default EMPTY |
| SnakeMap.SquareBoardCells | src/snake/map.rs:26-50 | on a square board a cell reads SNAKE if and only if it is on a body, FOOD if and only if it is food and on no body, and EMPTY if and only if it is neither |
| SnakeMap.WriteCells | src/snake/map.rs:31-33 | one filling loop of `Map::new`: the vector afterwards is the old vector with the value written at each coordinate in order |
| SnakeMap.Map.constructor | src/snake/map.rs:26-46 | requires every food and body coordinate to be addressable, because the indexer asserts. Keeps the board's width and height and builds exactly the `Occupancy` vector of the board |
| SnakeMap.Map.At | src/snake/map.rs:48-50 | requires an addressable coordinate, and returns the cell the board dictates at it |
| SnakeMap.PopulatesFoodAndSnakesScenario | src/snake/map.rs:60-95 | on the 25 x 20 test board both food coordinates read FOOD and all three body coordinates read SNAKE |
| SnakePath.ToStringDistinct | src/snake/path.rs:22-29 | two moves have the same protocol name if and only if they are the same move |
| SnakePath.MoveBetweenInverts | src/snake/path.rs:79-90 | between adjacent cells the Left/Right/Up/Down if-chain names a move that leads from the first cell to the second, and a move leads to a cell exactly when that cell is adjacent and the chain names that move |
| SnakePath.TraversableOnBoard | src/snake/path.rs:200-214 | on those boards a cell is traversable if and only if the map can read it and it reads EMPTY or FOOD |
| SnakePath.SquareTraversable | src/snake/path.rs:200-214 | on a square board a cell is traversable if and only if it is in bounds and on no snake body; food does not block |
| SnakePath.BuiltTerrain | src/snake/map.rs:26-50 | the grid the search reads from a map built from a board is that board's grid |
| SnakePath.IsValidNode | src/snake/path.rs:200-214 | true exactly when the coordinate is inside the board and its cell is not SNAKE |
| SnakePath.WalkStaysInside | src/snake/path.rs:195-196 | a walk that starts in a set of cells closed under steps ends in it |
| SnakePath.TraceWalks | src/snake/path.rs:154-192 | following the predecessor links of a node back to the root traces a walk from the start to the node, with exactly `dist + 1` cells |
| SnakePath.ChildrenExpand | src/snake/path.rs:152-192 | the nodes enqueued when a node is expanded are exactly one per traversable neighbour. Each is one further from the root and linked to the node, and none is missed at the left or top edge, where the `x != 0` and `y != 0` guards skip a probe |
| SnakePath.ChildrenInProbeOrder | src/snake/path.rs:154-192 | the enqueued neighbours come in the order Right, Left, Up, Down, with no direction twice |
| SnakePath.Probe | src/snake/path.rs:154-162 | one neighbour probe appends a node for the cell exactly when `is_valid_node` accepts it |
| SnakePath.ExpandNeighbours | src/snake/path.rs:152-192 | the four probes append exactly the children of the node, in probe order |
| SnakePath.BfsInvInit | src/snake/path.rs:121-130 | the queue holding only the root, with nothing traversed, satisfies the search invariant |
| SnakePath.DequeueShortest | src/snake/path.rs:132-145 | the first time a coordinate leaves the FIFO queue, its node's distance is the least number of steps from the start |
| SnakePath.SkipPreserves | src/snake/path.rs:139-142 | dropping a queued node whose coordinate is already traversed keeps the invariant |
| SnakePath.ExpandPreserves | src/snake/path.rs:144-192 | expanding a new, non-target node keeps the invariant: the traversed set, the arena of least-distance nodes, every frontier cell queued, queue distances in two layers |
| SnakePath.VisitShrinks | src/snake/path.rs:139-145 | every new coordinate that is traversed is the start or on the board, so the cells left to traverse strictly decrease and the loop ends |
| SnakePath.TargetFound | src/snake/path.rs:147-150 | when the target is traversed for the first time, its node's predecessor chain is a walk from the start with `dist + 1` cells, and no walk is shorter |
| SnakePath.ExhaustedUnreachable | src/snake/path.rs:195-196 | when the queue runs dry without traversing the target, no walk from the start reaches it |
| SnakePath.ProbedBeforeAsymmetric | src/snake/path.rs:154-192 | no walk comes before a walk that comes before it in probe order (the first differing move decides, Right before Left before Up before Down) |
| SnakePath.ProbedBeforeTransitive | src/snake/path.rs:154-192 | the probe order on walks of one length is transitive |
| SnakePath.SiblingsProbedBefore | src/snake/path.rs:154-192 | two one-step extensions of one walk come in the probe order of their last moves |
| SnakePath.ProbeFirstUnique | src/snake/path.rs:154-192 | at most one walk of least length from start to target is first in probe order |
| SnakePath.ChildOfStep | src/snake/path.rs:152-192 | every traversable neighbour of an expanded node gets a node among the ones enqueued for it |
| SnakePath.OrderInvInit | src/snake/path.rs:121-130 | the queue holding only the root satisfies the order invariant |
| SnakePath.SkipKeepsOrder | src/snake/path.rs:139-142 | dropping a node whose coordinate is already traversed keeps the order invariant |
| SnakePath.UntraversedFar | src/snake/path.rs:132-145 | a walk from the start to a cell not yet traversed is longer than the head of the queue is far from the root |
| SnakePath.HeadEnqueuedFirst | src/snake/path.rs:132-134 | the FIFO queue's head entered it before every other queued node |
| SnakePath.HeadFirstParent | src/snake/path.rs:132-192 | a new head of the queue hangs off the earliest expanded node next to its cell: an earlier one would have enqueued the same cell ahead of it |
| SnakePath.HeadNeighbour | src/snake/path.rs:132-192 | on any shortest walk to a new head of the queue, the cell before the last is an expanded node one step nearer the root |
| SnakePath.TraceBeatsWalk | src/snake/path.rs:154-192 | the chain of an expanded node extended by one cell is first in probe order among the equally short walks whose cell before the last was expanded no earlier in the same layer |
| SnakePath.HeadCanonical | src/snake/path.rs:132-150 | the predecessor chain of a node leaving the queue on a new cell is first in probe order among the walks as short as it |
| SnakePath.HeadAfterLayer | src/snake/path.rs:132-192 | an expanded node at the distance of the queue's head has a chain that comes before the head's in probe order |
| SnakePath.EnqueuedBeforeKept | src/snake/path.rs:152-192 | appending to the arena does not change which of two nodes entered the queue first |
| SnakePath.AllLinkBelow | src/snake/path.rs:152-192 | every node in the arena and in the queue links only to nodes already expanded |
| SnakePath.SiblingsEnqueued | src/snake/path.rs:154-192 | children of one node enter the queue in their probe order |
| SnakePath.ExpandInOrder | src/snake/path.rs:152-192 | expanding the queue's head appends its children, in probe order, behind everything enqueued so far |
| SnakePath.ExpandPending | src/snake/path.rs:144-192 | after an expansion every node enqueued by an expanded node is traversed or still queued |
| SnakePath.ExpandFirstParents | src/snake/path.rs:144-192 | after an expansion every expanded node still hangs off its earliest expanded neighbour |
| SnakePath.ExpandCanonical | src/snake/path.rs:144-192 | after an expansion every expanded node's chain is first in probe order among the walks as short as it |
| SnakePath.ExpandLayers | src/snake/path.rs:144-192 | after an expansion the expanded nodes of each distance are in the probe order of their chains |
| SnakePath.ExpandKeepsOrder | src/snake/path.rs:144-192 | expanding a new, non-target node keeps the whole order invariant |
| SnakePath.BfsTo | src/snake/path.rs:119-197 | returns None if and only if no walk reaches the target. Otherwise it returns a node on the target whose predecessor chain is a walk from the start of `dist + 1` cells, no walk is shorter, of the walks that short it is the first in probe order (Right, Left, Up, Down), and no coordinate was expanded twice |
| SnakePath.ReversedAt | src/snake/path.rs:106 | `reverse` puts the element at position `|s| - 1 - i` at position i |
| SnakePath.DirectedMoves | src/snake/path.rs:73-96 | in a built path every node but the last names the move onto the next node's cell, and the last node names none |
| SnakePath.TraceBack | src/snake/path.rs:98-101 | stepping to the predecessor moves one cell back along the traced walk, and the root is reached exactly at its first cell |
| SnakePath.CollectStep | src/snake/path.rs:73-96 | the node pushed for the k-th cell of the walk, with the move towards the node pushed before it, extends the path along the walk's cells from k on |
| SnakePath.FollowBack | src/snake/path.rs:65-104 | the nodes the backward loop pushes, once reversed, form a path whose cells are the predecessor chain of the found node, with each move leading to the next cell |
| SnakePath.ShortestPathTo | src/snake/path.rs:57-109 | returns None if and only if the target is unreachable. Otherwise the path starts at the start and ends at the target, and every later cell is in bounds, not SNAKE and adjacent to the one before it. Each node but the last names the move onto the next, the last names none, no walk is shorter, and of the walks that short it is the first in probe order |
| SnakePath.SameCellPath | src/snake/path.rs:147-150 | when start and target coincide, the only shortest path is the start alone, with no move |
| SnakePathScenarios.ColumnBlocked | src/snake/path.rs:234-249 | on the test boards every body cell of the snake along column 1 is blocked |
| SnakePathScenarios.ColumnOpen | src/snake/path.rs:234-249 | on the test boards every cell of column 0, and every cell of column 1 below the tail, is traversable |
| SnakePathScenarios.TailWalk | src/snake/path.rs:252-264 | with (1, 3) blocked, the only walk of at most four cells from (2, 4) to (0, 3) is (2, 4), (1, 4), (0, 4), (0, 3) |
| SnakePathScenarios.AroundTheTail | src/snake/path.rs:252-264 | the only shortest directed path there moves Left, Left, Up |
| SnakePathScenarios.FindsTargetScenario | src/snake/path.rs:222-265 | `shortest_path_to` on the first test board returns (2, 4) Left, (1, 4) Left, (0, 4) Up, (0, 3) with no move |
| SnakePathScenarios.WalledOff | src/snake/path.rs:267-300 | with the whole of column 1 blocked, no walk from (2, 4) reaches (0, 3) |
| SnakePathScenarios.InaccessibleScenario | src/snake/path.rs:267-300 | `shortest_path_to` on the walled-off board returns None |
| SnakePathScenarios.OneStepDown | src/snake/path.rs:316-321 | with (0, 1) open, the only shortest path from (0, 0) to (0, 1) is (0, 0) Down, (0, 1) with no move |
| SnakePathScenarios.ShortPathScenario | src/snake/path.rs:302-322 | on the empty 20 x 20 board the path from (0, 0) to (0, 1) is (0, 0) Down, (0, 1) with no move |
| SnakePathScenarios.RightThenDown | src/snake/path.rs:154-192 | from (0, 0) to (1, 1) with both (1, 0) and (1, 1) open, the only shortest directed path first in probe order moves Right, then Down |
| SnakePathScenarios.ProbeOrderScenario | src/snake/path.rs:57-197 | on the empty 20 x 20 board `shortest_path_to` from (0, 0) to (1, 1) returns (0, 0) Right, (1, 0) Down, (1, 1) with no move, not the equally short path through (0, 1) |
| SnakePathScenarios.SameCellScenario | src/snake/path.rs:324-343 | on the empty 20 x 20 board the path from (0, 0) to itself is (0, 0) alone, with no move |

## Left out

- The HTTP server and its routing (`src/main.rs`) are I/O, and the endpoint handlers of `src/snake/mod.rs` are constant stubs. `src/snake/api.rs` contributes only the board's width, height, food and snake bodies; ids, names, health and shouts are not read by the core.
- `Rc` reference counting: a BFS node's link to its predecessor is an index into the arena of expanded nodes. This is equivalent, because a link always points at a node that has already been expanded.
- The `queues` crate's allocation failure (`unwrap` panics) and the capacity of `Vec::with_capacity` are resource concerns, not behaviour.
- Integer widths: coordinates and dimensions are unbounded naturals. The wrap-around of `x + 1` and `y + 1` at `u32::MAX`, of `width * height` and of the slot in `usize`, and the `as usize` casts are not modelled. Left and Up keep the source's `x != 0` and `y != 0` guards.
- `index`, the read of a cell, is the function `TwoDimensionalMap.Get`. It has no row of its own: what it returns is stated by the constructor, `Set` and `Map.At`.
- The slot `y * height + x` of `index` and `index_mut` is the function `SnakeUtils.Slot`. It has no row of its own: where it lands is stated by `SlotsFitIff`, `SlotsInjectiveIff`, `LastSlotOverflows` and `TwoDimensionalMap.Set`.
- The two filling loops of `Map::new` are the function `SnakeMap.Paint`. It has no row of its own: what it writes is stated by `PaintAt` and `PaintConcat`, and the loop itself by `WriteCells`.
- `Move::to_string` is the function `SnakePath.Move.ToString`. It has no row of its own: that it names each move distinctly is stated by `ToStringDistinct`.
- The Left/Right/Up/Down if-chain of `shortest_path_to` is the function `SnakePath.MoveBetween`. It has no row of its own: what it names is stated by `MoveBetweenInverts`.
- `path.reverse()` is the function `SnakePath.Reversed`. It has no row of its own: where it puts each element is stated by `ReversedAt`.
- SnakePath.BfsTo: requires the board to be no taller than it is wide (or to have at most one row, or no columns). On a taller board the source panics when it probes a cell whose slot lies past the vector. The model excludes those boards instead of modelling the panic.
- SnakePath.ShortestPathTo: has the same requirement as `BfsTo`, for the same reason.
- SnakePath.ExpandNeighbours: has the same requirement as `BfsTo`, for the same reason.
- SnakePath.Probe: has the same requirement as `BfsTo`, for the same reason.
- SnakeMap.Map.At: states the returned cell in terms of the board only for a map built by the constructor (`Valid`). For any map it returns the vector's cell at the coordinate's slot.
- SnakeUtils.TwoDimensionalMap.Set: states that other cells keep their values only on square boards. On other shapes it states the whole new vector, and two cells may share a slot.
