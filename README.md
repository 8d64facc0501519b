# roboLiga2020: grid A* planner and mission state machine, in Dafny

This project models two sequential parts of the roboLiga2020 robot code and
proves properties of them.

**The A\* grid planner** (`python/robotSimulator/algorithms/AStar.py`).
The arena is cut into `GAME_WIDTH // 250 × GAME_HEIGHT // 250` cells. A
square of radius `HIVE_RADIUS = 1` around every hive is blocked. Points map
to cells by Python's `round` (ties to even) and cells map back to points by
multiplying by 250. The search pops cells from the open set, closes them,
relaxes the radius-1 window around each, and rebuilds the path by following
parent links from the goal. `getMotion` uses that path as a stack.

- The map is a list of columns (`seq<seq<Node>>`) of `Node` values. A parent
  link is the parent's cell.
- `checkNeighbours` is specified by `AStarRelax.Relax`, a fold over the window
  that visits cells column by column, as the two `for` loops do. The methods
  `AStar.RelaxWindow`, `AStar.RelaxColumn`, `AStar.MarkColumn` and
  `AStar.MarkWindow` are the loops themselves, and the `AStar.AStar` class
  holds the planner's fields.
- Python's negative list indices are modelled. An index outside `-n..n-1`
  ends `run` with the outcome `IndexError`.

**The mission state machine** (`python/zeroLatency/Main2019.py`, the main
loop). Each cycle reads the clock and the game packet, then runs the branch
for `controller.state`:

- fetch a healthy hive;
- fetch a diseased hive;
- go home or to the enemy basket;
- turn;
- drive straight toward the target while a countdown runs near it.

The controller's predicates (EPS, NEAR, HIST, turned, closest hive, robot
alive, `stateChanged`) and the game snapshot are inputs to each cycle. The
controller calls the loop makes are recorded as `Action` events.
`Mission.Cycle` is the cycle as a function and `Mission.Run` is the whole
loop. `Mission.MainLoop.Step` and `Mission.MainLoop.Loop` are the imperative
loop, proved equal to them.

Two quirks of the source are kept as written:

- The straight leg assigns the module-level `state` on HIST and on countdown
  expiry (lines 202 and 207), not `controller.state`. The model keeps it in a
  `strayState` field and proves that `GetStraight` is never left.
- The diseased-hive leg calls `chassis.robotDie()` when no hive is left, then
  still consults EPS and changes state (lines 117-127). The source marks this
  branch with its own `# TODO tole ni uredu` ("this is not right") at line 118.

## Model

| member | source | states |
|---|---|---|
| AStarGrid.RoundDiv | python/robotSimulator/algorithms/AStar.py:159-160 | `round(a / d)` is the integer nearest to `a / d`, and the even one on a tie |
| AStarGrid.MapPointOfGamePoint | python/robotSimulator/algorithms/AStar.py:159-163 | `toMapPoint(toGamePoint(c)) == c` for every integer cell `c` |
| AStarGrid.GamePointOfMapPoint | python/robotSimulator/algorithms/AStar.py:159-163 | going from point to cell and back moves each coordinate by at most half a cell (125) |
| AStarGrid.PyIndex | python/robotSimulator/algorithms/AStar.py:91-92 | a Python index in `-n..n-1` selects the element at `i` or `i + n`, always a valid position; this is how the start and goal (lines 91-92) and a hive window off the grid (line 131) are indexed |
| AStarGrid.BordersInGrid | python/robotSimulator/algorithms/AStar.py:141-157 | for a cell in the grid, `findBorders` gives `0 <= startX <= x <= endX < width` (and the same in y), with `startX == max(0, x - r)` and `endX == min(width - 1, x + r)` |
| AStarGrid.WindowIsNeighbourhood | python/robotSimulator/algorithms/AStar.py:107-110 | the radius-1 window of a grid cell holds exactly the cells of the grid that differ from it by at most one in each coordinate |
| AStarGrid.Node.FCost | python/robotSimulator/algorithms/AStar.py:31-32 | the F cost is the sum of `gCost` and `hCost`, the key `__lt__` (lines 46-47) orders the heap by and `MinIndex` pops by |
| AStarGrid.Node.HasParent | python/robotSimulator/algorithms/AStar.py:34-35 | a node has a parent exactly when its parent link is set |
| AStarGrid.Node.IsClosed | python/robotSimulator/algorithms/AStar.py:37-38 | a node is closed exactly when its type is CLOSED |
| AStarGrid.Node.SetClosed | python/robotSimulator/algorithms/AStar.py:40-41 | a closed node is CLOSED and keeps its position, its costs and its parent |
| AStarGrid.ToMapPoint | python/robotSimulator/algorithms/AStar.py:159-160 | the cell of a game point is one whose game point (250 times the cell) lies at most half a cell (125) from it on each axis |
| AStarGrid.ToGamePoint | python/robotSimulator/algorithms/AStar.py:162-163 | the game point of a cell is a multiple of 250 on each axis, and dividing it by 250 gives the cell back |
| AStarGrid.Borders | python/robotSimulator/algorithms/AStar.py:141-157 | the window `findBorders(p, r)` always holds `p` and reaches at most `r` cells from it on each side |
| AStarGrid.NodeEqualsIsSamePosition | python/robotSimulator/algorithms/AStar.py:49-50 | `__eq__` (`Node.Equals`) compares coordinates only; two nodes of a well-formed map are `==` exactly when they are the same cell |
| AStarGrid.HitsIsSelected | python/robotSimulator/algorithms/AStar.py:129-131 | a range of Python indices `lo..hi` reaches cell `i` exactly when some index in it selects `i` |
| AStarGrid.CoversInGrid | python/robotSimulator/algorithms/AStar.py:125-127 | for a hive inside the grid, its blocked window is the square of radius `HIVE_RADIUS` around its map point, clipped to the grid |
| AStarGrid.InitialGridCells | python/robotSimulator/algorithms/AStar.py:120-131 | the cell at `[x][y]` of the initial map has coordinates `x, y`, no parent and zero costs; it is HIVE exactly when some hive's window covers it, and otherwise EMPTY |
| AStarRelax.Relax | python/robotSimulator/algorithms/AStar.py:105-118 | `checkNeighbours` as a fold over the window in visiting order; it keeps the map's shape, and `RelaxExact`, `RelaxFrame` and `RelaxPushed` state its effect |
| AStarRelax.RelaxFrame | python/robotSimulator/algorithms/AStar.py:105-118 | `checkNeighbours` changes only cells of the window that are neither HIVE nor closed. A cell it changes gets parent `current` and `hCost == cost(cell, end)`, and keeps its kind. Every pushed cell lies in the window and ends with parent `current` |
| AStarRelax.RelaxWf | python/robotSimulator/algorithms/AStar.py:105-118 | the relaxation keeps every cell's coordinates and keeps every parent inside the grid |
| AStarRelax.ColFoldExact | python/robotSimulator/algorithms/AStar.py:110-118 | the inner loop over one column updates exactly its eligible cells to parent `current`, `gCost = cost(current, node) + current.gCost`, `hCost = cost(node, end)`; it appends them to the open set in row order |
| AStarRelax.WinFoldExact | python/robotSimulator/algorithms/AStar.py:109-118 | the two loops update exactly the eligible cells of the window, as above, and push them in column-major order; eligibility is the same whether judged before the loops or when each cell is reached |
| AStarRelax.AgreesKeepsClosed | python/robotSimulator/algorithms/AStar.py:113-114 | the relaxation never changes the current (closed) cell or any closed cell, and every parent stays closed |
| AStarRelax.EligibleWinMembers | python/robotSimulator/algorithms/AStar.py:109-114 | a cell is in the eligible list exactly when it is in the window and is not HIVE, not closed, and has no parent or a parent dearer than `current` |
| AStarRelax.RelaxExact | python/robotSimulator/algorithms/AStar.py:105-118 | every cell ends as expected: relaxed when eligible and in the window, otherwise unchanged; the cells pushed are the eligible cells in visiting order |
| AStarRelax.RelaxPushed | python/robotSimulator/algorithms/AStar.py:113-118 | a cell is pushed exactly when it is in the window and eligible; in particular no HIVE or closed cell is ever pushed |
| AStarRelax.RelaxNothingEligible | python/robotSimulator/algorithms/AStar.py:105-118 | when no cell of the window is eligible, the map and the open set are unchanged |
| AStarSearch.SearchStarts | python/robotSimulator/algorithms/AStar.py:85-94 | the fresh map with the start pushed satisfies the search invariant |
| AStarSearch.TreeParentsClosed | python/robotSimulator/algorithms/AStar.py:113-115 | during the search every parent is a closed cell of the grid |
| AStarSearch.CloseKeepsTree | python/robotSimulator/algorithms/AStar.py:97-98 | closing a popped cell keeps the parent tree invariant; the start is then closed |
| AStarSearch.RelaxKeepsTree | python/robotSimulator/algorithms/AStar.py:103-118 | relaxing around a closed cell keeps the parent tree: each linked cell is a non-hive neighbour of its parent, with `gCost` equal to the parent's plus the step cost |
| AStarSearch.PopKeepsSearch | python/robotSimulator/algorithms/AStar.py:96-103 | popping any entry other than the goal, closing it and relaxing around it keeps the search invariant; the start's `gCost` does not change |
| AStarSearch.PopDecreases | python/robotSimulator/algorithms/AStar.py:96-103 | each pass of the loop removes a cell from the set of non-closed cells, or keeps that set and shortens the open list: the loop ends |
| AStarSearch.StaleChangesNothing | python/robotSimulator/algorithms/AStar.py:97-113 | relaxing around a cell that was already closed, such as a duplicate heap entry, changes neither the map nor the open set |
| AStarSearch.ParentCheaper | python/robotSimulator/algorithms/AStar.py:114-116 | with positive step costs, a parent's `gCost` is below its child's |
| AStarSearch.PathCells | python/robotSimulator/algorithms/AStar.py:133-139 | the cells `getPathA` visits from `p`: none exactly when `p` has no parent, otherwise `p` first |
| AStarSearch.PathCellsChain | python/robotSimulator/algorithms/AStar.py:133-139 | every listed cell has a parent and is followed in the list by that parent, and the start is never listed |
| AStarSearch.PathIsWalk | python/robotSimulator/algorithms/AStar.py:133-139 | the cells `getPathA` collects, reversed after the start, form a walk from the start to the cell. Each step of the walk goes to a neighbouring non-hive cell, and the cell's `gCost` is the start's plus the walk's cost |
| AStarSearch.NoWalkWhenExhausted | python/robotSimulator/algorithms/AStar.py:96-103 | if the open set empties before the goal is popped, no walk from the start reaches the goal |
| AStarSearch.HiveKindsOnceStarted | python/robotSimulator/algorithms/AStar.py:96-118 | once the start is closed, the HIVE nodes are exactly the cells some hive covers other than the start |
| AStarSearch.SearchStep | python/robotSimulator/algorithms/AStar.py:96-103 | one pass of the loop: popping the goal yields a walk whose cost is the goal's `gCost`; any other pop keeps the invariant and decreases the measure |
| AStar.CellOf | python/robotSimulator/algorithms/AStar.py:88-92 | a point whose rounded coordinates are valid Python indices selects a cell of the grid |
| AStar.MapCellsOfGamePoints | python/robotSimulator/algorithms/AStar.py:159-163 | mapping a list of cells to points and back gives the same cells |
| AStar.MinIndex | python/robotSimulator/algorithms/AStar.py:97 | `heappop` takes an entry of least current `F` cost, the first such entry |
| AStar.RelaxWindow | python/robotSimulator/algorithms/AStar.py:109-118 | the nested loops of `checkNeighbours` over a window compute the column-by-column fold `WinFold`, whose effect `RelaxExact` and `RelaxFrame` state |
| AStar.RelaxColumn | python/robotSimulator/algorithms/AStar.py:110-118 | the inner loop over one column computes `ColFold`: in row order, each eligible cell is relaxed and pushed |
| AStar.MarkColumn | python/robotSimulator/algorithms/AStar.py:130-131 | the inner marking loop succeeds exactly when both ends of the row range are valid Python indices; it then marks HIVE exactly the cells of that column that the range reaches |
| AStar.MarkWindow | python/robotSimulator/algorithms/AStar.py:129-131 | the two marking loops succeed exactly when all four window ends are valid Python indices; they then mark HIVE exactly the cells the two ranges reach, leaving the rest |
| AStar.HiveCellsUpTo | python/robotSimulator/algorithms/AStar.py:165-172 | the cells listed for columns `0..i-1` lie in the grid, in those columns, and are HIVE |
| AStar.ColumnHives | python/robotSimulator/algorithms/AStar.py:168-170 | the inner loop of `getHivePositions` over one column: the cells listed so far lie in that column, in the rows seen, and are HIVE |
| AStar.ColumnHivesMembers | python/robotSimulator/algorithms/AStar.py:168-170 | the cells listed for rows `0..j-1` of a column are exactly its HIVE cells there |
| AStar.ColumnHivesOrdered | python/robotSimulator/algorithms/AStar.py:168-170 | they are listed with rows strictly ascending |
| AStar.HiveCellsMembers | python/robotSimulator/algorithms/AStar.py:165-172 | `getHivePositions` lists exactly the HIVE cells of the map |
| AStar.HiveCellsOrdered | python/robotSimulator/algorithms/AStar.py:167-170 | they are listed column by column, rows ascending, without repetition |
| AStar.InitialHiveCells | python/robotSimulator/algorithms/AStar.py:165-172 | on a freshly initialised map the listed cells are exactly those some hive's window covers |
| AStar.AStar.constructor | python/robotSimulator/algorithms/AStar.py:56-66 | the map shape is the game size divided by 250; the open set, map, start and end are empty |
| AStar.AStar.FindBorders | python/robotSimulator/algorithms/AStar.py:141-157 | the loop clips the window step by step and returns `Borders`, whose bounds `BordersInGrid` states |
| AStar.AStar.InitNodeMap | python/robotSimulator/algorithms/AStar.py:120-131 | it succeeds exactly when every hive's window ends are valid Python indices, and then leaves the initial map |
| AStar.AStar.CheckNeighbours | python/robotSimulator/algorithms/AStar.py:105-118 | the new map is `Relax`'s and the open set grows by exactly the cells it pushes |
| AStar.AStar.GetPathA | python/robotSimulator/algorithms/AStar.py:133-139 | the path is the game points of the parent chain from the given cell, and no point of it maps back to the start |
| AStar.AStar.GetHivePositions | python/robotSimulator/algorithms/AStar.py:165-172 | it returns the game points of the HIVE cells in column-major order |
| AStar.AStar.GetMotion | python/robotSimulator/algorithms/AStar.py:75-81 | a non-empty path loses exactly its last point, which is returned; an empty path gives `(-1, -1)` and stays empty |
| AStar.AStar.Run | python/robotSimulator/algorithms/AStar.py:83-103 | `IndexError` exactly when a hive window, the start or the end is not indexable. A found path is a walk from start to end avoiding hives, its cost is the goal's `gCost`, and none of its points is the start's cell. `NoPath` (the `None` result) means no such walk exists, and the open set is then empty. Unless `IndexError`, `start` and `end` are left set to the start and goal cells, and the HIVE cells are exactly the hive-covered cells other than the start, which `setClosed` has turned CLOSED |
| Mission.Cycle | python/zeroLatency/Main2019.py:73-216 | a cycle calls the controller exactly when the packet is well formed, and then `update` first; a completed cycle sets `timeOld` to the clock; a `NameError` arises only in `GET_STRAIGHT` while the game is on and the robot alive |
| Mission.HealthyLeg | python/zeroLatency/Main2019.py:95-109 | the leg always completes; the new state is `GET_DISEASED_HIVE`, `GET_TURN` or `HOME`; only the state and the near flag change; the motors run exactly when a healthy hive exists |
| Mission.DiseasedLeg | python/zeroLatency/Main2019.py:114-127 | the leg completes and ends with `runMotors`; the new state is `GET_TURN` or `ENEMY_HOME`; only the state and the near flag change; `chassis.robotDie()` is called exactly when no diseased hive is left |
| Mission.BasketLeg | python/zeroLatency/Main2019.py:132-161 | the global target becomes the shifted basket corner and is sent to the controller; the state becomes `GET_HEALTHY_HIVE` at EPS and the basket's turn state otherwise; nothing else but the near flag changes |
| Mission.TurnLeg | python/zeroLatency/Main2019.py:166-177 | the leg completes and ends with `runMotors`; only the state changes, and only to `GET_STRAIGHT`; the turn PID is reset exactly when `stateChanged` |
| Mission.StraightLeg | python/zeroLatency/Main2019.py:182-211 | a `NameError` needs the countdown unbound, no state change and no rising edge of NEAR; a completed leg leaves `controller.state`, the target and the clock alone, makes the near flag this cycle's NEAR, and leaves the countdown bound unless HIST held |
| Mission.Run | python/zeroLatency/Main2019.py:71-226 | a run still going when the inputs end never saw DOWN pressed |
| Mission.BadPacketKeepsMemory | python/zeroLatency/Main2019.py:73-80 | a malformed packet leaves state, target, countdown and near flag unchanged and makes no controller call |
| Mission.InactiveBrakes | python/zeroLatency/Main2019.py:90-223 | with the game off or the robot not alive, the only calls are `update` and `breakMotors`, and the memory is unchanged |
| Mission.HealthyHiveStep | python/zeroLatency/Main2019.py:95-109 | with no healthy hive the state becomes `GET_DISEASED_HIVE` and the motors are not run; otherwise the hive is the target and the state becomes `GET_TURN` (near flag cleared) or `HOME` by EPS |
| Mission.DiseasedHiveStep | python/zeroLatency/Main2019.py:114-127 | `chassis.robotDie()` is called exactly when no diseased hive is left, and a target is set exactly when one is; either way the state becomes `GET_TURN` or `ENEMY_HOME` by EPS, and the global target is untouched |
| Mission.BasketStep | python/zeroLatency/Main2019.py:132-161 | the target becomes the basket's `topRight2` shifted by `(+270, -515)` and is sent to the controller; the state becomes the basket's turn state or `GET_HEALTHY_HIVE` by EPS |
| Mission.TurnStep | python/zeroLatency/Main2019.py:166-177 | the turn PID is reset exactly when `stateChanged`; turned leads to `GET_STRAIGHT`, otherwise the state stays and the turn PID is updated |
| Mission.StraightStep | python/zeroLatency/Main2019.py:182-211 | the countdown is re-armed on `stateChanged` and on the rising edge of NEAR, and runs down by the loop time while NEAR holds. The near flag becomes this cycle's NEAR. `controller.state` stays `GET_STRAIGHT`: HIST or expiry only zero the speed and write the stray `state` |
| Mission.DeliveryTurnStep | python/zeroLatency/Main2019.py:95-216 | `HOME_TURN` and `ENEMY_HOME_TURN` have no branch: the motors run and the memory is unchanged |
| Mission.CycleKeepsTimerInv | python/zeroLatency/Main2019.py:185-197 | the near flag is set only when the countdown is bound, and each cycle keeps this |
| Mission.NameErrorExactly | python/zeroLatency/Main2019.py:185-204 | a cycle reads the unbound `timeNearTarget` exactly in the straight leg with no state change, no NEAR and no HIST before the countdown was ever armed |
| Mission.RunKeepsTimerInv | python/zeroLatency/Main2019.py:71-216 | a whole run keeps the near-flag invariant |
| Mission.CycleKeepsAbsorbing | python/zeroLatency/Main2019.py:182-211 | one cycle never leaves `GET_STRAIGHT`, `HOME_TURN` or `ENEMY_HOME_TURN` |
| Mission.RunStaysAbsorbed | python/zeroLatency/Main2019.py:71-216 | once in one of those states, the mission stays in it for the rest of the run, whatever the inputs |
| Mission.CycleNeverRobotDie | python/zeroLatency/Main2019.py:73-223 | no cycle calls `controller.robotDie()` |
| Mission.LegNeverRobotDie | python/zeroLatency/Main2019.py:95-216 | no branch on `controller.state` calls `controller.robotDie()` |
| Mission.RobotDieOnlyAtStop | python/zeroLatency/Main2019.py:71-226 | `controller.robotDie()` is called exactly when the loop ends on the DOWN button, and then as the last call |
| Mission.MainLoop.constructor | python/zeroLatency/Main2019.py:57-62 | the loop starts in `GET_HEALTHY_HIVE` with no target, the near flag clear and the countdown unbound |
| Mission.MainLoop.FetchHealthy | python/zeroLatency/Main2019.py:95-109 | the imperative healthy-hive leg leaves the memory and calls of `HealthyLeg` |
| Mission.MainLoop.FetchDiseased | python/zeroLatency/Main2019.py:114-127 | the imperative diseased-hive leg leaves the memory and calls of `DiseasedLeg` |
| Mission.MainLoop.GoToBasket | python/zeroLatency/Main2019.py:132-161 | the imperative basket legs leave the memory and calls of `BasketLeg` |
| Mission.MainLoop.Turn | python/zeroLatency/Main2019.py:166-177 | the imperative turn leg leaves the memory and calls of `TurnLeg` |
| Mission.MainLoop.DriveStraight | python/zeroLatency/Main2019.py:182-211 | the imperative straight leg crashes, calls and leaves the memory as `StraightLeg` |
| Mission.MainLoop.Step | python/zeroLatency/Main2019.py:73-216 | one pass of the loop body updates the fields and makes the calls of `Cycle`, and crashes exactly when `Cycle` does |
| Mission.MainLoop.Loop | python/zeroLatency/Main2019.py:71-226 | the loop over a sequence of cycles makes the calls of `Run` and ends as it does |

## Left out

- The float Euclidean distance (`euclidean`, `Node.cost`) is not modelled. The cost is an abstract function from two cells to a natural number. The loop of `run` ends whatever the cost (it is measured by the non-closed cells and the open list). The loop of `getPathA` also always ends in the source, because every parent was closed before its child; the model measures it by `gCost` instead, which needs a positive cost between distinct cells. That parents are cheaper than their children needs the same assumption, which the model makes.
- `heapq` ordering is not modelled. The open set is a sequence, and the correctness lemmas hold for any popped entry. `MinIndex` describes the pop by current F cost, with ties taken in list order rather than heap order.
- AStar.AStar.Run: its contract does not state that the path found is a cheapest one. The source does not keep that promise either, for two reasons. Heap keys change after pushing. And the test at line 114 compares the old parent's `gCost` with the current node's, not the tentative new `gCost` with the old one, so a cell can be re-parented onto a dearer path.
- The timing, `print` and hard-coded `run(..., (2800, 1000))` call in `AStar.__init__` (lines 69-73) are glue and are left out; the constructor leaves `path` empty.
- `run` returns its result; only `__init__` stores it, with `self.path = self.run(...)` (line 71), and that call is left out. The model returns an `Outcome`. When no path exists `run` returns `None`, and as stored in `self.path` that makes `len(self.path)` in `getMotion` (line 77) raise `TypeError`; the model's `path` is always a list.
- After an `IndexError` in `initNodeMap`, the model leaves the partly marked map but specifies only the error.
- The map is a list of value cells rather than of shared node objects. Parent links are cell positions, which is what the shared objects amount to, because every node lives in the map.
- The game dimensions and hive positions come from the `Game` object, which is not part of this model; they are parameters.
- Game coordinates are integers. For non-integer positions `round(x / 250)` follows the same nearest, ties-to-even rule, which is not modelled.
- `Board.py`, `RobotSimulator.py` and `PidController.py` (drawing, wiring, PID gains) are not part of this model.
- Main2019.py lines 19-51 (sensor and button setup, team tags) and the network request are I/O. Whether the packet was well formed is an input.
- The controller's internals (`update`, PID updates, motors, the closest-hive search, the EPS/NEAR/HIST tests, `stateChanged`) are not shown. They are inputs and recorded calls.
- The `print` on a malformed packet (Main2019.py line 80) is output and is left out. The model assumes the controller never writes `controller.state` itself; `RunStaysAbsorbed` depends on that.
- `atTargetNEAR()` is called up to three times in one straight cycle; the model assumes it gives one answer per cycle.
- `time()` is a float; the clock is an integer number of milliseconds, and `TIMER_NEAR_TARGET` an integer parameter.
- `target` aliases `gameData.homeBasket.topRight2`, which the source shifts in place. Because `gameData` is rebuilt from every packet, this is modelled as a fresh shifted point.
- After a `NameError` the program stops; the model reports the crash and the calls made before it, but not the memory left behind.
- The loop runs until DOWN is pressed, which may be never; a run is modelled over a finite sequence of cycles, ending `Running` when the cycles run out.
