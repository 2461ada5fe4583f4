# Maze-Router: a Dafny model of the Lee router

This project models the core of the Maze-Router repository, a Lee maze router
for printed-circuit nets on a 2-D grid.

## What is modelled

- **Lee wave and backtrack.** `Search` models the wave expansion: a
  multi-source breadth-first search from every cell of the routing tree over
  4-neighbour moves. It also models the backtrack from the target along cells
  whose label falls by one at each step.
- **The greedy loop.** `Router` models the loop both routers share. In each
  round it runs one wave per unrouted pin and commits the path to the pin with
  the strictly smallest distance. It then grows the tree by that path, writes 1
  on the path's non-pin cells and removes the pin.
- **Top-level router.** `Lee` is `lee_router` of `algorithm.py`:
  - the tree starts at the first pin;
  - every non-zero cell that is not a pin is a wall;
  - the caller's grid is written;
  - a stuck run returns the tree's cells.
- **Visualizer router.** `CornerLee` is `lee_router` of `Visualizer/algorithm.py`:
  - the tree starts at the pin nearest a grid corner (`get_source_pin`);
  - only non-pin cells holding -1 are walls;
  - the caller's grid is left alone;
  - a stuck run returns `[]`.
- **Per-layer bookkeeping.** `FuncWrapper` models `Visualizer/funcWrapper.py`:
  - it filters each net down to the pins on the displayed layer;
  - it routes the nets one after another on one logical grid;
  - every path cell and every pin of a routed net becomes an obstacle for the
    nets after it.
- **Input readers.** `FileHandling` models both `input_file` readers:
  - header parsing ("RxC");
  - obstacle and net line classification;
  - multi-layer detection;
  - grid construction and obstacle placement, with Python's negative indices.

  The `eval` of tuple text is not modelled. Each `Line` carries the decoded
  obstacle and pin tuples alongside its raw text.
- **Python string operations.** `Text` models `strip`, `lower`/`upper`,
  `startswith`, `split` on one character and `int`.
- **Name maps.** `Utils` models the two name-to-number maps of
  `Visualizer/utils.py`.

Python's set iteration order is the one thing the routers leave open. It shows
in three places: the loop over unrouted pins, the order the tree's cells seed
the wave's queue (`for cell in routing_tree`), and `list(routing_tree)`. It is modelled as an
arbitrary choice (`:|`), and every property holds for every choice.

The shortest distance is the level predicate `Search.Within`: `x` is reachable
from the tree in at most `k` moves through open cells. `Search.Exact` is
distance exactly `d`, and `Search.Unreachable` means no level reaches `x`.
Walks (`Search.IsWalk`) are tied to levels by `Search.WalkWithin`.

## Model

| member | source | states |
|---|---|---|
| Search.Propagate | algorithm.py:19-49 | Each label the wave writes is the cell's exact shortest move count from the tree through open cells. When the target is found, every cell closer than the target is labelled. When it is not found, the target is a tree cell or no walk of open cells reaches it. |
| Search.Backtrack | algorithm.py:54-68 | The backtracked path has `distance[target] + 1` cells. It starts in the tree, moves between 4-neighbours through open cells and ends at the target. No cell after the first is in the tree. |
| Search.WalkWithin | algorithm.py:38-45 | A walk of `n` moves from the tree reaches its end within `n` levels of the wave. |
| Search.ExactIsShortest | algorithm.py:44 | A cell at distance `d` is reached by no walk shorter than `d` moves, so the wave's label is a minimum. |
| Search.ExactLeast | algorithm.py:41-45 | A cell first reached at level `d` is reached at no level below `d`. |
| Search.UnreachableNoWalk | algorithm.py:34-49 | A target the wave never reaches has no walk of open cells from the tree. |
| Router.Choose | algorithm.py:13-69 | A pin is picked only with a walk to it of exact shortest length, and no other unrouted pin is strictly closer. No pick means every unrouted pin is in the tree or unreachable. |
| Router.MarkPath | algorithm.py:79-81 | Every non-pin cell of the path is 1 afterwards. Every other cell keeps its value. |
| Router.Grow | algorithm.py:13-83 | Every committed path was a nearest connection when chosen. The tree is the source plus the committed paths, and each commit removes exactly its pin, so there are at most `len(pins[1:])` rounds. The run is complete exactly when nothing is pending. A stuck run leaves only pins that are the source or unreachable. |
| Router.TreeOfAppend | algorithm.py:76-77 | Committing a path adds exactly its cells to the tree. |
| Router.PendingAppend | algorithm.py:83 | Committing a path removes exactly its end pin from the unrouted pins. |
| Router.RunStartsAtSource | algorithm.py:54-69 | The first committed path starts at the source. |
| Router.RunCovers | algorithm.py:74-77 | The concatenated paths of a complete run start at the source and pass every pin that was pending. |
| Router.SourceStaysPending | Visualizer/algorithm.py:40-43 | If the source is itself an unrouted pin, it stays unrouted for the whole run. |
| Lee.Enumerate | algorithm.py:72 | `list(routing_tree)` lists every tree cell exactly once. |
| Lee.OnlyFreeCellsMarked | algorithm.py:21-24 | The router changes only cells that held 0 and are not pins, and each becomes 1. Pins and obstacles are untouched. |
| Lee.Route | algorithm.py:4-85 | With fewer than two pins it returns `[]` and the grid is untouched. A complete run returns the committed paths in commit order, and they pass every pin. A stuck run returns each tree cell once, and every pin left over is the first pin or unreachable. Returned cells are inside the grid and are pins or free cells. The grid gains 1 exactly on returned non-pin cells. |
| CornerLee.CornerDistIsMin | Visualizer/algorithm.py:17-18 | A pin's corner distance is attained at some corner and is at most its distance to every corner. |
| CornerLee.ScanPinsSpec | Visualizer/algorithm.py:16-21 | The pin scan keeps its start when no pin beats it. Otherwise it ends on the first pin with the smallest corner distance. |
| CornerLee.SourcePinSpec | Visualizer/algorithm.py:4-23 | The source pin is `pins[k]` for the first `k` whose corner distance is the smallest, because the comparison is strict. |
| CornerLee.SourcePinIsPin | Visualizer/algorithm.py:12-23 | The source pin is one of the pins. |
| CornerLee.Route | Visualizer/algorithm.py:26-116 | It follows the greedy rule from the corner pin with `pins[1:]` pending. It returns non-empty exactly when the run completes, and then the result passes every pin. A stuck run returns `[]`, and every leftover pin is the source or unreachable. Whenever the corner pin is not `pins[0]`, the result is `[]`. |
| CornerLee.SourcePinDefect | Visualizer/algorithm.py:40-43 | Pins (2,2) then (0,0) on an empty 4 x 4 grid: the corner pin is (0,0), yet (2,2) is four open moves away from it. |
| CornerLee.RouteFixed | Visualizer/algorithm.py:40-43 | With every pin but the corner pin pending, a non-empty result starts at the corner pin and passes every pin. `[]` means all pins are the corner pin or some pin cannot be reached from it at all. |
| FuncWrapper.OnLayer | Visualizer/funcWrapper.py:49 | A cell is in the filtered net exactly when the net has a pin at that row and column on the layer. |
| FuncWrapper.OnLayerAppend | Visualizer/funcWrapper.py:49 | Filtering keeps the relative order of a net's pins. |
| FuncWrapper.FilterNets | Visualizer/funcWrapper.py:43-54 | Every kept net is non-empty and is the filter of some input net. Every net with a pin on the layer is kept. |
| FuncWrapper.FilterNetsAppend | Visualizer/funcWrapper.py:46-52 | The kept nets appear in input order. |
| FuncWrapper.Paint | Visualizer/funcWrapper.py:31-37 | The given cells get the value and every other cell keeps its value. |
| FuncWrapper.RouteNet | Visualizer/funcWrapper.py:25-39 | The net's cells are what `lee_router` returns for the net on the current logical grid (`Lee.Routed`), with the paths it committed. Afterwards the logical grid is the input grid with every path cell and pin so far set to -1. The net's path uses only its own pins and cells that were free and unclaimed. |
| FuncWrapper.RouteAll | Visualizer/funcWrapper.py:24-39 | Nets are routed in list order. The `k`-th route is what `lee_router` returns for the `k`-th net on the grid in which the cells claimed by the nets before it are -1. Pins are appended in net order. No path runs over a cell an earlier net claimed or one that was not free, except the net's own pins. |
| FuncWrapper.AppendPins | Visualizer/funcWrapper.py:36-39 | Every pin of every routed net is appended to the pin list, net by net and in net order. |
| FuncWrapper.UpdateGrid | Visualizer/funcWrapper.py:16-39 | `update_grid` routes the filtered nets of the displayed layer in order on one logical grid. Each route is what `lee_router` returns for its net on the layer with the earlier nets' cells and pins set to -1. The `RouteAll` guarantees hold for the filtered nets. |
| Text.StripSlice | file_handling.py:9 | `strip` returns a contiguous slice whose removed ends are all whitespace. |
| Text.SplitJoin | file_handling.py:9 | Joining the pieces of `split` with the separator gives the string back. |
| Text.SplitPieces | file_handling.py:9 | No piece of `split` holds the separator. |
| Text.SplitTwo | file_handling.py:9 | Two separator-free words joined by the separator split back into exactly those two. |
| Text.ParseRejectsLetter | Visualizer/utils.py:23 | `int` raises on every string that contains an ASCII letter. |
| Text.ParseShow | Visualizer/utils.py:23 | `int(str(n)) == n` for every integer, with no digit limit (see `Text.ParseInt` under Left out). |
| Utils.LayerNameToInt | Visualizer/utils.py:4-16 | The result is always -1, 0 or 1. It is 1 exactly for "Layer 1" and -1 exactly for "Combined". |
| Utils.LayerNameRoundTrip | Visualizer/utils.py:4-16 | Every layer number survives naming and mapping back. |
| Utils.TestcaseNumbers | Visualizer/utils.py:18-23 | The decimal name of any integer maps to that integer, with no digit limit (see `Text.ParseInt` under Left out). |
| Utils.TestcaseRejectsWords | Visualizer/utils.py:18-23 | Any name other than "User Input" that contains an ASCII letter is not a test-case number, because `int` raises on it. |
| FileHandling.ObsLineCaseBlind | file_handling.py:13 | Changing a line's case does not change whether it is an obstacle line. |
| FileHandling.NetLineCaseBlind | file_handling.py:21 | Changing a line's case does not change whether it is a net line. |
| FileHandling.ObsNotNet | Visualizer/file_handling.py:13-20 | No line is both an obstacle line and a net line. |
| FileHandling.Obstacles | file_handling.py:12-17 | An obstacle is collected exactly when some obstacle line carries it. |
| FileHandling.ObstaclesAppend | file_handling.py:12-17 | Obstacles are collected in file order. |
| FileHandling.NetList | Visualizer/file_handling.py:19-25 | A net is collected exactly when some net line carries it. |
| FileHandling.NetListAppend | Visualizer/file_handling.py:19-25 | Nets are collected in file order. |
| FileHandling.MultiLayer | file_handling.py:29-32 | `multiLayer` is true exactly when some pin of some net is on layer 1. |
| FileHandling.HeaderRoundTrip | file_handling.py:9 | A header `str(rows) + "x" + str(cols)`, with either case of x, reads back as `(rows, cols)`. |
| FileHandling.HeaderNeedsX | Visualizer/file_handling.py:28 | A header with no x in either case is rejected. |
| FileHandling.PyIndex | file_handling.py:48 | A Python index is accepted exactly in `-n .. n-1`, and then names position `i mod n`. |
| FileHandling.PlaceObstaclesSpec | Visualizer/file_handling.py:34-35 | Placement succeeds exactly when every obstacle is on the grid. The grid then keeps its shape, obstacle cells hold -1 and all other cells keep their value. A failure names the first obstacle off the grid. |
| FileHandling.LayersSpec | file_handling.py:36-53 | The layer grids are built exactly when every obstacle is on the grid. There is one grid with every obstacle, or two with the first `len(obs)//2` obstacles on layer 0 and the rest on layer 1. |
| FileHandling.InputFileAccepts | file_handling.py:1-55 | The top-level reader accepts exactly the files with a two-integer header, net lines with a body and obstacles on the grid. It returns the nets in file order. |
| FileHandling.InputFileOneLayer | file_handling.py:51-53 | Without a layer-1 pin there is one grid of the header's shape in which exactly the obstacle cells hold -1 and the rest hold 0. |
| FileHandling.InputFileTwoLayers | file_handling.py:42-50 | With a layer-1 pin there are two grids of the header's shape. The first half of the obstacles is marked on the first grid and the rest on the second. |
| FileHandling.InputFileSingleSpec | Visualizer/file_handling.py:1-36 | The visualizer's reader accepts the same files. It returns one grid in which exactly the obstacle cells hold -1, and the nets in file order. |
| FileHandling.ReadersAgree | Visualizer/file_handling.py:1-36 | Both readers accept the same files, and on a single-layer file they return the same grid and nets. |
| FileHandling.ReportOrder | Visualizer/file_handling.py:19-28 | The visualizer's reader reads the nets before the header. On a file with a bad header and a bodiless net line, it reports the net line while the top-level reader reports the header. |

## Findings

| source | as written | input that shows it | evidently intended | confidence | as-written member | corrected member |
|---|---|---|---|---|---|---|
| Visualizer/algorithm.py:40-43 | The tree is seeded with the corner pin, but the unrouted set is `pins[1:]`. When the corner pin is not `pins[0]`, it is unrouted and already in the tree. The wave never "finds" a tree cell, so the loop ends with `[]`. | pins `[(2,2), (0,0)]` on an empty 4 x 4 grid: the corner pin is (0,0), (2,2) is four moves from it, and the result is `[]`. | The unrouted set is every pin other than the corner pin. | not executed | CornerLee.Route, CornerLee.SourcePinDefect | CornerLee.RouteFixed |

## Left out

- File I/O and `eval`:
  - `open`/`readlines` and the `eval` of obstacle and net tuple text are not modelled. A `Line` carries the decoded tuples, and their decoding errors are not modelled.
  - On an obstacle line written in lower case, `split('OBS')` is case-sensitive, so the whole line goes to `eval`. That outcome is part of the decoding and is left out.
  - Errors from unpacking tuples of the wrong size are left out too.
- Unicode in `Text`:
  - `lower`/`upper` change ASCII letters only.
  - `int` accepts ASCII digits only.
  - Python applies the full Unicode case and digit tables. The files this program reads are ASCII.
- Out-of-grid source pins:
  - A first pin (top-level router) or corner pin (visualizer) outside the grid makes numpy raise or wrap a negative index. Both routers require it inside the grid.
  - In the routers themselves, other pins may lie anywhere: they are simply unreachable, as in the source.
- FuncWrapper.UpdateGrid: requires every pin on the displayed layer to lie inside the grid (likewise `RouteAll` and `RouteNet`). In the source, `logical_grid[x,y] = -1` (Visualizer/funcWrapper.py:37) raises `IndexError` for a pin past the far edge and wraps a negative coordinate onto the last row or column. Neither outcome is modelled.
- FileHandling.MultiLayer: every pin is modelled as a `(layer, row, col)` triple. The source tests `tup[0] == 1` on whatever tuple `eval` returns (file_handling.py:31). So a file written with `(row, col)` pins would count as two-layer as soon as a pin sits in row 1, and its obstacles would be split in half. Two-element pin tuples are not modelled.
- Text.ParseInt: no limit on the number of digits. CPython 3.10.7 and later raise `ValueError` when converting between `int` and `str` with more than 4300 digits, so `Text.ParseShow` and `Utils.TestcaseNumbers` hold there only up to that length.
- Validation printout: the visualizer's pin check only prints a message (Visualizer/algorithm.py:46-49). Printing is not modelled, and routing proceeds as in the source.
- Outside the core:
  - `main` and the demo in algorithm.py;
  - `testCaseGenerator.py` (random generation and file writing);
  - `visualizer.py` (PyQt6/vispy display);
  - `main.py`.
- `update_grid` display details:
  - the visual grid and its colour constants (50, 320, 512);
  - the float32 conversion, which is exact for these small integers;
  - `init_testcase` and its fixture grids, including the reset of `self.pins`;
  - the UI state `multiLayer`;
  - `update_grid_3d`, which the visualizer calls but no file defines.
- Import resolution: `funcWrapper.py` imports `algorithm`, which resolves to the top-level `algorithm.py` when the program starts from the repository root. `FuncWrapper` therefore routes with `Lee.Route`.
- Returned types: the visualizer router returns a list of tuples and works on a numpy copy. Dafny values are immutable, so `CornerLee.Route` does not return a grid, and the caller's grid is unchanged by construction.
- Lee.Route: the order of `list(routing_tree)` on a stuck run is Python's set order. The contract fixes the cells, each listed once, but not their order.
