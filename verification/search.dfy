/**
  One Lee search: the multi-source breadth-first wave from every cell of the
  routing tree towards one target pin, and the backtrack that reads a shortest
  path off the wave.

  Distances are proved against `Within`, an independent level-set definition of
  "at most k moves from the tree through passable cells".
 */
module Search {
  import opened Grids

  /** Which non-pin cells a search treats as walls. */
  datatype Rule =
    | NonZero       // every non-zero cell that is not a pin of the net (top-level router)
    | ObstacleOnly  // only -1 cells that are not pins of the net (visualizer router)

  /** The grid a search runs on, its shape, the pins of the net being routed and the blocking rule. */
  datatype Board = Board(grid: Grid, rows: nat, cols: nat, pins: seq<Cell>, rule: Rule)

  predicate WellFormed(b: Board) {
    IsRect(b.grid, b.rows, b.cols)
  }

  /** `x` starts out as a wall (-1 in the distance grid). Pins of the net are never walls. */
  predicate Blocked(b: Board, x: Cell) {
    x !in b.pins &&
    match b.rule
    case NonZero => At(b.grid, x) != 0
    case ObstacleOnly => At(b.grid, x) == -1
  }

  /** `x` is a grid cell the wave may enter. */
  predicate Open(b: Board, x: Cell) {
    Inside(x, b.rows, b.cols) && !Blocked(b, x)
  }

  predicate InGrid(b: Board, cells: set<Cell>) {
    forall x {:trigger x in cells} :: x in cells ==> Inside(x, b.rows, b.cols)
  }

  /** `x` can be reached from the tree in at most `k` 4-neighbour moves whose
      cells are all open; tree cells are at distance 0. */
  predicate Within(b: Board, tree: set<Cell>, x: Cell, k: nat)
    decreases k
  {
    if k == 0 then x in tree
    else
      Within(b, tree, x, k - 1) ||
      (Open(b, x) && exists i {:trigger Within(b, tree, Neighbor(x, i), k - 1)} :: 0 <= i < 4 && Within(b, tree, Neighbor(x, i), k - 1))
  }

  /** The shortest distance from the tree to `x` is exactly `d`. */
  predicate Exact(b: Board, tree: set<Cell>, x: Cell, d: nat) {
    Within(b, tree, x, d) && (d == 0 || !Within(b, tree, x, d - 1))
  }

  /** No number of moves reaches `x` from the tree. */
  ghost predicate Unreachable(b: Board, tree: set<Cell>, x: Cell) {
    forall k: nat :: !Within(b, tree, x, k)
  }

  /** A walk that leaves the tree and moves between 4-neighbours through cells
      that are open or already in the tree. */
  predicate IsWalk(b: Board, tree: set<Cell>, w: seq<Cell>) {
    |w| >= 1 && w[0] in tree &&
    forall i :: 1 <= i < |w| ==> Adjacent(w[i - 1], w[i]) && (w[i] in tree || Open(b, w[i]))
  }

  lemma {:induction false} WithinMono(b: Board, tree: set<Cell>, x: Cell, j: nat, k: nat)
    requires j <= k && Within(b, tree, x, j)
    ensures Within(b, tree, x, k)
    decreases k - j
  {
    if j < k {
      WithinMono(b, tree, x, j, k - 1);
    }
  }

  lemma {:induction false} WithinInside(b: Board, tree: set<Cell>, x: Cell, k: nat)
    requires InGrid(b, tree) && Within(b, tree, x, k)
    ensures Inside(x, b.rows, b.cols)
    decreases k
  {
    if k > 0 && Within(b, tree, x, k - 1) {
      WithinInside(b, tree, x, k - 1);
    }
  }

  /** One more move from a cell within `k` reaches an open neighbour within `k + 1`. */
  lemma WithinStep(b: Board, tree: set<Cell>, x: Cell, i: int, k: nat)
    requires 0 <= i < 4 && Open(b, x) && Within(b, tree, Neighbor(x, i), k)
    ensures Within(b, tree, x, k + 1)
  {
    if i == 0 {
    } else if i == 1 {
    } else if i == 2 {
    } else {
    }
  }

  /** A cell first reached at `k + 1` is open and has a neighbour within `k`. */
  lemma WithinSplit(b: Board, tree: set<Cell>, x: Cell, k: nat)
    requires Within(b, tree, x, k + 1) && !Within(b, tree, x, k)
    ensures Open(b, x)
    ensures exists i :: 0 <= i < 4 && Within(b, tree, Neighbor(x, i), k)
  {
  }

  /** A cell at exact distance `d > 0` is outside the tree and open. */
  lemma ExactAway(b: Board, tree: set<Cell>, x: Cell, d: nat)
    requires d >= 1 && Exact(b, tree, x, d)
    ensures x !in tree && Open(b, x)
  {
    if x in tree {
      WithinMono(b, tree, x, 0, d - 1);
    }
    WithinSplit(b, tree, x, d - 1);
  }

  /** An exact distance is at most any bound the cell is within. */
  lemma ExactLeast(b: Board, tree: set<Cell>, x: Cell, d: nat, k: nat)
    requires Exact(b, tree, x, d) && Within(b, tree, x, k)
    ensures d <= k
  {
    if k < d {
      WithinMono(b, tree, x, k, d - 1);
    }
  }

  /** Every walk of `n` cells from the tree ends within `n - 1` moves. */
  lemma {:induction false} WalkWithin(b: Board, tree: set<Cell>, w: seq<Cell>)
    requires IsWalk(b, tree, w)
    ensures Within(b, tree, Last(w), |w| - 1)
    decreases |w|
  {
    if |w| > 1 {
      var w' := w[..|w| - 1];
      assert IsWalk(b, tree, w');
      WalkWithin(b, tree, w');
      var x := Last(w);
      var p := Last(w');
      assert Adjacent(p, x);
      if x in tree {
        WithinMono(b, tree, x, 0, |w| - 1);
      } else {
        AdjacentIsNeighbor(x, p);
        var i :| 0 <= i < 4 && p == Neighbor(x, i);
        WithinStep(b, tree, x, i, |w| - 2);
      }
    }
  }

  /** A target at exact distance `d` is the end of no walk shorter than `d + 1` cells. */
  lemma ExactIsShortest(b: Board, tree: set<Cell>, x: Cell, d: nat, w: seq<Cell>)
    requires Exact(b, tree, x, d) && IsWalk(b, tree, w) && Last(w) == x
    ensures |w| >= d + 1
  {
    WalkWithin(b, tree, w);
    if |w| < d + 1 {
      WithinMono(b, tree, x, |w| - 1, d - 1);
    }
  }

  /** An unreachable cell ends no walk. */
  lemma UnreachableNoWalk(b: Board, tree: set<Cell>, x: Cell, w: seq<Cell>)
    requires Unreachable(b, tree, x) && IsWalk(b, tree, w)
    ensures Last(w) != x
  {
    WalkWithin(b, tree, w);
  }

  // ---------------------------------------------------------------------------
  // The distance grid
  // ---------------------------------------------------------------------------

  /** The initial distance label: 0 on the tree, -1 on a wall, -2 (unvisited) elsewhere. */
  function Label0(b: Board, tree: set<Cell>, x: Cell): int {
    if x in tree then 0 else if Blocked(b, x) then -1 else -2
  }

  /** The distance grid before the wave starts. */
  function InitialDistances(b: Board, tree: set<Cell>): (d: Grid)
    ensures IsRect(d, b.rows, b.cols)
    ensures forall x {:trigger At(d, x)} :: Inside(x, b.rows, b.cols) ==> At(d, x) == Label0(b, tree, x)
  {
    seq(b.rows, r => seq(b.cols, c => Label0(b, tree, Cell(r, c))))
  }

  /** If `x` is labelled, its label is its exact distance from the tree. */
  ghost predicate Labelled(b: Board, tree: set<Cell>, dist: Grid, x: Cell) {
    Inside(x, b.rows, b.cols) && At(dist, x) >= 0 ==> Exact(b, tree, x, At(dist, x))
  }

  /** Every labelled cell carries its exact distance from the tree. (The trigger
      is `Labelled` itself, so proofs name the cells they need.) */
  ghost predicate Sound(b: Board, tree: set<Cell>, dist: Grid) {
    forall x {:trigger Labelled(b, tree, dist, x)} :: Labelled(b, tree, dist, x)
  }

  /** Every cell within `level` moves of the tree is labelled. */
  ghost predicate Complete(b: Board, tree: set<Cell>, dist: Grid, level: nat) {
    forall x {:trigger Within(b, tree, x, level)} :: Within(b, tree, x, level) ==> Inside(x, b.rows, b.cols) && At(dist, x) >= 0
  }

  /** Labels only ever change from "unvisited" to a positive distance. */
  ghost predicate Grown(b: Board, tree: set<Cell>, dist: Grid) {
    forall x {:trigger At(dist, x)} :: Inside(x, b.rows, b.cols) ==>
      At(dist, x) == Label0(b, tree, x) || (Label0(b, tree, x) == -2 && At(dist, x) >= 1)
  }

  /** No in-grid neighbour of `x` is still unvisited. */
  predicate Closed(b: Board, dist: Grid, x: Cell) {
    forall i :: 0 <= i < 4 && Inside(Neighbor(x, i), b.rows, b.cols) ==> At(dist, Neighbor(x, i)) != -2
  }

  /** The invariant of the wave: queued cells are labelled, labelled cells are
      queued, labels are exact, all cells within `level` are labelled, and the
      unprocessed part of the queue is sorted and spans at most two levels. */
  ghost predicate Wave(b: Board, tree: set<Cell>, dist: Grid, q: seq<Cell>, head: nat, level: nat) {
    && IsRect(dist, b.rows, b.cols)
    && head <= |q|
    && (forall j :: 0 <= j < |q| ==> Inside(q[j], b.rows, b.cols) && At(dist, q[j]) >= 0)
    && (forall x {:trigger x in q} :: Inside(x, b.rows, b.cols) && At(dist, x) >= 0 ==> x in q)
    && Grown(b, tree, dist)
    && Sound(b, tree, dist)
    && Complete(b, tree, dist, level)
    && (forall j :: head <= j < |q| ==> level <= At(dist, q[j]) <= level + 1)
    && (forall i, j :: head <= i <= j < |q| ==> At(dist, q[i]) <= At(dist, q[j]))
  }

  /** Labelling an unvisited neighbour of the cell being expanded with its
      distance + 1 keeps the wave invariant, and the label is exact. */
  lemma Discover(b: Board, tree: set<Cell>, dist: Grid, q: seq<Cell>, head: nat, level: nat, i: int)
    requires WellFormed(b) && InGrid(b, tree)
    requires Wave(b, tree, dist, q, head, level)
    requires 1 <= head && At(dist, q[head - 1]) == level && 0 <= i < 4
    requires Inside(Neighbor(q[head - 1], i), b.rows, b.cols) && At(dist, Neighbor(q[head - 1], i)) == -2
    ensures var n := Neighbor(q[head - 1], i);
      var dist' := Put(dist, n, level + 1);
      && Wave(b, tree, dist', q + [n], head, level)
      && (forall x :: Closed(b, dist, x) ==> Closed(b, dist', x))
  {
    var cur := q[head - 1];
    var n := Neighbor(cur, i);
    var dist' := Put(dist, n, level + 1);
    var q' := q + [n];
    PutRect(dist, b.rows, b.cols, n, level + 1);
    assert Label0(b, tree, n) == -2;
    assert Open(b, n) && n !in tree;
    NeighborBack(cur, i);
    assert Labelled(b, tree, dist, cur);
    WithinStep(b, tree, n, Back(i), level);
    assert !Within(b, tree, n, level);
    assert Exact(b, tree, n, level + 1);
    forall x
      ensures Labelled(b, tree, dist', x)
    {
      if x != n {
        assert Labelled(b, tree, dist, x);
      }
    }
    forall x | Inside(x, b.rows, b.cols) && At(dist', x) >= 0
      ensures x in q'
    {
      if x != n {
        assert x in q;
      }
    }
    forall j | 0 <= j < |q'|
      ensures Inside(q'[j], b.rows, b.cols) && At(dist', q'[j]) >= 0
    {
      if j < |q| {
        assert q'[j] == q[j];
        assert q[j] != n;
      }
    }
    forall j | head <= j < |q'|
      ensures level <= At(dist', q'[j]) <= level + 1
    {
      if j < |q| {
        assert q'[j] == q[j] && q[j] != n;
      }
    }
    forall a, c | head <= a <= c < |q'|
      ensures At(dist', q'[a]) <= At(dist', q'[c])
    {
      if c < |q| {
        assert q'[a] == q[a] && q[a] != n;
        assert q'[c] == q[c] && q[c] != n;
      } else if a < |q| {
        assert q'[a] == q[a] && q[a] != n;
      }
    }
    forall x | Closed(b, dist, x)
      ensures Closed(b, dist', x)
    {
    }
  }

  /** A cell first reached at `level + 1` has a neighbour within `level`; that
      neighbour is labelled, so it is queued; it lies before the dequeued cell
      (which is at `level + 1`), so it was expanded and labelled `x`. */
  lemma RaiseOne(b: Board, tree: set<Cell>, dist: Grid, q: seq<Cell>, h: nat, level: nat, x: Cell)
    requires Sound(b, tree, dist) && Complete(b, tree, dist, level) && Grown(b, tree, dist)
    requires h <= |q|
    requires forall y {:trigger y in q} :: Inside(y, b.rows, b.cols) && At(dist, y) >= 0 ==> y in q
    requires forall j :: h <= j < |q| ==> At(dist, q[j]) >= level + 1
    requires forall j :: 0 <= j < h ==> Closed(b, dist, q[j])
    requires Within(b, tree, x, level + 1) && !Within(b, tree, x, level)
    ensures Inside(x, b.rows, b.cols) && At(dist, x) >= 0
  {
    WithinSplit(b, tree, x, level);
    var i :| 0 <= i < 4 && Within(b, tree, Neighbor(x, i), level);
    var n := Neighbor(x, i);
    assert Labelled(b, tree, dist, n);
    var u := At(dist, n);
    assert u <= level by {
      if u > level {
        WithinMono(b, tree, n, level, u - 1);
      }
    }
    assert n in q;
    var a :| 0 <= a < |q| && q[a] == n;
    assert a < h;
    assert Closed(b, dist, q[a]);
    NeighborBack(x, i);
    assert At(dist, Neighbor(n, Back(i))) != -2;
  }

  /** When the first cell of the next level is dequeued, every cell within that
      level is already labelled: its predecessors were all expanded. */
  lemma RaiseLevel(b: Board, tree: set<Cell>, dist: Grid, q: seq<Cell>, h: nat, level: nat)
    requires Wave(b, tree, dist, q, h, level)
    requires h < |q| && At(dist, q[h]) == level + 1
    requires forall j :: 0 <= j < h ==> Closed(b, dist, q[j])
    ensures Complete(b, tree, dist, level + 1)
  {
    forall j | h <= j < |q|
      ensures At(dist, q[j]) >= level + 1
    {
      assert At(dist, q[h]) <= At(dist, q[j]);
    }
    forall x | Within(b, tree, x, level + 1)
      ensures Inside(x, b.rows, b.cols) && At(dist, x) >= 0
    {
      if !Within(b, tree, x, level) {
        RaiseOne(b, tree, dist, q, h, level, x);
      }
    }
  }

  /** A labelled cell is queued, so once the whole queue is expanded its open
      neighbours are labelled too. */
  lemma ExhaustStep(b: Board, tree: set<Cell>, dist: Grid, q: seq<Cell>, x: Cell, i: int)
    requires Grown(b, tree, dist)
    requires forall y {:trigger y in q} :: Inside(y, b.rows, b.cols) && At(dist, y) >= 0 ==> y in q
    requires forall j :: 0 <= j < |q| ==> Closed(b, dist, q[j])
    requires 0 <= i < 4 && Open(b, x)
    requires Inside(Neighbor(x, i), b.rows, b.cols) && At(dist, Neighbor(x, i)) >= 0
    ensures At(dist, x) >= 0
  {
    var n := Neighbor(x, i);
    assert n in q;
    var a :| 0 <= a < |q| && q[a] == n;
    assert Closed(b, dist, q[a]);
    NeighborBack(x, i);
    assert At(dist, Neighbor(n, Back(i))) != -2;
  }

  /** Tree cells are labelled, and a labelled cell passes a label on to every
      open neighbour: the distance grid is closed under moves. */
  ghost predicate Spread(b: Board, tree: set<Cell>, dist: Grid) {
    && (forall x {:trigger x in tree} :: x in tree ==> Inside(x, b.rows, b.cols) && At(dist, x) >= 0)
    && (forall x, i {:trigger At(dist, Neighbor(x, i))} ::
          0 <= i < 4 && Open(b, x) && Inside(Neighbor(x, i), b.rows, b.cols) && At(dist, Neighbor(x, i)) >= 0 ==>
            At(dist, x) >= 0)
  }

  /** Once every queued cell has been expanded, the labels are closed under moves. */
  lemma SpreadAll(b: Board, tree: set<Cell>, dist: Grid, q: seq<Cell>)
    requires InGrid(b, tree) && Grown(b, tree, dist)
    requires forall y {:trigger y in q} :: Inside(y, b.rows, b.cols) && At(dist, y) >= 0 ==> y in q
    requires forall j :: 0 <= j < |q| ==> Closed(b, dist, q[j])
    ensures Spread(b, tree, dist)
  {
    forall x | x in tree
      ensures Inside(x, b.rows, b.cols) && At(dist, x) >= 0
    {
      assert Label0(b, tree, x) == 0;
    }
    forall x, i | 0 <= i < 4 && Open(b, x) && Inside(Neighbor(x, i), b.rows, b.cols) && At(dist, Neighbor(x, i)) >= 0
      ensures At(dist, x) >= 0
    {
      ExhaustStep(b, tree, dist, q, x, i);
    }
  }

  /** When the labels are closed under moves, every reachable cell is labelled. */
  lemma {:induction false} Exhausted(b: Board, tree: set<Cell>, dist: Grid, x: Cell, k: nat)
    requires Spread(b, tree, dist)
    requires Within(b, tree, x, k)
    ensures Inside(x, b.rows, b.cols) && At(dist, x) >= 0
    decreases k
  {
    if k > 0 {
      if Within(b, tree, x, k - 1) {
        Exhausted(b, tree, dist, x, k - 1);
      } else {
        WithinSplit(b, tree, x, k - 1);
        var i :| 0 <= i < 4 && Within(b, tree, Neighbor(x, i), k - 1);
        Exhausted(b, tree, dist, Neighbor(x, i), k - 1);
      }
    }
  }

  /** The in-grid cells still unvisited (-2); the wave shrinks this set. */
  ghost function Unvisited(b: Board, dist: Grid): set<Cell> {
    set r, c | 0 <= r < b.rows && 0 <= c < b.cols && At(dist, Cell(r, c)) == -2 :: Cell(r, c)
  }

  /** Labelling an unvisited cell removes exactly that cell from the unvisited set. */
  lemma UnvisitedPut(b: Board, dist: Grid, n: Cell, v: int)
    requires IsRect(dist, b.rows, b.cols) && Inside(n, b.rows, b.cols)
    requires At(dist, n) == -2 && v != -2
    ensures Unvisited(b, Put(dist, n, v)) == Unvisited(b, dist) - {n}
  {
    var dist' := Put(dist, n, v);
    forall x
      ensures x in Unvisited(b, dist') <==> x in Unvisited(b, dist) - {n}
    {
      assert x == Cell(x.r, x.c);
    }
  }

  /** Only unvisited cells of `dist` may carry a different label in `dist'`. */
  ghost predicate Settled(dist: Grid, dist': Grid) {
    forall x {:trigger At(dist', x)} :: At(dist, x) != -2 ==> At(dist', x) == At(dist, x)
  }

  /** Dequeuing `q[h]`: the current level becomes its label. If that label is one
      more than before, every cell of the previous level has been expanded. */
  lemma Advance(b: Board, tree: set<Cell>, dist: Grid, q: seq<Cell>, h: nat, level: nat)
    requires Wave(b, tree, dist, q, h, level) && h < |q|
    requires forall j :: 0 <= j < h ==> Closed(b, dist, q[j])
    ensures Wave(b, tree, dist, q, h + 1, At(dist, q[h]))
  {
    if At(dist, q[h]) == level + 1 {
      RaiseLevel(b, tree, dist, q, h, level);
    }
    forall j | h + 1 <= j < |q|
      ensures At(dist, q[h]) <= At(dist, q[j]) <= At(dist, q[h]) + 1
    {
      assert At(dist, q[h]) <= At(dist, q[j]);
    }
  }

  /** Tries move `i` from the cell being expanded, `q[head - 1]`: an in-grid
      neighbour that is still unvisited is labelled one further and queued
      (algorithm.py:39-49, Visualizer/algorithm.py:72-83). `hit` reports
      that it was the target. */
  method Visit(b: Board, tree: set<Cell>, target: Cell, dist: Grid, q: seq<Cell>, head: nat, ghost level: nat, i: int)
    returns (dist': Grid, q': seq<Cell>, hit: bool)
    requires WellFormed(b) && InGrid(b, tree)
    requires Wave(b, tree, dist, q, head, level)
    requires 1 <= head && At(dist, q[head - 1]) == level && 0 <= i < 4
    requires Inside(target, b.rows, b.cols) ==> At(dist, target) == Label0(b, tree, target)
    ensures Wave(b, tree, dist', q', head, level)
    ensures q <= q' && Settled(dist, dist')
    ensures |Unvisited(b, dist')| + |q'| == |Unvisited(b, dist)| + |q|
    ensures |Unvisited(b, dist')| <= |Unvisited(b, dist)|
    ensures Inside(Neighbor(q[head - 1], i), b.rows, b.cols) ==> At(dist', Neighbor(q[head - 1], i)) != -2
    ensures !hit && Inside(target, b.rows, b.cols) ==> At(dist', target) == Label0(b, tree, target)
    ensures hit ==> Inside(target, b.rows, b.cols) && target !in tree && At(dist', target) == level + 1
  {
    var cur := q[head - 1];
    var n := Neighbor(cur, i);
    dist', q', hit := dist, q, false;
    if Inside(n, b.rows, b.cols) && At(dist, n) == -2 {
      Discover(b, tree, dist, q, head, level, i);
      UnvisitedPut(b, dist, n, level + 1);
      dist' := Put(dist, n, At(dist, cur) + 1);
      q' := q + [n];
      hit := n == target;
    }
  }

  /** Expands the cell `q[head - 1]`: tries the four moves in order, stopping
      as soon as the target is labelled (algorithm.py:39-49,
      Visualizer/algorithm.py:72-83). Unless the target was found, the cell
      ends up closed. */
  method Expand(b: Board, tree: set<Cell>, target: Cell, dist: Grid, q: seq<Cell>, head: nat, ghost level: nat)
    returns (dist': Grid, q': seq<Cell>, found: bool)
    requires WellFormed(b) && InGrid(b, tree)
    requires Wave(b, tree, dist, q, head, level)
    requires 1 <= head && At(dist, q[head - 1]) == level
    requires forall j :: 0 <= j < head - 1 ==> Closed(b, dist, q[j])
    requires Inside(target, b.rows, b.cols) ==> At(dist, target) == Label0(b, tree, target)
    ensures Wave(b, tree, dist', q', head, level)
    ensures q <= q' && Settled(dist, dist')
    ensures |Unvisited(b, dist')| + |q'| == |Unvisited(b, dist)| + |q|
    ensures |Unvisited(b, dist')| <= |Unvisited(b, dist)|
    ensures forall j :: 0 <= j < head && (j < head - 1 || !found) ==> Closed(b, dist', q'[j])
    ensures !found && Inside(target, b.rows, b.cols) ==> At(dist', target) == Label0(b, tree, target)
    ensures found ==> Inside(target, b.rows, b.cols) && target !in tree && At(dist', target) == level + 1
  {
    var cur := q[head - 1];
    dist', q', found := dist, q, false;
    var i := 0;
    while i < 4 && !found
      invariant 0 <= i <= 4
      invariant Wave(b, tree, dist', q', head, level)
      invariant q <= q' && Settled(dist, dist')
      invariant |Unvisited(b, dist')| + |q'| == |Unvisited(b, dist)| + |q|
      invariant |Unvisited(b, dist')| <= |Unvisited(b, dist)|
      invariant forall j :: 0 <= j < head - 1 ==> Closed(b, dist', q'[j])
      invariant !found ==> forall j :: 0 <= j < i && Inside(Neighbor(cur, j), b.rows, b.cols) ==> At(dist', Neighbor(cur, j)) != -2
      invariant !found && Inside(target, b.rows, b.cols) ==> At(dist', target) == Label0(b, tree, target)
      invariant found ==> Inside(target, b.rows, b.cols) && target !in tree && At(dist', target) == level + 1
      decreases 4 - i
    {
      var d, r, hit := Visit(b, tree, target, dist', q', head, level, i);
      dist', q', found := d, r, hit;
      i := i + 1;
    }
  }

  /**
    The wave of one search (algorithm.py:19-49, Visualizer/algorithm.py:58-83):
    label walls -1 and tree cells 0, queue the tree cells, then expand the queue
    in FIFO order, trying the four moves in order and labelling each unvisited
    in-grid neighbour with its discoverer's distance + 1, until the target is
    labelled or the queue runs dry.
   */
  method Propagate(b: Board, tree: set<Cell>, target: Cell) returns (found: bool, dist: Grid)
    requires WellFormed(b) && InGrid(b, tree)
    ensures IsRect(dist, b.rows, b.cols)
    ensures Sound(b, tree, dist)
    ensures found ==> target !in tree && Inside(target, b.rows, b.cols) && At(dist, target) >= 1
    ensures found ==> Complete(b, tree, dist, At(dist, target) - 1)
    ensures !found ==> target in tree || Unreachable(b, tree, target)
  {
    dist := InitialDistances(b, tree);
    // the tree cells enter the queue in the set's iteration order
    var q: seq<Cell> := [];
    var rest := tree;
    while rest != {}
      invariant rest <= tree
      invariant forall x :: x in q <==> x in tree && x !in rest
      invariant forall j :: 0 <= j < |q| ==> q[j] in tree
      decreases rest
    {
      var x :| x in rest;
      q := q + [x];
      rest := rest - {x};
    }
    ghost var level: nat := 0;
    var head := 0;
    found := false;
    while head < |q| && !found
      invariant Wave(b, tree, dist, q, head, level)
      invariant head > 0 ==> level == At(dist, q[head - 1])
      invariant forall j :: 0 <= j < head && (j < head - 1 || !found) ==> Closed(b, dist, q[j])
      invariant !found && Inside(target, b.rows, b.cols) ==> At(dist, target) == Label0(b, tree, target)
      invariant found ==> Inside(target, b.rows, b.cols) && target !in tree && At(dist, target) == level + 1
      decreases |Unvisited(b, dist)|, |q| - head
    {
      Advance(b, tree, dist, q, head, level);
      level := At(dist, q[head]);
      head := head + 1;
      dist, q, found := Expand(b, tree, target, dist, q, head, level);
    }
    if !found {
      SpreadAll(b, tree, dist, q);
      forall k: nat
        ensures target in tree || !Within(b, tree, target, k)
      {
        if Within(b, tree, target, k) {
          Exhausted(b, tree, dist, target, k);
        }
      }
    }
  }

  /** Among labelled cells, one at distance `v >= 1` has an in-grid neighbour labelled `v - 1`. */
  lemma StepDown(b: Board, tree: set<Cell>, dist: Grid, x: Cell, level: nat)
    requires WellFormed(b) && InGrid(b, tree)
    requires Sound(b, tree, dist) && Complete(b, tree, dist, level)
    requires Inside(x, b.rows, b.cols) && 1 <= At(dist, x) <= level + 1
    ensures exists i :: 0 <= i < 4 && Inside(Neighbor(x, i), b.rows, b.cols) && At(dist, Neighbor(x, i)) == At(dist, x) - 1
  {
    var v := At(dist, x);
    assert Labelled(b, tree, dist, x);
    ExactAway(b, tree, x, v);
    WithinSplit(b, tree, x, v - 1);
    var i :| 0 <= i < 4 && Within(b, tree, Neighbor(x, i), v - 1);
    var n := Neighbor(x, i);
    WithinMono(b, tree, n, v - 1, level);
    var u := At(dist, n);
    assert Labelled(b, tree, dist, n);
    ExactLeast(b, tree, n, u, v - 1);
    WithinStep(b, tree, x, i, u);
    ExactLeast(b, tree, x, v, u + 1);
  }

  /**
    The backtrack (algorithm.py:54-68, Visualizer/algorithm.py:89-101): from the
    target, repeatedly step to the first neighbour (in move order) whose label is
    one less, until a label-0 cell is reached. The source appends and then
    reverses; prepending builds the same sequence.
   */
  method Backtrack(b: Board, tree: set<Cell>, dist: Grid, target: Cell) returns (path: seq<Cell>)
    requires WellFormed(b) && InGrid(b, tree) && IsRect(dist, b.rows, b.cols)
    requires Sound(b, tree, dist)
    requires Inside(target, b.rows, b.cols) && At(dist, target) >= 1
    requires Complete(b, tree, dist, At(dist, target) - 1)
    ensures |path| == At(dist, target) + 1
    ensures IsWalk(b, tree, path) && Last(path) == target
    ensures forall j :: 1 <= j < |path| ==> path[j] !in tree
  {
    var top := At(dist, target);
    var cur := target;
    path := [target];
    while At(dist, cur) != 0
      invariant Inside(cur, b.rows, b.cols) && 0 <= At(dist, cur) <= top
      invariant |path| + At(dist, cur) == top + 1
      invariant path[0] == cur && Last(path) == target
      invariant forall j :: 1 <= j < |path| ==> Adjacent(path[j - 1], path[j]) && Open(b, path[j]) && path[j] !in tree
      decreases At(dist, cur)
    {
      StepDown(b, tree, dist, cur, top - 1);
      var i := 0;
      while i < 4 && !(Inside(Neighbor(cur, i), b.rows, b.cols) && At(dist, Neighbor(cur, i)) == At(dist, cur) - 1)
        invariant 0 <= i <= 4
        invariant forall j :: 0 <= j < i ==> !(Inside(Neighbor(cur, j), b.rows, b.cols) && At(dist, Neighbor(cur, j)) == At(dist, cur) - 1)
        decreases 4 - i
      {
        i := i + 1;
      }
      var n := Neighbor(cur, i);
      assert Labelled(b, tree, dist, cur);
      ExactAway(b, tree, cur, At(dist, cur));
      AdjacentIsNeighbor(n, cur);
      NeighborBack(cur, i);
      path := [n] + path;
      cur := n;
    }
    assert Labelled(b, tree, dist, cur);
  }
}
