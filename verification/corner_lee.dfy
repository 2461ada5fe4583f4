/**
  The visualizer's Lee router (Visualizer/algorithm.py): the tree starts at the
  pin nearest a grid corner, only -1 cells that are not pins are walls, the
  caller's grid is left alone, and a stuck run returns nothing.

  The router seeds the tree with the corner pin but still treats every pin
  after the first as pending. When the corner pin is not the first pin it is
  pending and already in the tree, so it is never reached and the run always
  ends stuck. `Route` models the code as written and `SourcePinDefect` exhibits
  an input; `RouteFixed` treats every pin other than the corner pin as pending.
 */
module CornerLee {
  import opened Grids
  import opened Search
  import opened Router
  import opened Wrappers

  // ---------------------------------------------------------------------------
  // The source pin
  // ---------------------------------------------------------------------------

  /** The four corner cells in the order the source lists them. */
  function Corners(rows: int, cols: int): seq<Cell> {
    [Cell(0, 0), Cell(0, cols - 1), Cell(rows - 1, 0), Cell(rows - 1, cols - 1)]
  }

  /** The distance from `p` to the nearest of `cs`. */
  function CornerDist(p: Cell, cs: seq<Cell>): nat
    requires |cs| > 0
    decreases |cs|
  {
    if |cs| == 1 then Manhattan(p, cs[0])
    else
      var rest := CornerDist(p, cs[1..]);
      if Manhattan(p, cs[0]) <= rest then Manhattan(p, cs[0]) else rest
  }

  /** `CornerDist` is the distance to some corner and to no corner is any distance smaller. */
  lemma {:induction false} CornerDistIsMin(p: Cell, cs: seq<Cell>)
    requires |cs| > 0
    ensures exists j :: 0 <= j < |cs| && CornerDist(p, cs) == Manhattan(p, cs[j])
    ensures forall j :: 0 <= j < |cs| ==> CornerDist(p, cs) <= Manhattan(p, cs[j])
    decreases |cs|
  {
    if |cs| > 1 {
      CornerDistIsMin(p, cs[1..]);
      assert forall j :: 1 <= j < |cs| ==> cs[j] == cs[1..][j - 1];
      var j :| 0 <= j < |cs| - 1 && CornerDist(p, cs[1..]) == Manhattan(p, cs[1..][j]);
      if Manhattan(p, cs[0]) > CornerDist(p, cs[1..]) {
        assert CornerDist(p, cs) == Manhattan(p, cs[j + 1]);
      } else {
        assert CornerDist(p, cs) == Manhattan(p, cs[0]);
      }
    } else {
      assert CornerDist(p, cs) == Manhattan(p, cs[0]);
    }
  }

  /** The running choice of the scan: the pin kept so far and the smallest
      distance seen (`None` while it is still infinite). */
  datatype Best = Best(pin: Cell, dist: Option<nat>)

  /** `d` beats the smallest distance seen so far (strict `<`, infinity beaten by anything). */
  predicate Below(d: nat, min: Option<nat>) {
    min.None? || d < min.value
  }

  /** The inner loop over the corners for one pin. */
  function ScanCorners(p: Cell, cs: seq<Cell>, acc: Best): Best
    decreases |cs|
  {
    if cs == [] then acc
    else
      var d := Manhattan(p, cs[0]);
      ScanCorners(p, cs[1..], if Below(d, acc.dist) then Best(p, Some(d)) else acc)
  }

  /** The outer loop over the pins. */
  function ScanPins(pins: seq<Cell>, cs: seq<Cell>, acc: Best): Best
    decreases |pins|
  {
    if pins == [] then acc else ScanPins(pins[1..], cs, ScanCorners(pins[0], cs, acc))
  }

  /** `get_source_pin` (Visualizer/algorithm.py:4-23): start from the first
      pin with an infinite distance and scan every pin against every corner. */
  function SourcePin(pins: seq<Cell>, rows: int, cols: int): Cell
    requires |pins| > 0
  {
    ScanPins(pins, Corners(rows, cols), Best(pins[0], None)).pin
  }

  /** `pins[k]` is the first pin whose corner distance is the smallest. */
  predicate FirstClosest(pins: seq<Cell>, cs: seq<Cell>, k: int)
    requires |cs| > 0
  {
    && 0 <= k < |pins|
    && (forall j :: 0 <= j < k ==> CornerDist(pins[k], cs) < CornerDist(pins[j], cs))
    && (forall j :: k <= j < |pins| ==> CornerDist(pins[k], cs) <= CornerDist(pins[j], cs))
  }

  /** Scanning the corners keeps the pin exactly when its nearest corner beats the running minimum. */
  lemma {:induction false} ScanCornersSpec(p: Cell, cs: seq<Cell>, acc: Best)
    requires |cs| > 0
    ensures ScanCorners(p, cs, acc) ==
      if Below(CornerDist(p, cs), acc.dist) then Best(p, Some(CornerDist(p, cs))) else acc
    decreases |cs|
  {
    var d := Manhattan(p, cs[0]);
    var acc' := if Below(d, acc.dist) then Best(p, Some(d)) else acc;
    if |cs| > 1 {
      ScanCornersSpec(p, cs[1..], acc');
    }
  }

  /** The scan over the pins keeps its start when no pin beats it, and
      otherwise picks the first pin with the smallest corner distance. */
  lemma {:induction false} ScanPinsSpec(pins: seq<Cell>, cs: seq<Cell>, acc: Best)
    requires |cs| > 0
    ensures (forall j :: 0 <= j < |pins| ==> !Below(CornerDist(pins[j], cs), acc.dist)) ==>
      ScanPins(pins, cs, acc) == acc
    ensures (exists j :: 0 <= j < |pins| && Below(CornerDist(pins[j], cs), acc.dist)) ==>
      exists k :: FirstClosest(pins, cs, k) && Below(CornerDist(pins[k], cs), acc.dist) &&
        ScanPins(pins, cs, acc) == Best(pins[k], Some(CornerDist(pins[k], cs)))
    decreases |pins|
  {
    if pins != [] {
      var rest := pins[1..];
      ScanCornersSpec(pins[0], cs, acc);
      var acc' := ScanCorners(pins[0], cs, acc);
      assert ScanPins(pins, cs, acc) == ScanPins(rest, cs, acc');
      ScanPinsSpec(rest, cs, acc');
      if exists j :: 0 <= j < |rest| && Below(CornerDist(rest[j], cs), acc'.dist) {
        var k' :| FirstClosest(rest, cs, k') && Below(CornerDist(rest[k'], cs), acc'.dist) &&
          ScanPins(rest, cs, acc') == Best(rest[k'], Some(CornerDist(rest[k'], cs)));
        ScanPinsLater(pins, cs, acc, k');
      } else if Below(CornerDist(pins[0], cs), acc.dist) {
        ScanPinsFirst(pins, cs, acc);
      } else {
        ScanPinsNone(pins, cs, acc);
      }
    }
  }

  /** The case where a later pin beats the running minimum left by the first. */
  lemma ScanPinsLater(pins: seq<Cell>, cs: seq<Cell>, acc: Best, k': int)
    requires |cs| > 0 && |pins| > 0
    requires FirstClosest(pins[1..], cs, k')
    requires Below(CornerDist(pins[1..][k'], cs), ScanCorners(pins[0], cs, acc).dist)
    requires ScanCorners(pins[0], cs, acc) ==
      if Below(CornerDist(pins[0], cs), acc.dist) then Best(pins[0], Some(CornerDist(pins[0], cs))) else acc
    ensures FirstClosest(pins, cs, k' + 1) && Below(CornerDist(pins[k' + 1], cs), acc.dist)
  {
    assert pins[k' + 1] == pins[1..][k'];
    forall j | 1 <= j < |pins|
      ensures pins[j] == pins[1..][j - 1]
    {
    }
  }

  /** The case where the first pin beats the running minimum and no later pin beats the first. */
  lemma ScanPinsFirst(pins: seq<Cell>, cs: seq<Cell>, acc: Best)
    requires |cs| > 0 && |pins| > 0
    requires Below(CornerDist(pins[0], cs), acc.dist)
    requires forall j :: 0 <= j < |pins[1..]| ==> !Below(CornerDist(pins[1..][j], cs), Some(CornerDist(pins[0], cs)))
    ensures FirstClosest(pins, cs, 0)
  {
    forall j | 1 <= j < |pins|
      ensures CornerDist(pins[0], cs) <= CornerDist(pins[j], cs)
    {
      assert pins[j] == pins[1..][j - 1];
    }
  }

  /** The case where no pin beats the running minimum. */
  lemma ScanPinsNone(pins: seq<Cell>, cs: seq<Cell>, acc: Best)
    requires |cs| > 0 && |pins| > 0
    requires !Below(CornerDist(pins[0], cs), acc.dist)
    requires forall j :: 0 <= j < |pins[1..]| ==> !Below(CornerDist(pins[1..][j], cs), acc.dist)
    ensures forall j :: 0 <= j < |pins| ==> !Below(CornerDist(pins[j], cs), acc.dist)
  {
    forall j | 1 <= j < |pins|
      ensures !Below(CornerDist(pins[j], cs), acc.dist)
    {
      assert pins[j] == pins[1..][j - 1];
    }
  }

  /** The source pin is the first pin whose distance to its nearest corner is
      the smallest over all pins and corners. */
  lemma SourcePinSpec(pins: seq<Cell>, rows: int, cols: int)
    requires |pins| > 0
    ensures exists k :: FirstClosest(pins, Corners(rows, cols), k) && SourcePin(pins, rows, cols) == pins[k]
  {
    ScanPinsSpec(pins, Corners(rows, cols), Best(pins[0], None));
  }

  lemma SourcePinIsPin(pins: seq<Cell>, rows: int, cols: int)
    requires |pins| > 0
    ensures SourcePin(pins, rows, cols) in pins
  {
    SourcePinSpec(pins, rows, cols);
  }

  // ---------------------------------------------------------------------------
  // The router
  // ---------------------------------------------------------------------------

  /** The board this router searches: the shape is read off the grid and only
      -1 cells are walls. */
  function CornerBoard(grid: Grid, pins: seq<Cell>): Board {
    Board(grid, |grid|, Width(grid), pins, ObstacleOnly)
  }

  /** A complete run from `src` passes every pin of the net. */
  lemma CoversPins(b: Board, src: Cell, pending0: set<Cell>, segs: seq<seq<Cell>>, pins: seq<Cell>)
    requires GreedyRun(b, src, pending0, segs) && Pending(pending0, segs) == {} && |segs| >= 1
    requires forall j :: 0 <= j < |pins| ==> pins[j] == src || pins[j] in pending0
    ensures forall j :: 0 <= j < |pins| ==> pins[j] in Flatten(segs)
  {
    RunCovers(b, src, pending0, segs);
  }

  /**
    `lee_router` (Visualizer/algorithm.py:26-116) as written. The grid is a
    copy, so the caller's grid is not an output. The tree starts at the
    corner pin; the pending pins are all pins after the first. A complete run
    returns the committed paths in commit order; a stuck run returns `[]`.
    Whenever the corner pin is not the first pin the result is `[]`.
   */
  method Route(grid: Grid, pins: seq<Cell>) returns (cells: seq<Cell>, segs: seq<seq<Cell>>)
    requires |pins| >= 2 ==> IsRect(grid, |grid|, Width(grid)) && Inside(SourcePin(pins, |grid|, Width(grid)), |grid|, Width(grid))
    ensures |pins| <= 1 ==> cells == []
    ensures |pins| >= 2 ==> GreedyRun(CornerBoard(grid, pins), SourcePin(pins, |grid|, Width(grid)), Elems(pins[1..]), segs)
    ensures |pins| >= 2 ==> (cells != [] <==> Pending(Elems(pins[1..]), segs) == {})
    ensures cells != [] ==> cells == Flatten(segs) && forall j :: 0 <= j < |pins| ==> pins[j] in cells
    ensures |pins| >= 2 && cells == [] ==>
      forall u :: u in Pending(Elems(pins[1..]), segs) ==>
        u == SourcePin(pins, |grid|, Width(grid)) || Unreachable(CornerBoard(grid, pins), TreeOf(SourcePin(pins, |grid|, Width(grid)), segs), u)
    ensures |pins| >= 2 && SourcePin(pins, |grid|, Width(grid)) != pins[0] ==> cells == []
  {
    if |pins| <= 1 {
      return [], [];
    }
    var b := CornerBoard(grid, pins);
    var src := SourcePin(pins, |grid|, Width(grid));
    ghost var pending0 := Elems(pins[1..]);
    SourcePinIsPin(pins, |grid|, Width(grid));
    var ok, tree, pending, grid';
    ok, segs, tree, pending, grid' := Grow(b, src, Elems(pins[1..]));
    assert pins[1] in pending0;
    if src != pins[0] {
      var k :| 0 <= k < |pins| && pins[k] == src;
      assert src == pins[1..][k - 1];
      SourceStaysPending(b, src, pending0, segs);
    }
    if ok {
      cells := Flatten(segs);
      forall j | 0 <= j < |pins|
        ensures pins[j] == src || pins[j] in pending0
      {
        if j > 0 {
          assert pins[j] == pins[1..][j - 1];
        }
      }
      CoversPins(b, src, pending0, segs, pins);
    } else {
      cells := [];
    }
  }

  /**
    The router with the pending pins taken as every pin other than the corner
    pin. A complete run passes every pin and starts at the corner pin. A stuck
    run returns `[]`, and then some pin cannot be reached from the corner pin
    at all: if every pin is reachable, the result covers them all.
   */
  method RouteFixed(grid: Grid, pins: seq<Cell>) returns (cells: seq<Cell>, segs: seq<seq<Cell>>)
    requires |pins| >= 2 ==> IsRect(grid, |grid|, Width(grid)) && Inside(SourcePin(pins, |grid|, Width(grid)), |grid|, Width(grid))
    ensures |pins| <= 1 ==> cells == []
    ensures |pins| >= 2 ==>
      GreedyRun(CornerBoard(grid, pins), SourcePin(pins, |grid|, Width(grid)), Elems(pins) - {SourcePin(pins, |grid|, Width(grid))}, segs)
    ensures cells != [] ==> cells[0] == SourcePin(pins, |grid|, Width(grid)) && forall j :: 0 <= j < |pins| ==> pins[j] in cells
    ensures |pins| >= 2 && cells == [] ==>
      (forall j :: 0 <= j < |pins| ==> pins[j] == SourcePin(pins, |grid|, Width(grid))) ||
      exists u :: u in pins && Unreachable(CornerBoard(grid, pins), {SourcePin(pins, |grid|, Width(grid))}, u)
  {
    if |pins| <= 1 {
      return [], [];
    }
    var b := CornerBoard(grid, pins);
    var src := SourcePin(pins, |grid|, Width(grid));
    ghost var pending0 := Elems(pins) - {src};
    SourcePinIsPin(pins, |grid|, Width(grid));
    var ok, tree, pending, grid';
    ok, segs, tree, pending, grid' := Grow(b, src, Elems(pins) - {src});
    if ok && segs != [] {
      cells := Flatten(segs);
      RunCovers(b, src, pending0, segs);
      CoversPins(b, src, pending0, segs, pins);
    } else {
      cells := [];
      if !ok {
        var u :| u in pending;
        StuckFromSource(b, src, tree, u);
      } else {
        NoOtherPins(b, src, pins, segs);
      }
    }
  }

  /** A pin unreachable from a tree that holds the source is unreachable from the source. */
  lemma StuckFromSource(b: Board, src: Cell, tree: set<Cell>, u: Cell)
    requires src in tree && Unreachable(b, tree, u)
    ensures Unreachable(b, {src}, u)
  {
    forall k: nat
      ensures !Within(b, {src}, u, k)
    {
      if Within(b, {src}, u, k) {
        WithinTreeMono(b, {src}, tree, u, k);
      }
    }
  }

  /** A complete run with no segments had no pin other than the source to connect. */
  lemma NoOtherPins(b: Board, src: Cell, pins: seq<Cell>, segs: seq<seq<Cell>>)
    requires segs == [] && Pending(Elems(pins) - {src}, segs) == {}
    ensures forall j :: 0 <= j < |pins| ==> pins[j] == src
  {
    assert Ends(segs) == {};
    assert Pending(Elems(pins) - {src}, segs) == Elems(pins) - {src};
    forall j | 0 <= j < |pins|
      ensures pins[j] == src
    {
      assert pins[j] in Elems(pins);
      assert pins[j] !in Elems(pins) - {src};
    }
  }

  /**
    An input on which the router as written fails although nothing blocks it:
    on an empty 4 x 4 grid with pins (2,2) then (0,0), the corner pin is (0,0),
    which is not the first pin, so `Route` returns `[]`; yet (2,2) is four
    moves from (0,0).
   */
  lemma SourcePinDefect()
    ensures SourcePin([Cell(2, 2), Cell(0, 0)], 4, 4) == Cell(0, 0)
    ensures Within(CornerBoard(Filled(4, 4, 0), [Cell(2, 2), Cell(0, 0)]), {Cell(0, 0)}, Cell(2, 2), 4)
  {
    ExampleReach(Filled(4, 4, 0));
  }

  /** The walk right, right, down, down from (0,0) reaches (2,2) on any
      4 x 4 grid without walls. */
  lemma ExampleReach(g: Grid)
    requires IsRect(g, 4, 4) && forall x {:trigger At(g, x)} :: Inside(x, 4, 4) ==> At(g, x) == 0
    ensures Within(CornerBoard(g, [Cell(2, 2), Cell(0, 0)]), {Cell(0, 0)}, Cell(2, 2), 4)
  {
    var b := CornerBoard(g, [Cell(2, 2), Cell(0, 0)]);
    assert b.rows == 4 && b.cols == 4;
    var w := [Cell(0, 0), Cell(0, 1), Cell(0, 2), Cell(1, 2), Cell(2, 2)];
    assert forall i :: 1 <= i < |w| ==> At(g, w[i]) == 0;
    assert IsWalk(b, {Cell(0, 0)}, w);
    WalkWithin(b, {Cell(0, 0)}, w);
  }
}
