/**
  The top-level Lee router (algorithm.py): the tree starts at the first pin,
  every non-zero cell that is not a pin of the net is a wall, routed cells are
  written into the caller's grid, and a run that gets stuck returns the cells
  of the tree built so far.
 */
module Lee {
  import opened Grids
  import opened Search
  import opened Router

  /** The board this router searches: the shape is read off the grid and
      non-zero cells are walls. */
  function NetBoard(grid: Grid, pins: seq<Cell>): Board {
    Board(grid, |grid|, Width(grid), pins, NonZero)
  }

  /** Lists the elements of a set once each, in the set's iteration order
      (`list(routing_tree)`, algorithm.py:72). */
  method Enumerate(s: set<Cell>) returns (xs: seq<Cell>)
    ensures Elems(xs) == s && |xs| == |s|
  {
    xs := [];
    var rest := s;
    while rest != {}
      invariant rest <= s
      invariant Elems(xs) == s - rest
      invariant |xs| + |rest| == |s|
      decreases rest
    {
      var x :| x in rest;
      assert Elems(xs + [x]) == Elems(xs) + {x};
      xs := xs + [x];
      rest := rest - {x};
    }
  }

  /** Cells the router changed held 0, were not pins, and now hold 1. */
  lemma OnlyFreeCellsMarked(grid: Grid, grid': Grid, pins: seq<Cell>, src: Cell, tree: set<Cell>)
    requires src in pins
    requires MarkedFrom(grid, grid', pins, tree)
    requires forall x :: x in tree ==> x == src || Open(NetBoard(grid, pins), x)
    ensures forall x {:trigger At(grid', x)} :: At(grid', x) != At(grid, x) ==> x !in pins && At(grid, x) == 0 && At(grid', x) == 1
  {
    forall x | At(grid', x) != At(grid, x)
      ensures x !in pins && At(grid, x) == 0 && At(grid', x) == 1
    {
      assert x in tree && x !in pins;
    }
  }

  /** The tree holds the first pin and cells the board leaves open: every
      tree cell is in the grid and is a pin or was 0. */
  lemma TreeCellsFree(grid: Grid, pins: seq<Cell>, tree: set<Cell>)
    requires |pins| > 0 && Inside(pins[0], |grid|, Width(grid))
    requires forall x :: x in tree ==> x == pins[0] || Open(NetBoard(grid, pins), x)
    ensures forall x :: x in tree ==> Inside(x, |grid|, Width(grid)) && (x in pins || At(grid, x) == 0)
  {
  }

  /** A complete run of this router passes every pin, and its concatenated
      segments are exactly the tree. */
  lemma RunComplete(b: Board, pins: seq<Cell>, segs: seq<seq<Cell>>)
    requires |pins| >= 2
    requires GreedyRun(b, pins[0], Elems(pins[1..]), segs) && Pending(Elems(pins[1..]), segs) == {}
    requires |segs| + |Pending(Elems(pins[1..]), segs)| == |Elems(pins[1..])|
    ensures Elems(Flatten(segs)) == TreeOf(pins[0], segs)
    ensures forall j :: 0 <= j < |pins| ==> pins[j] in Flatten(segs)
  {
    assert pins[1] in Elems(pins[1..]);
    RunCovers(b, pins[0], Elems(pins[1..]), segs);
    forall j | 0 <= j < |pins|
      ensures pins[j] in Flatten(segs)
    {
      if j > 0 {
        assert pins[j] == pins[1..][j - 1];
      }
    }
  }

  /** `cells` is a result `lee_router` may return for `pins` on `grid`, with
      `segs` the paths it committed: nothing for fewer than two pins;
      otherwise a greedy run from `pins[0]` whose tree the cells list, the
      concatenated paths when every pin was reached, and only pins equal to
      the source or unreachable left over when the run got stuck. */
  ghost predicate Routed(grid: Grid, pins: seq<Cell>, cells: seq<Cell>, segs: seq<seq<Cell>>) {
    if |pins| <= 1 then cells == []
    else
      var b, pending0 := NetBoard(grid, pins), Elems(pins[1..]);
      && GreedyRun(b, pins[0], pending0, segs)
      && Elems(cells) == TreeOf(pins[0], segs)
      && (Pending(pending0, segs) == {} ==> cells == Flatten(segs) && forall j :: 0 <= j < |pins| ==> pins[j] in cells)
      && (forall u :: u in Pending(pending0, segs) ==> u == pins[0] || Unreachable(b, TreeOf(pins[0], segs), u))
  }

  /**
    `lee_router` (algorithm.py:4-85). With fewer than two pins nothing
    happens. Otherwise the greedy loop grows the tree from `pins[0]` towards
    the remaining pins; `segs` are the committed paths in commit order. A
    complete run returns their concatenation, which passes every pin; a stuck
    run returns each tree cell once, and every pin left over is the first pin
    (a duplicate of the source) or cannot be reached from the tree. Either
    way the returned cells are the tree. The returned grid is the caller's
    grid with the returned non-pin cells set to 1.
   */
  method Route(grid: Grid, pins: seq<Cell>) returns (cells: seq<Cell>, grid': Grid, segs: seq<seq<Cell>>)
    requires |pins| >= 2 ==> IsRect(grid, |grid|, Width(grid)) && Inside(pins[0], |grid|, Width(grid))
    ensures |pins| <= 1 ==> cells == [] && grid' == grid
    ensures |pins| >= 2 ==> GreedyRun(NetBoard(grid, pins), pins[0], Elems(pins[1..]), segs)
    ensures |pins| >= 2 && Pending(Elems(pins[1..]), segs) == {} ==>
      cells == Flatten(segs) && forall j :: 0 <= j < |pins| ==> pins[j] in cells
    ensures |pins| >= 2 && Pending(Elems(pins[1..]), segs) != {} ==>
      && |cells| == |TreeOf(pins[0], segs)|
      && forall u :: u in Pending(Elems(pins[1..]), segs) ==>
           u == pins[0] || Unreachable(NetBoard(grid, pins), TreeOf(pins[0], segs), u)
    ensures |pins| >= 2 ==> Elems(cells) == TreeOf(pins[0], segs)
    ensures forall x :: x in cells ==> Inside(x, |grid|, Width(grid)) && (x in pins || At(grid, x) == 0)
    ensures (|pins| >= 2 ==> IsRect(grid', |grid|, Width(grid))) && MarkedFrom(grid, grid', pins, Elems(cells))
    ensures forall x {:trigger At(grid', x)} :: At(grid', x) != At(grid, x) ==> x !in pins && At(grid, x) == 0 && At(grid', x) == 1
    ensures |segs| < |pins| || |pins| <= 1
    ensures Routed(grid, pins, cells, segs)
  {
    if |pins| <= 1 {
      return [], grid, [];
    }
    var b := NetBoard(grid, pins);
    var ok, tree, pending;
    ok, segs, tree, pending, grid' := Grow(b, pins[0], Elems(pins[1..]));
    OnlyFreeCellsMarked(grid, grid', pins, pins[0], tree);
    TreeCellsFree(grid, pins, tree);
    ElemsSize(pins[1..]);
    if ok {
      cells := Flatten(segs);
      RunComplete(b, pins, segs);
    } else {
      cells := Enumerate(tree);
    }
  }
}
