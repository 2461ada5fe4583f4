/**
  The greedy multi-pin loop shared by both Lee routers: grow a routing tree
  from a source pin by repeatedly connecting the pending pin nearest to the
  tree along a shortest path, marking the routed cells in the grid.

  All properties of a run are stated against the board as it was before any
  marking; the lemmas `WithinAgree` and `WalkAgree` show that marking cells
  of the tree changes nothing a search can observe.
 */
module Router {
  import opened Grids
  import opened Search
  import opened Wrappers

  // ---------------------------------------------------------------------------
  // Runs of the greedy loop
  // ---------------------------------------------------------------------------

  /** The routing tree after connecting `segs`: the source and every routed cell. */
  function TreeOf(src: Cell, segs: seq<seq<Cell>>): set<Cell> {
    {src} + Elems(Flatten(segs))
  }

  /** The pins connected by `segs`: the last cell of each segment. */
  function Ends(segs: seq<seq<Cell>>): set<Cell> {
    set s | s in segs && |s| > 0 :: Last(s)
  }

  /** The pins still to connect after `segs`. */
  function Pending(pending0: set<Cell>, segs: seq<seq<Cell>>): set<Cell> {
    pending0 - Ends(segs)
  }

  /**
    `p` is a shortest connection from `tree` to a nearest pending pin: a walk
    from the tree whose end is a pending pin outside the tree at exact distance
    `|p| - 1`, and no pending pin outside the tree is strictly nearer.
   */
  ghost predicate Nearest(b: Board, tree: set<Cell>, pending: set<Cell>, p: seq<Cell>) {
    && IsWalk(b, tree, p) && |p| >= 2
    && Last(p) in pending && Last(p) !in tree
    && Exact(b, tree, Last(p), |p| - 1)
    && forall u {:trigger u in pending} :: u in pending && u !in tree ==> !Within(b, tree, u, |p| - 2)
  }

  /** Every segment of `segs` was a nearest connection when it was chosen. */
  ghost predicate GreedyRun(b: Board, src: Cell, pending0: set<Cell>, segs: seq<seq<Cell>>)
    decreases |segs|
  {
    segs == [] ||
    (var init := segs[..|segs| - 1];
     GreedyRun(b, src, pending0, init) && Nearest(b, TreeOf(src, init), Pending(pending0, init), Last(segs)))
  }

  lemma TreeOfAppend(src: Cell, segs: seq<seq<Cell>>, p: seq<Cell>)
    ensures TreeOf(src, segs + [p]) == TreeOf(src, segs) + Elems(p)
  {
    FlattenAppend(segs, p);
  }

  lemma EndsAppend(segs: seq<seq<Cell>>, p: seq<Cell>)
    requires |p| > 0
    ensures Ends(segs + [p]) == Ends(segs) + {Last(p)}
  {
    forall y | y in Ends(segs + [p])
      ensures y in Ends(segs) + {Last(p)}
    {
      var s :| s in segs + [p] && |s| > 0 && Last(s) == y;
      if s != p {
        assert s in segs;
      }
    }
  }

  lemma PendingAppend(pending0: set<Cell>, segs: seq<seq<Cell>>, p: seq<Cell>)
    requires |p| > 0
    ensures Pending(pending0, segs + [p]) == Pending(pending0, segs) - {Last(p)}
  {
    EndsAppend(segs, p);
  }

  // ---------------------------------------------------------------------------
  // Marking routed cells is invisible to the searches
  // ---------------------------------------------------------------------------

  /** `b'` is `b` with possibly different values on cells of `tree` only. */
  ghost predicate SameOff(b: Board, b': Board, tree: set<Cell>) {
    && b'.rows == b.rows && b'.cols == b.cols && b'.pins == b.pins && b'.rule == b.rule
    && forall x {:trigger At(b'.grid, x)} :: Inside(x, b.rows, b.cols) && x !in tree ==> At(b'.grid, x) == At(b.grid, x)
  }

  lemma OpenAgree(b: Board, b': Board, tree: set<Cell>, x: Cell)
    requires SameOff(b, b', tree) && x !in tree
    ensures Open(b', x) <==> Open(b, x)
  {
  }

  /** Boards that agree off the tree have the same level sets. */
  lemma {:induction false} WithinAgree(b: Board, b': Board, tree: set<Cell>, x: Cell, k: nat)
    requires SameOff(b, b', tree)
    ensures Within(b', tree, x, k) <==> Within(b, tree, x, k)
    decreases k
  {
    if k > 0 {
      WithinAgree(b, b', tree, x, k - 1);
      if x in tree {
        WithinMono(b, tree, x, 0, k);
        WithinMono(b', tree, x, 0, k);
      } else {
        OpenAgree(b, b', tree, x);
        forall i | 0 <= i < 4
          ensures Within(b', tree, Neighbor(x, i), k - 1) <==> Within(b, tree, Neighbor(x, i), k - 1)
        {
          WithinAgree(b, b', tree, Neighbor(x, i), k - 1);
        }
      }
    }
  }

  /** Boards that agree off the tree have the same walks from it. */
  lemma WalkAgree(b: Board, b': Board, tree: set<Cell>, w: seq<Cell>)
    requires SameOff(b, b', tree)
    ensures IsWalk(b', tree, w) <==> IsWalk(b, tree, w)
  {
    forall i | 1 <= i < |w| && w[i] !in tree
      ensures Open(b', w[i]) <==> Open(b, w[i])
    {
      OpenAgree(b, b', tree, w[i]);
    }
  }

  lemma UnreachableAgree(b: Board, b': Board, tree: set<Cell>, x: Cell)
    requires SameOff(b, b', tree) && Unreachable(b', tree, x)
    ensures Unreachable(b, tree, x)
  {
    forall k: nat
      ensures !Within(b, tree, x, k)
    {
      WithinAgree(b, b', tree, x, k);
    }
  }

  lemma NearestAgree(b: Board, b': Board, tree: set<Cell>, pending: set<Cell>, p: seq<Cell>)
    requires SameOff(b, b', tree) && Nearest(b', tree, pending, p)
    ensures Nearest(b, tree, pending, p)
  {
    WalkAgree(b, b', tree, p);
    WithinAgree(b, b', tree, Last(p), |p| - 1);
    WithinAgree(b, b', tree, Last(p), |p| - 2);
    forall u | u in pending && u !in tree
      ensures !Within(b, tree, u, |p| - 2)
    {
      WithinAgree(b, b', tree, u, |p| - 2);
    }
  }

  /** A larger tree reaches at least as much. */
  lemma {:induction false} WithinTreeMono(b: Board, tree: set<Cell>, tree': set<Cell>, x: Cell, k: nat)
    requires tree <= tree' && Within(b, tree, x, k)
    ensures Within(b, tree', x, k)
    decreases k
  {
    if k > 0 {
      if Within(b, tree, x, k - 1) {
        WithinTreeMono(b, tree, tree', x, k - 1);
      } else {
        WithinSplit(b, tree, x, k - 1);
        var i :| 0 <= i < 4 && Within(b, tree, Neighbor(x, i), k - 1);
        WithinTreeMono(b, tree, tree', Neighbor(x, i), k - 1);
        WithinStep(b, tree', x, i, k - 1);
      }
    }
  }

  /** A pending pin met before the end of a nearest connection is already in the tree. */
  lemma OnPathInTree(b: Board, tree: set<Cell>, pending: set<Cell>, p: seq<Cell>, j: int)
    requires Nearest(b, tree, pending, p) && 0 <= j < |p| - 1 && p[j] in pending
    ensures p[j] in tree
  {
    if p[j] !in tree {
      var w := p[..j + 1];
      assert IsWalk(b, tree, w);
      WalkWithin(b, tree, w);
      WithinMono(b, tree, p[j], j, |p| - 2);
    }
  }

  // ---------------------------------------------------------------------------
  // Choosing the nearest pending pin
  // ---------------------------------------------------------------------------

  /** A pin farther than the current choice keeps the choice nearest. */
  lemma KeepNearest(b: Board, tree: set<Cell>, done: set<Cell>, p: seq<Cell>, t: Cell)
    requires Nearest(b, tree, done, p)
    requires t in tree || forall k: nat :: k < |p| - 1 ==> !Within(b, tree, t, k)
    ensures Nearest(b, tree, done + {t}, p)
  {
  }

  /** A strictly nearer pin becomes the choice. */
  lemma BetterNearest(b: Board, tree: set<Cell>, done: set<Cell>, p: seq<Cell>, t: Cell, p': seq<Cell>)
    requires IsWalk(b, tree, p') && |p'| >= 2 && Last(p') == t && t !in tree
    requires Exact(b, tree, t, |p'| - 1)
    requires Nearest(b, tree, done, p) && |p'| < |p|
    ensures Nearest(b, tree, done + {t}, p')
  {
    forall u | u in done && u !in tree
      ensures !Within(b, tree, u, |p'| - 2)
    {
      if Within(b, tree, u, |p'| - 2) {
        WithinMono(b, tree, u, |p'| - 2, |p| - 2);
      }
    }
  }

  /** The first pin reached becomes the choice when no earlier pin was reachable. */
  lemma FirstNearest(b: Board, tree: set<Cell>, done: set<Cell>, t: Cell, p: seq<Cell>)
    requires IsWalk(b, tree, p) && |p| >= 2 && Last(p) == t && t !in tree
    requires Exact(b, tree, t, |p| - 1)
    requires forall u :: u in done ==> u in tree || Unreachable(b, tree, u)
    ensures Nearest(b, tree, done + {t}, p)
  {
  }

  /**
    One round of the greedy loop (algorithm.py:13-69, Visualizer/algorithm.py:51-101):
    search from the tree to every pending pin in the set's iteration order, and
    keep the backtracked path of the first pin whose distance is strictly
    smaller than every earlier one. `None` when no pending pin was reached.
   */
  method Choose(b: Board, tree: set<Cell>, pending: set<Cell>) returns (pick: Option<Cell>, path: seq<Cell>)
    requires WellFormed(b) && InGrid(b, tree)
    ensures pick.Some? ==> Nearest(b, tree, pending, path) && Last(path) == pick.value
    ensures pick.Some? ==> forall j :: 1 <= j < |path| ==> path[j] !in tree
    ensures pick.None? ==> forall u :: u in pending ==> u in tree || Unreachable(b, tree, u)
  {
    pick, path := None, [];
    var rest := pending;
    while rest != {}
      invariant rest <= pending
      invariant pick.Some? ==> Nearest(b, tree, pending - rest, path) && Last(path) == pick.value
      invariant pick.Some? ==> forall j :: 1 <= j < |path| ==> path[j] !in tree
      invariant pick.None? ==> forall u :: u in pending - rest ==> u in tree || Unreachable(b, tree, u)
      decreases rest
    {
      var t :| t in rest;
      var found, dist := Propagate(b, tree, t);
      ghost var done := pending - rest;
      assert pending - (rest - {t}) == done + {t};
      if found {
        assert Labelled(b, tree, dist, t);
      }
      if found && (pick.None? || At(dist, t) < |path| - 1) {
        var p := Backtrack(b, tree, dist, t);
        if pick.Some? {
          BetterNearest(b, tree, done, path, t, p);
        } else {
          FirstNearest(b, tree, done, t, p);
        }
        pick, path := Some(t), p;
      } else if pick.Some? {
        forall k: nat | k < |path| - 1 && t !in tree
          ensures !Within(b, tree, t, k)
        {
          if found && Within(b, tree, t, k) {
            WithinMono(b, tree, t, k, At(dist, t) - 1);
          }
        }
        KeepNearest(b, tree, done, path, t);
      }
      rest := rest - {t};
    }
    assert pending - rest == pending;
  }

  // ---------------------------------------------------------------------------
  // Marking and the greedy loop
  // ---------------------------------------------------------------------------

  /** Every cell of `cells` that is not a pin reads 1; every other cell is as in `g`. */
  ghost predicate MarkedFrom(g: Grid, g': Grid, pins: seq<Cell>, cells: set<Cell>) {
    forall x {:trigger At(g', x)} :: At(g', x) == if x in cells && x !in pins then 1 else At(g, x)
  }

  /** Writes 1 into every non-pin cell of the path (algorithm.py:79-81,
      Visualizer/algorithm.py:111-113). */
  method MarkPath(g: Grid, rows: nat, cols: nat, pins: seq<Cell>, p: seq<Cell>) returns (g': Grid)
    requires IsRect(g, rows, cols)
    requires forall j :: 0 <= j < |p| ==> Inside(p[j], rows, cols)
    ensures IsRect(g', rows, cols)
    ensures MarkedFrom(g, g', pins, Elems(p))
  {
    g' := g;
    var j := 0;
    while j < |p|
      invariant 0 <= j <= |p|
      invariant IsRect(g', rows, cols)
      invariant MarkedFrom(g, g', pins, Elems(p[..j]))
    {
      var x := p[j];
      assert p[..j + 1] == p[..j] + [x];
      if x !in pins {
        PutRect(g', rows, cols, x, 1);
        g' := Put(g', x, 1);
      }
      j := j + 1;
    }
    assert p[..j] == p;
  }

  /** The invariant of the greedy loop. */
  ghost predicate Growing(b: Board, src: Cell, pending0: set<Cell>, segs: seq<seq<Cell>>,
                          tree: set<Cell>, pending: set<Cell>, grid: Grid) {
    && GreedyRun(b, src, pending0, segs)
    && tree == TreeOf(src, segs) && pending == Pending(pending0, segs)
    && |segs| + |pending| == |pending0|
    && InGrid(b, tree)
    && (forall x {:trigger x in tree} :: x in tree ==> x == src || Open(b, x))
    && (forall u {:trigger u in pending, u in tree} :: u in pending && u in tree ==> u == src)
    && IsRect(grid, b.rows, b.cols)
    && MarkedFrom(b.grid, grid, b.pins, tree)
  }

  /** Connecting a nearest pin keeps the loop invariant. */
  lemma GrowStep(b: Board, src: Cell, pending0: set<Cell>, segs: seq<seq<Cell>>,
                 tree: set<Cell>, pending: set<Cell>, grid: Grid, p: seq<Cell>, grid': Grid)
    requires src in b.pins && pending <= pending0
    requires Growing(b, src, pending0, segs, tree, pending, grid)
    requires Nearest(b, tree, pending, p)
    requires IsRect(grid', b.rows, b.cols) && MarkedFrom(grid, grid', b.pins, Elems(p))
    ensures Growing(b, src, pending0, segs + [p], tree + Elems(p), pending - {Last(p)}, grid')
  {
    var segs' := segs + [p];
    assert segs'[..|segs|] == segs;
    TreeOfAppend(src, segs, p);
    PendingAppend(pending0, segs, p);
    var tree' := tree + Elems(p);
    forall x | x in p
      ensures Inside(x, b.rows, b.cols) && (x in tree || Open(b, x))
    {
      var j :| 0 <= j < |p| && p[j] == x;
    }
    forall u | u in pending - {Last(p)} && u in tree'
      ensures u == src
    {
      if u !in tree {
        var j :| 0 <= j < |p| && p[j] == u;
        OnPathInTree(b, tree, pending, p, j);
      }
    }
  }

  lemma GrowStart(b: Board, src: Cell, pending0: set<Cell>)
    requires WellFormed(b) && Inside(src, b.rows, b.cols) && src in b.pins
    ensures Growing(b, src, pending0, [], {src}, pending0, b.grid)
  {
    assert Ends([]) == {};
    assert TreeOf(src, []) == {src};
  }

  /**
    The greedy loop (algorithm.py:9-83, Visualizer/algorithm.py:41-114): start
    the tree at `src`, and while pins are pending connect the nearest one along
    its shortest path, add the path to the tree, mark it and drop the pin. Stop
    with `ok == false` as soon as no pending pin can be reached. The searches
    run on the marked grid; the contracts speak of the board before marking.
   */
  method Grow(b: Board, src: Cell, pending0: set<Cell>)
    returns (ok: bool, segs: seq<seq<Cell>>, tree: set<Cell>, pending: set<Cell>, grid: Grid)
    requires WellFormed(b) && Inside(src, b.rows, b.cols) && src in b.pins
    ensures GreedyRun(b, src, pending0, segs)
    ensures tree == TreeOf(src, segs) && pending == Pending(pending0, segs)
    ensures |segs| + |pending| == |pending0|
    ensures ok <==> pending == {}
    ensures !ok ==> forall u :: u in pending ==> u == src || Unreachable(b, tree, u)
    ensures forall u :: u in pending && u in tree ==> u == src
    ensures forall x :: x in tree ==> x == src || Open(b, x)
    ensures IsRect(grid, b.rows, b.cols) && MarkedFrom(b.grid, grid, b.pins, tree)
  {
    segs, tree, pending, grid := [], {src}, pending0, b.grid;
    GrowStart(b, src, pending0);
    var stuck := false;
    while pending != {} && !stuck
      invariant pending <= pending0
      invariant Growing(b, src, pending0, segs, tree, pending, grid)
      invariant stuck ==> pending != {} && forall u :: u in pending ==> u == src || Unreachable(b, tree, u)
      decreases |pending|, !stuck
    {
      var now := b.(grid := grid);
      assert SameOff(b, now, tree);
      var pick, p := Choose(now, tree, pending);
      if pick.None? {
        forall u | u in pending && u != src
          ensures Unreachable(b, tree, u)
        {
          UnreachableAgree(b, now, tree, u);
        }
        stuck := true;
      } else {
        NearestAgree(b, now, tree, pending, p);
        var grid' := MarkPath(grid, b.rows, b.cols, b.pins, p);
        GrowStep(b, src, pending0, segs, tree, pending, grid, p, grid');
        segs, tree, pending, grid := segs + [p], tree + Elems(p), pending - {Last(p)}, grid';
      }
    }
    ok := !stuck;
  }

  // ---------------------------------------------------------------------------
  // What a finished run covers
  // ---------------------------------------------------------------------------

  /** The first segment of a run leaves from the source. */
  lemma {:induction false} RunStartsAtSource(b: Board, src: Cell, pending0: set<Cell>, segs: seq<seq<Cell>>)
    requires GreedyRun(b, src, pending0, segs) && |segs| >= 1
    ensures |segs[0]| >= 2 && segs[0][0] == src
    decreases |segs|
  {
    var init := segs[..|segs| - 1];
    if |segs| == 1 {
      assert Elems(Flatten(init)) == {};
      assert TreeOf(src, init) == {src};
    } else {
      RunStartsAtSource(b, src, pending0, init);
    }
  }

  /** Every connected pin lies on the concatenated segments. */
  lemma EndsInFlatten(segs: seq<seq<Cell>>, u: Cell)
    requires u in Ends(segs)
    ensures u in Flatten(segs)
  {
    var s :| s in segs && |s| > 0 && Last(s) == u;
    var i :| 0 <= i < |segs| && segs[i] == s;
    InFlatten(segs, u);
  }

  /** A run that leaves nothing pending covers the source and every pin it was given. */
  lemma RunCovers(b: Board, src: Cell, pending0: set<Cell>, segs: seq<seq<Cell>>)
    requires GreedyRun(b, src, pending0, segs) && Pending(pending0, segs) == {} && |segs| >= 1
    ensures |Flatten(segs)| >= 2 && Flatten(segs)[0] == src
    ensures forall u :: u in pending0 ==> u in Flatten(segs)
  {
    RunStartsAtSource(b, src, pending0, segs);
    FlattenHead(segs);
    forall u | u in pending0
      ensures u in Flatten(segs)
    {
      assert u !in Pending(pending0, segs);
      EndsInFlatten(segs, u);
    }
  }

  /** The source is never a connected end: every segment ends outside the tree, which holds the source. */
  lemma {:induction false} SourceStaysPending(b: Board, src: Cell, pending0: set<Cell>, segs: seq<seq<Cell>>)
    requires GreedyRun(b, src, pending0, segs) && src in pending0
    ensures src in Pending(pending0, segs)
    decreases |segs|
  {
    if segs == [] {
      assert Ends(segs) == {};
    } else {
      var init := segs[..|segs| - 1];
      assert segs == init + [Last(segs)];
      SourceStaysPending(b, src, pending0, init);
      EndsAppend(init, Last(segs));
      assert src in TreeOf(src, init);
    }
  }
}
