/**
  The visualizer's per-layer bookkeeping (Visualizer/funcWrapper.py): pick the
  pins of each net that lie on the displayed layer, then route the nets one at
  a time on one logical grid, turning every routed cell and every pin of a
  routed net into an obstacle for the nets after it.

  `funcWrapper.py` imports `algorithm`, which from the repository root (where
  `main.py` starts the program) is the top-level router modelled by `Lee`.
 */
module FuncWrapper {
  import opened Grids
  import Lee
  import Router

  /** A pin tuple as the input files give it: `(layer, row, col)`. */
  datatype LayerPin = LayerPin(layer: int, r: int, c: int)

  /** The pins of `net` on `layer`, as cells, in net order. */
  function OnLayer(net: seq<LayerPin>, layer: int): (cells: seq<Cell>)
    ensures |cells| <= |net|
    ensures forall x :: x in cells <==> LayerPin(layer, x.r, x.c) in net
    decreases |net|
  {
    if net == [] then []
    else
      var rest := OnLayer(net[..|net| - 1], layer);
      var p := Last(net);
      assert forall y :: y in net <==> y in net[..|net| - 1] || y == p by {
        assert net == net[..|net| - 1] + [p];
      }
      if p.layer == layer then rest + [Cell(p.r, p.c)] else rest
  }

  /** Filtering a concatenation filters each part: the relative order of the pins is kept. */
  lemma {:induction false} OnLayerAppend(a: seq<LayerPin>, b: seq<LayerPin>, layer: int)
    ensures OnLayer(a + b, layer) == OnLayer(a, layer) + OnLayer(b, layer)
    decreases |b|
  {
    if b != [] {
      var b' := b[..|b| - 1];
      assert (a + b)[..|a + b| - 1] == a + b';
      assert Last(a + b) == Last(b);
      OnLayerAppend(a, b', layer);
    } else {
      assert a + b == a;
    }
  }

  /** `filter_nets_by_layer` (Visualizer/funcWrapper.py:43-54): each net cut
      down to its pins on `layer`; nets left empty are dropped. */
  function FilterNets(nets: seq<seq<LayerPin>>, layer: int): (r: seq<seq<Cell>>)
    ensures |r| <= |nets|
    ensures forall k :: 0 <= k < |r| ==> r[k] != [] && exists j :: 0 <= j < |nets| && r[k] == OnLayer(nets[j], layer)
    ensures forall j :: 0 <= j < |nets| && OnLayer(nets[j], layer) != [] ==> OnLayer(nets[j], layer) in r
    decreases |nets|
  {
    if nets == [] then []
    else
      var init := nets[..|nets| - 1];
      var rest := FilterNets(init, layer);
      var f := OnLayer(Last(nets), layer);
      assert forall j :: 0 <= j < |init| ==> init[j] == nets[j];
      if f != [] then rest + [f] else rest
  }

  /** Filtering a concatenation of net lists filters each part: the relative order of the nets is kept. */
  lemma {:induction false} FilterNetsAppend(a: seq<seq<LayerPin>>, b: seq<seq<LayerPin>>, layer: int)
    ensures FilterNets(a + b, layer) == FilterNets(a, layer) + FilterNets(b, layer)
    decreases |b|
  {
    if b != [] {
      var b' := b[..|b| - 1];
      assert (a + b)[..|a + b| - 1] == a + b';
      assert Last(a + b) == Last(b);
      FilterNetsAppend(a, b', layer);
    } else {
      assert a + b == a;
    }
  }

  /** Every cell of `xs` reads `v`; every other cell is as in `g`. */
  ghost predicate Painted(g: Grid, g': Grid, xs: set<Cell>, v: int) {
    forall x {:trigger At(g', x)} :: At(g', x) == if x in xs then v else At(g, x)
  }

  /** Writes `v` into every cell of `xs` (Visualizer/funcWrapper.py:31-37). */
  method Paint(g: Grid, rows: nat, cols: nat, xs: seq<Cell>, v: int) returns (g': Grid)
    requires IsRect(g, rows, cols)
    requires forall j :: 0 <= j < |xs| ==> Inside(xs[j], rows, cols)
    ensures IsRect(g', rows, cols)
    ensures Painted(g, g', Elems(xs), v)
  {
    g' := g;
    var j := 0;
    while j < |xs|
      invariant 0 <= j <= |xs|
      invariant IsRect(g', rows, cols)
      invariant Painted(g, g', Elems(xs[..j]), v)
    {
      assert xs[..j + 1] == xs[..j] + [xs[j]];
      PutRect(g', rows, cols, xs[j], v);
      g' := Put(g', xs[j], v);
      j := j + 1;
    }
    assert xs[..j] == xs;
  }

  /** The cells claimed by the first nets: their routed cells and their pins. */
  function Claimed(routes: seq<seq<Cell>>, nets: seq<seq<Cell>>): set<Cell> {
    Elems(Flatten(routes)) + Elems(Flatten(nets))
  }

  /** One net's route avoids every cell claimed earlier except its own pins,
      and runs through cells that were free or its own pins. */
  ghost predicate NoShort(grid: Grid, routes: seq<seq<Cell>>, nets: seq<seq<Cell>>, k: int)
    requires 0 <= k < |routes| && k < |nets|
  {
    forall x :: x in routes[k] ==>
      x in nets[k] || (x !in Claimed(routes[..k], nets[..k]) && At(grid, x) == 0)
  }

  /** Adding one routed net to the claimed cells. */
  lemma ClaimedAppend(routes: seq<seq<Cell>>, nets: seq<seq<Cell>>, route: seq<Cell>, net: seq<Cell>)
    ensures Claimed(routes + [route], nets + [net]) == Claimed(routes, nets) + Elems(route) + Elems(net)
  {
    FlattenAppend(routes, route);
    FlattenAppend(nets, net);
  }

  /** The state of the logical grid after the first nets. */
  ghost predicate Booked(grid: Grid, logical: Grid, routes: seq<seq<Cell>>, nets: seq<seq<Cell>>) {
    forall x {:trigger At(logical, x)} :: At(logical, x) == if x in Claimed(routes, nets) then -1 else At(grid, x)
  }

  /** Routing one more net on the booked grid keeps the book. */
  lemma BookStep(grid: Grid, logical: Grid, routes: seq<seq<Cell>>, nets: seq<seq<Cell>>,
                 net: seq<Cell>, cells: seq<Cell>, marked: Grid, painted: Grid, done: Grid)
    requires Booked(grid, logical, routes, nets)
    requires forall x :: x in cells ==> x in net || At(logical, x) == 0
    requires Router.MarkedFrom(logical, marked, net, Elems(cells))
    requires Painted(marked, painted, Elems(cells), -1) && Painted(painted, done, Elems(net), -1)
    ensures Booked(grid, done, routes + [cells], nets + [net])
    ensures forall x :: x in cells ==> x in net || (x !in Claimed(routes, nets) && At(grid, x) == 0)
  {
    ClaimedAppend(routes, nets, cells, net);
    forall x | x in cells && x !in net
      ensures x !in Claimed(routes, nets) && At(grid, x) == 0
    {
      assert At(logical, x) == 0;
    }
    forall x
      ensures At(done, x) == if x in Claimed(routes + [cells], nets + [net]) then -1 else At(grid, x)
    {
      assert At(logical, x) == if x in Claimed(routes, nets) then -1 else At(grid, x);
      assert At(marked, x) == if x in cells && x !in net then 1 else At(logical, x);
      assert At(painted, x) == if x in cells then -1 else At(marked, x);
    }
  }

  /** Routes one net on the logical grid, then writes -1 on the returned cells
      and on the net's pins (Visualizer/funcWrapper.py:25-37). `cells` is what
      the router returns for the net on the logical grid and `segs` the paths
      it committed. */
  method RouteNet(grid: Grid, logical: Grid, rows: nat, cols: nat,
                  routes: seq<seq<Cell>>, nets: seq<seq<Cell>>, net: seq<Cell>)
    returns (done: Grid, cells: seq<Cell>, segs: seq<seq<Cell>>)
    requires IsRect(logical, rows, cols) && rows == |logical| && cols == Width(logical)
    requires forall j :: 0 <= j < |net| ==> Inside(net[j], rows, cols)
    requires Booked(grid, logical, routes, nets)
    ensures Lee.Routed(logical, net, cells, segs)
    ensures IsRect(done, rows, cols) && cols == Width(done)
    ensures Booked(grid, done, routes + [cells], nets + [net])
    ensures forall x :: x in cells ==> x in net || (x !in Claimed(routes, nets) && At(grid, x) == 0)
  {
    var marked;
    cells, marked, segs := Lee.Route(logical, net);
    if |net| <= 1 {
      assert cells == [] && marked == logical;
    }
    var painted := Paint(marked, rows, cols, cells, -1);
    done := Paint(painted, rows, cols, net, -1);
    BookStep(grid, logical, routes, nets, net, cells, marked, painted, done);
  }

  /** The route of the next net keeps every route so far short-free. */
  lemma NoShortExtend(grid: Grid, routes: seq<seq<Cell>>, nets: seq<seq<Cell>>, k: nat, cells: seq<Cell>)
    requires |routes| == k < |nets|
    requires forall i :: 0 <= i < k ==> NoShort(grid, routes, nets, i)
    requires forall x :: x in cells ==> x in nets[k] || (x !in Claimed(routes, nets[..k]) && At(grid, x) == 0)
    ensures forall i :: 0 <= i < k + 1 ==> NoShort(grid, routes + [cells], nets, i)
  {
    forall i | 0 <= i < k + 1
      ensures NoShort(grid, routes + [cells], nets, i)
    {
      assert (routes + [cells])[..i] == routes[..i];
      if i < k {
        assert NoShort(grid, routes, nets, i);
      }
    }
  }

  /** The filtered nets only hold pins of the layer. */
  lemma FilteredInside(nets: seq<seq<LayerPin>>, layer: int, rows: nat, cols: nat)
    requires forall j, p :: 0 <= j < |nets| && p in nets[j] && p.layer == layer ==> Inside(Cell(p.r, p.c), rows, cols)
    ensures forall k, x :: 0 <= k < |FilterNets(nets, layer)| && x in FilterNets(nets, layer)[k] ==> Inside(x, rows, cols)
  {
    var filtered := FilterNets(nets, layer);
    forall k, x | 0 <= k < |filtered| && x in filtered[k]
      ensures Inside(x, rows, cols)
    {
      var j :| 0 <= j < |nets| && filtered[k] == OnLayer(nets[j], layer);
      assert LayerPin(layer, x.r, x.c) in nets[j];
    }
  }

  /** The logical grid each of `nets` was routed on: the input grid with the
      cells claimed by the nets before it set to -1. */
  ghost predicate Stages(grid: Grid, routes: seq<seq<Cell>>, nets: seq<seq<Cell>>, stages: seq<Grid>)
    requires |stages| <= |routes| && |stages| <= |nets|
  {
    forall k :: 0 <= k < |stages| ==>
      IsRect(stages[k], |grid|, Width(grid)) && Booked(grid, stages[k], routes[..k], nets[..k])
  }

  /** The loop of `update_grid` over already filtered nets
      (Visualizer/funcWrapper.py:24-39). `stages[k]` is the logical grid the
      `k`-th net is routed on, and `routes[k]` is what the router returns for
      it there, with `runs[k]` the paths it committed. */
  method RouteAll(grid: Grid, nets: seq<seq<Cell>>, pins: seq<Cell>)
    returns (logical: Grid, routes: seq<seq<Cell>>, pins': seq<Cell>, stages: seq<Grid>, runs: seq<seq<seq<Cell>>>)
    requires IsRect(grid, |grid|, Width(grid))
    requires forall k, x :: 0 <= k < |nets| && x in nets[k] ==> Inside(x, |grid|, Width(grid))
    ensures |routes| == |nets| == |stages| == |runs|
    ensures Stages(grid, routes, nets, stages)
    ensures forall k :: 0 <= k < |nets| ==> Lee.Routed(stages[k], nets[k], routes[k], runs[k])
    ensures pins' == pins + Flatten(nets)
    ensures Booked(grid, logical, routes, nets)
    ensures forall k :: 0 <= k < |routes| ==> NoShort(grid, routes, nets, k)
  {
    var rows, cols := |grid|, Width(grid);
    logical, routes, stages, runs := grid, [], [], [];
    assert Booked(grid, logical, routes, nets[..0]) by {
      assert Claimed([], []) == {};
    }
    var k := 0;
    while k < |nets|
      invariant 0 <= k <= |nets| && |routes| == |stages| == |runs| == k
      invariant IsRect(logical, rows, cols) && rows == |logical| && cols == Width(logical)
      invariant Booked(grid, logical, routes, nets[..k])
      invariant Stages(grid, routes, nets, stages)
      invariant AllRouted(stages, nets, routes, runs)
      invariant forall i :: 0 <= i < k ==> NoShort(grid, routes, nets, i)
    {
      var net := nets[k];
      var done, cells, segs := RouteNet(grid, logical, rows, cols, routes, nets[..k], net);
      NoShortExtend(grid, routes, nets, k, cells);
      StagesExtend(grid, routes, nets, stages, logical, cells);
      AllRoutedExtend(stages, nets, routes, runs, logical, cells, segs);
      TakeNext(nets, k);
      logical, routes, stages, runs := done, routes + [cells], stages + [logical], runs + [segs];
      k := k + 1;
    }
    RoutedEach(stages, nets, routes, runs);
    assert nets[..k] == nets;
    // Each net's pins are appended after it is routed; routing never reads
    // them, so they are collected in the same order once routing is done.
    pins' := AppendPins(pins, nets);
  }

  /** `self.pins.append((x, y))` for every pin of every net, in order
      (Visualizer/funcWrapper.py:36-39). */
  method AppendPins(pins: seq<Cell>, nets: seq<seq<Cell>>) returns (pins': seq<Cell>)
    ensures pins' == pins + Flatten(nets)
  {
    pins' := pins;
    var j := 0;
    while j < |nets|
      invariant 0 <= j <= |nets| && pins' == pins + Flatten(nets[..j])
    {
      TakeNext(nets, j);
      FlattenAppend(nets[..j], nets[j]);
      pins' := pins' + nets[j];
      j := j + 1;
    }
    assert nets[..j] == nets;
  }

  /** Every net's route so far is what the router returns for it on its
      stage, stated one net at a time from the last. */
  ghost predicate AllRouted(stages: seq<Grid>, nets: seq<seq<Cell>>, routes: seq<seq<Cell>>, runs: seq<seq<seq<Cell>>>)
    requires |stages| == |routes| == |runs| <= |nets|
    decreases |stages|
  {
    stages == [] ||
    var n := |stages| - 1;
    AllRouted(stages[..n], nets, routes[..n], runs[..n]) && Lee.Routed(stages[n], nets[n], routes[n], runs[n])
  }

  /** Routing the next net on its stage extends the routed prefix. */
  lemma AllRoutedExtend(stages: seq<Grid>, nets: seq<seq<Cell>>, routes: seq<seq<Cell>>, runs: seq<seq<seq<Cell>>>,
                        logical: Grid, cells: seq<Cell>, segs: seq<seq<Cell>>)
    requires |stages| == |routes| == |runs| < |nets|
    requires AllRouted(stages, nets, routes, runs)
    requires Lee.Routed(logical, nets[|stages|], cells, segs)
    ensures AllRouted(stages + [logical], nets, routes + [cells], runs + [segs])
  {
    var n := |stages|;
    assert (stages + [logical])[..n] == stages;
    assert (routes + [cells])[..n] == routes;
    assert (runs + [segs])[..n] == runs;
  }

  /** Each net of a routed prefix was routed on its own stage. */
  lemma {:induction false} RoutedAt(stages: seq<Grid>, nets: seq<seq<Cell>>, routes: seq<seq<Cell>>, runs: seq<seq<seq<Cell>>>, k: nat)
    requires |stages| == |routes| == |runs| <= |nets| && k < |stages|
    requires AllRouted(stages, nets, routes, runs)
    ensures Lee.Routed(stages[k], nets[k], routes[k], runs[k])
    decreases |stages|
  {
    var n := |stages| - 1;
    if k < n {
      RoutedAt(stages[..n], nets, routes[..n], runs[..n], k);
      assert stages[..n][k] == stages[k] && routes[..n][k] == routes[k] && runs[..n][k] == runs[k];
    }
  }

  /** The routed prefix, net by net. */
  lemma RoutedEach(stages: seq<Grid>, nets: seq<seq<Cell>>, routes: seq<seq<Cell>>, runs: seq<seq<seq<Cell>>>)
    requires |stages| == |routes| == |runs| <= |nets|
    requires AllRouted(stages, nets, routes, runs)
    ensures forall k :: 0 <= k < |stages| ==> Lee.Routed(stages[k], nets[k], routes[k], runs[k])
  {
    forall k | 0 <= k < |stages|
      ensures Lee.Routed(stages[k], nets[k], routes[k], runs[k])
    {
      RoutedAt(stages, nets, routes, runs, k);
    }
  }

  /** Routing the next net adds the grid it was routed on as the next stage. */
  lemma StagesExtend(grid: Grid, routes: seq<seq<Cell>>, nets: seq<seq<Cell>>, stages: seq<Grid>,
                     logical: Grid, cells: seq<Cell>)
    requires |routes| == |stages| < |nets|
    requires Stages(grid, routes, nets, stages)
    requires IsRect(logical, |grid|, Width(grid)) && Booked(grid, logical, routes, nets[..|routes|])
    ensures Stages(grid, routes + [cells], nets, stages + [logical])
  {
    var routes', stages' := routes + [cells], stages + [logical];
    forall k | 0 <= k < |stages'|
      ensures IsRect(stages'[k], |grid|, Width(grid)) && Booked(grid, stages'[k], routes'[..k], nets[..k])
    {
      assert routes'[..k] == routes[..k];
      if k == |stages| {
        assert routes[..k] == routes;
      }
    }
  }

  /**
    The logical part of `update_grid` (Visualizer/funcWrapper.py:16-39): the
    nets on `layer` are routed in list order on one logical copy of that
    layer. After each net its returned cells and its pins become -1, and its
    pins are appended to `pins`. `routes[k]` is what the router returns for
    the `k`-th filtered net on `stages[k]`, the layer with the cells claimed
    by the nets before it set to -1. No route passes a cell claimed by an
    earlier net other than its own pins, and the final logical grid is the
    layer with exactly the claimed cells set to -1.
   */
  method UpdateGrid(grid3: seq<Grid>, layer: int, nets: seq<seq<LayerPin>>, pins: seq<Cell>)
    returns (logical: Grid, routes: seq<seq<Cell>>, pins': seq<Cell>, stages: seq<Grid>, runs: seq<seq<seq<Cell>>>)
    requires 0 <= layer < |grid3| && IsRect(grid3[layer], |grid3[layer]|, Width(grid3[layer]))
    requires forall j, p :: 0 <= j < |nets| && p in nets[j] && p.layer == layer ==>
      Inside(Cell(p.r, p.c), |grid3[layer]|, Width(grid3[layer]))
    ensures |routes| == |FilterNets(nets, layer)| == |stages| == |runs|
    ensures Stages(grid3[layer], routes, FilterNets(nets, layer), stages)
    ensures forall k :: 0 <= k < |routes| ==> Lee.Routed(stages[k], FilterNets(nets, layer)[k], routes[k], runs[k])
    ensures pins' == pins + Flatten(FilterNets(nets, layer))
    ensures Booked(grid3[layer], logical, routes, FilterNets(nets, layer))
    ensures forall k :: 0 <= k < |routes| ==> NoShort(grid3[layer], routes, FilterNets(nets, layer), k)
  {
    FilteredInside(nets, layer, |grid3[layer]|, Width(grid3[layer]));
    logical, routes, pins', stages, runs := RouteAll(grid3[layer], FilterNets(nets, layer), pins);
  }
}
