/**
  Cells, 2-D integer grids and 4-neighbour moves, shared by the search, the
  router and the grid bookkeeping.
 */
module Grids {

  /** A grid coordinate `(row, col)`. */
  datatype Cell = Cell(r: int, c: int)

  /** A grid of integer cell values indexed `[row][col]`: 0 free, -1 obstacle, 1 routed. */
  type Grid = seq<seq<int>>

  /** `g` has exactly `rows` rows of `cols` values each. */
  predicate IsRect(g: Grid, rows: nat, cols: nat) {
    |g| == rows && forall i :: 0 <= i < rows ==> |g[i]| == cols
  }

  /** The number of columns, read off the first row as the source does. */
  function Width(g: Grid): nat {
    if |g| == 0 then 0 else |g[0]|
  }

  predicate Inside(x: Cell, rows: int, cols: int) {
    0 <= x.r < rows && 0 <= x.c < cols
  }

  /** The value at `x`; reads outside the grid give 0 so that predicates over
      cells stay total (the routines below only read inside cells). */
  function At(g: Grid, x: Cell): int {
    if 0 <= x.r < |g| && 0 <= x.c < |g[x.r]| then g[x.r][x.c] else 0
  }

  /** `g` with the value at `x` replaced by `v`; every other cell keeps its value. */
  function Put(g: Grid, x: Cell, v: int): (g': Grid)
    requires 0 <= x.r < |g| && 0 <= x.c < |g[x.r]|
    ensures |g'| == |g| && forall i :: 0 <= i < |g| ==> |g'[i]| == |g[i]|
    ensures At(g', x) == v
    ensures forall y {:trigger At(g', y)} :: y != x ==> At(g', y) == At(g, y)
  {
    g[x.r := g[x.r][x.c := v]]
  }

  lemma PutRect(g: Grid, rows: nat, cols: nat, x: Cell, v: int)
    requires IsRect(g, rows, cols) && Inside(x, rows, cols)
    ensures IsRect(Put(g, x, v), rows, cols)
  {
  }

  /** The four moves in the order the router tries them: right, left, down, up. */
  function Dir(i: int): Cell
    requires 0 <= i < 4
  {
    if i == 0 then Cell(0, 1)
    else if i == 1 then Cell(0, -1)
    else if i == 2 then Cell(1, 0)
    else Cell(-1, 0)
  }

  /** The cell one move `i` away from `x`. */
  function Neighbor(x: Cell, i: int): Cell
    requires 0 <= i < 4
  {
    Cell(x.r + Dir(i).r, x.c + Dir(i).c)
  }

  /** The move that undoes move `i`. */
  function Back(i: int): (j: int)
    requires 0 <= i < 4
    ensures 0 <= j < 4
  {
    if i == 0 then 1 else if i == 1 then 0 else if i == 2 then 3 else 2
  }

  function Abs(n: int): nat {
    if n < 0 then -n else n
  }

  /** Manhattan (rectilinear) distance between two cells. */
  function Manhattan(a: Cell, b: Cell): nat {
    Abs(a.r - b.r) + Abs(a.c - b.c)
  }

  /** `a` and `b` are 4-neighbours. */
  predicate Adjacent(a: Cell, b: Cell) {
    Manhattan(a, b) == 1
  }

  /** Moving away and back returns to the start. */
  lemma NeighborBack(x: Cell, i: int)
    requires 0 <= i < 4
    ensures Neighbor(Neighbor(x, i), Back(i)) == x
  {
  }

  /** The four moves reach exactly the 4-neighbours of a cell. */
  lemma AdjacentIsNeighbor(a: Cell, b: Cell)
    ensures Adjacent(a, b) <==> exists i :: 0 <= i < 4 && b == Neighbor(a, i)
  {
    if Adjacent(a, b) {
      if b.r == a.r && b.c == a.c + 1 {
        assert b == Neighbor(a, 0);
      } else if b.r == a.r && b.c == a.c - 1 {
        assert b == Neighbor(a, 1);
      } else if b.r == a.r + 1 {
        assert b == Neighbor(a, 2);
      } else {
        assert b == Neighbor(a, 3);
      }
    }
  }

  function Last<T>(s: seq<T>): T
    requires |s| > 0
  {
    s[|s| - 1]
  }

  /** A prefix one longer is the prefix and the next element. */
  lemma TakeNext<T>(s: seq<T>, k: nat)
    requires k < |s|
    ensures s[..k + 1] == s[..k] + [s[k]]
  {
  }

  /** The set of elements of a sequence. */
  function Elems<T>(s: seq<T>): set<T> {
    set x | x in s
  }

  /** A sequence has at least as many positions as distinct elements. */
  lemma {:induction false} ElemsSize<T>(s: seq<T>)
    ensures |Elems(s)| <= |s|
    decreases |s|
  {
    if s != [] {
      var s' := s[..|s| - 1];
      assert Elems(s) == Elems(s') + {Last(s)} by {
        assert s == s' + [Last(s)];
      }
      ElemsSize(s');
    }
  }

  /** The concatenation of a sequence of sequences, in order. */
  function Flatten<T>(ss: seq<seq<T>>): seq<T> {
    if ss == [] then [] else Flatten(ss[..|ss| - 1]) + Last(ss)
  }

  lemma FlattenAppend<T>(ss: seq<seq<T>>, s: seq<T>)
    ensures Flatten(ss + [s]) == Flatten(ss) + s
  {
    assert (ss + [s])[..|ss|] == ss;
  }

  lemma {:induction false} FlattenConcat<T>(a: seq<seq<T>>, b: seq<seq<T>>)
    ensures Flatten(a + b) == Flatten(a) + Flatten(b)
    decreases |b|
  {
    if b == [] {
      assert a + b == a;
    } else {
      var b' := b[..|b| - 1];
      assert a + b == (a + b') + [Last(b)];
      assert b == b' + [Last(b)];
      FlattenAppend(a + b', Last(b));
      FlattenConcat(a, b');
      FlattenAppend(b', Last(b));
    }
  }

  /** The concatenation starts with the first part. */
  lemma {:induction false} FlattenHead<T>(ss: seq<seq<T>>)
    requires |ss| >= 1
    ensures Flatten(ss) == ss[0] + Flatten(ss[1..])
  {
    assert [ss[0]] + ss[1..] == ss;
    FlattenConcat([ss[0]], ss[1..]);
    assert [ss[0]][..0] == [];
  }

  /** Every element of the flattening lies in one of the parts, and conversely. */
  lemma {:induction false} InFlatten<T>(ss: seq<seq<T>>, x: T)
    ensures x in Flatten(ss) <==> exists i :: 0 <= i < |ss| && x in ss[i]
    decreases |ss|
  {
    if ss != [] {
      var ss' := ss[..|ss| - 1];
      assert ss == ss' + [Last(ss)];
      FlattenAppend(ss', Last(ss));
      InFlatten(ss', x);
      if x in Flatten(ss') {
        var i :| 0 <= i < |ss'| && x in ss'[i];
        assert ss[i] == ss'[i];
      }
      if exists i :: 0 <= i < |ss| && x in ss[i] {
        var i :| 0 <= i < |ss| && x in ss[i];
        if i < |ss'| {
          assert ss'[i] == ss[i];
        }
      }
    }
  }

  /** The grid of `rows` x `cols` cells that all hold `v`. */
  function Filled(rows: nat, cols: nat, v: int): (g: Grid)
    ensures IsRect(g, rows, cols)
    ensures forall x {:trigger At(g, x)} :: Inside(x, rows, cols) ==> At(g, x) == v
  {
    seq(rows, _ => seq(cols, _ => v))
  }
}
