/**
  The two input-file readers (file_handling.py and Visualizer/file_handling.py)
  over lines whose tuple text is already decoded. A file is a header line
  "RxC" followed by obstacle lines ("OBS ...", any case) and net lines
  ("net ...", any case). The top-level reader builds one grid, or two
  when some pin lies on layer 1; the visualizer's reader always builds one.
 */
module FileHandling {
  import opened Wrappers
  import opened Grids
  import opened Text
  import FuncWrapper

  type LayerPin = FuncWrapper.LayerPin

  /** One line of a file as `readlines` gives it. `obstacle` is what `eval`
      makes of an obstacle line's tuple and `pins` what it makes of a net
      line's tuple list; the readers look at them only for lines of that kind. */
  datatype Line = Line(text: string, obstacle: Cell, pins: seq<LayerPin>)

  /** Why a reader raises instead of returning. */
  datatype Fault =
    | NoLines          // `lines[0]` of an empty file
    | BadHeader        // the header is not two integers around an 'x'
    | NoNetBody        // a net line with nothing after its first space
    | OffGrid(at: Cell) // an obstacle index Python rejects

  // ---------------------------------------------------------------------------
  // Line classification
  // ---------------------------------------------------------------------------

  /** `x.upper().startswith("OBS")`. */
  predicate IsObsLine(t: string) {
    StartsWith(Upper(t), "OBS")
  }

  /** `z.lower().startswith('net')`. */
  predicate IsNetLine(t: string) {
    StartsWith(Lower(t), "net")
  }

  /** The obstacle prefix is matched in any case: changing the case of a line
      does not change whether it is an obstacle line. */
  lemma ObsLineCaseBlind(t: string)
    ensures IsObsLine(Lower(t)) <==> IsObsLine(t)
    ensures IsObsLine(Upper(t)) <==> IsObsLine(t)
  {
    if |t| >= 3 {
      assert Upper(Lower(t))[..3] == Upper(t)[..3] by {
        forall i | 0 <= i < 3
          ensures Upper(Lower(t))[i] == Upper(t)[i]
        {
        }
      }
      assert Upper(Upper(t))[..3] == Upper(t)[..3] by {
        forall i | 0 <= i < 3
          ensures Upper(Upper(t))[i] == Upper(t)[i]
        {
        }
      }
    }
  }

  /** The net prefix is matched in any case as well. */
  lemma NetLineCaseBlind(t: string)
    ensures IsNetLine(Upper(t)) <==> IsNetLine(t)
    ensures IsNetLine(Lower(t)) <==> IsNetLine(t)
  {
    if |t| >= 3 {
      assert Lower(Upper(t))[..3] == Lower(t)[..3] by {
        forall i | 0 <= i < 3
          ensures Lower(Upper(t))[i] == Lower(t)[i]
        {
        }
      }
      assert Lower(Lower(t))[..3] == Lower(t)[..3] by {
        forall i | 0 <= i < 3
          ensures Lower(Lower(t))[i] == Lower(t)[i]
        {
        }
      }
    }
  }

  /** No line is both an obstacle line and a net line. */
  lemma ObsNotNet(t: string)
    ensures !(IsObsLine(t) && IsNetLine(t))
  {
    if IsObsLine(t) {
      assert Upper(t)[..3][0] == 'O';
      assert Lower(t)[0] == 'o';
    }
  }

  /** `split(' ', 1)[1]` exists: the stripped line has a space. */
  predicate HasBody(t: string) {
    ' ' in Strip(t)
  }

  // ---------------------------------------------------------------------------
  // Collecting obstacles and nets
  // ---------------------------------------------------------------------------

  /** The obstacles of the obstacle lines, in file order. */
  function Obstacles(lines: seq<Line>): (obs: seq<Cell>)
    ensures |obs| <= |lines|
    ensures forall x :: x in obs <==> exists k :: 0 <= k < |lines| && IsObsLine(lines[k].text) && lines[k].obstacle == x
    decreases |lines|
  {
    if lines == [] then []
    else
      var init := lines[..|lines| - 1];
      var rest := Obstacles(init);
      assert forall l :: l in lines <==> l in init || l == Last(lines) by {
        assert lines == init + [Last(lines)];
      }
      assert forall k :: 0 <= k < |init| ==> init[k] == lines[k];
      if IsObsLine(Last(lines).text) then rest + [Last(lines).obstacle] else rest
  }

  /** Collecting obstacles from two runs of lines collects each in turn, so
      file order is kept. */
  lemma {:induction false} ObstaclesAppend(a: seq<Line>, b: seq<Line>)
    ensures Obstacles(a + b) == Obstacles(a) + Obstacles(b)
    decreases |b|
  {
    if b == [] {
      assert a + b == a;
    } else {
      var b' := b[..|b| - 1];
      assert (a + b)[..|a + b| - 1] == a + b';
      assert Last(a + b) == Last(b);
      ObstaclesAppend(a, b');
    }
  }

  /** The pin lists of the net lines, in file order. */
  function NetList(lines: seq<Line>): (nets: seq<seq<LayerPin>>)
    ensures |nets| <= |lines|
    ensures forall n :: n in nets <==> exists k :: 0 <= k < |lines| && IsNetLine(lines[k].text) && lines[k].pins == n
    decreases |lines|
  {
    if lines == [] then []
    else
      var init := lines[..|lines| - 1];
      var rest := NetList(init);
      assert forall l :: l in lines <==> l in init || l == Last(lines) by {
        assert lines == init + [Last(lines)];
      }
      assert forall k :: 0 <= k < |init| ==> init[k] == lines[k];
      if IsNetLine(Last(lines).text) then rest + [Last(lines).pins] else rest
  }

  /** Collecting nets from two runs of lines collects each in turn. */
  lemma {:induction false} NetListAppend(a: seq<Line>, b: seq<Line>)
    ensures NetList(a + b) == NetList(a) + NetList(b)
    decreases |b|
  {
    if b == [] {
      assert a + b == a;
    } else {
      var b' := b[..|b| - 1];
      assert (a + b)[..|a + b| - 1] == a + b';
      assert Last(a + b) == Last(b);
      NetListAppend(a, b');
    }
  }

  /** Every net line has a body after its first space. */
  predicate NetBodies(lines: seq<Line>) {
    forall k :: 0 <= k < |lines| && IsNetLine(lines[k].text) ==> HasBody(lines[k].text)
  }

  /** The net loop of both readers: the nets in file order, or the fault of a
      net line without a body. */
  function Nets(lines: seq<Line>): Result<seq<seq<LayerPin>>, Fault> {
    if NetBodies(lines) then Ok(NetList(lines)) else Err(NoNetBody)
  }

  /** `multiLayer` after the net loop (file_handling.py:29-32): once a pin on
      layer 1 is seen the later nets are not looked at. */
  function MultiLayer(nets: seq<seq<LayerPin>>): (m: bool)
    ensures m <==> exists i, j :: 0 <= i < |nets| && 0 <= j < |nets[i]| && nets[i][j].layer == 1
    decreases |nets|
  {
    if nets == [] then false
    else
      var init := nets[..|nets| - 1];
      var m := MultiLayer(init);
      assert forall i :: 0 <= i < |init| ==> init[i] == nets[i];
      if m then true
      else
        assert Last(nets) == nets[|nets| - 1];
        exists j :: 0 <= j < |Last(nets)| && Last(nets)[j].layer == 1
  }

  // ---------------------------------------------------------------------------
  // The header
  // ---------------------------------------------------------------------------

  /** `map(int, line.strip().lower().split('x'))` unpacked into `rows, cols`. */
  function ParseHeader(line: string): Result<(int, int), Fault> {
    var parts := Split(Lower(Strip(line)), 'x');
    if |parts| != 2 then Err(BadHeader)
    else
      match (ParseInt(parts[0]), ParseInt(parts[1]))
      case (Some(rows), Some(cols)) => Ok((rows, cols))
      case _ => Err(BadHeader)
  }

  /** A header written as `str(rows) + sep + str(cols)`, with either case of
      'x', reads back as `(rows, cols)`. */
  lemma HeaderRoundTrip(rows: int, cols: int, sep: char)
    requires sep == 'x' || sep == 'X'
    ensures ParseHeader(ShowInt(rows) + [sep] + ShowInt(cols)) == Ok((rows, cols))
  {
    var a, b := ShowInt(rows), ShowInt(cols);
    ShowIntPlain(rows);
    ShowIntPlain(cols);
    HeaderText(a, b, sep);
    SplitTwo(a, b, 'x');
    ParseShow(rows);
    ParseShow(cols);
  }

  /** Two lower-case words without surrounding space, joined by either 'x',
      strip and lower to the join by 'x'. */
  lemma HeaderText(a: string, b: string, sep: char)
    requires sep == 'x' || sep == 'X'
    requires |a| > 0 && |b| > 0 && !IsSpace(a[0]) && !IsSpace(Last(b))
    requires Lower(a) == a && Lower(b) == b
    ensures Lower(Strip(a + [sep] + b)) == a + ['x'] + b
  {
    var s := a + [sep] + b;
    assert s[0] == a[0] && Last(s) == Last(b);
    StripKeeps(s);
    var plain := a + ['x'] + b;
    forall i | 0 <= i < |s|
      ensures Lower(s)[i] == plain[i]
    {
      if i < |a| {
        assert s[i] == a[i] && !IsUpper(Lower(a)[i]);
      } else if i > |a| {
        assert s[i] == b[i - |a| - 1] && !IsUpper(Lower(b)[i - |a| - 1]);
      }
    }
  }

  /** A header with no 'x' in either case is rejected. */
  lemma HeaderNeedsX(line: string)
    requires 'x' !in Lower(Strip(line))
    ensures ParseHeader(line) == Err(BadHeader)
  {
    SplitNone(Lower(Strip(line)), 'x');
  }

  // ---------------------------------------------------------------------------
  // Grids and obstacle placement
  // ---------------------------------------------------------------------------

  function Max0(n: int): nat {
    if n < 0 then 0 else n
  }

  /** Python's index `i` into a list of length `n`: negative indices count from
      the end; anything outside `-n..n-1` raises `IndexError`. */
  function PyIndex(i: int, n: nat): (r: Option<nat>)
    ensures r.Some? <==> -(n as int) <= i < n
    ensures r.Some? ==> r.value < n && r.value == i % n
  {
    if 0 <= i < n then Some(i) else if -(n as int) <= i < 0 then Some(i + n) else None
  }

  /** The cell `grid[x][y]` names in a `rows` x `cols` grid, if any. */
  function Wrap(x: Cell, rows: nat, cols: nat): (y: Option<Cell>)
    ensures y.Some? ==> Inside(y.value, rows, cols)
  {
    match (PyIndex(x.r, rows), PyIndex(x.c, cols))
    case (Some(r), Some(c)) => Some(Cell(r, c))
    case _ => None
  }

  /** `for x, y in obs: grid[x][y] = -1`, stopping at the first obstacle
      Python cannot index. */
  function PlaceObstacles(g: Grid, rows: nat, cols: nat, obs: seq<Cell>): Result<Grid, Fault>
    requires IsRect(g, rows, cols)
    decreases |obs|
  {
    if obs == [] then Ok(g)
    else
      match Wrap(obs[0], rows, cols)
      case None => Err(OffGrid(obs[0]))
      case Some(y) =>
        PutRect(g, rows, cols, y, -1);
        PlaceObstacles(Put(g, y, -1), rows, cols, obs[1..])
  }

  /** Some obstacle of `obs` lands on `y`. */
  predicate Hit(obs: seq<Cell>, rows: nat, cols: nat, y: Cell) {
    exists k :: 0 <= k < |obs| && Wrap(obs[k], rows, cols) == Some(y)
  }

  /** Every obstacle on the grid. */
  predicate AllOnGrid(obs: seq<Cell>, rows: nat, cols: nat) {
    forall k :: 0 <= k < |obs| ==> Wrap(obs[k], rows, cols).Some?
  }

  /** Placement succeeds exactly when every obstacle is on the grid, and then
      the grid keeps its shape, each obstacle cell holds -1 and every other
      cell keeps its value. Otherwise the fault names the first obstacle off
      the grid. */
  lemma {:induction false} PlaceObstaclesSpec(g: Grid, rows: nat, cols: nat, obs: seq<Cell>)
    requires IsRect(g, rows, cols)
    ensures PlaceObstacles(g, rows, cols, obs).Ok? <==> AllOnGrid(obs, rows, cols)
    ensures PlaceObstacles(g, rows, cols, obs).Err? ==>
      exists k :: 0 <= k < |obs| && Wrap(obs[k], rows, cols).None? && AllOnGrid(obs[..k], rows, cols)
        && PlaceObstacles(g, rows, cols, obs).error == OffGrid(obs[k])
    ensures PlaceObstacles(g, rows, cols, obs).Ok? ==>
      var g' := PlaceObstacles(g, rows, cols, obs).value;
      && IsRect(g', rows, cols)
      && forall y {:trigger At(g', y)} :: At(g', y) == (if Hit(obs, rows, cols, y) then -1 else At(g, y))
    decreases |obs|
  {
    if obs != [] {
      var rest := obs[1..];
      assert forall k :: 0 <= k < |rest| ==> rest[k] == obs[k + 1];
      match Wrap(obs[0], rows, cols)
      case None =>
        assert obs[..0] == [];
      case Some(y) =>
        var h := Put(g, y, -1);
        PutRect(g, rows, cols, y, -1);
        PlaceObstaclesSpec(h, rows, cols, rest);
        if PlaceObstacles(g, rows, cols, obs).Err? {
          var k :| 0 <= k < |rest| && Wrap(rest[k], rows, cols).None? && AllOnGrid(rest[..k], rows, cols)
            && PlaceObstacles(h, rows, cols, rest).error == OffGrid(rest[k]);
          forall j | 0 <= j < k + 1
            ensures Wrap(obs[j], rows, cols).Some?
          {
            if j > 0 {
              assert obs[j] == rest[..k][j - 1];
            }
          }
          assert Wrap(obs[k + 1], rows, cols).None?;
        } else {
          var g' := PlaceObstacles(g, rows, cols, obs).value;
          forall y' | true
            ensures At(g', y') == (if Hit(obs, rows, cols, y') then -1 else At(g, y'))
          {
            if Hit(rest, rows, cols, y') {
              var k :| 0 <= k < |rest| && Wrap(rest[k], rows, cols) == Some(y');
              assert Wrap(obs[k + 1], rows, cols) == Some(y');
            } else if y' == y {
              assert Wrap(obs[0], rows, cols) == Some(y');
            }
          }
        }
    }
  }

  /** The grids of both readers before obstacles: `rows` lists of `cols`
      zeros, where a negative count gives an empty list. */
  function Blank(size: (int, int)): Grid {
    Filled(Max0(size.0), Max0(size.1), 0)
  }

  // ---------------------------------------------------------------------------
  // The two readers
  // ---------------------------------------------------------------------------

  /** What the top-level reader returns: one grid per layer, and the nets. */
  datatype Layout = Layout(grids: seq<Grid>, nets: seq<seq<LayerPin>>)

  /** `input_file` (file_handling.py:1-55). The header is read first, then the
      obstacles and the nets of the remaining lines. With a pin on layer 1
      there are two grids and the first half (rounded down) of the obstacles
      go to layer 0, the rest to layer 1. */
  function InputFile(lines: seq<Line>): Result<Layout, Fault> {
    if lines == [] then Err(NoLines)
    else
      var size :- ParseHeader(lines[0].text);
      var body := lines[1..];
      var obs := Obstacles(body);
      var nets :- Nets(body);
      var grids :- Layers(size, obs, MultiLayer(nets));
      Ok(Layout(grids, nets))
  }

  /** The grids of the top-level reader (file_handling.py:36-53): one, or two
      with the first half of the obstacles (rounded down) on the first. */
  function Layers(size: (int, int), obs: seq<Cell>, multi: bool): Result<seq<Grid>, Fault> {
    var blank := Blank(size);
    var rows, cols := Max0(size.0), Max0(size.1);
    if multi then
      var g0 :- PlaceObstacles(blank, rows, cols, obs[..|obs| / 2]);
      var g1 :- PlaceObstacles(blank, rows, cols, obs[|obs| / 2..]);
      Ok([g0, g1])
    else
      var g :- PlaceObstacles(blank, rows, cols, obs);
      Ok([g])
  }

  /** The layers are built exactly when every obstacle is on the grid; each
      obstacle is then marked on the layer its half belongs to. */
  lemma LayersSpec(size: (int, int), obs: seq<Cell>, multi: bool)
    ensures var rows, cols := Max0(size.0), Max0(size.1);
      Layers(size, obs, multi).Ok? <==> AllOnGrid(obs, rows, cols)
    ensures var rows, cols := Max0(size.0), Max0(size.1);
      Layers(size, obs, multi).Ok? && !multi ==>
        |Layers(size, obs, multi).value| == 1 && Placed(Layers(size, obs, multi).value[0], obs, rows, cols)
    ensures var rows, cols, half := Max0(size.0), Max0(size.1), |obs| / 2;
      Layers(size, obs, multi).Ok? && multi ==>
        && |Layers(size, obs, multi).value| == 2
        && Placed(Layers(size, obs, multi).value[0], obs[..half], rows, cols)
        && Placed(Layers(size, obs, multi).value[1], obs[half..], rows, cols)
  {
    var half := |obs| / 2;
    PlaceOnBlank(size, obs);
    PlaceOnBlank(size, obs[..half]);
    PlaceOnBlank(size, obs[half..]);
    SplitOnGrid(obs, half, Max0(size.0), Max0(size.1));
  }

  /** `input_file` (Visualizer/file_handling.py:1-36). The nets are collected
      before the header is parsed; there is always exactly one grid. */
  function InputFileSingle(lines: seq<Line>): Result<(Grid, seq<seq<LayerPin>>), Fault> {
    if lines == [] then Err(NoLines)
    else
      var body := lines[1..];
      var obs := Obstacles(body);
      var nets :- Nets(body);
      var size :- ParseHeader(lines[0].text);
      var g :- PlaceObstacles(Blank(size), Max0(size.0), Max0(size.1), obs);
      Ok((g, nets))
  }

  /** A file is readable when it has a header of two integers, every net line
      has a body and every obstacle lands on the grid. */
  predicate Readable(lines: seq<Line>) {
    && lines != []
    && ParseHeader(lines[0].text).Ok?
    && NetBodies(lines[1..])
    && var size := ParseHeader(lines[0].text).value;
       AllOnGrid(Obstacles(lines[1..]), Max0(size.0), Max0(size.1))
  }

  /** `g` is a `rows` x `cols` grid in which the cells hit by `obs` hold -1
      and every other cell holds 0. */
  ghost predicate Placed(g: Grid, obs: seq<Cell>, rows: nat, cols: nat) {
    && IsRect(g, rows, cols)
    && forall y {:trigger At(g, y)} :: Inside(y, rows, cols) ==> At(g, y) == (if Hit(obs, rows, cols, y) then -1 else 0)
  }

  /** Placing obstacles on a blank grid succeeds when they are all on the
      grid and leaves exactly them marked. */
  lemma PlaceOnBlank(size: (int, int), obs: seq<Cell>)
    ensures PlaceObstacles(Blank(size), Max0(size.0), Max0(size.1), obs).Ok? <==> AllOnGrid(obs, Max0(size.0), Max0(size.1))
    ensures PlaceObstacles(Blank(size), Max0(size.0), Max0(size.1), obs).Ok? ==>
      Placed(PlaceObstacles(Blank(size), Max0(size.0), Max0(size.1), obs).value, obs, Max0(size.0), Max0(size.1))
  {
    PlaceObstaclesSpec(Blank(size), Max0(size.0), Max0(size.1), obs);
  }

  /** The header's size, on a file whose header parses. */
  function Size(lines: seq<Line>): (int, int)
    requires lines != [] && ParseHeader(lines[0].text).Ok?
  {
    ParseHeader(lines[0].text).value
  }

  /** The top-level reader accepts exactly the readable files, and returns
      the nets of the net lines in file order. */
  lemma InputFileAccepts(lines: seq<Line>)
    ensures InputFile(lines).Ok? <==> Readable(lines)
    ensures InputFile(lines).Ok? ==> InputFile(lines).value.nets == NetList(lines[1..])
  {
    if lines != [] && ParseHeader(lines[0].text).Ok? && NetBodies(lines[1..]) {
      LayersSpec(Size(lines), Obstacles(lines[1..]), MultiLayer(NetList(lines[1..])));
    }
  }

  /** What a successful top-level read is made of. */
  lemma InputFileValue(lines: seq<Line>)
    requires InputFile(lines).Ok?
    ensures lines != [] && ParseHeader(lines[0].text).Ok? && NetBodies(lines[1..])
    ensures var layers := Layers(Size(lines), Obstacles(lines[1..]), MultiLayer(NetList(lines[1..])));
      layers.Ok? && InputFile(lines).value == Layout(layers.value, NetList(lines[1..]))
  {
  }

  /** Without a pin on layer 1 the top-level reader returns one grid of the
      header's shape in which exactly the obstacle cells hold -1. */
  lemma InputFileOneLayer(lines: seq<Line>)
    requires InputFile(lines).Ok? && !MultiLayer(InputFile(lines).value.nets)
    ensures |InputFile(lines).value.grids| == 1
    ensures Placed(InputFile(lines).value.grids[0], Obstacles(lines[1..]), Max0(Size(lines).0), Max0(Size(lines).1))
  {
    InputFileValue(lines);
    LayersSpec(Size(lines), Obstacles(lines[1..]), false);
  }

  /** With a pin on layer 1 the top-level reader returns two grids of the
      header's shape: the first half of the obstacles (rounded down) is
      marked on layer 0 and the rest on layer 1. */
  lemma InputFileTwoLayers(lines: seq<Line>)
    requires InputFile(lines).Ok? && MultiLayer(InputFile(lines).value.nets)
    ensures |InputFile(lines).value.grids| == 2
    ensures var obs, rows, cols := Obstacles(lines[1..]), Max0(Size(lines).0), Max0(Size(lines).1);
      && Placed(InputFile(lines).value.grids[0], obs[..|obs| / 2], rows, cols)
      && Placed(InputFile(lines).value.grids[1], obs[|obs| / 2..], rows, cols)
  {
    InputFileValue(lines);
    LayersSpec(Size(lines), Obstacles(lines[1..]), true);
  }

  /** All obstacles are on the grid exactly when both halves are. */
  lemma SplitOnGrid(obs: seq<Cell>, half: nat, rows: nat, cols: nat)
    requires half <= |obs|
    ensures AllOnGrid(obs, rows, cols) <==> AllOnGrid(obs[..half], rows, cols) && AllOnGrid(obs[half..], rows, cols)
  {
    if AllOnGrid(obs[..half], rows, cols) && AllOnGrid(obs[half..], rows, cols) {
      forall k | 0 <= k < |obs|
        ensures Wrap(obs[k], rows, cols).Some?
      {
        if k < half {
          assert obs[k] == obs[..half][k];
        } else {
          assert obs[k] == obs[half..][k - half];
        }
      }
    }
  }

  /** The visualizer's reader on a readable file: one grid of the header's
      shape in which exactly the obstacle cells hold -1, and the nets of the
      net lines in file order. Any other file raises. */
  lemma InputFileSingleSpec(lines: seq<Line>)
    ensures InputFileSingle(lines).Ok? <==> Readable(lines)
    ensures InputFileSingle(lines).Ok? ==>
      && InputFileSingle(lines).value.1 == NetList(lines[1..])
      && Placed(InputFileSingle(lines).value.0, Obstacles(lines[1..]), Max0(Size(lines).0), Max0(Size(lines).1))
  {
    if lines != [] && ParseHeader(lines[0].text).Ok? {
      PlaceOnBlank(Size(lines), Obstacles(lines[1..]));
    }
  }

  /** The readers accept the same files, and on a single-layer file they
      return the same grid and nets. */
  lemma ReadersAgree(lines: seq<Line>)
    ensures InputFile(lines).Ok? <==> InputFileSingle(lines).Ok?
    ensures InputFile(lines).Ok? && !MultiLayer(InputFile(lines).value.nets) ==>
      InputFile(lines).value == Layout([InputFileSingle(lines).value.0], InputFileSingle(lines).value.1)
  {
    InputFileAccepts(lines);
    InputFileSingleSpec(lines);
  }

  /** The readers check in different orders: on a file whose header and some
      net line are both bad, the top-level reader reports the header and the
      visualizer's reader the net line. */
  lemma ReportOrder(lines: seq<Line>)
    requires lines != [] && ParseHeader(lines[0].text).Err? && !NetBodies(lines[1..])
    ensures InputFile(lines) == Err(ParseHeader(lines[0].text).error)
    ensures InputFileSingle(lines) == Err(NoNetBody)
  {
  }
}
