// Level 2 lines: the boundary lines each level adds to the level above it
// (app/level_2l.py).

module Level2l {
  import opened Text
  import opened Frames
  import opened Dissolve
  import opened Config
  import opened Utils

  // ---------------------------------------------------------------------
  // One level's lines (app/level_2l.py, clip_dissolve_and_save)
  // ---------------------------------------------------------------------

  /** The columns of a lines file: the geometry, the boundary type and the
      country code. */
  const LineColumns := [GeometryColumn, "bdytyp", "iso3cd"]

  /** `gdf.geometry = gdf.boundary`: every polygon replaced by its outline. */
  function Boundaries(f: Frame, e: Engine): (r: Result<Frame>)
    requires Valid(f)
    ensures r.Err? <==> GeometryColumn !in f.columns
    ensures r.Ok? ==> Valid(r.value) && r.value.columns == f.columns && |r.value.rows| == |f.rows|
  {
    if GeometryColumn !in f.columns then Err(MissingColumn(GeometryColumn))
    else Ok(MapColumn(f, GeometryColumn, OnGeometry(e.boundary)))
  }

  /** Every cell of the geometry column with `mask` taken away. */
  function CutBy(mask: Geometry): Value -> Value {
    (v: Value) => Geom(GeomOf(v) - mask)
  }

  /** Does the row still cover something? */
  function NotEmpty(): Row -> bool {
    (row: Row) => GeomOf(Cell(row, GeometryColumn)) != {}
  }

  /** `child.overlay(parent, how="difference")`: each child geometry less
      everything the parent covers, the rows left empty dropped. */
  function Difference(child: Frame, parent: Frame): (r: Frame)
    requires Valid(child) && GeometryColumn in child.columns
    ensures Valid(r) && r.columns == child.columns
  {
    FilterRows(MapColumn(child, GeometryColumn, CutBy(UnionGeometry(parent.rows))), NotEmpty())
  }

  /** What `clip_dissolve_and_save` returns for a level: the child's
      outlines less the parent's, dissolved into one row, keeping only the
      geometry, then tagged with the boundary type `10 + level` and the
      country code. */
  function ClipLines(child: Frame, parent: Frame, iso3: string, level: int, e: Engine): (r: Result<Frame>)
    requires Valid(child) && Valid(parent)
  {
    var c :- Boundaries(child, e);
    var p :- Boundaries(parent, e);
    Ok(Tagged(DissolveAll(Difference(c, p)).value, iso3, level))
  }

  /** `lines[[lines.active_geometry_name]]`, then the boundary type and the
      country code on every row. */
  function Tagged(d: Frame, iso3: string, level: int): (r: Frame)
    requires Valid(d) && GeometryColumn in d.columns
  {
    Fill(Fill(Select(d, [GeometryColumn]).value, "bdytyp", Int(10 + level)), "iso3cd", Str(iso3))
  }

  /** The outline of a row's polygon; a row without one has none. */
  function BoundaryOf(row: Row, e: Engine): Geometry {
    if Cell(row, GeometryColumn).Geom? then e.boundary(Cell(row, GeometryColumn).g) else {}
  }

  /** Every location on the outline of one of the rows' polygons. */
  function Outline(rows: seq<Row>, e: Engine): Geometry {
    if rows == [] then {} else BoundaryOf(rows[0], e) + Outline(rows[1..], e)
  }

  /** The one row a level's lines dissolve into. */
  function LineRow(iso3: string, level: int, g: Geometry): Row {
    map[GeometryColumn := Geom(g), "iso3cd" := Str(iso3), "bdytyp" := Int(10 + level)]
  }

  /** The union of the outlines is the frame's outline. */
  lemma BoundariesUnion(f: Frame, e: Engine)
    requires Valid(f) && GeometryColumn in f.columns
    ensures UnionGeometry(Boundaries(f, e).value.rows) == Outline(f.rows, e)
  {
    var b := Boundaries(f, e).value;
    forall i | 0 <= i < |f.rows| ensures GeomOf(Cell(b.rows[i], GeometryColumn)) == BoundaryOf(f.rows[i], e) {
      assert b.rows[i] == f.rows[i][GeometryColumn := OnGeometry(e.boundary)(f.rows[i][GeometryColumn])];
    }
    UnionOfOutlines(f.rows, b.rows, e);
  }

  /** Rows whose geometries are the outlines of other rows' polygons have
      their outline as union. */
  lemma {:induction false} UnionOfOutlines(xs: seq<Row>, ys: seq<Row>, e: Engine)
    requires |xs| == |ys|
    requires forall i :: 0 <= i < |xs| ==> GeomOf(Cell(ys[i], GeometryColumn)) == BoundaryOf(xs[i], e)
    ensures UnionGeometry(ys) == Outline(xs, e)
  {
    if xs != [] {
      assert forall i :: 0 <= i < |xs| - 1 ==> xs[1..][i] == xs[i + 1] && ys[1..][i] == ys[i + 1];
      UnionOfOutlines(xs[1..], ys[1..], e);
    }
  }

  /** Rows whose geometries are other rows' less a mask have their union
      less the mask as union. */
  lemma {:induction false} UnionMinus(xs: seq<Row>, ys: seq<Row>, mask: Geometry)
    requires |xs| == |ys|
    requires forall i :: 0 <= i < |xs| ==> GeomOf(Cell(ys[i], GeometryColumn)) == GeomOf(Cell(xs[i], GeometryColumn)) - mask
    ensures UnionGeometry(ys) == UnionGeometry(xs) - mask
  {
    if xs != [] {
      assert forall i :: 0 <= i < |xs| - 1 ==> xs[1..][i] == xs[i + 1] && ys[1..][i] == ys[i + 1];
      UnionMinus(xs[1..], ys[1..], mask);
    }
  }

  /** The union of the geometries the difference keeps is the child's
      less the parent's; it keeps no row exactly when that is empty. */
  lemma DifferenceUnion(child: Frame, parent: Frame)
    requires Valid(child) && GeometryColumn in child.columns
    ensures UnionGeometry(Difference(child, parent).rows) == UnionGeometry(child.rows) - UnionGeometry(parent.rows)
    ensures Difference(child, parent).rows == [] <==> UnionGeometry(child.rows) - UnionGeometry(parent.rows) == {}
  {
    var mask := UnionGeometry(parent.rows);
    var cut := MapColumn(child, GeometryColumn, CutBy(mask));
    forall i | 0 <= i < |cut.rows|
      ensures GeomOf(Cell(cut.rows[i], GeometryColumn)) == GeomOf(Cell(child.rows[i], GeometryColumn)) - mask
    {
      assert cut.rows[i] == child.rows[i][GeometryColumn := CutBy(mask)(child.rows[i][GeometryColumn])];
    }
    UnionMinus(child.rows, cut.rows, mask);
    KeptUnion(cut.rows);
    NoneKept(cut.rows);
  }

  /** Dropping the rows that cover nothing keeps the union. */
  lemma {:induction false} KeptUnion(rows: seq<Row>)
    ensures UnionGeometry(Filter(rows, NotEmpty())) == UnionGeometry(rows)
  {
    if rows != [] {
      var head := if NotEmpty()(rows[0]) then [rows[0]] else [];
      KeptUnion(rows[1..]);
      UnionAppend(head, Filter(rows[1..], NotEmpty()));
    }
  }

  /** Nothing is kept exactly when the rows cover nothing. */
  lemma {:induction false} NoneKept(rows: seq<Row>)
    ensures Filter(rows, NotEmpty()) == [] <==> UnionGeometry(rows) == {}
  {
    if rows != [] {
      NoneKept(rows[1..]);
      assert UnionGeometry(rows) == GeomOf(Cell(rows[0], GeometryColumn)) + UnionGeometry(rows[1..]);
    }
  }

  /** The union of two runs of rows. */
  lemma {:induction false} UnionAppend(a: seq<Row>, b: seq<Row>)
    ensures UnionGeometry(a + b) == UnionGeometry(a) + UnionGeometry(b)
  {
    if a == [] {
      assert a + b == b;
    } else {
      assert (a + b)[1..] == a[1..] + b;
      UnionAppend(a[1..], b);
    }
  }

  /** A level's lines: they fail exactly when the child or the parent has
      no geometry; otherwise they hold one row, tagged with the level and
      the country, whose geometry is the child's outline less the
      parent's, or no row when the child's outline adds nothing. */
  lemma ClipLinesSpec(child: Frame, parent: Frame, iso3: string, level: int, e: Engine)
    requires Valid(child) && Valid(parent)
    ensures ClipLines(child, parent, iso3, level, e).Err? <==>
      GeometryColumn !in child.columns || GeometryColumn !in parent.columns
    ensures ClipLines(child, parent, iso3, level, e).Ok? ==>
      var r := ClipLines(child, parent, iso3, level, e).value;
      var g := Outline(child.rows, e) - Outline(parent.rows, e);
      && Valid(r) && r.columns == LineColumns
      && r.rows == if g == {} then [] else [LineRow(iso3, level, g)]
  {
    if GeometryColumn in child.columns && GeometryColumn in parent.columns {
      var c, p := Boundaries(child, e).value, Boundaries(parent, e).value;
      BoundariesUnion(child, e);
      BoundariesUnion(parent, e);
      DifferenceUnion(c, p);
      TaggedDissolved(Difference(c, p), iso3, level);
    }
  }

  /** The tagged dissolve of the difference: no row when it has none,
      otherwise one row holding the union of its geometries. */
  lemma TaggedDissolved(diff: Frame, iso3: string, level: int)
    requires Valid(diff) && GeometryColumn in diff.columns
    ensures var r := Tagged(DissolveAll(diff).value, iso3, level);
      && Valid(r) && r.columns == LineColumns
      && r.rows == if diff.rows == [] then [] else [LineRow(iso3, level, UnionGeometry(diff.rows))]
  {
    var d := DissolveAll(diff).value;
    assert GeometryColumn in d.columns by { assert d.columns[0] == GeometryColumn; }
    TaggedColumns(d, iso3, level);
    if diff.rows != [] {
      TaggedRow(d, iso3, level, 0, UnionGeometry(diff.rows));
    }
  }

  /** Tagging keeps the geometry and adds the two tag columns. */
  lemma TaggedColumns(d: Frame, iso3: string, level: int)
    requires Valid(d) && GeometryColumn in d.columns
    ensures var r := Tagged(d, iso3, level); Valid(r) && r.columns == LineColumns && |r.rows| == |d.rows|
  {
    var s := Select(d, [GeometryColumn]).value;
    assert s.columns == [GeometryColumn];
    var t := Fill(s, "bdytyp", Int(10 + level));
    assert t.columns == [GeometryColumn, "bdytyp"];
  }

  /** A tagged row is the line row of its geometry. */
  lemma TaggedRow(d: Frame, iso3: string, level: int, i: int, g: Geometry)
    requires Valid(d) && GeometryColumn in d.columns && 0 <= i < |d.rows|
    requires d.rows[i][GeometryColumn] == Geom(g)
    ensures |Tagged(d, iso3, level).rows| == |d.rows| && Tagged(d, iso3, level).rows[i] == LineRow(iso3, level, g)
  {
    var s := Select(d, [GeometryColumn]).value;
    assert s.rows[i] == map[GeometryColumn := Geom(g)];
    var t := Fill(s, "bdytyp", Int(10 + level));
    assert t.rows[i] == map[GeometryColumn := Geom(g), "bdytyp" := Int(10 + level)];
  }

  /** A layer compared with itself adds no line. */
  lemma SameLayerNoLines(f: Frame, iso3: string, level: int, e: Engine)
    requires Valid(f) && ClipLines(f, f, iso3, level, e).Ok?
    ensures ClipLines(f, f, iso3, level, e).value.rows == []
  {
    ClipLinesSpec(f, f, iso3, level, e);
  }


  // ---------------------------------------------------------------------
  // One country (app/level_2l.py, the body of main's loop)
  // ---------------------------------------------------------------------

  /** The level-2 file of a level, a child for the level below it and a
      parent for the level above. */
  function LevelPath(iso3: string, level: int): Path {
    Path(L2Dir, FileName(iso3, level))
  }

  /** Where a country's lines are written. */
  function LinesPath(iso3: string): Path {
    Path(L2lDir, Lower(iso3) + ".parquet")
  }

  /** Every layer well formed. */
  predicate ValidLayers(layers: map<int, Frame>) {
    forall l :: l in layers ==> Valid(layers[l])
  }

  /** The country's level-2 files from level 0 to the deepest, by level. */
  function CountryLayers(store: Store, iso3: string): (r: map<int, Frame>)
    requires ValidStore(store)
    ensures ValidLayers(r)
  {
    map l | 0 <= l <= AdminLevelMax && LevelPath(iso3, l) in store :: store[LevelPath(iso3, l)]
  }

  /** What the loop does at a level: nothing without a child file, and
      otherwise the level's lines, or the error reading the parent. */
  datatype Step = Skip | Lines(r: Result<Frame>)

  /** The step at one level. */
  function LevelStep(layers: map<int, Frame>, iso3: string, level: int, e: Engine): Step
    requires ValidLayers(layers)
  {
    if level !in layers then Skip
    else if level - 1 !in layers then Lines(Err(MissingFile(LevelPath(iso3, level - 1))))
    else Lines(ClipLines(layers[level], layers[level - 1], iso3, level, e))
  }

  /** The steps of the levels the loop visits, from 1 to the deepest. */
  function Steps(layers: map<int, Frame>, iso3: string, e: Engine): map<int, Step>
    requires ValidLayers(layers)
  {
    map l | 1 <= l <= AdminLevelMax :: LevelStep(layers, iso3, l, e)
  }

  /** The lines of every step that has some are well formed. */
  predicate ValidSteps(steps: map<int, Step>) {
    forall l :: l in steps && steps[l].Lines? && steps[l].r.Ok? ==> Valid(steps[l].r.value)
  }

  /** The lines of the steps from `level` down to 1 concatenated, in that
      order, after `acc`, stopping at the first error. */
  function Gather(steps: map<int, Step>, level: int, acc: Frame): Result<Frame>
    requires ValidSteps(steps) && Valid(acc)
    decreases level
  {
    if level < 1 || level !in steps then Ok(acc)
    else
      match steps[level]
      case Skip => Gather(steps, level - 1, acc)
      case Lines(r) =>
        var line :- r;
        Gather(steps, level - 1, Concat(acc, line))
  }

  /** What level 2l writes for one country: its lines, when there are any. */
  function Level2lRun(store: Store, iso3: string, e: Engine): Result<seq<Output>>
    requires ValidStore(store)
  {
    var lines :- Gather(Steps(CountryLayers(store, iso3), iso3, e), AdminLevelMax, EmptyFrame);
    if GeometryColumn in lines.columns && lines.rows != [] then Ok([Output(LinesPath(iso3), lines)]) else Ok([])
  }

  /** The steps of well-formed layers are well formed. */
  lemma StepsValid(layers: map<int, Frame>, iso3: string, e: Engine)
    requires ValidLayers(layers)
    ensures ValidSteps(Steps(layers, iso3, e))
  {
    var steps := Steps(layers, iso3, e);
    forall l | l in steps && steps[l].Lines? && steps[l].r.Ok? ensures Valid(steps[l].r.value) {
      ClipLinesSpec(layers[l], layers[l - 1], iso3, l, e);
    }
  }

  /** One turn of the loop, read off the store. */
  lemma CountryStep(store: Store, iso3: string, level: int, lines: Frame, e: Engine)
    requires ValidStore(store) && Valid(lines) && 1 <= level <= AdminLevelMax
    ensures var steps := Steps(CountryLayers(store, iso3), iso3, e);
      var c, p := LevelPath(iso3, level), LevelPath(iso3, level - 1);
      && ValidSteps(steps)
      && (c !in store ==> Gather(steps, level, lines) == Gather(steps, level - 1, lines))
      && (c in store && p !in store ==> Gather(steps, level, lines) == Err(MissingFile(p)))
      && (c in store && p in store ==>
            var line := ClipLines(store[c], store[p], iso3, level, e);
            && (line.Err? ==> Gather(steps, level, lines) == Err(line.error))
            && (line.Ok? ==> Valid(line.value) && Gather(steps, level, lines) == Gather(steps, level - 1, Concat(lines, line.value))))
  {
    var layers := CountryLayers(store, iso3);
    StepsValid(layers, iso3, e);
    var steps := Steps(layers, iso3, e);
    assert steps[level] == LevelStep(layers, iso3, level, e);
  }

  /** One country of `main`: the levels from the deepest down to 1, each
      with a file adding its lines to the country's, then the write. */
  method Level2lCountry(store: Store, iso3: string, e: Engine) returns (r: Result<seq<Output>>)
    requires ValidStore(store)
    ensures r == Level2lRun(store, iso3, e)
  {
    ghost var layers := CountryLayers(store, iso3);
    ghost var steps := Steps(layers, iso3, e);
    StepsValid(layers, iso3, e);
    var lines := EmptyFrame;
    var level := AdminLevelMax;
    while level > 0
      invariant 0 <= level <= AdminLevelMax && Valid(lines)
      invariant Gather(steps, AdminLevelMax, EmptyFrame) == Gather(steps, level, lines)
      decreases level
    {
      CountryStep(store, iso3, level, lines, e);
      var child := LevelPath(iso3, level);
      if child in store {
        var parent := LevelPath(iso3, level - 1);
        if parent !in store {
          return Err(MissingFile(parent));
        }
        var line := ClipLines(store[child], store[parent], iso3, level, e);
        if line.Err? {
          return Err(line.error);
        }
        lines := Concat(lines, line.value);
      }
      level := level - 1;
    }
    if GeometryColumn in lines.columns && lines.rows != [] {
      return Ok([Output(LinesPath(iso3), lines)]);
    }
    return Ok([]);
  }

  // ---------------------------------------------------------------------
  // Gathering steps whose lines have the line columns
  // ---------------------------------------------------------------------

  /** Every step's lines have the line columns. */
  predicate LineSteps(steps: map<int, Step>) {
    && ValidSteps(steps)
    && forall l :: l in steps && steps[l].Lines? && steps[l].r.Ok? ==> steps[l].r.value.columns == LineColumns
  }

  /** Some step from `level` down to 1 fails. */
  predicate StepFails(steps: map<int, Step>, level: int)
    decreases level
  {
    level >= 1 && ((level in steps && steps[level].Lines? && steps[level].r.Err?) || StepFails(steps, level - 1))
  }

  /** The rows of the steps from `level` down to 1, in that order. */
  function StepRows(steps: map<int, Step>, level: int): seq<Row>
    decreases level
  {
    if level < 1 then []
    else
      (if level in steps && steps[level].Lines? && steps[level].r.Ok? then steps[level].r.value.rows else [])
      + StepRows(steps, level - 1)
  }

  /** The columns of the lines gathered so far: none before the first
      level with a file, the line columns after it. */
  predicate LinesShape(f: Frame) {
    && Valid(f)
    && (f.columns == [] || f.columns == LineColumns)
    && (f.rows != [] ==> f.columns == LineColumns)
  }

  /** A row padded to the columns it already has is itself. */
  lemma PadSame(row: Row, cols: seq<string>)
    requires row.Keys == ColumnSet(cols)
    ensures Pad(row, cols) == row
  {
  }

  /** Adding a level's lines: the columns settle on the line columns, and
      the rows are those gathered so far followed by the level's. */
  lemma ConcatLines(f: Frame, line: Frame)
    requires LinesShape(f) && Valid(line) && line.columns == LineColumns
    ensures var r := Concat(f, line); LinesShape(r) && r.columns == LineColumns && r.rows == f.rows + line.rows
  {
    var r := Concat(f, line);
    if f.columns == [] {
      assert ColumnSet(f.columns) == {};
      WithoutNone(LineColumns, {});
    } else {
      WithoutAll(LineColumns, ColumnSet(LineColumns));
    }
    assert r.columns == LineColumns;
    forall i | 0 <= i < |f.rows| ensures r.rows[i] == f.rows[i] {
      PadSame(f.rows[i], r.columns);
    }
    forall i | 0 <= i < |line.rows| ensures r.rows[|f.rows| + i] == line.rows[i] {
      PadSame(line.rows[i], r.columns);
    }
  }

  /** Gathering the steps from `level` down fails exactly when one of
      them fails. */
  lemma {:induction false} GatherFails(steps: map<int, Step>, level: int, acc: Frame)
    requires ValidSteps(steps) && Valid(acc)
    requires forall l :: 1 <= l <= level ==> l in steps
    ensures Gather(steps, level, acc).Err? <==> StepFails(steps, level)
    decreases level
  {
    if level >= 1 {
      match steps[level]
      case Skip =>
        GatherFails(steps, level - 1, acc);
      case Lines(r) =>
        if r.Ok? {
          GatherFails(steps, level - 1, Concat(acc, r.value));
        }
    }
  }

  /** Gathering the steps from `level` down, when it succeeds, appends
      their rows under the line columns. */
  lemma {:induction false} GatherRows(steps: map<int, Step>, level: int, acc: Frame)
    requires LineSteps(steps) && LinesShape(acc)
    requires forall l :: 1 <= l <= level ==> l in steps
    requires Gather(steps, level, acc).Ok?
    ensures var r := Gather(steps, level, acc).value;
      LinesShape(r) && r.rows == acc.rows + StepRows(steps, level)
    decreases level
  {
    if level < 1 {
      assert acc.rows + [] == acc.rows;
    } else if steps[level].Skip? {
      assert Gather(steps, level, acc) == Gather(steps, level - 1, acc);
      assert StepRows(steps, level) == StepRows(steps, level - 1);
      GatherRows(steps, level - 1, acc);
    } else {
      var line := GatherTurn(steps, level, acc, StepRows(steps, level - 1));
      GatherRows(steps, level - 1, Concat(acc, line));
    }
  }

  /** A step with lines, in a gathering that succeeds: they are added to
      the rows gathered so far. */
  lemma GatherTurn(steps: map<int, Step>, level: int, acc: Frame, rest: seq<Row>) returns (line: Frame)
    requires LineSteps(steps) && LinesShape(acc)
    requires level >= 1 && level in steps && steps[level].Lines?
    requires Gather(steps, level, acc).Ok?
    ensures steps[level].r == Ok(line) && Valid(line) && LinesShape(Concat(acc, line))
    ensures Gather(steps, level, acc) == Gather(steps, level - 1, Concat(acc, line))
    ensures Concat(acc, line).rows + rest == acc.rows + (line.rows + rest)
    ensures StepRows(steps, level) == line.rows + StepRows(steps, level - 1)
  {
    line := steps[level].r.value;
    ConcatLines(acc, line);
  }

  // ---------------------------------------------------------------------
  // What a country's lines hold
  // ---------------------------------------------------------------------

  /** The line a level adds: its layer's outline less its parent's. */
  function LineSet(layers: map<int, Frame>, level: int, e: Engine): Geometry {
    if level in layers && level - 1 in layers then Outline(layers[level].rows, e) - Outline(layers[level - 1].rows, e) else {}
  }

  /** The level adds a line. */
  predicate HasLine(layers: map<int, Frame>, level: int, e: Engine) {
    LineSet(layers, level, e) != {}
  }

  /** The levels from `level` down to 1 that add a line, finest first. */
  function LineLevels(layers: map<int, Frame>, level: int, e: Engine): seq<int>
    decreases level
  {
    if level < 1 then []
    else (if HasLine(layers, level, e) then [level] else []) + LineLevels(layers, level - 1, e)
  }

  /** The rows the levels from `level` down to 1 contribute, read off the
      outlines alone: the line of each level that adds one, finest first. */
  function ExpectedLines(layers: map<int, Frame>, iso3: string, level: int, e: Engine): seq<Row> {
    var ls := LineLevels(layers, level, e);
    seq(|ls|, i requires 0 <= i < |ls| => LineRow(iso3, ls[i], LineSet(layers, ls[i], e)))
  }

  /** A level breaks the run: it has a layer, but its parent has none, or
      one of the two has no geometry. */
  predicate Broken(layers: map<int, Frame>, level: int) {
    level in layers &&
    (level - 1 !in layers || GeometryColumn !in layers[level].columns || GeometryColumn !in layers[level - 1].columns)
  }

  /** A level's step: skipped exactly without a layer, failing exactly when
      the level is broken, and otherwise the rows it is expected to add
      under the line columns. */
  predicate StepAgrees(step: Step, layers: map<int, Frame>, iso3: string, level: int, e: Engine) {
    && (step.Skip? <==> level !in layers)
    && (step.Lines? ==> (step.r.Err? <==> Broken(layers, level)))
    && (step.Lines? && step.r.Ok? ==>
          && Valid(step.r.value) && step.r.value.columns == LineColumns
          && step.r.value.rows == if HasLine(layers, level, e) then [LineRow(iso3, level, LineSet(layers, level, e))] else [])
  }

  /** Steps for the levels 1 to the deepest, each agreeing with the layers. */
  ghost predicate StepsAgree(steps: map<int, Step>, layers: map<int, Frame>, iso3: string, e: Engine) {
    && (forall l :: l in steps <==> 1 <= l <= AdminLevelMax)
    && (forall l :: l in steps ==> StepAgrees(steps[l], layers, iso3, l, e))
  }

  /** Each level's step agrees with its layers. */
  lemma LevelStepSpec(layers: map<int, Frame>, iso3: string, level: int, e: Engine)
    requires ValidLayers(layers)
    ensures StepAgrees(LevelStep(layers, iso3, level, e), layers, iso3, level, e)
  {
    if level in layers && level - 1 in layers {
      ClipLinesSpec(layers[level], layers[level - 1], iso3, level, e);
    }
  }

  /** The steps of a country's layers agree with them. */
  lemma StepsSpec(layers: map<int, Frame>, iso3: string, e: Engine)
    requires ValidLayers(layers)
    ensures StepsAgree(Steps(layers, iso3, e), layers, iso3, e)
  {
    var steps := Steps(layers, iso3, e);
    forall l | l in steps ensures StepAgrees(steps[l], layers, iso3, l, e) {
      LevelStepSpec(layers, iso3, l, e);
    }
  }

  /** Agreeing steps have the line columns. */
  lemma AgreeLines(steps: map<int, Step>, layers: map<int, Frame>, iso3: string, e: Engine)
    requires StepsAgree(steps, layers, iso3, e)
    ensures LineSteps(steps)
  {
  }

  /** Agreeing steps fail exactly when a level is broken. */
  lemma {:induction false} StepFailsBroken(steps: map<int, Step>, layers: map<int, Frame>, iso3: string, level: int, e: Engine)
    requires StepsAgree(steps, layers, iso3, e) && level <= AdminLevelMax
    ensures StepFails(steps, level) <==> exists l :: 1 <= l <= level && Broken(layers, l)
    decreases level
  {
    if level >= 1 {
      assert StepAgrees(steps[level], layers, iso3, level, e);
      StepFailsBroken(steps, layers, iso3, level - 1, e);
    }
  }

  /** Agreeing steps' rows are the expected ones. */
  lemma {:induction false} StepRowsExpected(steps: map<int, Step>, layers: map<int, Frame>, iso3: string, level: int, e: Engine)
    requires StepsAgree(steps, layers, iso3, e) && level <= AdminLevelMax
    requires forall l :: 1 <= l <= level ==> !Broken(layers, l)
    ensures StepRows(steps, level) == ExpectedLines(layers, iso3, level, e)
    decreases level
  {
    if level >= 1 {
      assert StepAgrees(steps[level], layers, iso3, level, e);
      ExpectedLinesCons(layers, iso3, level, e);
      StepRowsExpected(steps, layers, iso3, level - 1, e);
    }
  }

  /** The expected rows of a level come before those of the levels below. */
  lemma ExpectedLinesCons(layers: map<int, Frame>, iso3: string, level: int, e: Engine)
    requires level >= 1
    ensures ExpectedLines(layers, iso3, level, e) ==
      (if HasLine(layers, level, e) then [LineRow(iso3, level, LineSet(layers, level, e))] else [])
      + ExpectedLines(layers, iso3, level - 1, e)
  {
    var ls, rest := LineLevels(layers, level, e), LineLevels(layers, level - 1, e);
    var head := if HasLine(layers, level, e) then [LineRow(iso3, level, LineSet(layers, level, e))] else [];
    var a, b := ExpectedLines(layers, iso3, level, e), head + ExpectedLines(layers, iso3, level - 1, e);
    if HasLine(layers, level, e) {
      assert ls == [level] + rest;
      forall i | 0 <= i < |a| ensures a[i] == b[i] {
        if i > 0 { assert ls[i] == rest[i - 1]; }
      }
    } else {
      assert ls == rest;
    }
  }

  /** Each listed level is one from `level` down to 1 that adds a line. */
  lemma {:induction false} LineLevelsIn(layers: map<int, Frame>, level: int, e: Engine, i: int)
    requires 0 <= i < |LineLevels(layers, level, e)|
    ensures var l := LineLevels(layers, level, e)[i]; 1 <= l <= level && HasLine(layers, l, e)
    decreases level
  {
    var ls, rest := LineLevels(layers, level, e), LineLevels(layers, level - 1, e);
    if HasLine(layers, level, e) {
      assert ls == [level] + rest;
      if i > 0 {
        assert ls[i] == rest[i - 1];
        LineLevelsIn(layers, level - 1, e, i - 1);
      }
    } else {
      assert ls == rest;
      LineLevelsIn(layers, level - 1, e, i);
    }
  }

  /** The listed levels strictly decrease. */
  lemma {:induction false} LineLevelsOrder(layers: map<int, Frame>, level: int, e: Engine, i: int, j: int)
    requires 0 <= i < j < |LineLevels(layers, level, e)|
    ensures LineLevels(layers, level, e)[i] > LineLevels(layers, level, e)[j]
    decreases level
  {
    var ls, rest := LineLevels(layers, level, e), LineLevels(layers, level - 1, e);
    if HasLine(layers, level, e) {
      assert ls == [level] + rest;
      assert ls[j] == rest[j - 1];
      if i == 0 {
        LineLevelsIn(layers, level - 1, e, j - 1);
      } else {
        assert ls[i] == rest[i - 1];
        LineLevelsOrder(layers, level - 1, e, i - 1, j - 1);
      }
    } else {
      assert ls == rest;
      LineLevelsOrder(layers, level - 1, e, i, j);
    }
  }

  /** Every level from `level` down to 1 that adds a line is listed. */
  lemma {:induction false} LineLevelsComplete(layers: map<int, Frame>, level: int, e: Engine, l: int)
    requires 1 <= l <= level && HasLine(layers, l, e)
    ensures l in LineLevels(layers, level, e)
    decreases level
  {
    var rest := LineLevels(layers, level - 1, e);
    var head := if HasLine(layers, level, e) then [level] else [];
    assert LineLevels(layers, level, e) == head + rest;
    if l < level {
      LineLevelsComplete(layers, level - 1, e, l);
      assert l in head + rest;
    } else {
      assert head == [l];
    }
  }

  /** No level is listed exactly when none adds a line. */
  lemma {:induction false} LineLevelsEmpty(layers: map<int, Frame>, level: int, e: Engine)
    ensures LineLevels(layers, level, e) == [] <==> forall l :: 1 <= l <= level ==> !HasLine(layers, l, e)
    decreases level
  {
    if level >= 1 {
      LineLevelsEmpty(layers, level - 1, e);
    }
  }

  /** Gathering agreeing steps from the deepest level: it fails exactly
      when a level is broken, and otherwise holds the expected rows, under
      the line columns when there are any. */
  lemma GatherAgreeing(steps: map<int, Step>, layers: map<int, Frame>, iso3: string, e: Engine)
    requires StepsAgree(steps, layers, iso3, e)
    ensures ValidSteps(steps)
    ensures Gather(steps, AdminLevelMax, EmptyFrame).Err? <==> exists l :: 1 <= l <= AdminLevelMax && Broken(layers, l)
    ensures Gather(steps, AdminLevelMax, EmptyFrame).Ok? ==>
      var r := Gather(steps, AdminLevelMax, EmptyFrame).value;
      && r.rows == ExpectedLines(layers, iso3, AdminLevelMax, e)
      && (r.rows != [] ==> r.columns == LineColumns)
      && (GeometryColumn in r.columns ==> r.columns == LineColumns)
  {
    AgreeLines(steps, layers, iso3, e);
    GatherFails(steps, AdminLevelMax, EmptyFrame);
    StepFailsBroken(steps, layers, iso3, AdminLevelMax, e);
    if Gather(steps, AdminLevelMax, EmptyFrame).Ok? {
      GatherRows(steps, AdminLevelMax, EmptyFrame);
      StepRowsExpected(steps, layers, iso3, AdminLevelMax, e);
    }
  }

  /** The country's run: it fails exactly when a level from the deepest
      down to 1 is broken; otherwise it writes one file at the country's
      lines path holding the expected rows when some level adds a line,
      and nothing when none does. */
  lemma Level2lRunFiles(store: Store, iso3: string, e: Engine)
    requires ValidStore(store)
    ensures var layers := CountryLayers(store, iso3);
      && (Level2lRun(store, iso3, e).Err? <==> exists l :: 1 <= l <= AdminLevelMax && Broken(layers, l))
      && (Level2lRun(store, iso3, e).Ok? ==>
            var outs := Level2lRun(store, iso3, e).value;
            && (outs == [] <==> forall l :: 1 <= l <= AdminLevelMax ==> !HasLine(layers, l, e))
            && (outs != [] ==> outs == [Output(LinesPath(iso3), Frame(LineColumns, ExpectedLines(layers, iso3, AdminLevelMax, e)))]))
  {
    var layers := CountryLayers(store, iso3);
    StepsSpec(layers, iso3, e);
    GatherAgreeing(Steps(layers, iso3, e), layers, iso3, e);
    LineLevelsEmpty(layers, AdminLevelMax, e);
  }
}
