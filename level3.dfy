/** Level 3: every level-2 layer of a country clipped to the country's
    outline in the United Nations boundary files, its `validto` column
    recast to a date, its row labels turned into a leading column, and
    written under `outputs/level-3`. */
module Level3 {
  import opened Text
  import opened Frames
  import opened Dissolve
  import opened Config
  import opened Utils
  import Level2l

  // ---------------------------------------------------------------------
  // The mask (app/level_3.py, clip_and_save)
  // ---------------------------------------------------------------------

  /** The disputed-areas file for the codes that start with `X`, the
      countries' file for every other code. */
  function MaskPath(iso3: string): (p: Path)
    ensures p.dir == UnDir
    ensures p.name == "bnda_dsp.parquet" <==> |iso3| > 0 && iso3[0] == 'X'
    ensures p.name == "bnda_cty.parquet" <==> !(|iso3| > 0 && iso3[0] == 'X')
  {
    if StartsWith(iso3, "X") then Path(UnDir, "bnda_dsp.parquet") else Path(UnDir, "bnda_cty.parquet")
  }

  /** `adm0["iso3cd"] == iso3`: exact equality, no prefix or substring. */
  function IsCountry(iso3: string): Row -> bool {
    (row: Row) => Cell(row, "iso3cd") == Str(iso3)
  }

  /** `cty`: the rows of the mask file whose `iso3cd` is the country's
      code, in file order. The file must exist and have an `iso3cd`
      column. */
  function CountryMask(store: Store, iso3: string): (r: Result<Frame>)
    requires ValidStore(store)
    ensures MaskPath(iso3) !in store ==> r == Err(MissingFile(MaskPath(iso3)))
    ensures MaskPath(iso3) in store && "iso3cd" !in store[MaskPath(iso3)].columns ==>
      r == Err(MissingColumn("iso3cd"))
    ensures r.Ok? <==> MaskPath(iso3) in store && "iso3cd" in store[MaskPath(iso3)].columns
    ensures r.Ok? ==> Valid(r.value) && r.value.columns == store[MaskPath(iso3)].columns
    ensures r.Ok? ==> forall row :: row in r.value.rows <==>
      row in store[MaskPath(iso3)].rows && Cell(row, "iso3cd") == Str(iso3)
  {
    var p := MaskPath(iso3);
    if p !in store then Err(MissingFile(p))
    else if "iso3cd" !in store[p].columns then Err(MissingColumn("iso3cd"))
    else
      var r := FilterRows(store[p], IsCountry(iso3));
      assert forall row :: row in r.rows ==> row in store[p].rows;
      Ok(r)
  }

  // ---------------------------------------------------------------------
  // Clipping (app/level_3.py, clip_and_save)
  // ---------------------------------------------------------------------

  /** A frame together with the labels of its rows (pandas' index). */
  datatype Labelled = Labelled(frame: Frame, labels: seq<int>)

  predicate ValidLabelled(x: Labelled) {
    Valid(x.frame) && |x.labels| == |x.frame.rows|
  }

  /** The positions `0, 1, …, n - 1`. */
  function Positions(n: nat): (ps: seq<int>)
    ensures |ps| == n
    ensures forall i :: 0 <= i < n ==> ps[i] == i
  {
    seq(n, i => i)
  }

  /** Whether a row's polygon meets the mask. */
  predicate Meets(row: Row, mask: Geometry) {
    GeomOf(Cell(row, GeometryColumn)) * mask != {}
  }

  /** The positions of the rows whose polygon meets the mask, in order. */
  function Hits(f: Frame, mask: Geometry): seq<int> {
    Filter(Positions(|f.rows|), (i: int) => 0 <= i < |f.rows| && Meets(f.rows[i], mask))
  }

  /** A row of the clipped frame: its polygon cut down to the mask. */
  function ClipRow(row: Row, mask: Geometry): Row {
    row[GeometryColumn := Geom(GeomOf(Cell(row, GeometryColumn)) * mask)]
  }

  /** `gdf.clip(cty)`: the rows whose polygon meets the mask, each cut down
      to it, labelled with their positions in the input. */
  function Clip(f: Frame, mask: Geometry): (r: Labelled)
    requires Valid(f) && GeometryColumn in f.columns
    ensures ValidLabelled(r) && r.frame.columns == f.columns && r.labels == Hits(f, mask)
    ensures forall j :: 0 <= j < |r.labels| ==>
      0 <= r.labels[j] < |f.rows| && r.frame.rows[j] == ClipRow(f.rows[r.labels[j]], mask)
  {
    var ks := Hits(f, mask);
    assert forall j :: 0 <= j < |ks| ==> ks[j] in ks;
    Labelled(Frame(f.columns, seq(|ks|, j requires 0 <= j < |ks| => ClipRow(f.rows[ks[j]], mask))), ks)
  }

  /** An element below every element of an increasing sequence can go
      in front of it. */
  lemma IncreasingCons(x: int, s: seq<int>)
    requires Increasing(s) && forall y :: y in s ==> x < y
    ensures Increasing([x] + s)
  {
    var r := [x] + s;
    forall j, k | 0 <= j < k < |r| ensures r[j] < r[k] {
      assert r[k] == s[k - 1] && r[k] in s;
      if j > 0 {
        assert r[j] == s[j - 1];
      }
    }
  }

  /** The head of an increasing sequence is below all of its tail. */
  lemma IncreasingHead(s: seq<int>)
    requires Increasing(s) && s != []
    ensures Increasing(s[1..]) && forall y :: y in s[1..] ==> s[0] < y
  {
    forall y | y in s[1..] ensures s[0] < y {
      var k :| 0 <= k < |s[1..]| && s[1..][k] == y;
      assert s[k + 1] == y;
    }
    forall j, k | 0 <= j < k < |s[1..]| ensures s[1..][j] < s[1..][k] {
      assert s[1..][j] == s[j + 1] && s[1..][k] == s[k + 1];
    }
  }

  /** Filtering keeps a strictly increasing sequence strictly increasing. */
  lemma {:induction false} FilterIncreasing(s: seq<int>, p: int -> bool)
    requires Increasing(s)
    ensures Increasing(Filter(s, p))
  {
    if s != [] {
      IncreasingHead(s);
      FilterIncreasing(s[1..], p);
      var rest := Filter(s[1..], p);
      assert Filter(s, p) == (if p(s[0]) then [s[0]] else []) + rest;
      if p(s[0]) {
        IncreasingCons(s[0], rest);
      } else {
        assert Filter(s, p) == rest;
      }
    }
  }

  /** The clip keeps exactly the rows whose polygon meets the mask, each
      once and in their input order. */
  lemma HitsSpec(f: Frame, mask: Geometry)
    ensures forall k :: k in Hits(f, mask) <==> 0 <= k < |f.rows| && Meets(f.rows[k], mask)
    ensures Increasing(Hits(f, mask))
  {
    var ps := Positions(|f.rows|);
    FilterIncreasing(ps, (i: int) => 0 <= i < |f.rows| && Meets(f.rows[i], mask));
    forall k | 0 <= k < |f.rows| ensures k in ps {
      assert ps[k] == k;
    }
  }

  /** A point is in a clipped polygon exactly when it is in the original
      polygon and in the mask; every other column is untouched. */
  lemma ClipRowSpec(row: Row, mask: Geometry)
    requires GeometryColumn in row
    ensures ClipRow(row, mask).Keys == row.Keys
    ensures forall p :: p in GeomOf(ClipRow(row, mask)[GeometryColumn]) <==>
      p in GeomOf(row[GeometryColumn]) && p in mask
    ensures forall c :: c in row && c != GeometryColumn ==> ClipRow(row, mask)[c] == row[c]
  {
  }

  // ---------------------------------------------------------------------
  // Recasting and relabelling (app/level_3.py, clip_and_save)
  // ---------------------------------------------------------------------

  /** `gdf["validto"] = gdf["validto"].astype("date32[pyarrow]")`. */
  function CastValidTo(x: Labelled, e: Engine): (r: Result<Labelled>)
    requires ValidLabelled(x)
    ensures r.Err? <==> "validto" !in x.frame.columns
    ensures r.Err? ==> r.error == MissingColumn("validto")
    ensures r.Ok? ==> ValidLabelled(r.value) && r.value.frame.columns == x.frame.columns && r.value.labels == x.labels
    ensures r.Ok? ==> forall i :: 0 <= i < |x.frame.rows| ==>
      r.value.frame.rows[i] == x.frame.rows[i]["validto" := e.toDate32(x.frame.rows[i]["validto"])]
  {
    if "validto" !in x.frame.columns then Err(MissingColumn("validto"))
    else Ok(Labelled(MapColumn(x.frame, "validto", e.toDate32), x.labels))
  }

  /** The name `reset_index` gives the labels' column: `index`, or
      `level_0` when an `index` column exists already. */
  function IndexName(cols: seq<string>): string {
    if "index" in cols then "level_0" else "index"
  }

  /** `gdf.reset_index()`: the labels become a new first column and the
      rows are renumbered; a failure when that column exists already. */
  function ResetIndex(x: Labelled): (r: Result<Frame>)
    requires ValidLabelled(x)
    ensures r.Err? <==> "index" in x.frame.columns && "level_0" in x.frame.columns
    ensures r.Err? ==> r.error == DuplicateColumn("level_0")
    ensures r.Ok? ==> Valid(r.value) && r.value.columns == [IndexName(x.frame.columns)] + x.frame.columns
    ensures r.Ok? ==> |r.value.rows| == |x.frame.rows|
    ensures r.Ok? ==> forall i :: 0 <= i < |x.frame.rows| ==>
      r.value.rows[i] == x.frame.rows[i][IndexName(x.frame.columns) := Int(x.labels[i])]
  {
    var name := IndexName(x.frame.columns);
    if name in x.frame.columns then Err(DuplicateColumn(name))
    else
      var cols := [name] + x.frame.columns;
      assert ColumnSet(cols) == {name} + ColumnSet(x.frame.columns);
      assert Distinct(cols) by {
        forall i, j | 0 <= i < j < |cols| ensures cols[i] != cols[j] {
          assert cols[j] == x.frame.columns[j - 1];
          if i > 0 {
            assert cols[i] == x.frame.columns[i - 1];
          }
        }
      }
      Ok(Frame(cols, seq(|x.frame.rows|, i requires 0 <= i < |x.frame.rows| =>
        x.frame.rows[i][name := Int(x.labels[i])])))
  }

  /** Dropping the new column again gives back the frame as it was. */
  lemma ResetIndexDrop(x: Labelled)
    requires ValidLabelled(x) && ResetIndex(x).Ok?
    ensures DropColumns(ResetIndex(x).value, [IndexName(x.frame.columns)]) == Ok(x.frame)
  {
    var name := IndexName(x.frame.columns);
    var f := ResetIndex(x).value;
    assert f.columns == [name] + x.frame.columns;
    assert name in f.columns;
    assert Missing([name], f.columns).None?;
    var d := DropColumns(f, [name]).value;
    var gone := ColumnSet([name]);
    assert gone == {name};
    WithoutFront(name, x.frame.columns);
    assert d.columns == x.frame.columns;
    forall i | 0 <= i < |f.rows| ensures d.rows[i] == x.frame.rows[i] {
      DropAdded(x.frame.rows[i], name, Int(x.labels[i]));
    }
    assert d.rows == x.frame.rows;
  }

  /** Setting a cell of a new column and removing that column again. */
  lemma DropAdded(row: Row, c: string, v: Value)
    requires c !in row
    ensures row[c := v] - {c} == row
  {
  }

  /** Removing an element put in front of a sequence that lacks it. */
  lemma {:induction false} WithoutFront(x: string, s: seq<string>)
    requires x !in s
    ensures Without([x] + s, {x}) == s
  {
    assert ([x] + s)[1..] == s;
    WithoutNone(s, {x});
  }

  // ---------------------------------------------------------------------
  // One layer (app/level_3.py, clip_and_save)
  // ---------------------------------------------------------------------

  /** The mask's outline: the union of the country's polygons. */
  function Outline(cty: Frame): Geometry {
    UnionGeometry(cty.rows)
  }

  /** `clip_and_save` up to the write: the layer clipped to the country,
      recast and relabelled. */
  function ClipAndSave(store: Store, gdf: Frame, iso3: string, e: Engine): Result<Frame>
    requires ValidStore(store) && Valid(gdf)
  {
    var cty :- CountryMask(store, iso3);
    if GeometryColumn !in gdf.columns || GeometryColumn !in cty.columns then Err(MissingColumn(GeometryColumn))
    else
      var clipped := Clip(gdf, Outline(cty));
      var cast :- CastValidTo(clipped, e);
      ResetIndex(cast)
  }

  /** The row written for the input row at position `k`: clipped,
      recast and labelled with `k`. */
  function LayerRow(gdf: Frame, k: int, mask: Geometry, e: Engine): Row
    requires 0 <= k < |gdf.rows|
  {
    var row := ClipRow(gdf.rows[k], mask);
    row["validto" := e.toDate32(Cell(row, "validto"))][IndexName(gdf.columns) := Int(k)]
  }

  /** A row of `rows` for the country whose polygon holds `p`. */
  predicate InMask(rows: seq<Row>, iso3: string, row: Row, p: Point) {
    row in rows && Cell(row, "iso3cd") == Str(iso3) && p in GeomOf(Cell(row, GeometryColumn))
  }

  /** The union of the polygons of the country's rows. */
  lemma {:induction false} SelectedUnion(cty: seq<Row>, rows: seq<Row>, iso3: string, p: Point)
    requires forall row :: row in cty <==> row in rows && Cell(row, "iso3cd") == Str(iso3)
    ensures p in UnionGeometry(cty) <==> exists row :: InMask(rows, iso3, row, p)
  {
    if p in UnionGeometry(cty) {
      var i :| 0 <= i < |cty| && p in GeomOf(Cell(cty[i], GeometryColumn));
      assert cty[i] in cty;
      assert InMask(rows, iso3, cty[i], p);
    }
    if exists row :: InMask(rows, iso3, row, p) {
      var row :| InMask(rows, iso3, row, p);
      assert row in cty;
      var i :| 0 <= i < |cty| && cty[i] == row;
    }
  }

  /** A point is in the outline exactly when it is in the polygon of one
      of the mask file's rows for the country. */
  lemma OutlineSpec(store: Store, iso3: string)
    requires ValidStore(store) && CountryMask(store, iso3).Ok?
    ensures forall p :: p in Outline(CountryMask(store, iso3).value) <==>
      exists row :: InMask(store[MaskPath(iso3)].rows, iso3, row, p)
  {
    var cty := CountryMask(store, iso3).value;
    forall p ensures p in Outline(cty) <==> exists row :: InMask(store[MaskPath(iso3)].rows, iso3, row, p) {
      SelectedUnion(cty.rows, store[MaskPath(iso3)].rows, iso3, p);
    }
  }

  /** What one layer comes to: the faults that fail it, and otherwise the
      labels' column in front of the layer's own, and one row for each
      input row whose polygon meets the outline, in input order. */
  lemma ClipAndSaveSpec(store: Store, gdf: Frame, iso3: string, e: Engine)
    requires ValidStore(store) && Valid(gdf)
    ensures ClipAndSave(store, gdf, iso3, e).Err? <==>
      || CountryMask(store, iso3).Err?
      || GeometryColumn !in gdf.columns
      || GeometryColumn !in store[MaskPath(iso3)].columns
      || "validto" !in gdf.columns
      || ("index" in gdf.columns && "level_0" in gdf.columns)
    ensures ClipAndSave(store, gdf, iso3, e).Ok? ==>
      var r := ClipAndSave(store, gdf, iso3, e).value;
      var mask := Outline(CountryMask(store, iso3).value);
      var ks := Hits(gdf, mask);
      && r.columns == [IndexName(gdf.columns)] + gdf.columns
      && |r.rows| == |ks|
      && forall j :: 0 <= j < |ks| ==> 0 <= ks[j] < |gdf.rows| && r.rows[j] == LayerRow(gdf, ks[j], mask, e)
  {
    var m := CountryMask(store, iso3);
    if m.Ok? && GeometryColumn in gdf.columns && GeometryColumn in m.value.columns {
      var mask := Outline(m.value);
      var clipped := Clip(gdf, mask);
      var cast := CastValidTo(clipped, e);
      if cast.Ok? {
        var r := ResetIndex(cast.value);
        if r.Ok? {
          var ks := Hits(gdf, mask);
          forall j | 0 <= j < |ks| ensures r.value.rows[j] == LayerRow(gdf, ks[j], mask, e) {
            var row := ClipRow(gdf.rows[ks[j]], mask);
            assert clipped.frame.rows[j] == row;
            assert cast.value.frame.rows[j] == row["validto" := e.toDate32(row["validto"])];
          }
        }
      }
    }
  }

  // ---------------------------------------------------------------------
  // One country (app/level_3.py, main)
  // ---------------------------------------------------------------------

  /** The outcome of every level whose level-2 file exists. */
  function Level3Results(store: Store, iso3: string, e: Engine): map<int, Result<Frame>>
    requires ValidStore(store)
  {
    map l | 0 <= l <= AdminLevelMax && Level2l.LevelPath(iso3, l) in store ::
      ClipAndSave(store, store[Level2l.LevelPath(iso3, l)], iso3, e)
  }

  /** What level 3 writes for one country. */
  function Level3Run(store: Store, iso3: string, e: Engine): Result<seq<Output>>
    requires ValidStore(store)
  {
    WriteLevels(Level3Results(store, iso3, e), iso3, AdminLevelMax, "3")
  }

  /** Which levels have a result, and what it is. */
  lemma Level3ResultsAt(store: Store, iso3: string, e: Engine, l: int)
    requires ValidStore(store)
    ensures l in Level3Results(store, iso3, e) <==> 0 <= l <= AdminLevelMax && Level2l.LevelPath(iso3, l) in store
    ensures l in Level3Results(store, iso3, e) ==>
      Level3Results(store, iso3, e)[l] == ClipAndSave(store, store[Level2l.LevelPath(iso3, l)], iso3, e)
  {
  }

  /** The country's run succeeds exactly when every one of its level-2
      files clips without error. */
  lemma Level3Ok(store: Store, iso3: string, e: Engine)
    requires ValidStore(store)
    ensures Level3Run(store, iso3, e).Ok? <==>
      forall l :: 0 <= l <= AdminLevelMax && Level2l.LevelPath(iso3, l) in store ==>
        ClipAndSave(store, store[Level2l.LevelPath(iso3, l)], iso3, e).Ok?
  {
    var res := Level3Results(store, iso3, e);
    WriteLevelsOk(res, iso3, AdminLevelMax, "3");
    assert forall l :: l in res <==> 0 <= l <= AdminLevelMax && Level2l.LevelPath(iso3, l) in store;
  }

  /** `o` is the file of level `l`: its level-2 file clipped, under the
      level's name in `outputs/level-3`. */
  predicate WrittenFor(store: Store, iso3: string, e: Engine, o: Output, l: int)
    requires ValidStore(store)
  {
    && 0 <= l <= AdminLevelMax && Level2l.LevelPath(iso3, l) in store
    && ClipAndSave(store, store[Level2l.LevelPath(iso3, l)], iso3, e).Ok?
    && o == Output(Path(L3Dir, FileName(iso3, l)), ClipAndSave(store, store[Level2l.LevelPath(iso3, l)], iso3, e).value)
  }

  /** On success there is one file per level-2 file of the country,
      finest level first, each the clipped layer of that level. */
  lemma Level3Written(store: Store, iso3: string, e: Engine, outs: seq<Output>)
    requires ValidStore(store) && Level3Run(store, iso3, e) == Ok(outs)
    ensures |outs| == |ResultLevels(Level3Results(store, iso3, e), AdminLevelMax)|
    ensures forall j :: 0 <= j < |outs| ==> WrittenFor(store, iso3, e, outs[j], ResultLevels(Level3Results(store, iso3, e), AdminLevelMax)[j])
    ensures forall j, k :: 0 <= j < k < |outs| ==> outs[j].path != outs[k].path
  {
    var res := Level3Results(store, iso3, e);
    var ls := ResultLevels(res, AdminLevelMax);
    WriteLevelsFiles(res, iso3, AdminLevelMax, "3", outs);
    WriteLevelsDistinct(res, iso3, AdminLevelMax, "3", outs);
    forall j | 0 <= j < |outs| ensures WrittenFor(store, iso3, e, outs[j], ls[j]) {
      assert LevelOutput(res, iso3, "3", outs[j], ls[j]);
      Level3ResultsAt(store, iso3, e, ls[j]);
    }
  }

  /** Every level is visited: a file is written for a level exactly when
      its level-2 file exists, and no two files share a path. */
  lemma Level3Files(store: Store, iso3: string, e: Engine, outs: seq<Output>, l: int)
    requires ValidStore(store) && Level3Run(store, iso3, e) == Ok(outs)
    ensures 0 <= l <= AdminLevelMax && Level2l.LevelPath(iso3, l) in store <==>
      exists j :: 0 <= j < |outs| && WrittenFor(store, iso3, e, outs[j], l)
    ensures forall j, k :: 0 <= j < k < |outs| ==> outs[j].path != outs[k].path
  {
    var res := Level3Results(store, iso3, e);
    var ls := ResultLevels(res, AdminLevelMax);
    Level3Written(store, iso3, e, outs);
    WriteLevelsFiles(res, iso3, AdminLevelMax, "3", outs);
    ResultLevelsSpec(res, AdminLevelMax);
    Level3ResultsAt(store, iso3, e, l);
    if 0 <= l <= AdminLevelMax && Level2l.LevelPath(iso3, l) in store {
      assert l in ls;
      var j :| 0 <= j < |ls| && ls[j] == l;
      assert WrittenFor(store, iso3, e, outs[j], l);
    }
  }

  /** One country of `main`: every level from the deepest down to 0 whose
      level-2 file exists clipped and written; unlike levels 2a and 2b the
      walk does not stop at the first layer found. */
  method Level3Country(store: Store, iso3: string, e: Engine) returns (r: Result<seq<Output>>)
    requires ValidStore(store)
    ensures r == Level3Run(store, iso3, e)
  {
    ghost var res := Level3Results(store, iso3, e);
    ghost var total := WriteLevels(res, iso3, AdminLevelMax, "3");
    var outs: seq<Output> := [];
    var l := AdminLevelMax;
    PrependNothing(total);
    while l >= 0
      invariant -1 <= l <= AdminLevelMax
      invariant total == Prepend(outs, WriteLevels(res, iso3, l, "3"))
      decreases l
    {
      var p := Level2l.LevelPath(iso3, l);
      var here: seq<Output> := [];
      Level3ResultsAt(store, iso3, e, l);
      if p in store {
        var g := ClipAndSave(store, store[p], iso3, e);
        WriteLevelsTurn(res, iso3, l, "3", outs, if g.Ok? then [ToParquet(g.value, iso3, l, "3")] else []);
        if g.Err? {
          return Err(g.error);
        }
        here := [ToParquet(g.value, iso3, l, "3")];
      } else {
        WriteLevelsTurn(res, iso3, l, "3", outs, here);
      }
      outs := outs + here;
      l := l - 1;
    }
    assert outs + [] == outs;
    return Ok(outs);
  }
}
