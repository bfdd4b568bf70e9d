/** Level 2a (app/level_2a.py): a country's finest level-1b layer, with the
    UN's additions for that level appended, written to the extended/pre
    directory either whole or as the parts that the country's level-2
    rules carve out of it by P-code. */
module Level2a {
  import opened Text
  import opened Frames
  import opened Dissolve
  import opened Config
  import opened Utils

  /** One layer of a country's entry in `level_2.json`: its name, its
      switch and the P-codes the switch tests. */
  datatype Layer = Layer(name: string, switch: string, args: seq<string>)

  /** A country's entry: the level whose P-code the layers test, and the
      layers in the order of the file. */
  datatype SplitRule = SplitRule(adm: int, layers: seq<Layer>)

  /** `level_2.json`, by ISO3 code. */
  type Level2Fixes = map<string, SplitRule>

  const ValidtoColumn := "validto"

  /** `inputs / f"un/{iso3.lower()}_adm{level}.parquet"`. */
  function AdditionsPath(iso3: string, level: int): Path {
    Path(UnDir, FileName(iso3, level))
  }

  /** `f"{name}_adm{level}.parquet"`: the file of one configured layer. */
  function LayerFile(name: string, level: int): string {
    name + "_adm" + IntToString(level) + ".parquet"
  }

  // ---------------------------------------------------------------------
  // Additions (app/level_2a.py:18-24)
  // ---------------------------------------------------------------------

  /** `additions.to_crs(WGS84)`: every geometry reprojected; a table with
      no geometry cannot be reprojected. */
  function ToWgs84(add: Frame, e: Engine): (r: Result<Frame>)
    requires Valid(add)
    ensures r.Err? <==> GeometryColumn !in add.columns
    ensures r.Ok? ==> Valid(r.value) && r.value.columns == add.columns && |r.value.rows| == |add.rows|
  {
    if GeometryColumn in add.columns then Ok(MapColumn(add, GeometryColumn, OnGeometry(e.reproject)))
    else Err(MissingColumn(GeometryColumn))
  }

  /** `concat([gdf, additions], ignore_index=True)[columns]`, then
      `gdf["validto"] = NaT`. The selection cannot fail: the concatenation
      has every column of `gdf`. */
  function Merged(gdf: Frame, add: Frame): (r: Frame)
    requires Valid(gdf) && Valid(add)
    ensures Valid(r)
  {
    var c := Concat(gdf, add);
    assert forall x :: x in gdf.columns ==> x in ColumnSet(c.columns);
    var s := Select(c, gdf.columns);
    Fill(s.value, ValidtoColumn, Null)
  }

  /** The merge keeps the layer's columns (with `validto` added when it was
      missing) and its rows in order, then appends each addition aligned to
      those columns: cells the addition lacks are null and columns only the
      addition has are dropped. `validto` is null on every row. */
  lemma MergedRows(gdf: Frame, add: Frame)
    requires Valid(gdf) && Valid(add)
    ensures var r := Merged(gdf, add);
      && r.columns == (if ValidtoColumn in gdf.columns then gdf.columns else gdf.columns + [ValidtoColumn])
      && |r.rows| == |gdf.rows| + |add.rows|
      && (forall i :: 0 <= i < |gdf.rows| ==> r.rows[i] == gdf.rows[i][ValidtoColumn := Null])
      && (forall i :: 0 <= i < |add.rows| ==> r.rows[|gdf.rows| + i] == Pad(add.rows[i], gdf.columns)[ValidtoColumn := Null])
  {
    MergedShape(gdf, add);
    forall i | 0 <= i < |gdf.rows| ensures Merged(gdf, add).rows[i] == gdf.rows[i][ValidtoColumn := Null] {
      MergedOriginal(gdf, add, i);
    }
    forall i | 0 <= i < |add.rows|
      ensures Merged(gdf, add).rows[|gdf.rows| + i] == Pad(add.rows[i], gdf.columns)[ValidtoColumn := Null]
    {
      MergedAddition(gdf, add, i);
    }
  }

  /** The selection inside the merge, which always succeeds. */
  lemma MergedSelect(gdf: Frame, add: Frame)
    requires Valid(gdf) && Valid(add)
    ensures Select(Concat(gdf, add), gdf.columns).Ok?
    ensures Merged(gdf, add) == Fill(Select(Concat(gdf, add), gdf.columns).value, ValidtoColumn, Null)
  {
    var c := Concat(gdf, add);
    assert forall x :: x in gdf.columns ==> x in ColumnSet(c.columns);
  }

  lemma MergedShape(gdf: Frame, add: Frame)
    requires Valid(gdf) && Valid(add)
    ensures Merged(gdf, add).columns == (if ValidtoColumn in gdf.columns then gdf.columns else gdf.columns + [ValidtoColumn])
    ensures |Merged(gdf, add).rows| == |gdf.rows| + |add.rows|
  {
    MergedSelect(gdf, add);
  }

  lemma MergedOriginal(gdf: Frame, add: Frame, i: int)
    requires Valid(gdf) && Valid(add) && 0 <= i < |gdf.rows|
    ensures |Merged(gdf, add).rows| == |gdf.rows| + |add.rows|
    ensures Merged(gdf, add).rows[i] == gdf.rows[i][ValidtoColumn := Null]
  {
    MergedSelect(gdf, add);
    var c := Concat(gdf, add);
    var s := Select(c, gdf.columns).value;
    assert s.rows[i] == Restrict(c.rows[i], ColumnSet(gdf.columns));
    assert c.rows[i] == Pad(gdf.rows[i], c.columns);
    OriginalRowKept(gdf.rows[i], gdf.columns, c.columns);
  }

  lemma MergedAddition(gdf: Frame, add: Frame, i: int)
    requires Valid(gdf) && Valid(add) && 0 <= i < |add.rows|
    ensures |Merged(gdf, add).rows| == |gdf.rows| + |add.rows|
    ensures Merged(gdf, add).rows[|gdf.rows| + i] == Pad(add.rows[i], gdf.columns)[ValidtoColumn := Null]
  {
    MergedSelect(gdf, add);
    SelectedAddition(gdf, add, i);
  }

  lemma SelectedAddition(gdf: Frame, add: Frame, i: int)
    requires Valid(gdf) && Valid(add) && 0 <= i < |add.rows|
    requires Select(Concat(gdf, add), gdf.columns).Ok?
    ensures |Select(Concat(gdf, add), gdf.columns).value.rows| == |gdf.rows| + |add.rows|
    ensures Select(Concat(gdf, add), gdf.columns).value.rows[|gdf.rows| + i] == Pad(add.rows[i], gdf.columns)
  {
    SelectedConcatRow(gdf, add, i);
    AddedRowAligned(add.rows[i], gdf.columns, Concat(gdf, add).columns);
  }

  /** The selected row of an addition, before its alignment is simplified. */
  lemma SelectedConcatRow(gdf: Frame, add: Frame, i: int)
    requires Valid(gdf) && Valid(add) && 0 <= i < |add.rows|
    requires Select(Concat(gdf, add), gdf.columns).Ok?
    ensures |Select(Concat(gdf, add), gdf.columns).value.rows| == |gdf.rows| + |add.rows|
    ensures Select(Concat(gdf, add), gdf.columns).value.rows[|gdf.rows| + i] ==
      Restrict(Pad(add.rows[i], Concat(gdf, add).columns), ColumnSet(gdf.columns))
  {
    var c := Concat(gdf, add);
    ConcatRowAt(gdf, add, i);
    SelectRowAt(c, gdf.columns, |gdf.rows| + i);
  }

  /** A row of the layer survives padding and selecting its own columns. */
  lemma OriginalRowKept(row: Row, cols: seq<string>, wide: seq<string>)
    requires row.Keys == ColumnSet(cols) && ColumnSet(cols) <= ColumnSet(wide)
    ensures Restrict(Pad(row, wide), ColumnSet(cols)) == row
  {
  }

  /** An addition, padded to the wide columns and cut to the layer's, is the
      addition padded to the layer's columns. */
  lemma AddedRowAligned(row: Row, cols: seq<string>, wide: seq<string>)
    requires ColumnSet(cols) <= ColumnSet(wide)
    ensures Restrict(Pad(row, wide), ColumnSet(cols)) == Pad(row, cols)
  {
  }

  /** The layer after the additions for its country and level, when the UN
      supplies any. */
  function WithAdditions(store: Store, gdf: Frame, iso3: string, level: int, e: Engine): (r: Result<Frame>)
    requires ValidStore(store) && Valid(gdf)
    ensures r.Ok? ==> Valid(r.value)
    ensures AdditionsPath(iso3, level) !in store ==> r == Ok(gdf)
    ensures AdditionsPath(iso3, level) in store ==>
      (r.Err? <==> GeometryColumn !in store[AdditionsPath(iso3, level)].columns)
  {
    var p := AdditionsPath(iso3, level);
    if p in store then
      var add :- ToWgs84(store[p], e);
      Ok(Merged(gdf, add))
    else Ok(gdf)
  }

  // ---------------------------------------------------------------------
  // Split layers (app/level_2a.py:25-38)
  // ---------------------------------------------------------------------

  /** `gdf[pcode].isin(args)` on one row. */
  function InArgs(col: string, args: seq<string>): Row -> bool {
    (row: Row) => Cell(row, col).Str? && Cell(row, col).s in args
  }

  /** `~gdf[pcode].isin(args)` on one row: nulls are kept. */
  function NotInArgs(col: string, args: seq<string>): Row -> bool {
    (row: Row) => !(Cell(row, col).Str? && Cell(row, col).s in args)
  }

  predicate ValidSwitch(layer: Layer) {
    layer.switch == "==" || layer.switch == "!="
  }

  /** One layer's `gdf_part`: the rows whose P-code is among the layer's
      codes ("==") or is not ("!="), the P-code column being required.
      With any other switch `gdf_part` keeps the previous layer's part;
      before any layer it is unbound. */
  function Part(g: Frame, col: string, layer: Layer, prev: Option<Frame>): (r: Result<Frame>)
    requires Valid(g)
  {
    if ValidSwitch(layer) then
      if col !in g.columns then Err(MissingColumn(col))
      else if layer.switch == "==" then Ok(FilterRows(g, InArgs(col, layer.args)))
      else Ok(FilterRows(g, NotInArgs(col, layer.args)))
    else if prev.Some? then Ok(prev.value)
    else Err(UnboundLayer(layer.name))
  }

  /** The layers' files, each layer's part written under its own name. */
  function SplitLayers(g: Frame, col: string, layers: seq<Layer>, level: int, prev: Option<Frame>)
    : Result<seq<Output>>
    requires Valid(g)
    decreases |layers|
  {
    if layers == [] then Ok([])
    else
      var part :- Part(g, col, layers[0], prev);
      Prepend([Output(Path(ExtendedPre, LayerFile(layers[0].name, level)), part)],
              SplitLayers(g, col, layers[1..], level, Some(part)))
  }

  /** What `add_remove_split` writes: the layer with its additions, whole
      under the country's name when it has no rule, otherwise split. */
  function AddRemoveSplitSpec(store: Store, gdf: Frame, iso3: string, level: int, fixes: Level2Fixes, e: Engine)
    : Result<seq<Output>>
    requires ValidStore(store) && Valid(gdf)
  {
    var g :- WithAdditions(store, gdf, iso3, level, e);
    if iso3 in fixes then SplitLayers(g, AdmPcode(fixes[iso3].adm), fixes[iso3].layers, level, None)
    else Ok([Output(Path(ExtendedPre, FileName(iso3, level)), g)])
  }

  // ---------------------------------------------------------------------
  // Properties of the split
  // ---------------------------------------------------------------------

  /** An "==" layer holds exactly the rows whose P-code is among its codes,
      a "!=" layer exactly the others (null P-codes included), each in the
      layer's order; the P-code column must exist. */
  lemma PartRows(g: Frame, col: string, layer: Layer, prev: Option<Frame>)
    requires Valid(g) && ValidSwitch(layer)
    ensures Part(g, col, layer, prev).Ok? <==> col in g.columns
    ensures Part(g, col, layer, prev).Err? ==> Part(g, col, layer, prev).error == MissingColumn(col)
    ensures Part(g, col, layer, prev).Ok? ==> Part(g, col, layer, prev).value.columns == g.columns
    ensures Part(g, col, layer, prev).Ok? && layer.switch == "==" ==>
      forall row :: row in Part(g, col, layer, prev).value.rows <==>
        row in g.rows && Cell(row, col).Str? && Cell(row, col).s in layer.args
    ensures Part(g, col, layer, prev).Ok? && layer.switch == "!=" ==>
      forall row :: row in Part(g, col, layer, prev).value.rows <==>
        row in g.rows && !(Cell(row, col).Str? && Cell(row, col).s in layer.args)
  {
    if col in g.columns {
      assert forall row :: row in g.rows ==> col in row;
    }
  }

  /** With the same codes, an "==" layer and a "!=" layer split the rows:
      every row goes to exactly one of them, as often as it occurs. */
  lemma PartsPartition(g: Frame, col: string, args: seq<string>)
    requires Valid(g) && col in g.columns
    ensures var eq := Part(g, col, Layer("in", "==", args), None).value.rows;
      var ne := Part(g, col, Layer("out", "!=", args), None).value.rows;
      && multiset(eq) + multiset(ne) == multiset(g.rows)
      && forall row :: row in eq ==> row !in ne
  {
    var p, q := InArgs(col, args), NotInArgs(col, args);
    assert Part(g, col, Layer("in", "==", args), None) == Ok(FilterRows(g, p));
    assert Part(g, col, Layer("out", "!=", args), None) == Ok(FilterRows(g, q));
    FilterComplement(g.rows, p, q);
  }

  /** The split fails exactly when the first layer has no valid switch
      (its part is unbound) or the P-code column is missing; the first
      failure is the one reported. */
  lemma {:induction false} SplitLayersOk(g: Frame, col: string, layers: seq<Layer>, level: int)
    requires Valid(g)
    ensures SplitLayers(g, col, layers, level, None).Err? <==>
      layers != [] && (!ValidSwitch(layers[0]) || col !in g.columns)
    ensures layers != [] && !ValidSwitch(layers[0]) ==>
      SplitLayers(g, col, layers, level, None) == Err(UnboundLayer(layers[0].name))
  {
    if layers != [] && ValidSwitch(layers[0]) && col in g.columns {
      var part := Part(g, col, layers[0], None).value;
      SplitLaterOk(g, col, layers[1..], level, part);
    }
  }

  /** Once some part is bound, the later layers cannot fail. */
  lemma {:induction false} SplitLaterOk(g: Frame, col: string, layers: seq<Layer>, level: int, prev: Frame)
    requires Valid(g) && col in g.columns
    ensures SplitLayers(g, col, layers, level, Some(prev)).Ok?
    decreases |layers|
  {
    if layers != [] {
      var part := Part(g, col, layers[0], Some(prev)).value;
      SplitLaterOk(g, col, layers[1..], level, part);
    }
  }

  /** The part one layer writes: its own selection when its switch is
      valid, the previous layer's part otherwise. */
  predicate LayerOutput(g: Frame, col: string, layers: seq<Layer>, level: int, outs: seq<Output>, j: int)
    requires Valid(g) && 0 <= j < |layers| && |outs| == |layers|
  {
    && outs[j].path == Path(ExtendedPre, LayerFile(layers[j].name, level))
    && (ValidSwitch(layers[j]) ==> Part(g, col, layers[j], None) == Ok(outs[j].frame))
    && (!ValidSwitch(layers[j]) && j > 0 ==> outs[j].frame == outs[j - 1].frame)
  }

  /** A split writes one file per layer, each under the layer's name; a
      layer with a valid switch writes its own selection and one without
      writes again what the layer before it wrote. */
  lemma {:induction false} SplitLayersFiles(g: Frame, col: string, layers: seq<Layer>, level: int,
                                            prev: Option<Frame>, outs: seq<Output>)
    requires Valid(g)
    requires SplitLayers(g, col, layers, level, prev) == Ok(outs)
    ensures |outs| == |layers|
    ensures forall j :: 0 <= j < |layers| ==> LayerOutput(g, col, layers, level, outs, j)
    ensures layers != [] && !ValidSwitch(layers[0]) ==> prev.Some? && outs[0].frame == prev.value
    decreases |layers|
  {
    if layers != [] {
      var part := Part(g, col, layers[0], prev).value;
      var rest := SplitLayers(g, col, layers[1..], level, Some(part)).value;
      SplitLayersFiles(g, col, layers[1..], level, Some(part), rest);
      var o := Output(Path(ExtendedPre, LayerFile(layers[0].name, level)), part);
      assert outs == [o] + rest;
      SplitFilesCons(g, col, layers, level, outs);
    }
  }

  /** The per-layer description of a split, from that of its tail. */
  lemma SplitFilesCons(g: Frame, col: string, layers: seq<Layer>, level: int, outs: seq<Output>)
    requires Valid(g) && layers != [] && |outs| == |layers|
    requires outs[0].path == Path(ExtendedPre, LayerFile(layers[0].name, level))
    requires ValidSwitch(layers[0]) ==> Part(g, col, layers[0], None) == Ok(outs[0].frame)
    requires |layers| > 1 && !ValidSwitch(layers[1]) ==> outs[1].frame == outs[0].frame
    requires forall j :: 0 <= j < |layers| - 1 ==> LayerOutput(g, col, layers[1..], level, outs[1..], j)
    ensures forall j :: 0 <= j < |layers| ==> LayerOutput(g, col, layers, level, outs, j)
  {
    forall j | 0 <= j < |layers| ensures LayerOutput(g, col, layers, level, outs, j) {
      if j > 0 {
        assert LayerOutput(g, col, layers[1..], level, outs[1..], j - 1);
        assert layers[1..][j - 1] == layers[j] && outs[1..][j - 1] == outs[j];
        if j > 1 {
          assert outs[1..][j - 2] == outs[j - 1];
        }
      }
    }
  }

  /** Layers with distinct names (the keys of the rule's dictionary) are
      written to distinct files. */
  lemma LayerFilesDistinct(a: string, b: string, level: int)
    requires a != b
    ensures LayerFile(a, level) != LayerFile(b, level)
  {
    var t := "_adm" + IntToString(level) + ".parquet";
    assert LayerFile(a, level) == a + t && LayerFile(b, level) == b + t;
    if |a| == |b| {
      assert a == (a + t)[..|a|] && b == (b + t)[..|b|];
    } else {
      assert |LayerFile(a, level)| != |LayerFile(b, level)|;
    }
  }

  /** A country without a rule gets one file, the whole layer with its
      additions under the country's own name. */
  lemma NoRuleWholeLayer(store: Store, gdf: Frame, iso3: string, level: int, fixes: Level2Fixes, e: Engine)
    requires ValidStore(store) && Valid(gdf) && iso3 !in fixes
    requires WithAdditions(store, gdf, iso3, level, e).Ok?
    ensures AddRemoveSplitSpec(store, gdf, iso3, level, fixes, e) ==
      Ok([Output(Path(ExtendedPre, FileName(iso3, level)), WithAdditions(store, gdf, iso3, level, e).value)])
  {
  }

  // ---------------------------------------------------------------------
  // The operation and one country of `main` (app/level_2a.py:17-62)
  // ---------------------------------------------------------------------

  /** `add_remove_split(gdf, iso3, admin_level)`. */
  method AddRemoveSplit(store: Store, gdf: Frame, iso3: string, level: int, fixes: Level2Fixes, e: Engine)
    returns (r: Result<seq<Output>>)
    requires ValidStore(store) && Valid(gdf)
    ensures r == AddRemoveSplitSpec(store, gdf, iso3, level, fixes, e)
  {
    var g := gdf;
    var p := AdditionsPath(iso3, level);
    if p in store {
      var additions := ToWgs84(store[p], e);
      if additions.Err? {
        return Err(additions.error);
      }
      g := Merged(g, additions.value);
    }
    if iso3 in fixes {
      var pcode := AdmPcode(fixes[iso3].adm);
      var layers := fixes[iso3].layers;
      var outs: seq<Output> := [];
      var part: Option<Frame> := None;
      PrependNothing(SplitLayers(g, pcode, layers, level, None));
      for k := 0 to |layers|
        invariant SplitLayers(g, pcode, layers, level, None) == Prepend(outs, SplitLayers(g, pcode, layers[k..], level, part))
      {
        var layer := layers[k];
        assert layers[k..][0] == layer && layers[k..][1..] == layers[k + 1..];
        if layer.switch == "==" {
          if pcode !in g.columns {
            return Err(MissingColumn(pcode));
          }
          part := Some(FilterRows(g, InArgs(pcode, layer.args)));
        } else if layer.switch == "!=" {
          if pcode !in g.columns {
            return Err(MissingColumn(pcode));
          }
          part := Some(FilterRows(g, NotInArgs(pcode, layer.args)));
        } else if part.None? {
          return Err(UnboundLayer(layer.name));
        }
        var here := [Output(Path(ExtendedPre, LayerFile(layer.name, level)), part.value)];
        PrependTwice(outs, here, SplitLayers(g, pcode, layers[k + 1..], level, part));
        outs := outs + here;
      }
      assert outs + [] == outs;
      return Ok(outs);
    }
    return Ok([Output(Path(ExtendedPre, FileName(iso3, level)), g)]);
  }

  /** What level 2a writes for one country: the files of its finest
      level-1b layer, or nothing when it has none. */
  function Level2aRun(store: Store, iso3: string, fixes: Level2Fixes, e: Engine): Result<seq<Output>>
    requires ValidStore(store)
  {
    FinestInSpec(store, L1bDir, iso3, AdminLevelMax);
    match FinestIn(store, L1bDir, iso3, AdminLevelMax)
    case None => Ok([])
    case Some(l) => AddRemoveSplitSpec(store, store[Path(L1bDir, FileName(iso3, l))], iso3, l, fixes, e)
  }

  /** Only the finest level-1b layer counts: replacing the file of a
      coarser level changes nothing the country's run writes. */
  lemma Level2aIgnoresCoarser(store: Store, iso3: string, fixes: Level2Fixes, e: Engine, l: int, m: int, f: Frame)
    requires ValidStore(store) && Valid(f)
    requires 0 <= l < m <= AdminLevelMax && Path(L1bDir, FileName(iso3, m)) in store
    ensures Level2aRun(store[Path(L1bDir, FileName(iso3, l)) := f], iso3, fixes, e) == Level2aRun(store, iso3, fixes, e)
  {
    var p := Path(L1bDir, FileName(iso3, l));
    var s2 := store[p := f];
    FinestIgnoresCoarser(store, L1bDir, iso3, AdminLevelMax, l, m, f);
    FinestInSpec(store, L1bDir, iso3, AdminLevelMax);
    var k := FinestIn(store, L1bDir, iso3, AdminLevelMax).value;
    FileNamesDiffer(iso3, k, l);
    SameAdditions(store, iso3, k, p, f);
  }

  /** The run at a level reads the store only at the additions' path. */
  lemma SameAdditions(store: Store, iso3: string, k: int, p: Path, f: Frame)
    requires p.dir == L1bDir
    ensures AdditionsPath(iso3, k) in store[p := f] <==> AdditionsPath(iso3, k) in store
    ensures AdditionsPath(iso3, k) in store ==> store[p := f][AdditionsPath(iso3, k)] == store[AdditionsPath(iso3, k)]
  {
    assert AdditionsPath(iso3, k).dir != p.dir;
  }

  /** One country of `main`: the scan for the finest level-1b layer, then
      `add_remove_split` of it. */
  method Level2aCountry(store: Store, iso3: string, fixes: Level2Fixes, e: Engine) returns (r: Result<seq<Output>>)
    requires ValidStore(store)
    ensures r == Level2aRun(store, iso3, fixes, e)
  {
    FinestInSpec(store, L1bDir, iso3, AdminLevelMax);
    var l := FindFinest(store, L1bDir, iso3);
    if l.None? {
      return Ok([]);
    }
    r := AddRemoveSplit(store, store[Path(L1bDir, FileName(iso3, l.value))], iso3, l.value, fixes, e);
  }
}
