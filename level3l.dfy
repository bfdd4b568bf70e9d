/** Level 3 lines: the United Nations boundary lines, prepared once, joined
    for each country with the country's level-2 lines clipped to the
    country's outline, and written under `outputs/level-3-lines`. */
module Level3l {
  import opened Text
  import opened Frames
  import opened Dissolve
  import opened Config
  import opened Utils
  import Level2l
  import Level3

  /** The columns lines are dissolved by. */
  const LineKeys: seq<string> := ["bdytyp", "iso3cd"]
  /** The columns the global lines keep. */
  const GlobalColumns: seq<string> := ["bdytyp", "iso3cd", GeometryColumn]
  /** The global boundary lines file. */
  const GlobalLinesPath := Path(UnDir, "bndl.parquet")

  // ---------------------------------------------------------------------
  // Global lines (app/level_3l.py, main)
  // ---------------------------------------------------------------------

  /** `isin([6, 7])` on one cell; pandas compares numbers by value. */
  predicate Excluded(v: Value) {
    v == Int(6) || v == Int(7) || v == Num(6.0) || v == Num(7.0)
  }

  /** A global line with its missing country code made the empty string. */
  function Filled(row: Row): Row {
    row["iso3cd" := FillNull(Str(""))(Cell(row, "iso3cd"))]
  }

  /** `lines["iso3cd"] = lines["iso3cd"].fillna("")`. */
  function FillCodes(lines: Frame): (r: Result<Frame>)
    requires Valid(lines)
    ensures r.Err? <==> "iso3cd" !in lines.columns
    ensures r.Err? ==> r.error == MissingColumn("iso3cd")
    ensures r.Ok? ==> Valid(r.value) && r.value.columns == lines.columns && |r.value.rows| == |lines.rows|
    ensures r.Ok? ==> forall i :: 0 <= i < |lines.rows| ==> r.value.rows[i] == Filled(lines.rows[i])
  {
    if "iso3cd" !in lines.columns then Err(MissingColumn("iso3cd"))
    else Ok(MapColumn(lines, "iso3cd", FillNull(Str(""))))
  }

  /** `lines[~lines["bdytyp"].isin([6, 7])]`. */
  function DropExcluded(lines: Frame): (r: Result<Frame>)
    requires Valid(lines)
    ensures r.Err? <==> "bdytyp" !in lines.columns
    ensures r.Err? ==> r.error == MissingColumn("bdytyp")
    ensures r.Ok? ==> Valid(r.value) && r.value.columns == lines.columns
    ensures r.Ok? ==> forall row :: row in r.value.rows <==> row in lines.rows && !Excluded(Cell(row, "bdytyp"))
  {
    if "bdytyp" !in lines.columns then Err(MissingColumn("bdytyp"))
    else Ok(FilterRows(lines, (row: Row) => !Excluded(Cell(row, "bdytyp"))))
  }

  /** The prepared global lines: read, codes filled, types 6 and 7
      dropped, three columns kept, dissolved by type and code. */
  function GlobalLines(store: Store): Result<Frame>
    requires ValidStore(store)
  {
    if GlobalLinesPath !in store then Err(MissingFile(GlobalLinesPath))
    else
      var filled :- FillCodes(store[GlobalLinesPath]);
      var kept :- DropExcluded(filled);
      var narrow :- Select(kept, GlobalColumns);
      DissolveBy(narrow, LineKeys)
  }

  /** A row's group key survives keeping a set of columns that holds the
      key columns. */
  lemma RestrictKey(row: Row, cs: set<string>)
    requires "bdytyp" in cs && "iso3cd" in cs
    ensures KeyOf(Restrict(row, cs), LineKeys) == KeyOf(row, LineKeys)
  {
    assert RowKey(Restrict(row, cs), LineKeys) == RowKey(row, LineKeys);
  }

  /** A global line's code is never null once filled. */
  lemma FilledKey(row: Row)
    ensures Cell(Filled(row), "iso3cd") != Null
    ensures Cell(Filled(row), "bdytyp") == Cell(row, "bdytyp")
  {
  }

  /** The frames between the source lines and the dissolve. */
  predicate Prepared(src: Frame, narrow: Frame) {
    && Valid(src) && FillCodes(src).Ok? && DropExcluded(FillCodes(src).value).Ok?
    && Select(DropExcluded(FillCodes(src).value).value, GlobalColumns) == Ok(narrow)
  }

  /** A source line of a type other than 6 and 7 with a given key. */
  predicate KeptWithKey(src: Frame, row: Row, k: Key) {
    row in src.rows && !Excluded(Cell(row, "bdytyp")) && KeyOf(Filled(row), LineKeys) == Some(k)
  }

  /** Some row of the frame belongs to the group with key `k`. */
  predicate HasKey(f: Frame, k: Key) {
    exists i :: 0 <= i < |f.rows| && KeyOf(f.rows[i], LineKeys) == Some(k)
  }

  /** Every prepared row comes from a kept source line with its key. */
  lemma NarrowToSource(src: Frame, narrow: Frame, i: int, k: Key)
    requires Prepared(src, narrow) && 0 <= i < |narrow.rows| && KeyOf(narrow.rows[i], LineKeys) == Some(k)
    ensures exists row :: KeptWithKey(src, row, k)
  {
    var filled := FillCodes(src).value;
    var kept := DropExcluded(filled).value;
    assert narrow.rows[i] == Restrict(kept.rows[i], ColumnSet(GlobalColumns));
    RestrictKey(kept.rows[i], ColumnSet(GlobalColumns));
    assert kept.rows[i] in kept.rows;
    assert kept.rows[i] in filled.rows && !Excluded(Cell(kept.rows[i], "bdytyp"));
    var m :| 0 <= m < |filled.rows| && filled.rows[m] == kept.rows[i];
    assert filled.rows[m] == Filled(src.rows[m]);
    FilledKey(src.rows[m]);
    assert src.rows[m] in src.rows;
    assert KeptWithKey(src, src.rows[m], k);
  }

  /** Every kept source line has a prepared row with its key. */
  lemma SourceToNarrow(src: Frame, narrow: Frame, row: Row, k: Key)
    requires Prepared(src, narrow) && KeptWithKey(src, row, k)
    ensures exists i :: 0 <= i < |narrow.rows| && KeyOf(narrow.rows[i], LineKeys) == Some(k)
  {
    var filled := FillCodes(src).value;
    var kept := DropExcluded(filled).value;
    var m :| 0 <= m < |src.rows| && src.rows[m] == row;
    FilledKey(row);
    assert filled.rows[m] == Filled(row);
    assert Filled(row) in filled.rows;
    assert Filled(row) in kept.rows;
    var i :| 0 <= i < |kept.rows| && kept.rows[i] == Filled(row);
    assert narrow.rows[i] == Restrict(kept.rows[i], ColumnSet(GlobalColumns));
    RestrictKey(Filled(row), ColumnSet(GlobalColumns));
    assert KeyOf(narrow.rows[i], LineKeys) == Some(k);
  }

  /** The keys of the prepared rows are those of the kept source lines. */
  lemma NarrowRows(src: Frame, narrow: Frame)
    requires Prepared(src, narrow)
    ensures forall k :: HasKey(narrow, k) <==> exists row :: KeptWithKey(src, row, k)
  {
    forall k ensures HasKey(narrow, k) <==> exists row :: KeptWithKey(src, row, k) {
      if exists i :: 0 <= i < |narrow.rows| && KeyOf(narrow.rows[i], LineKeys) == Some(k) {
        var i :| 0 <= i < |narrow.rows| && KeyOf(narrow.rows[i], LineKeys) == Some(k);
        NarrowToSource(src, narrow, i, k);
      }
      if exists row :: KeptWithKey(src, row, k) {
        var row :| KeptWithKey(src, row, k);
        SourceToNarrow(src, narrow, row, k);
      }
    }
  }

  /** The global lines fail exactly when the file or one of the three
      columns is missing; otherwise they have the three columns, one row per
      (type, code) pair of the source lines of a type other than 6 and 7,
      in ascending order, and no row of type 6 or 7. */
  lemma GlobalLinesSpec(store: Store)
    requires ValidStore(store)
    ensures GlobalLines(store).Err? <==>
      GlobalLinesPath !in store || Missing(GlobalColumns, store[GlobalLinesPath].columns).Some?
    ensures GlobalLines(store).Ok? ==>
      var out := GlobalLines(store).value;
      && out.columns == GlobalColumns
      && StrictlySorted(FrameKeys(out, LineKeys))
      && Distinct(FrameKeys(out, LineKeys))
      && (forall k :: k in FrameKeys(out, LineKeys) <==> exists row :: KeptWithKey(store[GlobalLinesPath], row, k))
      && (forall j :: 0 <= j < |out.rows| ==> !Excluded(out.rows[j]["bdytyp"]) && out.rows[j]["iso3cd"] != Null)
  {
    if GlobalLinesPath in store {
      var src := store[GlobalLinesPath];
      var filled := FillCodes(src);
      if filled.Ok? {
        var kept := DropExcluded(filled.value);
        if kept.Ok? {
          var narrow := Select(kept.value, GlobalColumns);
          assert narrow.Ok? <==> Missing(GlobalColumns, src.columns).None?;
          if narrow.Ok? {
            assert Missing(LineKeys + [GeometryColumn], narrow.value.columns).None?;
            var out := DissolveBy(narrow.value, LineKeys).value;
            GlobalColumnsDissolved();
            NarrowRows(src, narrow.value);
            GlobalKeys(src, narrow.value, out);
            forall j | 0 <= j < |out.rows| ensures !Excluded(out.rows[j]["bdytyp"]) && out.rows[j]["iso3cd"] != Null {
              KeptRow(src, out, j);
            }
          }
        }
      }
    }
  }

  /** One line of type 1.0 (an integer column with nulls, as pyarrow reads
      it) for "ABC". */
  function FloatLine(geom: Geometry): Row {
    map["bdytyp" := Num(1.0), "iso3cd" := Str("ABC"), GeometryColumn := Geom(geom)]
  }

  /** A type read as a float still forms a group: the single line above
      gives one global line, with its key. */
  lemma FloatTypeGrouped(geom: Geometry)
    ensures var s := map[GlobalLinesPath := Frame(GlobalColumns, [FloatLine(geom)])];
      && GlobalLines(s).Ok?
      && FrameKeys(GlobalLines(s).value, LineKeys) == [[Num(1.0), Str("ABC")]]
  {
    var src := Frame(GlobalColumns, [FloatLine(geom)]);
    var s := map[GlobalLinesPath := src];
    FloatLineKept(geom);
    assert s[GlobalLinesPath] == src;
    GlobalLinesSpec(s);
    var out := GlobalLines(s).value;
    var ks := FrameKeys(out, LineKeys);
    assert forall x :: x in ks <==> exists row :: KeptWithKey(src, row, x);
    assert Distinct(ks);
    assert KeptWithKey(src, FloatLine(geom), [Num(1.0), Str("ABC")]);
    OneKey(src, ks, [Num(1.0), Str("ABC")]);
  }

  lemma FloatLineKept(geom: Geometry)
    ensures var src := Frame(GlobalColumns, [FloatLine(geom)]);
      && Valid(src) && ValidStore(map[GlobalLinesPath := src])
      && Missing(GlobalColumns, src.columns).None?
      && (forall row :: KeptWithKey(src, row, [Num(1.0), Str("ABC")]) <==> row == FloatLine(geom))
      && (forall row, k :: KeptWithKey(src, row, k) ==> k == [Num(1.0), Str("ABC")])
  {
    var row := FloatLine(geom);
    assert ColumnSet(GlobalColumns) == {"bdytyp", "iso3cd", GeometryColumn};
    assert Filled(row) == row;
    assert RowKey(row, LineKeys) == [Num(1.0), Str("ABC")];
  }

  /** Keys that are exactly the one key of a source's lines. */
  lemma OneKey(src: Frame, ks: seq<Key>, k: Key)
    requires Distinct(ks)
    requires forall x :: x in ks <==> exists row :: KeptWithKey(src, row, x)
    requires exists row :: KeptWithKey(src, row, k)
    requires forall row, x :: KeptWithKey(src, row, x) ==> x == k
    ensures ks == [k]
  {
    assert k in ks;
    assert |ks| < 2 || ks[0] != ks[1];
    forall i | 0 <= i < |ks| ensures ks[i] == k {
      assert ks[i] in ks;
      var r :| KeptWithKey(src, r, ks[i]);
    }
  }

  /** Dissolving the three kept columns by type and code keeps them. */
  lemma GlobalColumnsDissolved()
    ensures DissolvedColumns(GlobalColumns, LineKeys) == GlobalColumns
  {
    WithoutAll(GlobalColumns, ColumnSet(LineKeys) + {GeometryColumn});
  }

  /** The keys of the dissolved global lines are those of the kept
      source lines. */
  lemma GlobalKeys(src: Frame, narrow: Frame, out: Frame)
    requires Valid(narrow) && DissolveBy(narrow, LineKeys) == Ok(out)
    requires forall k :: HasKey(narrow, k) <==> exists row :: KeptWithKey(src, row, k)
    ensures StrictlySorted(FrameKeys(out, LineKeys)) && Distinct(FrameKeys(out, LineKeys))
    ensures forall k :: k in FrameKeys(out, LineKeys) <==> exists row :: KeptWithKey(src, row, k)
  {
    DissolveKeys(narrow, LineKeys, out);
    forall k ensures k in FrameKeys(out, LineKeys) <==> exists row :: KeptWithKey(src, row, k) {
      assert k in FrameKeys(out, LineKeys) <==> HasKey(narrow, k);
    }
  }

  /** A row whose key is that of a kept source line is of a type other
      than 6 and 7 and has a code. */
  lemma KeptRow(src: Frame, out: Frame, j: int)
    requires Valid(out) && out.columns == GlobalColumns && 0 <= j < |out.rows|
    requires forall k :: k in FrameKeys(out, LineKeys) ==> exists row :: KeptWithKey(src, row, k)
    ensures !Excluded(out.rows[j]["bdytyp"]) && out.rows[j]["iso3cd"] != Null
  {
    var ks := FrameKeys(out, LineKeys);
    assert ks[j] in ks;
    var row :| KeptWithKey(src, row, ks[j]);
    assert RowKey(out.rows[j], LineKeys) == ks[j] == RowKey(Filled(row), LineKeys);
    assert out.rows[j]["bdytyp"] == ks[j][0] == Cell(Filled(row), "bdytyp");
    FilledKey(row);
  }

  // ---------------------------------------------------------------------
  // A country's own lines (app/level_3l.py, clip_lines)
  // ---------------------------------------------------------------------

  /** `clip_lines`: the country's level-2 lines clipped to its outline,
      dissolved by type and code, renumbered. */
  function ClipLines(store: Store, gdf: Frame, iso3: string): (r: Result<Frame>)
    requires ValidStore(store) && Valid(gdf)
    ensures r.Ok? ==> Valid(r.value)
  {
    var cty :- Level3.CountryMask(store, iso3);
    if GeometryColumn !in gdf.columns || GeometryColumn !in cty.columns then Err(MissingColumn(GeometryColumn))
    else
      var clipped := Level3.Clip(gdf, Level3.Outline(cty)).frame;
      var d :- DissolveBy(clipped, LineKeys);
      var r :- Level3.ResetIndex(Level3.Labelled(d, Level3.Positions(|d.rows|)));
      DropColumns(r, ["index"])
  }

  /** The dissolve of the clipped lines: what `clip_lines` returns once
      the relabelling is undone. */
  function ClippedDissolved(store: Store, gdf: Frame, iso3: string): Result<Frame>
    requires ValidStore(store) && Valid(gdf)
    requires Level3.CountryMask(store, iso3).Ok? && GeometryColumn in gdf.columns
  {
    DissolveBy(Level3.Clip(gdf, Level3.Outline(Level3.CountryMask(store, iso3).value)).frame, LineKeys)
  }

  /** The country's own lines fail exactly when the mask does, a geometry,
      type or code column is missing, or both `index` and `level_0` are
      taken; without an `index` column they are the clipped lines
      dissolved, one row per (type, code) pair in ascending order. */
  lemma ClipLinesSpec(store: Store, gdf: Frame, iso3: string)
    requires ValidStore(store) && Valid(gdf)
    ensures ClipLines(store, gdf, iso3).Err? <==>
      || Level3.CountryMask(store, iso3).Err?
      || GeometryColumn !in gdf.columns
      || GeometryColumn !in store[Level3.MaskPath(iso3)].columns
      || Missing(LineKeys, gdf.columns).Some?
      || ("index" in gdf.columns && "level_0" in gdf.columns)
    ensures ClipLines(store, gdf, iso3).Ok? && "index" !in gdf.columns ==>
      && ClipLines(store, gdf, iso3) == ClippedDissolved(store, gdf, iso3)
      && StrictlySorted(FrameKeys(ClipLines(store, gdf, iso3).value, LineKeys))
  {
    var m := Level3.CountryMask(store, iso3);
    if m.Ok? && GeometryColumn in gdf.columns && GeometryColumn in m.value.columns {
      var clipped := Level3.Clip(gdf, Level3.Outline(m.value)).frame;
      var d := DissolveBy(clipped, LineKeys);
      assert Missing(LineKeys + [GeometryColumn], clipped.columns).Some? <==> Missing(LineKeys, gdf.columns).Some?;
      if d.Ok? {
        var x := Level3.Labelled(d.value, Level3.Positions(|d.value.rows|));
        assert ("index" in d.value.columns) <==> ("index" in gdf.columns);
        assert ("level_0" in d.value.columns) <==> ("level_0" in gdf.columns);
        var r := Level3.ResetIndex(x);
        if r.Ok? {
          assert "index" in r.value.columns;
          if "index" !in gdf.columns {
            Level3.ResetIndexDrop(x);
            DissolveKeys(clipped, LineKeys, d.value);
          }
        }
      }
    }
  }

  // ---------------------------------------------------------------------
  // One country (app/level_3l.py, main)
  // ---------------------------------------------------------------------

  /** A line's code mentions the country: `str.contains(iso3)`, which
      also holds for a code naming several countries. */
  predicate Mentions(v: Value, iso3: string) {
    v.Str? && IsInfix(iso3, v.s)
  }

  /** `lines[lines["iso3cd"].str.contains(iso3)]`. */
  function CountryLines(lines: Frame, iso3: string): (r: Frame)
    requires Valid(lines)
    ensures Valid(r) && r.columns == lines.columns
    ensures forall row :: row in r.rows <==> row in lines.rows && Mentions(Cell(row, "iso3cd"), iso3)
  {
    FilterRows(lines, (row: Row) => Mentions(Cell(row, "iso3cd"), iso3))
  }

  /** A global line is kept for a country exactly when the country's code
      occurs somewhere in the line's code, so a line between two countries
      whose code names both is kept for each of them. */
  lemma CountryLinesSpec(lines: Frame, iso3: string, other: string, row: Row)
    requires Valid(lines) && row in lines.rows
    ensures row in CountryLines(lines, iso3).rows <==>
      exists s, i :: Cell(row, "iso3cd") == Str(s) && OccursAt(iso3, s, i)
    ensures Cell(row, "iso3cd") == Str(iso3 + other) || Cell(row, "iso3cd") == Str(other + iso3) ==>
      row in CountryLines(lines, iso3).rows
  {
    if Cell(row, "iso3cd").Str? {
      IsInfixAt(iso3, Cell(row, "iso3cd").s);
    }
    if Cell(row, "iso3cd") == Str(iso3 + other) {
      InfixWithin(iso3, "", other);
      assert "" + iso3 + other == iso3 + other;
    }
    if Cell(row, "iso3cd") == Str(other + iso3) {
      InfixWithin(iso3, other, "");
      assert other + iso3 + "" == other + iso3;
    }
  }

  /** `l3l / f"{iso3.lower()}.parquet"`. */
  function OutputPath(iso3: string): Path {
    Path(L3lDir, Lower(iso3) + ".parquet")
  }

  /** What one country of `main` writes: nothing without a level-2 lines
      file, otherwise the country's global lines followed by its own. */
  function Level3lCountry(store: Store, lines: Frame, iso3: string): Result<seq<Output>>
    requires ValidStore(store) && Valid(lines)
  {
    var p := Level2l.LinesPath(iso3);
    if p !in store then Ok([])
    else
      var gdf :- ClipLines(store, store[p], iso3);
      Ok([Output(OutputPath(iso3), Concat(CountryLines(lines, iso3), gdf))])
  }

  /** A country without a level-2 lines file gets no file; otherwise it
      fails with its own lines or gets one file, whose rows are the
      country's global lines and then its own, each widened to the union
      of the two column lists. */
  lemma Level3lCountrySpec(store: Store, lines: Frame, iso3: string)
    requires ValidStore(store) && Valid(lines)
    ensures Level2l.LinesPath(iso3) !in store ==> Level3lCountry(store, lines, iso3) == Ok([])
    ensures Level2l.LinesPath(iso3) in store ==>
      (Level3lCountry(store, lines, iso3).Err? <==> ClipLines(store, store[Level2l.LinesPath(iso3)], iso3).Err?)
    ensures Level3lCountry(store, lines, iso3).Ok? && Level2l.LinesPath(iso3) in store ==>
      var own := ClipLines(store, store[Level2l.LinesPath(iso3)], iso3).value;
      var cty := CountryLines(lines, iso3);
      var outs := Level3lCountry(store, lines, iso3).value;
      && |outs| == 1 && outs[0].path == OutputPath(iso3)
      && outs[0].frame.columns == ConcatColumns(lines.columns, own.columns)
      && |outs[0].frame.rows| == |cty.rows| + |own.rows|
      && (forall i :: 0 <= i < |cty.rows| ==> outs[0].frame.rows[i] == Pad(cty.rows[i], outs[0].frame.columns))
      && (forall i :: 0 <= i < |own.rows| ==> outs[0].frame.rows[|cty.rows| + i] == Pad(own.rows[i], outs[0].frame.columns))
  {
  }

  // ---------------------------------------------------------------------
  // The run (app/level_3l.py, main)
  // ---------------------------------------------------------------------

  /** One turn of the country loop: a country the ISO3 filter leaves
      out writes nothing. */
  function Visit(store: Store, lines: Frame, iso3: string, iso3List: seq<string>): Result<seq<Output>>
    requires ValidStore(store) && Valid(lines)
  {
    if Selected(iso3List, iso3) then Level3lCountry(store, lines, iso3) else Ok([])
  }

  /** The turns of the loop over the countries, in order. */
  function Visits(store: Store, lines: Frame, codes: seq<string>, iso3List: seq<string>)
    : (vs: seq<Result<seq<Output>>>)
    requires ValidStore(store) && Valid(lines)
    ensures |vs| == |codes|
    ensures forall i :: 0 <= i < |codes| ==> vs[i] == Visit(store, lines, codes[i], iso3List)
  {
    seq(|codes|, i requires 0 <= i < |codes| => Visit(store, lines, codes[i], iso3List))
  }

  /** `main`: the global lines prepared once, then the countries from the
      registry's list in order; the first failure ends the run. */
  function Level3lRun(store: Store, codes: seq<string>, iso3List: seq<string>): Result<seq<Output>>
    requires ValidStore(store)
  {
    var lines :- GlobalLines(store);
    Chain(Visits(store, lines, codes, iso3List))
  }

  /** The file a country writes. */
  predicate WrittenFor(store: Store, lines: Frame, iso3List: seq<string>, iso3: string, o: Output)
    requires ValidStore(store) && Valid(lines)
  {
    Selected(iso3List, iso3) && Level2l.LinesPath(iso3) in store && Level3lCountry(store, lines, iso3) == Ok([o])
  }

  /** A successful turn writes the country's file when the filter selects
      it and it has a level-2 lines file, and nothing otherwise. */
  lemma VisitFiles(store: Store, lines: Frame, iso3: string, iso3List: seq<string>)
    requires ValidStore(store) && Valid(lines) && Visit(store, lines, iso3, iso3List).Ok?
    ensures forall o :: o in Visit(store, lines, iso3, iso3List).value ==> WrittenFor(store, lines, iso3List, iso3, o)
    ensures |Visit(store, lines, iso3, iso3List).value| == (if Selected(iso3List, iso3) && Level2l.LinesPath(iso3) in store then 1 else 0)
  {
  }

  /** The run succeeds exactly when the global lines do and no selected
      country with a level-2 lines file fails to clip. */
  lemma Level3lRunOk(store: Store, lines: Frame, codes: seq<string>, iso3List: seq<string>)
    requires ValidStore(store) && GlobalLines(store) == Ok(lines)
    ensures Level3lRun(store, codes, iso3List).Ok? <==>
      forall i :: 0 <= i < |codes| ==> Visit(store, lines, codes[i], iso3List).Ok?
  {
    ChainOk(Visits(store, lines, codes, iso3List));
  }

  /** A run fails when the global lines cannot be built. */
  lemma Level3lRunFails(store: Store, codes: seq<string>, iso3List: seq<string>)
    requires ValidStore(store) && GlobalLines(store).Err?
    ensures Level3lRun(store, codes, iso3List) == Err(GlobalLines(store).error)
  {
  }

  /** After a successful run every file belongs to a selected country with
      a level-2 lines file, and every such country has its file. */
  lemma Level3lRunFiles(store: Store, lines: Frame, codes: seq<string>, iso3List: seq<string>, outs: seq<Output>)
    requires ValidStore(store) && GlobalLines(store) == Ok(lines)
    requires Level3lRun(store, codes, iso3List) == Ok(outs)
    ensures forall o :: o in outs ==> exists c :: c in codes && WrittenFor(store, lines, iso3List, c, o)
    ensures forall c :: c in codes && Selected(iso3List, c) && Level2l.LinesPath(c) in store ==>
      exists o :: o in outs && WrittenFor(store, lines, iso3List, c, o)
  {
    var vs := Visits(store, lines, codes, iso3List);
    ChainOk(vs);
    ChainFiles(vs, outs);
    forall o | o in outs ensures exists c :: c in codes && WrittenFor(store, lines, iso3List, c, o) {
      var i :| 0 <= i < |vs| && vs[i].Ok? && o in vs[i].value;
      VisitFiles(store, lines, codes[i], iso3List);
      assert WrittenFor(store, lines, iso3List, codes[i], o);
    }
    forall c | c in codes && Selected(iso3List, c) && Level2l.LinesPath(c) in store
      ensures exists o :: o in outs && WrittenFor(store, lines, iso3List, c, o)
    {
      var i :| 0 <= i < |codes| && codes[i] == c;
      VisitFiles(store, lines, c, iso3List);
      var o := vs[i].value[0];
      assert o in vs[i].value;
      assert WrittenFor(store, lines, iso3List, c, o);
    }
  }

  /** The body of `main`'s loop for one country: skipped when the filter
      leaves it out or it has no level-2 lines file, otherwise its lines
      clipped, joined after its global lines and written. */
  method Level3lTurn(store: Store, lines: Frame, iso3: string, iso3List: seq<string>) returns (r: Result<seq<Output>>)
    requires ValidStore(store) && Valid(lines)
    ensures r == Visit(store, lines, iso3, iso3List)
  {
    if !Selected(iso3List, iso3) {
      return Ok([]);
    }
    var p := Level2l.LinesPath(iso3);
    if p !in store {
      return Ok([]);
    }
    var gdf := ClipLines(store, store[p], iso3);
    if gdf.Err? {
      return Err(gdf.error);
    }
    var ctyLines := CountryLines(lines, iso3);
    return Ok([Output(OutputPath(iso3), Concat(ctyLines, gdf.value))]);
  }

  /** `main`: the global lines prepared once, then the loop over the
      countries. */
  method Level3lMain(store: Store, codes: seq<string>, iso3List: seq<string>) returns (r: Result<seq<Output>>)
    requires ValidStore(store)
    ensures r == Level3lRun(store, codes, iso3List)
  {
    var g := GlobalLines(store);
    if g.Err? {
      return Err(g.error);
    }
    var lines := g.value;
    ghost var vs := Visits(store, lines, codes, iso3List);
    ghost var total := Chain(vs);
    var outs: seq<Output> := [];
    var i := 0;
    PrependNothing(total);
    while i < |codes|
      invariant 0 <= i <= |codes|
      invariant total == Prepend(outs, Chain(vs[i..]))
    {
      ChainTurn(vs, i, outs);
      var here := Level3lTurn(store, lines, codes[i], iso3List);
      if here.Err? {
        return Err(here.error);
      }
      outs := outs + here.value;
      i := i + 1;
    }
    assert vs[i..] == [];
    assert outs + [] == outs;
    return Ok(outs);
  }
}
