// Level 2b: the finest extended layer of a country dissolved level by
// level into one file per administrative level (app/level_2b.py).

module Level2b {
  import opened Text
  import opened Frames
  import opened Dissolve
  import opened Config
  import opened Utils

  // ---------------------------------------------------------------------
  // The columns of a level (app/level_2b.py, dissolve_and_save)
  // ---------------------------------------------------------------------

  /** `f"adm{level}_name"`, the prefix of a level's name columns. */
  function NamePrefix(level: int): string {
    AdmStem(level) + "_name"
  }

  /** `x.startswith(f"adm{level}_name")`. */
  function NameOf(level: int): string -> bool {
    c => StartsWith(c, NamePrefix(level))
  }

  /** `x.startswith("lang")`. */
  function LangOf(): string -> bool {
    c => StartsWith(c, "lang")
  }

  /** The columns every level file ends with; the geometry column is the
      frame's active geometry. */
  const TailColumns := ["date", "validon", "validto", GeometryColumn]

  /** For each level from `level` down to 0: its name columns, in column
      order, then its P-code. */
  function AdmColumns(cols: seq<string>, level: int): seq<string>
    decreases level
  {
    if level < 0 then []
    else Filter(cols, NameOf(level)) + [AdmPcode(level)] + AdmColumns(cols, level - 1)
  }

  /** The columns a level's file keeps: the administrative columns of the
      level and those above it, the language columns, then the tail. */
  function Columns2b(cols: seq<string>, level: int): seq<string> {
    AdmColumns(cols, level) + Filter(cols, LangOf()) + TailColumns
  }

  /** A name column of a level starts with the level's stem and '_'. */
  lemma NameHasStem(c: string, level: int)
    requires NameOf(level)(c)
    ensures StartsWith(c, AdmStem(level) + "_") && c[0] == 'a' && c[1] == 'd'
  {
    var p := NamePrefix(level);
    assert c[..|p|] == p;
    assert (AdmStem(level) + "_") == p[..|AdmStem(level)| + 1];
  }

  /** A name column belongs to one level only. */
  lemma NameColumnLevel(c: string, a: int, b: int)
    requires NameOf(a)(c) && NameOf(b)(c)
    ensures a == b
  {
    NameHasStem(c, a);
    NameHasStem(c, b);
    AdmStemPrefixUnique(c, a, b);
  }

  /** A P-code column is no level's name column: the two part ways at
      the first character after the shorter stem. */
  lemma PcodeNeverName(level: int, m: int)
    ensures !NameOf(m)(AdmPcode(level))
  {
    var c, s, t, p := AdmPcode(level), AdmStem(level), AdmStem(m), NamePrefix(m);
    if |p| <= |c| {
      if |t| == |s| {
        assert c[|s| + 1] == 'p' && p[|s| + 1] == 'n';
      } else if |t| < |s| {
        assert c[|t|] == s[|t|] && p[|t|] == '_';
      } else {
        assert c[|s|] == '_' && p[|s|] == t[|s|];
      }
    }
  }

  /** Different levels have different P-code columns. */
  lemma PcodeUnique(a: int, b: int)
    requires AdmPcode(a) == AdmPcode(b)
    ensures a == b
  {
    var c := AdmPcode(a);
    assert c[..|AdmStem(a)| + 1] == AdmStem(a) + "_";
    assert c[..|AdmStem(b)| + 1] == AdmStem(b) + "_";
    AdmStemPrefixUnique(c, a, b);
  }

  /** Administrative columns start with 'a', language columns with 'l',
      and the tail columns with neither. */
  lemma Initials(c: string, level: int)
    ensures NameOf(level)(c) ==> c[0] == 'a' && c[1] == 'd'
    ensures AdmPcode(level)[0] == 'a'
    ensures LangOf()(c) ==> c[0] == 'l'
    ensures c in TailColumns ==> c != [] && c[0] != 'a' && c[0] != 'l'
  {
    if NameOf(level)(c) { NameHasStem(c, level); }
    if LangOf()(c) { assert c[..4] == "lang"; }
  }

  /** No tail column is an administrative or a language column. */
  lemma TailApart(c: string, level: int)
    requires c in TailColumns
    ensures !NameOf(level)(c) && !LangOf()(c) && c != AdmPcode(level)
  {
    Initials(c, level);
  }

  /** Membership in the administrative columns: for a level from `level`
      down to 0, its P-code or one of its name columns. */
  lemma {:induction false} AdmColumnsMembers(cols: seq<string>, level: int)
    ensures forall c :: c in AdmColumns(cols, level) <==>
      exists m :: 0 <= m <= level && (c == AdmPcode(m) || (c in cols && NameOf(m)(c)))
    decreases level
  {
    if level >= 0 {
      AdmColumnsMembers(cols, level - 1);
      var here, p, below := Filter(cols, NameOf(level)), AdmPcode(level), AdmColumns(cols, level - 1);
      assert AdmColumns(cols, level) == here + [p] + below;
      forall c ensures c in AdmColumns(cols, level) <==>
        exists m :: 0 <= m <= level && (c == AdmPcode(m) || (c in cols && NameOf(m)(c)))
      {
        if c in here || c == p {
          assert 0 <= level <= level && (c == AdmPcode(level) || (c in cols && NameOf(level)(c)));
        } else if exists m :: 0 <= m <= level && (c == AdmPcode(m) || (c in cols && NameOf(m)(c))) {
          var m :| 0 <= m <= level && (c == AdmPcode(m) || (c in cols && NameOf(m)(c)));
          assert m != level;
        }
      }
    }
  }

  /** Every administrative column starts with 'a'. */
  lemma AdmColumnsInitial(cols: seq<string>, level: int)
    ensures forall c :: c in AdmColumns(cols, level) ==> c != [] && c[0] == 'a'
  {
    AdmColumnsMembers(cols, level);
    forall c | c in AdmColumns(cols, level) ensures c != [] && c[0] == 'a' {
      var m :| 0 <= m <= level && (c == AdmPcode(m) || (c in cols && NameOf(m)(c)));
      Initials(c, m);
    }
  }

  /** Membership in a level's columns, all of them. */
  lemma Columns2bMembers(cols: seq<string>, level: int)
    ensures forall c :: c in Columns2b(cols, level) <==>
      || c in TailColumns
      || (c in cols && LangOf()(c))
      || exists m :: 0 <= m <= level && (c == AdmPcode(m) || (c in cols && NameOf(m)(c)))
  {
    AdmColumnsMembers(cols, level);
  }

  /** The administrative columns are distinct when the frame's are. */
  lemma {:induction false} AdmColumnsDistinct(cols: seq<string>, level: int)
    requires Distinct(cols)
    ensures Distinct(AdmColumns(cols, level))
    decreases level
  {
    if level >= 0 {
      var here, p, below := Filter(cols, NameOf(level)), AdmPcode(level), AdmColumns(cols, level - 1);
      FilterDistinct(cols, NameOf(level));
      PcodeNeverName(level, level);
      DistinctAppend(here, [p]);
      AdmColumnsDistinct(cols, level - 1);
      AdmColumnsMembers(cols, level - 1);
      forall c | c in here + [p] ensures c !in below {
        if c in below {
          var m :| 0 <= m <= level - 1 && (c == AdmPcode(m) || (c in cols && NameOf(m)(c)));
          if c == p {
            if c == AdmPcode(m) { PcodeUnique(level, m); } else { PcodeNeverName(level, m); }
          } else if c == AdmPcode(m) {
            PcodeNeverName(m, level);
          } else {
            NameColumnLevel(c, level, m);
          }
        }
      }
      DistinctAppend(here + [p], below);
    }
  }

  /** A level's columns are distinct when the frame's are, so selecting
      them fails only on a missing column. */
  lemma Columns2bDistinct(cols: seq<string>, level: int)
    requires Distinct(cols)
    ensures Distinct(Columns2b(cols, level))
  {
    var adm, lang := AdmColumns(cols, level), Filter(cols, LangOf());
    AdmColumnsDistinct(cols, level);
    AdmColumnsInitial(cols, level);
    FilterDistinct(cols, LangOf());
    forall c | c in adm ensures c !in lang {
      Initials(c, level);
    }
    DistinctAppend(adm, lang);
    forall c | c in adm + lang ensures c !in TailColumns {
      if c in TailColumns { TailApart(c, level); Initials(c, level); }
    }
    assert Distinct(TailColumns);
    DistinctAppend(adm + lang, TailColumns);
  }

  /** The name columns of level k among the administrative columns are
      those of the frame when k is at most the level, and none otherwise. */
  lemma {:induction false} FilterAdmColumns(cols: seq<string>, level: int, k: int)
    ensures Filter(AdmColumns(cols, level), NameOf(k)) == if 0 <= k <= level then Filter(cols, NameOf(k)) else []
    decreases level
  {
    if level >= 0 {
      var here, p, below := Filter(cols, NameOf(level)), AdmPcode(level), AdmColumns(cols, level - 1);
      FilterAppend(here + [p], below, NameOf(k));
      FilterAppend(here, [p], NameOf(k));
      PcodeNeverName(level, k);
      assert Filter([p], NameOf(k)) == [];
      FilterAdmColumns(cols, level - 1, k);
      if k == level {
        FilterAll(here, NameOf(k));
      } else {
        forall c | c in here ensures !NameOf(k)(c) {
          if NameOf(k)(c) { NameColumnLevel(c, level, k); }
        }
        FilterNone(here, NameOf(k));
      }
    }
  }

  /** Taken from a level's file, the name columns of a level at most that
      level are those of the original frame. */
  lemma FilterColumns2bNames(cols: seq<string>, level: int, k: int)
    requires 0 <= k <= level
    ensures Filter(Columns2b(cols, level), NameOf(k)) == Filter(cols, NameOf(k))
  {
    var adm, lang := AdmColumns(cols, level), Filter(cols, LangOf());
    FilterAppend(adm + lang, TailColumns, NameOf(k));
    FilterAppend(adm, lang, NameOf(k));
    FilterAdmColumns(cols, level, k);
    forall c | c in lang ensures !NameOf(k)(c) {
      Initials(c, k);
    }
    FilterNone(lang, NameOf(k));
    forall c | c in TailColumns ensures !NameOf(k)(c) {
      TailApart(c, k);
    }
    FilterNone(TailColumns, NameOf(k));
    assert Filter(cols, NameOf(k)) + [] + [] == Filter(cols, NameOf(k));
  }

  /** Taken from a level's file, the language columns are those of the
      original frame. */
  lemma FilterColumns2bLangs(cols: seq<string>, level: int)
    ensures Filter(Columns2b(cols, level), LangOf()) == Filter(cols, LangOf())
  {
    var adm, lang := AdmColumns(cols, level), Filter(cols, LangOf());
    FilterAppend(adm + lang, TailColumns, LangOf());
    FilterAppend(adm, lang, LangOf());
    AdmColumnsInitial(cols, level);
    forall c | c in adm ensures !LangOf()(c) {
      Initials(c, level);
    }
    FilterNone(adm, LangOf());
    FilterAll(lang, LangOf());
    forall c | c in TailColumns ensures !LangOf()(c) {
      TailApart(c, level);
    }
    FilterNone(TailColumns, LangOf());
    assert [] + lang + [] == lang;
  }

  /** The administrative columns of a lower level, taken from a level's
      file, are those of the original frame. */
  lemma {:induction false} AdmColumnsNested(cols: seq<string>, level: int, m: int)
    requires m <= level
    ensures AdmColumns(Columns2b(cols, level), m) == AdmColumns(cols, m)
    decreases m
  {
    if m >= 0 {
      FilterColumns2bNames(cols, level, m);
      AdmColumnsNested(cols, level, m - 1);
    }
  }

  /** The columns of a lower level, taken from a level's file, are the
      lower level's columns of the original frame: each pass keeps what
      the passes below it select. */
  lemma Columns2bNested(cols: seq<string>, level: int, m: int)
    requires m <= level
    ensures Columns2b(Columns2b(cols, level), m) == Columns2b(cols, m)
  {
    AdmColumnsNested(cols, level, m);
    FilterColumns2bLangs(cols, level);
  }

  /** A lower level selects no column a level's file lacks. */
  lemma Columns2bShrink(cols: seq<string>, level: int, m: int)
    requires m <= level
    ensures forall c :: c in Columns2b(cols, m) ==> c in Columns2b(cols, level)
  {
    Columns2bMembers(cols, m);
    Columns2bMembers(cols, level);
  }

  /** No level file keeps an area column: the area computed at level 1a
      is dropped here. */
  lemma NoAreaColumn(cols: seq<string>, level: int)
    ensures "area_sqkm" !in Columns2b(cols, level) && "AREA_SQKM" !in Columns2b(cols, level)
  {
    NotKept("area_sqkm", cols, level);
    NotKept("AREA_SQKM", cols, level);
  }

  /** A column that starts neither with "ad" nor with 'l' and is not in
      the tail is never kept. */
  lemma NotKept(c: string, cols: seq<string>, level: int)
    requires |c| >= 2 && (c[0] == 'A' || (c[0] == 'a' && c[1] == 'r'))
    ensures c !in Columns2b(cols, level)
  {
    Columns2bMembers(cols, level);
    forall m | 0 <= m <= level ensures c != AdmPcode(m) && !NameOf(m)(c) {
      Initials(c, m);
    }
    Initials(c, level);
  }

  /** The columns `dissolve_and_save` selects for a level, collected level
      by level. */
  method CollectColumns(cols: seq<string>, level: int) returns (r: seq<string>)
    ensures r == Columns2b(cols, level)
  {
    r := [];
    var l := level;
    while l >= 0
      invariant l <= level
      invariant r + AdmColumns(cols, l) == AdmColumns(cols, level)
      decreases l
    {
      var names := NameColumnsOf(cols, l);
      var here := names + [AdmPcode(l)];
      assert AdmColumns(cols, l) == here + AdmColumns(cols, l - 1);
      assert r + AdmColumns(cols, l) == (r + here) + AdmColumns(cols, l - 1);
      r := r + here;
      l := l - 1;
    }
    assert r == AdmColumns(cols, level);
    var langs := LanguageColumnsOf(cols);
    r := r + langs + TailColumns;
  }

  /** `[x for x in gdf.columns if x.startswith(f"adm{level}_name")]`. */
  method NameColumnsOf(cols: seq<string>, level: int) returns (r: seq<string>)
    ensures r == Filter(cols, NameOf(level))
  {
    r := FilterLoop(cols, NameOf(level));
  }

  /** `[x for x in gdf.columns if x.startswith("lang")]`. */
  method LanguageColumnsOf(cols: seq<string>) returns (r: seq<string>)
    ensures r == Filter(cols, LangOf())
  {
    r := FilterLoop(cols, LangOf());
  }

  /** A list comprehension with a condition, element by element. */
  method FilterLoop(cols: seq<string>, p: string -> bool) returns (r: seq<string>)
    ensures r == Filter(cols, p)
  {
    r := [];
    var i := |cols|;
    var rest: seq<string> := [];
    while i > 0
      invariant 0 <= i <= |cols|
      invariant rest == Filter(cols[i..], p)
      decreases i
    {
      i := i - 1;
      assert cols[i..][1..] == cols[i + 1..];
      rest := (if p(cols[i]) then [cols[i]] else []) + rest;
    }
    assert cols[0..] == cols;
    r := rest;
  }

  // ---------------------------------------------------------------------
  // One pass of the cascade
  // ---------------------------------------------------------------------

  /** A P-code column is never the geometry. */
  lemma PcodeNotGeometry(level: int)
    ensures AdmPcode(level) != GeometryColumn
  {
    assert AdmPcode(level)[0] == 'a';
  }

  /** What one pass writes for a level: the frame dissolved on the level's
      P-code, then the level's columns. The P-code sort that follows
      changes nothing, since the dissolve already sorts on it. */
  function Dissolved2b(g: Frame, level: int): (r: Result<Frame>)
    requires Valid(g) && level >= 0
    ensures r.Ok? ==> Valid(r.value) && r.value.columns == Columns2b(g.columns, level)
  {
    PcodeNotGeometry(level);
    var d :- DissolveBy(g, [AdmPcode(level)]);
    Select(d, Columns2b(g.columns, level))
  }

  /** Every level keeps its own P-code and the tail columns. */
  lemma KeptColumns(cols: seq<string>, level: int)
    requires level >= 0
    ensures AdmPcode(level) in Columns2b(cols, level) && GeometryColumn in Columns2b(cols, level)
  {
    Columns2bMembers(cols, level);
    assert GeometryColumn in TailColumns;
  }

  /** After a successful dissolve, the selection fails exactly when the
      frame lacks one of the level's columns. */
  lemma SelectAfterDissolve(g: Frame, level: int, d: Frame)
    requires Valid(g) && level >= 0 && GeometryColumn != AdmPcode(level)
    requires DissolveBy(g, [AdmPcode(level)]) == Ok(d)
    ensures Select(d, Columns2b(g.columns, level)).Err? <==>
      exists c :: c in Columns2b(g.columns, level) && c !in g.columns
  {
    var key, cols := [AdmPcode(level)], Columns2b(g.columns, level);
    assert ColumnSet(key + [GeometryColumn]) <= ColumnSet(g.columns);
    assert ColumnSet(d.columns) == ColumnSet(g.columns);
    Columns2bDistinct(g.columns, level);
    if Select(d, cols).Err? {
      var m := Missing(cols, d.columns).value;
      assert m !in ColumnSet(d.columns);
    } else {
      assert forall c :: c in cols ==> c in ColumnSet(d.columns);
    }
  }

  /** A pass fails exactly when the frame lacks one of the level's
      columns: a P-code of the level or of a level above, the date,
      validon, validto or the geometry. */
  lemma Dissolved2bFails(g: Frame, level: int)
    requires Valid(g) && level >= 0
    ensures Dissolved2b(g, level).Err? <==> exists c :: c in Columns2b(g.columns, level) && c !in g.columns
  {
    var key, cols := [AdmPcode(level)], Columns2b(g.columns, level);
    PcodeNotGeometry(level);
    KeptColumns(g.columns, level);
    if DissolveBy(g, key).Ok? {
      SelectAfterDissolve(g, level, DissolveBy(g, key).value);
    } else {
      var m := Missing(key + [GeometryColumn], g.columns).value;
      assert m in cols && m !in g.columns;
    }
  }

  /** The dissolved frame of a pass, before its selection. */
  function PassDissolved(g: Frame, level: int): (d: Frame)
    requires Valid(g) && level >= 0
    requires Dissolved2b(g, level).Ok?
    ensures Valid(d)
  {
    PcodeNotGeometry(level);
    DissolveBy(g, [AdmPcode(level)]).value
  }

  /** The facts every row lemma of a pass starts from. */
  lemma PassParts(g: Frame, level: int)
    requires Valid(g) && level >= 0
    requires Dissolved2b(g, level).Ok?
    ensures DissolveBy(g, [AdmPcode(level)]).Ok?
    ensures var d := PassDissolved(g, level); var cols := Columns2b(g.columns, level);
      && Select(d, cols) == Dissolved2b(g, level)
      && AdmPcode(level) in cols && GeometryColumn in cols && AdmPcode(level) != GeometryColumn
  {
    PcodeNotGeometry(level);
    KeptColumns(g.columns, level);
  }

  /** The selection keeps each dissolved row's cells of the columns it
      selects. */
  lemma SelectedCells(d: Frame, r: Frame, cols: seq<string>)
    requires Valid(d) && Select(d, cols) == Ok(r)
    ensures |r.rows| == |d.rows|
    ensures forall j, c :: 0 <= j < |r.rows| && c in cols ==> c in d.columns && Cell(r.rows[j], c) == Cell(d.rows[j], c)
  {
    assert forall c :: c in cols ==> c in ColumnSet(d.columns);
  }

  /** Rows that agree on the key cell have the same keys. */
  lemma SameKeys(d: Frame, r: Frame, key: seq<string>)
    requires |d.rows| == |r.rows| && |key| == 1
    requires forall j :: 0 <= j < |d.rows| ==> Cell(r.rows[j], key[0]) == Cell(d.rows[j], key[0])
    ensures FrameKeys(d, key) == FrameKeys(r, key)
  {
    forall j | 0 <= j < |d.rows| ensures RowKey(d.rows[j], key) == RowKey(r.rows[j], key) {
      assert RowKey(d.rows[j], key)[0] == RowKey(r.rows[j], key)[0];
    }
  }

  /** A pass keeps the dissolved frame's rows and keys. */
  lemma PassKeys(g: Frame, level: int)
    requires Valid(g) && level >= 0
    requires Dissolved2b(g, level).Ok?
    ensures var d, r := PassDissolved(g, level), Dissolved2b(g, level).value;
      |r.rows| == |d.rows| && FrameKeys(d, [AdmPcode(level)]) == FrameKeys(r, [AdmPcode(level)])
  {
    PassParts(g, level);
    var d, r := PassDissolved(g, level), Dissolved2b(g, level).value;
    SelectedCells(d, r, Columns2b(g.columns, level));
    SameKeys(d, r, [AdmPcode(level)]);
  }

  /** The keys a pass writes: one row per distinct non-null P-code of the
      level, in strictly ascending P-code order. */
  lemma Dissolved2bKeys(g: Frame, level: int)
    requires Valid(g) && level >= 0
    requires Dissolved2b(g, level).Ok?
    ensures var r := Dissolved2b(g, level).value; var key := [AdmPcode(level)];
      && StrictlySorted(FrameKeys(r, key))
      && forall k :: k in FrameKeys(r, key) <==> exists i :: 0 <= i < |g.rows| && KeyOf(g.rows[i], key) == Some(k)
  {
    PassParts(g, level);
    PassKeys(g, level);
    DissolveOnePerKey(g, [AdmPcode(level)]);
  }

  /** The geometry of each row a pass writes is the union of its group's
      geometries, and every other column holds the first non-null value of
      the group. */
  lemma Dissolved2bCells(g: Frame, level: int)
    requires Valid(g) && level >= 0
    requires Dissolved2b(g, level).Ok?
    ensures var r := Dissolved2b(g, level).value; var key := [AdmPcode(level)];
      && (forall j :: 0 <= j < |r.rows| ==>
            Cell(r.rows[j], GeometryColumn) == Geom(UnionGeometry(Group(g.rows, key, FrameKeys(r, key)[j]))))
      && (forall j, c :: 0 <= j < |r.rows| && c in r.columns && c !in key && c != GeometryColumn ==>
            Cell(r.rows[j], c) == FirstNonNull(Group(g.rows, key, FrameKeys(r, key)[j]), c))
  {
    PassParts(g, level);
    PassKeys(g, level);
    var d, r := PassDissolved(g, level), Dissolved2b(g, level).value;
    SelectedCells(d, r, Columns2b(g.columns, level));
    TransferCells(g, [AdmPcode(level)], d, r);
  }

  lemma TransferCells(g: Frame, key: seq<string>, d: Frame, r: Frame)
    requires Valid(g) && |key| == 1 && key[0] != GeometryColumn && DissolveBy(g, key) == Ok(d)
    requires |r.rows| == |d.rows| && FrameKeys(d, key) == FrameKeys(r, key) && GeometryColumn in r.columns
    requires forall j, c :: 0 <= j < |r.rows| && c in r.columns ==> c in d.columns && Cell(r.rows[j], c) == Cell(d.rows[j], c)
    ensures forall j :: 0 <= j < |r.rows| ==>
      Cell(r.rows[j], GeometryColumn) == Geom(UnionGeometry(Group(g.rows, key, FrameKeys(r, key)[j])))
    ensures forall j, c :: 0 <= j < |r.rows| && c in r.columns && c !in key && c != GeometryColumn ==>
      Cell(r.rows[j], c) == FirstNonNull(Group(g.rows, key, FrameKeys(r, key)[j]), c)
  {
    DissolveOnePerKey(g, key);
  }

  // ---------------------------------------------------------------------
  // The cascade of passes
  // ---------------------------------------------------------------------

  /** What `dissolve_and_save` writes: a file per level from `level` down
      to 0, each pass working on the frame the previous pass wrote. */
  function Cascade2b(g: Frame, iso3: string, level: int): Result<seq<Output>>
    requires Valid(g)
    decreases level
  {
    if level < 0 then Ok([])
    else
      var h :- Dissolved2b(g, level);
      var rest :- Cascade2b(h, iso3, level - 1);
      Ok([ToParquet(h, iso3, level, "2")] + rest)
  }

  /** The file of level `m`: its path in the level-2 directory, its
      columns, and its codes sorted and distinct. */
  predicate Level2bFile(o: Output, iso3: string, m: int, cols: seq<string>) {
    && o.path == Path(ProcessingLevels["2"], FileName(iso3, m))
    && o.frame.columns == Columns2b(cols, m)
    && StrictlySorted(FrameKeys(o.frame, [AdmPcode(m)]))
  }

  /** A cascade's files from `level` down: one per level, finest first,
      each with that level's columns of the frame `cols` came from. */
  predicate Level2bFiles(outs: seq<Output>, iso3: string, level: int, cols: seq<string>) {
    && |outs| == (if level < 0 then 0 else level + 1)
    && forall j :: 0 <= j < |outs| ==> Level2bFile(outs[j], iso3, level - j, cols)
  }

  /** The cascade writes the files `Level2bFiles` describes. */
  lemma {:induction false} Cascade2bShape(g: Frame, iso3: string, level: int, outs: seq<Output>)
    requires Valid(g)
    requires Cascade2b(g, iso3, level) == Ok(outs)
    ensures Level2bFiles(outs, iso3, level, g.columns)
    decreases level
  {
    if level >= 0 {
      var h := Dissolved2b(g, level).value;
      var rest := Cascade2b(h, iso3, level - 1).value;
      Dissolved2bKeys(g, level);
      Cascade2bShape(h, iso3, level - 1, rest);
      var o := ToParquet(h, iso3, level, "2");
      assert Level2bFile(o, iso3, level, g.columns);
      FilesCons(o, iso3, level, rest, outs, g.columns);
    }
  }

  /** A level's file in front of the files below it. */
  lemma FilesCons(o: Output, iso3: string, level: int, rest: seq<Output>, outs: seq<Output>, cols: seq<string>)
    requires level >= 0 && Level2bFile(o, iso3, level, cols)
    requires Level2bFiles(rest, iso3, level - 1, o.frame.columns)
    requires outs == [o] + rest
    ensures Level2bFiles(outs, iso3, level, cols)
  {
    forall j | 0 <= j < |outs| ensures Level2bFile(outs[j], iso3, level - j, cols) {
      if j > 0 {
        assert outs[j] == rest[j - 1];
        FileNested(rest[j - 1], iso3, level - j, level, cols);
      }
    }
  }

  /** A file with a lower level's columns of a level's columns has that
      lower level's columns. */
  lemma FileNested(f: Output, iso3: string, m: int, level: int, cols: seq<string>)
    requires m <= level && Level2bFile(f, iso3, m, Columns2b(cols, level))
    ensures Level2bFile(f, iso3, m, cols)
  {
    Columns2bNested(cols, level, m);
  }

  /** The files of a cascade are at pairwise distinct paths. */
  lemma FilesDistinct(outs: seq<Output>, iso3: string, level: int, cols: seq<string>)
    requires Level2bFiles(outs, iso3, level, cols)
    ensures forall j, k :: 0 <= j < k < |outs| ==> outs[j].path != outs[k].path
  {
    forall j, k | 0 <= j < k < |outs| ensures outs[j].path != outs[k].path {
      assert Level2bFile(outs[j], iso3, level - j, cols);
      assert Level2bFile(outs[k], iso3, level - k, cols);
      FileNamesDiffer(iso3, level - j, level - k);
    }
  }

  /** Once a pass has written a level's file, every pass below it
      succeeds: the file already holds every column they select. */
  lemma {:induction false} CascadeAfterPass(h: Frame, iso3: string, m: int, cols: seq<string>, level: int)
    requires Valid(h) && h.columns == Columns2b(cols, level) && m <= level
    ensures Cascade2b(h, iso3, m).Ok?
    decreases m
  {
    if m >= 0 {
      Columns2bNested(cols, level, m);
      Columns2bShrink(cols, level, m);
      Dissolved2bFails(h, m);
      var h2 := Dissolved2b(h, m).value;
      CascadeAfterPass(h2, iso3, m - 1, cols, m);
    }
  }

  /** The cascade fails exactly when its first pass does, that is when the
      frame lacks a column the finest level keeps. */
  lemma Cascade2bFails(g: Frame, iso3: string, level: int)
    requires Valid(g) && level >= 0
    ensures Cascade2b(g, iso3, level).Err? <==> exists c :: c in Columns2b(g.columns, level) && c !in g.columns
  {
    Dissolved2bFails(g, level);
    if Dissolved2b(g, level).Ok? {
      CascadeAfterPass(Dissolved2b(g, level).value, iso3, level - 1, g.columns, level);
    }
  }

  /** One pass of the cascade: its file, then the cascade below it. */
  lemma CascadeStep(g: Frame, iso3: string, level: int)
    requires Valid(g) && level >= 0
    ensures Dissolved2b(g, level).Err? ==> Cascade2b(g, iso3, level) == Err(Dissolved2b(g, level).error)
    ensures Dissolved2b(g, level).Ok? ==>
      var h := Dissolved2b(g, level).value;
      Cascade2b(g, iso3, level) == Prepend([ToParquet(h, iso3, level, "2")], Cascade2b(h, iso3, level - 1))
  {
  }

  /** `dissolve_and_save(gdf, iso3, admin_levels)`. */
  method DissolveAndSave(g0: Frame, iso3: string, levels: int) returns (r: Result<seq<Output>>)
    requires Valid(g0)
    ensures r == Cascade2b(g0, iso3, levels)
  {
    var g := g0;
    var outs: seq<Output> := [];
    var level := levels;
    PrependNothing(Cascade2b(g0, iso3, levels));
    while level >= 0
      invariant Valid(g) && level <= levels
      invariant Cascade2b(g0, iso3, levels) == Prepend(outs, Cascade2b(g, iso3, level))
      decreases level
    {
      var columns := CollectColumns(g.columns, level);
      PcodeNotGeometry(level);
      CascadeStep(g, iso3, level);
      var d := DissolveBy(g, [AdmPcode(level)]);
      if d.Err? {
        return Err(d.error);
      }
      var s := Select(d.value, columns);
      if s.Err? {
        return Err(s.error);
      }
      var out := ToParquet(s.value, iso3, level, "2");
      PrependTwice(outs, [out], Cascade2b(s.value, iso3, level - 1));
      g := s.value;
      outs := outs + [out];
      level := level - 1;
    }
    assert outs + [] == outs;
    return Ok(outs);
  }

  // ---------------------------------------------------------------------
  // One country (app/level_2b.py, the body of main's loop)
  // ---------------------------------------------------------------------

  /** The directory level 2b reads: the extended layers after their
      fixes. */
  function Level2bInputDir(): string {
    ExtendedPost
  }

  /** What level 2b writes for one country: the cascade of its finest
      extended layer, from that layer's level down, or nothing when it
      has none. */
  function Level2bRun(store: Store, iso3: string): Result<seq<Output>>
    requires ValidStore(store)
  {
    FinestInSpec(store, Level2bInputDir(), iso3, AdminLevelMax);
    match FinestIn(store, Level2bInputDir(), iso3, AdminLevelMax)
    case None => Ok([])
    case Some(l) => Cascade2b(store[Path(Level2bInputDir(), FileName(iso3, l))], iso3, l)
  }

  /** The country's files: none without an extended layer; otherwise one
      per level from the layer's level down to 0, finest first, at
      pairwise distinct paths of the level-2 directory, each with that
      level's columns of the layer. The run fails exactly when the layer
      lacks a column its own level keeps. */
  lemma Level2bRunFiles(store: Store, iso3: string)
    requires ValidStore(store)
    ensures var found := FinestIn(store, Level2bInputDir(), iso3, AdminLevelMax);
      && (found.None? ==> Level2bRun(store, iso3) == Ok([]))
      && (found.Some? ==>
            var l := found.value;
            var f := store[Path(Level2bInputDir(), FileName(iso3, l))];
            && (Level2bRun(store, iso3).Err? <==> exists c :: c in Columns2b(f.columns, l) && c !in f.columns)
            && (Level2bRun(store, iso3).Ok? ==>
                  var outs := Level2bRun(store, iso3).value;
                  && Level2bFiles(outs, iso3, l, f.columns)
                  && forall j, k :: 0 <= j < k < |outs| ==> outs[j].path != outs[k].path))
  {
    FinestInSpec(store, Level2bInputDir(), iso3, AdminLevelMax);
    var found := FinestIn(store, Level2bInputDir(), iso3, AdminLevelMax);
    if found.Some? {
      var l := found.value;
      var f := store[Path(Level2bInputDir(), FileName(iso3, l))];
      Cascade2bFails(f, iso3, l);
      if Cascade2b(f, iso3, l).Ok? {
        var outs := Cascade2b(f, iso3, l).value;
        Cascade2bShape(f, iso3, l, outs);
        FilesDistinct(outs, iso3, l, f.columns);
      }
    }
  }

  /** Only the finest extended layer counts: replacing the file of a
      coarser level changes nothing the country's run writes. */
  lemma Level2bIgnoresCoarser(store: Store, iso3: string, l: int, m: int, f: Frame)
    requires ValidStore(store) && Valid(f)
    requires 0 <= l < m <= AdminLevelMax && Path(Level2bInputDir(), FileName(iso3, m)) in store
    ensures Level2bRun(store[Path(Level2bInputDir(), FileName(iso3, l)) := f], iso3) == Level2bRun(store, iso3)
  {
    FinestIgnoresCoarser(store, Level2bInputDir(), iso3, AdminLevelMax, l, m, f);
    FinestInSpec(store, Level2bInputDir(), iso3, AdminLevelMax);
    var k := FinestIn(store, Level2bInputDir(), iso3, AdminLevelMax).value;
    FileNamesDiffer(iso3, k, l);
  }

  /** One country of `main`: the scan for the finest extended layer, then
      `dissolve_and_save` of it. */
  method Level2bCountry(store: Store, iso3: string) returns (r: Result<seq<Output>>)
    requires ValidStore(store)
    ensures r == Level2bRun(store, iso3)
  {
    FinestInSpec(store, Level2bInputDir(), iso3, AdminLevelMax);
    var l := FindFinest(store, Level2bInputDir(), iso3);
    if l.None? {
      return Ok([]);
    }
    r := DissolveAndSave(store[Path(Level2bInputDir(), FileName(iso3, l.value))], iso3, l.value);
  }
}
