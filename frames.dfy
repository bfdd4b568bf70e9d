/** The tabular data the pipeline works on: a GeoDataFrame as an ordered list
    of column names and a sequence of rows, each row mapping every column
    name to a value; the pandas operations the stages use on it; the file
    system as a map from paths to frames; and the geometry, date and casing
    routines of the libraries, which the model treats as opaque callbacks. */
module Frames {
  import opened Text

  datatype Option<T> = None | Some(value: T)

  /** A calendar date (pyarrow date32); calendar arithmetic is not modelled. */
  datatype Date = Date(ordinal: int)

  /** A location on the globe. A geometry (polygon or line layer alike) is the
      finite set of locations it covers: union, difference and intersection
      of geometries are the set operations. */
  type Point = int
  type Geometry = set<Point>

  /** A cell of a frame. `Null` is pandas' None / NaN / NaT. */
  datatype Value =
    | Null
    | Str(s: string)
    | Int(i: int)
    | Num(x: real)
    | Day(d: Date)
    | Geom(g: Geometry)

  type Row = map<string, Value>

  datatype Frame = Frame(columns: seq<string>, rows: seq<Row>)

  /** The name of the active geometry column. */
  const GeometryColumn := "geometry"

  datatype Path = Path(dir: string, name: string)

  /** The files that exist, with their contents. */
  type Store = map<Path, Frame>

  /** Every file in the store is a well-formed frame. */
  predicate ValidStore(store: Store) {
    forall p :: p in store ==> Valid(store[p])
  }

  /** One file written by a stage. */
  datatype Output = Output(path: Path, frame: Frame)

  /** What Python raises where the model returns an error. */
  datatype Error =
    | MissingColumn(column: string)         // KeyError on a column
    | DuplicateColumn(column: string)       // a second column of that name would appear
    | MissingFile(path: Path)               // FileNotFoundError
    | UnboundLayer(layer: string)           // UnboundLocalError: no layer selected yet

  datatype Result<T> = Ok(value: T) | Err(error: Error) {
    predicate IsFailure() { Err? }
    function PropagateFailure<U>(): Result<U>
      requires Err?
    {
      Err(error)
    }
    function Extract(): T
      requires Ok?
    {
      value
    }
  }

  /** The routines of the geometry, date and text libraries, which the model
      does not interpret. */
  datatype Engine = Engine(
    repair: Geometry -> Geometry,                 // to_crs(4326), force_2d, make_valid
    reproject: Geometry -> Geometry,              // to_crs(4326)
    boundary: Geometry -> Geometry,               // polygon outline (GeoSeries.boundary)
    latitudes: Geometry -> Option<(real, real)>,  // (min y, max y) of total_bounds; None when NaN
    area: (Geometry, int) -> real,                // area in square metres in the given EPSG
    title: string -> string,                      // str.title
    parseDate: Value -> Value,                    // to_datetime(...).dt.date on one cell
    timestamp: string -> Date,                    // Timestamp(s).date()
    toDate32: Value -> Value                      // astype("date32[pyarrow]") on one cell
  )

  // ---------------------------------------------------------------------
  // Sequences
  // ---------------------------------------------------------------------

  predicate Distinct<T(==)>(s: seq<T>) {
    forall i, j :: 0 <= i < j < |s| ==> s[i] != s[j]
  }

  /** Strictly ascending positions. */
  predicate Increasing(s: seq<int>) {
    forall j, k :: 0 <= j < k < |s| ==> s[j] < s[k]
  }

  function ColumnSet(cols: seq<string>): set<string> {
    set c | c in cols
  }

  /** The first element that occurs again later, if any. */
  function Duplicate<T(==)>(s: seq<T>): (d: Option<T>)
    ensures d.None? <==> Distinct(s)
    ensures d.Some? ==> d.value in s
  {
    if s == [] then None
    else if s[0] in s[1..] then Some(s[0])
    else
      var d := Duplicate(s[1..]);
      assert Distinct(s) ==> Distinct(s[1..]) by {
        if Distinct(s) {
          forall i, j | 0 <= i < j < |s[1..]| ensures s[1..][i] != s[1..][j] {
            assert s[1..][i] == s[i + 1] && s[1..][j] == s[j + 1];
          }
        }
      }
      assert d.None? ==> Distinct(s) by {
        if d.None? {
          forall i, j | 0 <= i < j < |s| ensures s[i] != s[j] {
            if i > 0 { assert s[i] == s[1..][i - 1] && s[j] == s[1..][j - 1]; }
            else { assert s[j] in s[1..]; }
          }
        }
      }
      d
  }

  /** The first element of `s` that is not in `cols`, if any. */
  function Missing(s: seq<string>, cols: seq<string>): (m: Option<string>)
    ensures m.None? <==> forall c :: c in s ==> c in cols
    ensures m.Some? ==> m.value in s && m.value !in cols
  {
    if s == [] then None
    else if s[0] !in cols then Some(s[0])
    else Missing(s[1..], cols)
  }

  /** The elements of `s` that are not in `xs`, in order. */
  function Without<T(==,!new)>(s: seq<T>, xs: set<T>): (r: seq<T>)
    ensures forall x :: x in r <==> x in s && x !in xs
    ensures Distinct(s) ==> Distinct(r)
    ensures |r| <= |s|
  {
    if s == [] then []
    else
      var rest := Without(s[1..], xs);
      assert Distinct(s) ==> Distinct(s[1..]) by {
        if Distinct(s) {
          forall i, j | 0 <= i < j < |s[1..]| ensures s[1..][i] != s[1..][j] {
            assert s[1..][i] == s[i + 1] && s[1..][j] == s[j + 1];
          }
        }
      }
      assert forall x :: x in s <==> x == s[0] || x in s[1..];
      if s[0] in xs then rest
      else
        assert Distinct(s) ==> s[0] !in s[1..] && s[0] !in rest;
        DistinctCons(s[0], rest);
        [s[0]] + rest
  }

  lemma DistinctCons<T>(x: T, s: seq<T>)
    ensures Distinct(s) && x !in s ==> Distinct([x] + s)
  {
    if Distinct(s) && x !in s {
      forall i, j | 0 <= i < j < |[x] + s| ensures ([x] + s)[i] != ([x] + s)[j] {
        if i == 0 { assert ([x] + s)[j] == s[j - 1]; }
        else { assert ([x] + s)[i] == s[i - 1] && ([x] + s)[j] == s[j - 1]; }
      }
    }
  }

  lemma DistinctAppend<T>(a: seq<T>, b: seq<T>)
    requires Distinct(a) && Distinct(b)
    requires forall x :: x in a ==> x !in b
    ensures Distinct(a + b)
  {
    forall i, j | 0 <= i < j < |a + b| ensures (a + b)[i] != (a + b)[j] {
      if j < |a| {
      } else if i >= |a| {
        assert (a + b)[i] == b[i - |a|] && (a + b)[j] == b[j - |a|];
      } else {
        assert (a + b)[i] == a[i] && (a + b)[j] == b[j - |a|];
        assert a[i] in a && b[j - |a|] in b;
      }
    }
  }

  /** Taking away none of a sequence's elements leaves it whole. */
  lemma {:induction false} WithoutNone<T(!new)>(s: seq<T>, xs: set<T>)
    requires forall x :: x in s ==> x !in xs
    ensures Without(s, xs) == s
  {
    if s != [] {
      assert forall x :: x in s[1..] ==> x in s;
      WithoutNone(s[1..], xs);
    }
  }

  /** Taking away all of them leaves nothing. */
  lemma {:induction false} WithoutAll<T(!new)>(s: seq<T>, xs: set<T>)
    requires forall x :: x in s ==> x in xs
    ensures Without(s, xs) == []
  {
    if s != [] {
      assert forall x :: x in s[1..] ==> x in s;
      WithoutAll(s[1..], xs);
    }
  }

  /** The elements of `s` that satisfy `p`, in order. */
  function Filter<T(!new)>(s: seq<T>, p: T -> bool): (r: seq<T>)
    ensures forall x :: x in r <==> x in s && p(x)
    ensures |r| <= |s|
  {
    if s == [] then []
    else
      assert forall x :: x in s <==> x == s[0] || x in s[1..];
      (if p(s[0]) then [s[0]] else []) + Filter(s[1..], p)
  }

  /** A filter and its complement split a sequence: every element goes to
      exactly one side, as often as it occurs. */
  lemma {:induction false} FilterPartition<T(!new)>(s: seq<T>, p: T -> bool)
    ensures multiset(Filter(s, p)) + multiset(Filter(s, x => !p(x))) == multiset(s)
  {
    if s != [] {
      var np := x => !p(x);
      var t := s[1..];
      FilterPartition(t, p);
      assert s == [s[0]] + t;
      if p(s[0]) {
        assert Filter(s, p) == [s[0]] + Filter(t, p);
        assert Filter(s, np) == Filter(t, np);
      } else {
        assert Filter(s, p) == Filter(t, p);
        assert Filter(s, np) == [s[0]] + Filter(t, np);
      }
    }
  }

  lemma {:induction false} FilterAppend<T(!new)>(a: seq<T>, b: seq<T>, p: T -> bool)
    ensures Filter(a + b, p) == Filter(a, p) + Filter(b, p)
  {
    if a != [] {
      assert (a + b)[1..] == a[1..] + b;
      FilterAppend(a[1..], b, p);
    } else {
      assert a + b == b;
    }
  }

  /** Filters by tests that agree on every element keep the same elements. */
  lemma {:induction false} FilterSame<T(!new)>(s: seq<T>, p: T -> bool, q: T -> bool)
    requires forall x :: x in s ==> p(x) == q(x)
    ensures Filter(s, p) == Filter(s, q)
  {
    if s != [] {
      assert forall x :: x in s[1..] ==> x in s;
      FilterSame(s[1..], p, q);
    }
  }

  /** A filter and a test that is its negation split a sequence. */
  lemma FilterComplement<T(!new)>(s: seq<T>, p: T -> bool, q: T -> bool)
    requires forall x :: q(x) == !p(x)
    ensures multiset(Filter(s, p)) + multiset(Filter(s, q)) == multiset(s)
    ensures forall x :: x in Filter(s, p) ==> x !in Filter(s, q)
  {
    FilterPartition(s, p);
    FilterSame(s, x => !p(x), q);
  }

  /** A filter that every element passes keeps everything. */
  lemma {:induction false} FilterAll<T(!new)>(s: seq<T>, p: T -> bool)
    requires forall x :: x in s ==> p(x)
    ensures Filter(s, p) == s
  {
    if s != [] {
      assert forall x :: x in s[1..] ==> x in s;
      FilterAll(s[1..], p);
    }
  }

  /** A filter that no element passes keeps nothing. */
  lemma FilterNone<T(!new)>(s: seq<T>, p: T -> bool)
    requires forall x :: x in s ==> !p(x)
    ensures Filter(s, p) == []
  {
    if Filter(s, p) != [] {
      assert Filter(s, p)[0] in Filter(s, p);
    }
  }

  /** Filtering keeps elements distinct. */
  lemma {:induction false} FilterDistinct<T(!new)>(s: seq<T>, p: T -> bool)
    requires Distinct(s)
    ensures Distinct(Filter(s, p))
  {
    if s != [] {
      assert Distinct(s[1..]) by {
        forall i, j | 0 <= i < j < |s[1..]| ensures s[1..][i] != s[1..][j] {
          assert s[1..][i] == s[i + 1] && s[1..][j] == s[j + 1];
        }
      }
      FilterDistinct(s[1..], p);
      if p(s[0]) {
        assert forall j :: 0 <= j < |s[1..]| ==> s[1..][j] == s[j + 1];
        DistinctCons(s[0], Filter(s[1..], p));
      } else {
        assert Filter(s, p) == Filter(s[1..], p);
      }
    }
  }

  // ---------------------------------------------------------------------
  // Frames and their invariant
  // ---------------------------------------------------------------------

  /** Column names are unique and every row has exactly the frame's columns. */
  predicate Valid(f: Frame) {
    && Distinct(f.columns)
    && forall i :: 0 <= i < |f.rows| ==> f.rows[i].Keys == ColumnSet(f.columns)
  }

  function Column(f: Frame, c: string): (vs: seq<Value>)
    requires Valid(f) && c in f.columns
    ensures |vs| == |f.rows|
    ensures forall i :: 0 <= i < |vs| ==> vs[i] == f.rows[i][c]
  {
    seq(|f.rows|, i requires 0 <= i < |f.rows| => f.rows[i][c])
  }

  /** `gdf[c] = values`: overwrites column c where it is, or appends it. */
  function SetColumn(f: Frame, c: string, vals: seq<Value>): (r: Frame)
    requires Valid(f) && |vals| == |f.rows|
    ensures Valid(r) && |r.rows| == |f.rows|
    ensures r.columns == if c in f.columns then f.columns else f.columns + [c]
    ensures forall i :: 0 <= i < |r.rows| ==> r.rows[i] == f.rows[i][c := vals[i]]
  {
    var cols := if c in f.columns then f.columns else f.columns + [c];
    assert ColumnSet(cols) == ColumnSet(f.columns) + {c};
    assert c !in f.columns ==> Distinct(f.columns + [c]) by {
      if c !in f.columns { DistinctAppend(f.columns, [c]); }
    }
    Frame(cols, seq(|f.rows|, i requires 0 <= i < |f.rows| => f.rows[i][c := vals[i]]))
  }

  /** `gdf[c] = v` for a scalar v: every row gets v. */
  function Fill(f: Frame, c: string, v: Value): (r: Frame)
    requires Valid(f)
    ensures Valid(r) && |r.rows| == |f.rows|
    ensures r.columns == if c in f.columns then f.columns else f.columns + [c]
    ensures forall i :: 0 <= i < |r.rows| ==> r.rows[i] == f.rows[i][c := v]
  {
    SetColumn(f, c, seq(|f.rows|, _ => v))
  }

  /** `gdf[c] = gdf[c].<op>()` for an element-wise operation. */
  function MapColumn(f: Frame, c: string, op: Value -> Value): (r: Frame)
    requires Valid(f) && c in f.columns
    ensures Valid(r) && r.columns == f.columns && |r.rows| == |f.rows|
    ensures forall i :: 0 <= i < |r.rows| ==> r.rows[i] == f.rows[i][c := op(f.rows[i][c])]
  {
    SetColumn(f, c, seq(|f.rows|, i requires 0 <= i < |f.rows| => op(f.rows[i][c])))
  }

  /** `gdf.drop(columns=cs)`: KeyError when one of them is absent. */
  function DropColumns(f: Frame, cs: seq<string>): (r: Result<Frame>)
    requires Valid(f)
    ensures r.Err? <==> Missing(cs, f.columns).Some?
    ensures r.Err? ==> r.error == MissingColumn(Missing(cs, f.columns).value)
    ensures r.Ok? ==> Valid(r.value) && |r.value.rows| == |f.rows|
    ensures r.Ok? ==> r.value.columns == Without(f.columns, ColumnSet(cs))
    ensures r.Ok? ==> forall i :: 0 <= i < |f.rows| ==> r.value.rows[i] == f.rows[i] - ColumnSet(cs)
  {
    match Missing(cs, f.columns)
    case Some(c) => Err(MissingColumn(c))
    case None =>
      var cols := Without(f.columns, ColumnSet(cs));
      assert ColumnSet(cols) == ColumnSet(f.columns) - ColumnSet(cs);
      Ok(Frame(cols, seq(|f.rows|, i requires 0 <= i < |f.rows| => f.rows[i] - ColumnSet(cs))))
  }

  /** The name a column gets under a rename mapping. */
  function NewName(m: map<string, string>, c: string): string {
    if c in m then m[c] else c
  }

  function RenamedColumns(cols: seq<string>, m: map<string, string>): (r: seq<string>)
    ensures |r| == |cols|
    ensures forall k :: 0 <= k < |cols| ==> r[k] == NewName(m, cols[k])
  {
    seq(|cols|, k requires 0 <= k < |cols| => NewName(m, cols[k]))
  }

  function RenameRow(row: Row, m: map<string, string>, cols: seq<string>): (r: Row)
    requires row.Keys == ColumnSet(cols)
    requires Distinct(RenamedColumns(cols, m))
    ensures r.Keys == ColumnSet(RenamedColumns(cols, m))
    ensures forall k :: 0 <= k < |cols| ==> r[NewName(m, cols[k])] == row[cols[k]]
  {
    var nc := RenamedColumns(cols, m);
    RenameInjective(cols, m);
    var r := map c | c in row.Keys :: NewName(m, c) := row[c];
    RenamedKeys(cols, m);
    r
  }

  lemma RenameInjective(cols: seq<string>, m: map<string, string>)
    requires Distinct(RenamedColumns(cols, m))
    ensures forall a, b :: a in cols && b in cols && NewName(m, a) == NewName(m, b) ==> a == b
  {
    var nc := RenamedColumns(cols, m);
    forall a, b | a in cols && b in cols && NewName(m, a) == NewName(m, b) ensures a == b {
      var i :| 0 <= i < |cols| && cols[i] == a;
      var j :| 0 <= j < |cols| && cols[j] == b;
      assert nc[i] == nc[j];
    }
  }

  lemma RenamedKeys(cols: seq<string>, m: map<string, string>)
    ensures ColumnSet(RenamedColumns(cols, m)) == set c | c in ColumnSet(cols) :: NewName(m, c)
  {
    var nc := RenamedColumns(cols, m);
    forall n | n in ColumnSet(nc) ensures n in set c | c in ColumnSet(cols) :: NewName(m, c) {
      var k :| 0 <= k < |nc| && nc[k] == n;
      assert cols[k] in ColumnSet(cols);
    }
  }

  /** `gdf.rename(columns=m)`: names not in the frame are ignored; a rename
      that would give two columns the same name is an error here (pandas would
      keep both under one label, which the model cannot represent). */
  function Rename(f: Frame, m: map<string, string>): (r: Result<Frame>)
    requires Valid(f)
    ensures r.Ok? <==> Distinct(RenamedColumns(f.columns, m))
    ensures r.Ok? ==> Valid(r.value) && r.value.columns == RenamedColumns(f.columns, m)
    ensures r.Ok? ==> |r.value.rows| == |f.rows|
    ensures r.Ok? ==> forall i, k :: 0 <= i < |f.rows| && 0 <= k < |f.columns| ==>
      r.value.rows[i][NewName(m, f.columns[k])] == f.rows[i][f.columns[k]]
  {
    var nc := RenamedColumns(f.columns, m);
    match Duplicate(nc)
    case Some(d) => Err(DuplicateColumn(d))
    case None =>
      Ok(Frame(nc, seq(|f.rows|, i requires 0 <= i < |f.rows| => RenameRow(f.rows[i], m, f.columns))))
  }

  function Restrict(row: Row, cs: set<string>): (r: Row)
    ensures r.Keys == row.Keys * cs
    ensures forall c :: c in r ==> r[c] == row[c]
  {
    map c | c in row.Keys && c in cs :: row[c]
  }

  /** `gdf[cs]`: the listed columns, in the listed order. */
  function Select(f: Frame, cs: seq<string>): (r: Result<Frame>)
    requires Valid(f)
    ensures r.Ok? <==> Missing(cs, f.columns).None? && Distinct(cs)
    ensures Missing(cs, f.columns).Some? ==> r == Err(MissingColumn(Missing(cs, f.columns).value))
    ensures r.Ok? ==> Valid(r.value) && r.value.columns == cs && |r.value.rows| == |f.rows|
    ensures r.Ok? ==> forall i :: 0 <= i < |f.rows| ==> r.value.rows[i] == Restrict(f.rows[i], ColumnSet(cs))
  {
    match Missing(cs, f.columns)
    case Some(c) => Err(MissingColumn(c))
    case None =>
      match Duplicate(cs)
      case Some(d) => Err(DuplicateColumn(d))
      case None =>
        Ok(Frame(cs, seq(|f.rows|, i requires 0 <= i < |f.rows| => Restrict(f.rows[i], ColumnSet(cs)))))
  }

  /** Boolean row indexing `gdf[mask]`: the rows that satisfy `keep`, in order. */
  function FilterRows(f: Frame, keep: Row -> bool): (r: Frame)
    requires Valid(f)
    ensures Valid(r) && r.columns == f.columns && r.rows == Filter(f.rows, keep)
  {
    var rows := Filter(f.rows, keep);
    assert forall i :: 0 <= i < |rows| ==> rows[i] in f.rows;
    Frame(f.columns, rows)
  }

  /** A row widened to more columns, the new ones null (how concat aligns). */
  function Pad(row: Row, cols: seq<string>): (r: Row)
    ensures r.Keys == ColumnSet(cols)
    ensures forall c :: c in r ==> r[c] == if c in row then row[c] else Null
  {
    map c | c in ColumnSet(cols) :: if c in row then row[c] else Null
  }

  function PadAll(rows: seq<Row>, cols: seq<string>): (r: seq<Row>)
    ensures |r| == |rows|
    ensures forall i :: 0 <= i < |r| ==> r[i] == Pad(rows[i], cols) && r[i].Keys == ColumnSet(cols)
  {
    seq(|rows|, i requires 0 <= i < |rows| => Pad(rows[i], cols))
  }

  /** Columns of `concat([a, b])`: those of a, then the new ones of b. */
  function ConcatColumns(a: seq<string>, b: seq<string>): (r: seq<string>)
    ensures ColumnSet(r) == ColumnSet(a) + ColumnSet(b)
    ensures Distinct(a) && Distinct(b) ==> Distinct(r)
  {
    var extra := Without(b, ColumnSet(a));
    assert Distinct(a) && Distinct(b) ==> Distinct(a + extra) by {
      if Distinct(a) && Distinct(b) { DistinctAppend(a, extra); }
    }
    a + extra
  }

  /** `concat([a, b], ignore_index=True)`: rows of a, then rows of b, over the
      union of the columns; cells a frame did not have are null. */
  function Concat(a: Frame, b: Frame): (r: Frame)
    requires Valid(a) && Valid(b)
    ensures Valid(r)
    ensures r.columns == ConcatColumns(a.columns, b.columns)
    ensures |r.rows| == |a.rows| + |b.rows|
    ensures forall i :: 0 <= i < |a.rows| ==> r.rows[i] == Pad(a.rows[i], r.columns)
    ensures forall i :: 0 <= i < |b.rows| ==> r.rows[|a.rows| + i] == Pad(b.rows[i], r.columns)
  {
    var cols := ConcatColumns(a.columns, b.columns);
    var rows := PadAll(a.rows, cols) + PadAll(b.rows, cols);
    assert forall i :: 0 <= i < |b.rows| ==> rows[|a.rows| + i] == PadAll(b.rows, cols)[i];
    Frame(cols, rows)
  }

  /** The row of `b` at `i` in a concatenation. */
  lemma ConcatRowAt(a: Frame, b: Frame, i: int)
    requires Valid(a) && Valid(b) && 0 <= i < |b.rows|
    ensures |Concat(a, b).rows| == |a.rows| + |b.rows|
    ensures Concat(a, b).rows[|a.rows| + i] == Pad(b.rows[i], Concat(a, b).columns)
  {
  }

  /** The row at `k` of a selection. */
  lemma SelectRowAt(f: Frame, cs: seq<string>, k: int)
    requires Valid(f) && Select(f, cs).Ok? && 0 <= k < |f.rows|
    ensures |Select(f, cs).value.rows| == |f.rows|
    ensures Select(f, cs).value.rows[k] == Restrict(f.rows[k], ColumnSet(cs))
  {
  }

  /** A frame with no columns and no rows (`GeoDataFrame()`). */
  const EmptyFrame := Frame([], [])

  // ---------------------------------------------------------------------
  // Geometry and string cells
  // ---------------------------------------------------------------------

  /** The set of locations a cell covers; a missing geometry covers nothing. */
  function GeomOf(v: Value): Geometry {
    if v.Geom? then v.g else {}
  }

  /** An element-wise geometry operation (None geometries stay None). */
  function OnGeometry(op: Geometry -> Geometry): Value -> Value {
    (v: Value) => if v.Geom? then Geom(op(v.g)) else v
  }

  /** A `Series.str` method on an object column: strings are transformed,
      every other cell becomes NaN. Frames carry no dtypes, so the
      `AttributeError` that `.str` raises on a numeric column is not
      modelled. */
  function OnString(op: string -> string): Value -> Value {
    (v: Value) => if v.Str? then Str(op(v.s)) else Null
  }

  /** `Series.str.replace(pat, rep)` with a literal pattern, on an object
      column. */
  function StrReplace(pat: string, rep: string): Value -> Value
    requires pat != []
  {
    (v: Value) => if v.Str? then Str(ReplaceAll(v.s, pat, rep)) else Null
  }

  /** `Series.fillna(v)`. */
  function FillNull(v: Value): Value -> Value {
    (x: Value) => if x.Null? then v else x
  }
}
