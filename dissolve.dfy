/** geopandas' dissolve over pandas' groupby: one row per distinct key, the
    keys in ascending order (sort=True), rows whose key holds a null dropped
    (dropna=True), the geometries of a group unioned and every other column
    taking the group's first non-null value (aggfunc="first"). Also the
    keep-first deduplication behind drop_duplicates and dict.fromkeys. */
module Dissolve {
  import opened Text
  import opened Frames

  // ---------------------------------------------------------------------
  // Key order
  // ---------------------------------------------------------------------

  /** Values a group key may hold: every cell but a null (dropna) and a
      geometry. Rows whose key holds a null are left out of every group. */
  predicate Keyable(v: Value) {
    !v.Null? && !v.Geom?
  }

  predicate IsNumber(v: Value) {
    v.Int? || v.Num?
  }

  /** The numeric value of an integer or float cell. */
  function NumberOf(v: Value): real
    requires IsNumber(v)
  {
    if v.Int? then v.i as real else v.x
  }

  /** The kind of a cell in the key order: numbers, then strings, then
      dates, then the rest. */
  function KindRank(v: Value): nat {
    if IsNumber(v) then 0 else if v.Str? then 1 else if v.Day? then 2 else 3
  }

  /** The sort order of key cells: numbers numerically (an integer just
      before the float of the same value), strings by code point, dates by
      day. pandas refuses to sort a key column that mixes kinds; the model
      puts numbers before strings before dates. */
  predicate ValueLess(a: Value, b: Value) {
    if IsNumber(a) && IsNumber(b) then
      NumberOf(a) < NumberOf(b) || (NumberOf(a) == NumberOf(b) && a.Int? && b.Num?)
    else if a.Str? && b.Str? then StrLess(a.s, b.s)
    else if a.Day? && b.Day? then a.d.ordinal < b.d.ordinal
    else KindRank(a) < KindRank(b)
  }

  lemma ValueLessIrreflexive(a: Value)
    ensures !ValueLess(a, a)
  {
    if a.Str? { StrLessIrreflexive(a.s); }
  }

  lemma ValueLessTransitive(a: Value, b: Value, c: Value)
    requires ValueLess(a, b) && ValueLess(b, c)
    ensures ValueLess(a, c)
  {
    if a.Str? && b.Str? && c.Str? { StrLessTransitive(a.s, b.s, c.s); }
  }

  lemma ValueLessTotal(a: Value, b: Value)
    requires Keyable(a) && Keyable(b)
    ensures a == b || ValueLess(a, b) || ValueLess(b, a)
  {
    if a.Str? && b.Str? { StrLessTotal(a.s, b.s); }
  }

  /** A group key: one cell per `keyCols` column. */
  type Key = seq<Value>

  predicate KeyableKey(k: Key) {
    forall i :: 0 <= i < |k| ==> Keyable(k[i])
  }

  /** Lexicographic order of keys, as pandas sorts multi-column groups. */
  predicate KeyLess(a: Key, b: Key)
    decreases |a|
  {
    if a == [] then b != []
    else if b == [] then false
    else if a[0] != b[0] then ValueLess(a[0], b[0])
    else KeyLess(a[1..], b[1..])
  }

  lemma {:induction false} KeyLessIrreflexive(a: Key)
    ensures !KeyLess(a, a)
  {
    if a != [] { KeyLessIrreflexive(a[1..]); }
  }

  lemma {:induction false} KeyLessTransitive(a: Key, b: Key, c: Key)
    requires KeyLess(a, b) && KeyLess(b, c)
    ensures KeyLess(a, c)
    decreases |a|
  {
    if a != [] && b != [] && c != [] {
      if a[0] == b[0] && b[0] == c[0] {
        KeyLessTransitive(a[1..], b[1..], c[1..]);
      } else if a[0] != b[0] && b[0] != c[0] {
        ValueLessTransitive(a[0], b[0], c[0]);
        if a[0] == c[0] { ValueLessIrreflexive(a[0]); }
      }
    }
  }

  lemma {:induction false} KeyLessTotal(a: Key, b: Key)
    requires KeyableKey(a) && KeyableKey(b)
    ensures a == b || KeyLess(a, b) || KeyLess(b, a)
    decreases |a|
  {
    if a != [] && b != [] {
      if a[0] == b[0] {
        KeyLessTotal(a[1..], b[1..]);
        if a[1..] == b[1..] {
          assert a == [a[0]] + a[1..] && b == [b[0]] + b[1..];
        }
      } else {
        ValueLessTotal(a[0], b[0]);
      }
    }
  }

  predicate StrictlySorted(ks: seq<Key>) {
    forall i, j :: 0 <= i < j < |ks| ==> KeyLess(ks[i], ks[j])
  }

  predicate AllKeyable(ks: seq<Key>) {
    forall i :: 0 <= i < |ks| ==> KeyableKey(ks[i])
  }

  /** Strictly sorted keys are pairwise different. */
  lemma SortedDistinct(ks: seq<Key>)
    requires StrictlySorted(ks)
    ensures Distinct(ks)
  {
    forall i, j | 0 <= i < j < |ks| ensures ks[i] != ks[j] {
      KeyLessIrreflexive(ks[i]);
    }
  }

  lemma SortedCons(a: Key, ks: seq<Key>)
    requires StrictlySorted(ks)
    requires forall x :: x in ks ==> KeyLess(a, x)
    ensures StrictlySorted([a] + ks)
  {
    forall i, j | 0 <= i < j < |[a] + ks| ensures KeyLess(([a] + ks)[i], ([a] + ks)[j]) {
      if i == 0 { assert ([a] + ks)[j] == ks[j - 1]; }
      else { assert ([a] + ks)[i] == ks[i - 1] && ([a] + ks)[j] == ks[j - 1]; }
    }
  }

  /** Inserts a key into a strictly sorted key list, unless it is there. */
  function Insert(k: Key, ks: seq<Key>): (r: seq<Key>)
    requires KeyableKey(k) && AllKeyable(ks) && StrictlySorted(ks)
    ensures StrictlySorted(r) && AllKeyable(r)
    ensures forall x :: x in r <==> x == k || x in ks
  {
    if ks == [] then [k]
    else if k == ks[0] then ks
    else if KeyLess(k, ks[0]) then
      assert forall x :: x in ks ==> KeyLess(k, x) by {
        forall x | x in ks ensures KeyLess(k, x) {
          var j :| 0 <= j < |ks| && ks[j] == x;
          if j > 0 { KeyLessTransitive(k, ks[0], x); }
        }
      }
      SortedCons(k, ks);
      [k] + ks
    else
      var rest := Insert(k, ks[1..]);
      KeyLessTotal(k, ks[0]);
      assert forall x :: x in ks[1..] ==> KeyLess(ks[0], x) by {
        forall x | x in ks[1..] ensures KeyLess(ks[0], x) {
          var j :| 0 <= j < |ks[1..]| && ks[1..][j] == x;
          assert x == ks[j + 1];
        }
      }
      SortedCons(ks[0], rest);
      assert forall x :: x in ks <==> x == ks[0] || x in ks[1..] by {
        assert ks == [ks[0]] + ks[1..];
      }
      [ks[0]] + rest
  }

  /** The distinct keys of a list, in ascending order. */
  function SortedKeys(ks: seq<Key>): (r: seq<Key>)
    requires AllKeyable(ks)
    ensures StrictlySorted(r) && AllKeyable(r)
    ensures forall x :: x in r <==> x in ks
  {
    if ks == [] then []
    else
      var init := ks[..|ks| - 1];
      assert forall x :: x in ks <==> x in init || x == ks[|ks| - 1] by {
        assert ks == init + [ks[|ks| - 1]];
      }
      Insert(ks[|ks| - 1], SortedKeys(init))
  }

  // ---------------------------------------------------------------------
  // Groups
  // ---------------------------------------------------------------------

  /** A cell, or null when the row has no such column. */
  function Cell(row: Row, c: string): Value {
    if c in row then row[c] else Null
  }

  /** The cells of the `keyCols` columns of a row. */
  function RowKey(row: Row, keyCols: seq<string>): (k: Key)
    ensures |k| == |keyCols|
    ensures forall i :: 0 <= i < |keyCols| ==> k[i] == Cell(row, keyCols[i])
  {
    seq(|keyCols|, i requires 0 <= i < |keyCols| => Cell(row, keyCols[i]))
  }

  /** The group a row belongs to; None when its key holds a null (dropna). */
  function KeyOf(row: Row, keyCols: seq<string>): (r: Option<Key>)
    ensures r.None? <==> exists i :: 0 <= i < |keyCols| && (Cell(row, keyCols[i]).Null? || Cell(row, keyCols[i]).Geom?)
    ensures r.Some? ==> r.value == RowKey(row, keyCols)
  {
    var k := RowKey(row, keyCols);
    if KeyableKey(k) then Some(k) else None
  }

  /** A key occurs among the rows when it is the first row's or occurs
      among the others. */
  lemma KeysHeadTail(rows: seq<Row>, keyCols: seq<string>)
    requires rows != []
    ensures forall k :: (exists i :: 0 <= i < |rows| && KeyOf(rows[i], keyCols) == Some(k)) <==>
      KeyOf(rows[0], keyCols) == Some(k) || exists i :: 0 <= i < |rows[1..]| && KeyOf(rows[1..][i], keyCols) == Some(k)
  {
    forall k | exists i :: 0 <= i < |rows| && KeyOf(rows[i], keyCols) == Some(k)
      ensures KeyOf(rows[0], keyCols) == Some(k) || exists i :: 0 <= i < |rows[1..]| && KeyOf(rows[1..][i], keyCols) == Some(k)
    {
      var i :| 0 <= i < |rows| && KeyOf(rows[i], keyCols) == Some(k);
      if i > 0 { assert rows[1..][i - 1] == rows[i]; }
    }
    forall k | exists i :: 0 <= i < |rows[1..]| && KeyOf(rows[1..][i], keyCols) == Some(k)
      ensures exists i :: 0 <= i < |rows| && KeyOf(rows[i], keyCols) == Some(k)
    {
      var i :| 0 <= i < |rows[1..]| && KeyOf(rows[1..][i], keyCols) == Some(k);
      assert rows[i + 1] == rows[1..][i];
    }
  }

  /** The keys of the rows that belong to a group, in row order. */
  function GroupKeys(rows: seq<Row>, keyCols: seq<string>): (ks: seq<Key>)
    ensures AllKeyable(ks)
    ensures forall k :: k in ks <==> exists i :: 0 <= i < |rows| && KeyOf(rows[i], keyCols) == Some(k)
  {
    if rows == [] then []
    else
      var rest := GroupKeys(rows[1..], keyCols);
      KeysHeadTail(rows, keyCols);
      match KeyOf(rows[0], keyCols)
      case Some(k) => [k] + rest
      case None => rest
  }

  /** The rows of one group, in row order. */
  function Group(rows: seq<Row>, keyCols: seq<string>, k: Key): seq<Row> {
    Filter(rows, (r: Row) => KeyOf(r, keyCols) == Some(k))
  }

  /** aggfunc="first": the first non-null cell of a column, or null. */
  function FirstNonNull(rows: seq<Row>, c: string): (v: Value)
    ensures v != Null ==> exists i :: 0 <= i < |rows| && Cell(rows[i], c) == v
    ensures v == Null <==> forall i :: 0 <= i < |rows| ==> Cell(rows[i], c) == Null
  {
    if rows == [] then Null
    else if Cell(rows[0], c) != Null then Cell(rows[0], c)
    else
      var v := FirstNonNull(rows[1..], c);
      assert forall i :: 1 <= i < |rows| ==> rows[i] == rows[1..][i - 1];
      v
  }

  /** The union of the geometries of some rows. */
  function UnionGeometry(rows: seq<Row>): (g: Geometry)
    ensures forall p :: p in g <==> exists i :: 0 <= i < |rows| && p in GeomOf(Cell(rows[i], GeometryColumn))
  {
    if rows == [] then {}
    else
      var rest := UnionGeometry(rows[1..]);
      assert forall i :: 1 <= i < |rows| ==> rows[i] == rows[1..][i - 1];
      assert forall p :: p in rest ==> exists i :: 0 <= i < |rows| && p in GeomOf(Cell(rows[i], GeometryColumn)) by {
        forall p | p in rest ensures exists i :: 0 <= i < |rows| && p in GeomOf(Cell(rows[i], GeometryColumn)) {
          var i :| 0 <= i < |rows[1..]| && p in GeomOf(Cell(rows[1..][i], GeometryColumn));
          assert rows[i + 1] == rows[1..][i];
        }
      }
      GeomOf(Cell(rows[0], GeometryColumn)) + rest
  }

  /** Output columns of `dissolve(by, as_index=False)`: the key columns, the
      geometry, then the remaining columns in their order. */
  function DissolvedColumns(cols: seq<string>, keyCols: seq<string>): (r: seq<string>)
    requires Distinct(keyCols) && GeometryColumn !in keyCols
    ensures Distinct(cols) ==> Distinct(r)
    ensures ColumnSet(r) == ColumnSet(keyCols) + {GeometryColumn} + (ColumnSet(cols) - ColumnSet(keyCols) - {GeometryColumn})
  {
    var rest := Without(cols, ColumnSet(keyCols) + {GeometryColumn});
    DistinctAppend(keyCols, [GeometryColumn]);
    assert Distinct(cols) ==> Distinct(keyCols + [GeometryColumn] + rest) by {
      if Distinct(cols) { DistinctAppend(keyCols + [GeometryColumn], rest); }
    }
    keyCols + [GeometryColumn] + rest
  }

  function IndexOf(s: seq<string>, c: string): (i: nat)
    requires c in s
    ensures i < |s| && s[i] == c
  {
    if s[0] == c then 0 else 1 + IndexOf(s[1..], c)
  }

  /** The dissolved row of one group. */
  function AggregateRow(rows: seq<Row>, keyCols: seq<string>, k: Key, cols: seq<string>): (r: Row)
    requires |k| == |keyCols|
    ensures r.Keys == ColumnSet(cols)
  {
    var g := Group(rows, keyCols, k);
    map c | c in ColumnSet(cols) ::
      if c in keyCols then k[IndexOf(keyCols, c)]
      else if c == GeometryColumn then Geom(UnionGeometry(g))
      else FirstNonNull(g, c)
  }

  /** The sorted distinct keys of a frame: the groups `dissolve(by)` forms. */
  function Groups(f: Frame, keyCols: seq<string>): (ks: seq<Key>)
    ensures StrictlySorted(ks) && AllKeyable(ks)
    ensures forall k :: k in ks <==> exists i :: 0 <= i < |f.rows| && KeyOf(f.rows[i], keyCols) == Some(k)
    ensures forall j :: 0 <= j < |ks| ==> |ks[j]| == |keyCols|
  {
    var ks := SortedKeys(GroupKeys(f.rows, keyCols));
    assert forall j :: 0 <= j < |ks| ==> |ks[j]| == |keyCols| by {
      forall j | 0 <= j < |ks| ensures |ks[j]| == |keyCols| {
        assert ks[j] in ks;
      }
    }
    ks
  }

  /** `gdf.dissolve(by, as_index=False)`. A key column or the geometry column
      that is absent raises KeyError. */
  function DissolveBy(f: Frame, keyCols: seq<string>): (r: Result<Frame>)
    requires Valid(f) && Distinct(keyCols) && GeometryColumn !in keyCols
    ensures r.Err? <==> Missing(keyCols + [GeometryColumn], f.columns).Some?
    ensures r.Ok? ==> Valid(r.value) && r.value.columns == DissolvedColumns(f.columns, keyCols)
    ensures r.Ok? ==> |r.value.rows| == |Groups(f, keyCols)|
    ensures r.Ok? ==> forall j :: 0 <= j < |Groups(f, keyCols)| ==>
      r.value.rows[j] == AggregateRow(f.rows, keyCols, Groups(f, keyCols)[j], r.value.columns)
  {
    match Missing(keyCols + [GeometryColumn], f.columns)
    case Some(c) => Err(MissingColumn(c))
    case None =>
      var cols := DissolvedColumns(f.columns, keyCols);
      Ok(Frame(cols, AggregateAll(f.rows, keyCols, Groups(f, keyCols), cols)))
  }

  /** One dissolved row per key. */
  function AggregateAll(rows: seq<Row>, keyCols: seq<string>, keys: seq<Key>, cols: seq<string>): (out: seq<Row>)
    requires forall j :: 0 <= j < |keys| ==> |keys[j]| == |keyCols|
    ensures |out| == |keys|
    ensures forall j :: 0 <= j < |keys| ==> out[j] == AggregateRow(rows, keyCols, keys[j], cols)
    ensures forall j :: 0 <= j < |keys| ==> out[j].Keys == ColumnSet(cols)
  {
    seq(|keys|, j requires 0 <= j < |keys| => AggregateRow(rows, keyCols, keys[j], cols))
  }

  /** The key cells of every row of a frame. */
  function FrameKeys(f: Frame, keyCols: seq<string>): (ks: seq<Key>)
    ensures |ks| == |f.rows|
    ensures forall j :: 0 <= j < |ks| ==> ks[j] == RowKey(f.rows[j], keyCols)
  {
    seq(|f.rows|, j requires 0 <= j < |f.rows| => RowKey(f.rows[j], keyCols))
  }

  /** A dissolved row carries its group's key in the key columns. */
  lemma AggregateRowKey(rows: seq<Row>, keyCols: seq<string>, k: Key, cols: seq<string>)
    requires Distinct(keyCols) && |k| == |keyCols| && ColumnSet(keyCols) <= ColumnSet(cols)
    ensures RowKey(AggregateRow(rows, keyCols, k, cols), keyCols) == k
  {
    var r := AggregateRow(rows, keyCols, k, cols);
    forall i | 0 <= i < |keyCols| ensures RowKey(r, keyCols)[i] == k[i] {
      assert keyCols[i] in ColumnSet(cols);
      var j := IndexOf(keyCols, keyCols[i]);
      assert j == i;
    }
  }

  /** The dissolve exactness property: the output has exactly one row per
      distinct non-null key of the input, in strictly ascending key order;
      each row's geometry is the union of its group's geometries and every
      other column holds the group's first non-null value. */
  lemma DissolveOnePerKey(f: Frame, keyCols: seq<string>)
    requires Valid(f) && Distinct(keyCols) && GeometryColumn !in keyCols
    requires DissolveBy(f, keyCols).Ok?
    ensures var out := DissolveBy(f, keyCols).value;
      && StrictlySorted(FrameKeys(out, keyCols))
      && Distinct(FrameKeys(out, keyCols))
      && (forall k :: k in FrameKeys(out, keyCols) <==> exists i :: 0 <= i < |f.rows| && KeyOf(f.rows[i], keyCols) == Some(k))
      && (forall j :: 0 <= j < |out.rows| ==> out.rows[j].Keys == ColumnSet(out.columns))
      && GeometryColumn in ColumnSet(out.columns)
      && (forall j :: 0 <= j < |out.rows| ==>
            out.rows[j][GeometryColumn] == Geom(UnionGeometry(Group(f.rows, keyCols, FrameKeys(out, keyCols)[j]))))
      && (forall j, c :: 0 <= j < |out.rows| && c in out.columns && c !in keyCols && c != GeometryColumn ==>
            out.rows[j][c] == FirstNonNull(Group(f.rows, keyCols, FrameKeys(out, keyCols)[j]), c))
  {
    var out := DissolveBy(f, keyCols).value;
    var keys := Groups(f, keyCols);
    assert ColumnSet(keyCols) <= ColumnSet(out.columns);
    forall j | 0 <= j < |keys| ensures FrameKeys(out, keyCols)[j] == keys[j] {
      assert |keys[j]| == |keyCols|;
      AggregateRowKey(f.rows, keyCols, keys[j], out.columns);
    }
    assert FrameKeys(out, keyCols) == keys;
    SortedDistinct(keys);
    assert GeometryColumn in ColumnSet(out.columns);
  }

  /** The keys of a dissolve: one row per distinct non-null key of the
      input, in strictly ascending order. */
  lemma DissolveKeys(f: Frame, keyCols: seq<string>, out: Frame)
    requires Valid(f) && Distinct(keyCols) && GeometryColumn !in keyCols
    requires DissolveBy(f, keyCols) == Ok(out)
    ensures StrictlySorted(FrameKeys(out, keyCols)) && Distinct(FrameKeys(out, keyCols))
    ensures forall k :: k in FrameKeys(out, keyCols) <==> exists i :: 0 <= i < |f.rows| && KeyOf(f.rows[i], keyCols) == Some(k)
  {
    DissolveOnePerKey(f, keyCols);
  }

  /** `gdf.dissolve()` with no key: all rows become one (none stay none). */
  function DissolveAll(f: Frame): (r: Result<Frame>)
    requires Valid(f)
    ensures r.Err? <==> GeometryColumn !in f.columns
    ensures r.Ok? ==> Valid(r.value)
    ensures r.Ok? ==> r.value.columns == [GeometryColumn] + Without(f.columns, {GeometryColumn})
    ensures r.Ok? ==> |r.value.rows| == if f.rows == [] then 0 else 1
    ensures r.Ok? && f.rows != [] ==> r.value.rows[0][GeometryColumn] == Geom(UnionGeometry(f.rows))
  {
    if GeometryColumn !in f.columns then Err(MissingColumn(GeometryColumn))
    else
      var cols := [GeometryColumn] + Without(f.columns, {GeometryColumn});
      DistinctCons(GeometryColumn, Without(f.columns, {GeometryColumn}));
      if f.rows == [] then Ok(Frame(cols, []))
      else
        var row := map c | c in ColumnSet(cols) ::
          if c == GeometryColumn then Geom(UnionGeometry(f.rows)) else FirstNonNull(f.rows, c);
        assert GeometryColumn in ColumnSet(cols);
        Ok(Frame(cols, [row]))
  }

  // ---------------------------------------------------------------------
  // Keep-first deduplication
  // ---------------------------------------------------------------------

  /** Some earlier element has the same key as element i. */
  predicate SeenBefore<T, K(==)>(s: seq<T>, key: T -> K, i: int)
    requires 0 <= i < |s|
  {
    exists j :: 0 <= j < i && key(s[j]) == key(s[i])
  }

  /** The first element of every key, in their original order
      (`drop_duplicates(subset=..., keep="first")`, `dict.fromkeys`). */
  function KeepFirst<T, K(==)>(s: seq<T>, key: T -> K): seq<T> {
    if s == [] then []
    else
      var n := |s| - 1;
      KeepFirst(s[..n], key) + (if SeenBefore(s, key, n) then [] else [s[n]])
  }

  function KeySet<T(==), K>(s: seq<T>, key: T -> K): set<K> {
    set x | x in s :: key(x)
  }

  /** The kept elements come from the input, and every key of the input is
      kept: deduplication loses no key. */
  lemma {:induction false} KeepFirstKeys<T, K>(s: seq<T>, key: T -> K)
    ensures forall x :: x in KeepFirst(s, key) ==> x in s
    ensures KeySet(KeepFirst(s, key), key) == KeySet(s, key)
  {
    if s != [] {
      var n := |s| - 1;
      var r0 := KeepFirst(s[..n], key);
      KeepFirstKeys(s[..n], key);
      assert s == s[..n] + [s[n]];
      assert KeySet(s, key) == KeySet(s[..n], key) + {key(s[n])};
      if SeenBefore(s, key, n) {
        var j :| 0 <= j < n && key(s[j]) == key(s[n]);
        assert s[j] in s[..n];
        assert KeepFirst(s, key) == r0;
      } else {
        assert KeepFirst(s, key) == r0 + [s[n]];
        assert KeySet(r0 + [s[n]], key) == KeySet(r0, key) + {key(s[n])};
      }
    }
  }

  /** No two kept elements share a key. */
  lemma {:induction false} KeepFirstDistinctKeys<T, K>(s: seq<T>, key: T -> K)
    ensures var r := KeepFirst(s, key);
      forall i, j :: 0 <= i < j < |r| ==> key(r[i]) != key(r[j])
  {
    if s != [] {
      var n := |s| - 1;
      KeepFirstDistinctKeys(s[..n], key);
      KeepFirstKeys(s[..n], key);
      var r0 := KeepFirst(s[..n], key);
      if !SeenBefore(s, key, n) {
        forall i | 0 <= i < |r0| ensures key(r0[i]) != key(s[n]) {
          assert r0[i] in r0;
          var j :| 0 <= j < n && s[..n][j] == r0[i];
        }
      }
    }
  }

  /** Whether an element's key came earlier does not depend on what
      follows it. */
  lemma SeenBeforePrefix<T, K>(s: seq<T>, key: T -> K, n: int, i: int)
    requires 0 <= i < n <= |s|
    ensures SeenBefore(s[..n], key, i) <==> SeenBefore(s, key, i)
  {
    if SeenBefore(s, key, i) {
      var j :| 0 <= j < i && key(s[j]) == key(s[i]);
      assert s[..n][j] == s[j] && s[..n][i] == s[i];
    }
  }

  /** Positions of the first of each key in `s[..n]`, read in `s`. */
  ghost predicate FirstPositions<T, K>(s: seq<T>, key: T -> K, n: int, r: seq<T>, ps: seq<int>)
    requires 0 <= n <= |s|
  {
    && |ps| == |r| && Increasing(ps)
    && (forall j :: 0 <= j < |ps| ==> 0 <= ps[j] < n && r[j] == s[ps[j]])
    && (forall i :: 0 <= i < n ==> (i in ps <==> !SeenBefore(s, key, i)))
  }

  /** One more element: its position is added exactly when its key is new. */
  lemma FirstPositionsStep<T, K>(s: seq<T>, key: T -> K, n: int, r: seq<T>, ps: seq<int>)
    requires 0 <= n < |s| && FirstPositions(s, key, n, r, ps)
    ensures !SeenBefore(s, key, n) ==> FirstPositions(s, key, n + 1, r + [s[n]], ps + [n])
    ensures SeenBefore(s, key, n) ==> FirstPositions(s, key, n + 1, r, ps)
  {
    if !SeenBefore(s, key, n) {
      var ps', r' := ps + [n], r + [s[n]];
      assert forall j :: 0 <= j < |ps| ==> ps'[j] == ps[j] && r'[j] == r[j];
      assert forall j, k :: 0 <= j < k < |ps'| ==> ps'[j] < ps'[k];
    }
  }

  /** The kept elements are the first of each key, in input order: the
      `j`-th kept element is the one at position `ps[j]`, the positions
      ascend, and they are exactly those whose key no earlier element
      has. */
  lemma {:induction false} KeepFirstPositions<T, K>(s: seq<T>, key: T -> K) returns (ps: seq<int>)
    ensures |ps| == |KeepFirst(s, key)| && Increasing(ps)
    ensures forall j :: 0 <= j < |ps| ==> 0 <= ps[j] < |s| && KeepFirst(s, key)[j] == s[ps[j]]
    ensures forall i :: 0 <= i < |s| ==> (i in ps <==> !SeenBefore(s, key, i))
  {
    ps := KeepFirstPrefix(s, key, |s|);
    assert s[..|s|] == s;
  }

  /** The same for the first `n` elements, one element at a time. */
  lemma {:induction false} KeepFirstPrefix<T, K>(s: seq<T>, key: T -> K, n: int) returns (ps: seq<int>)
    requires 0 <= n <= |s|
    ensures FirstPositions(s, key, n, KeepFirst(s[..n], key), ps)
    decreases n
  {
    if n == 0 {
      ps := [];
      assert s[..0] == [];
    } else {
      var p0 := KeepFirstPrefix(s, key, n - 1);
      FirstPositionsStep(s, key, n - 1, KeepFirst(s[..n - 1], key), p0);
      assert s[..n][..n - 1] == s[..n - 1];
      SeenBeforePrefix(s, key, n, n - 1);
      assert s[..n][n - 1] == s[n - 1];
      ps := if SeenBefore(s, key, n - 1) then p0 else p0 + [n - 1];
    }
  }
}
