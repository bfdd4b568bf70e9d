/** The level-3 geodatabase: the field list kept for each polygon layer,
    and the deduplication of the merged lines. */
module Gdb3 {
  import opened Text
  import opened Frames
  import opened Dissolve
  import opened Utils
  import Level1b
  import Level3l

  // ---------------------------------------------------------------------
  // Field lists (gdb3.py, get_fields)
  // ---------------------------------------------------------------------

  /** How many fields each level contributes: two names and the P-code
      for layers of level 4 and deeper, three names and the P-code for the
      others. */
  function Width(admLvl: int): int {
    if admLvl >= 4 then 3 else 4
  }

  /** The fields of level `i` in a layer of level `admLvl`. */
  function LevelFields(admLvl: int, i: int): (fs: seq<string>)
    ensures |fs| == Width(admLvl)
  {
    if admLvl >= 4 then [AdmStem(i) + "_name", AdmStem(i) + "_name1", AdmStem(i) + "_pcode"]
    else [AdmStem(i) + "_name", AdmStem(i) + "_name1", AdmStem(i) + "_name2", AdmStem(i) + "_pcode"]
  }

  /** The fields after the levels'. */
  function Trailer(admLvl: int): (fs: seq<string>) {
    if admLvl >= 4 then ["lang", "lang1", "date", "validon", "validto", "layer"]
    else ["lang", "lang1", "lang2", "date", "validon", "validto", "layer"]
  }

  /** The fields of levels `i` down to 0, deepest first. */
  function LevelsFrom(admLvl: int, i: int): seq<string>
    decreases i
  {
    if i < 0 then [] else LevelFields(admLvl, i) + LevelsFrom(admLvl, i - 1)
  }

  /** The fields a layer of level `admLvl` keeps. */
  function FieldList(admLvl: int): seq<string> {
    LevelsFrom(admLvl, admLvl) + Trailer(admLvl)
  }

  /** `get_fields`: the field list joined with commas. */
  method GetFields(admLvl: int) returns (s: string)
    ensures s == Join(FieldList(admLvl), ',')
  {
    var result: seq<string> := [];
    var i := admLvl;
    while i >= 0
      invariant i <= admLvl
      invariant result + LevelsFrom(admLvl, i) == LevelsFrom(admLvl, admLvl)
      decreases i + 1
    {
      var stem := AdmStem(i);
      var block: seq<string>;
      if admLvl >= 4 {
        block := [stem + "_name", stem + "_name1", stem + "_pcode"];
      } else {
        block := [stem + "_name", stem + "_name1", stem + "_name2", stem + "_pcode"];
      }
      LevelsStep(admLvl, i, result, block);
      result := result + block;
      i := i - 1;
    }
    var trailer: seq<string>;
    if admLvl >= 4 {
      trailer := ["lang", "lang1", "date", "validon", "validto", "layer"];
    } else {
      trailer := ["lang", "lang1", "lang2", "date", "validon", "validto", "layer"];
    }
    LevelsDone(admLvl, i, result, trailer);
    result := result + trailer;
    s := Join(result, ',');
  }

  /** One turn of `get_fields`' loop. */
  lemma LevelsStep(admLvl: int, i: int, result: seq<string>, block: seq<string>)
    requires i >= 0 && block == LevelFields(admLvl, i)
    ensures (result + block) + LevelsFrom(admLvl, i - 1) == result + LevelsFrom(admLvl, i)
  {
  }

  /** After the loop only the trailer is left to add. */
  lemma LevelsDone(admLvl: int, i: int, result: seq<string>, trailer: seq<string>)
    requires i < 0 && result + LevelsFrom(admLvl, i) == LevelsFrom(admLvl, admLvl) && trailer == Trailer(admLvl)
    ensures result + trailer == FieldList(admLvl)
  {
    assert result + [] == result;
  }

  /** The levels `i` down to 0 contribute `Width` fields each. */
  lemma {:induction false} LevelsFromLength(admLvl: int, i: int)
    requires i >= -1
    ensures |LevelsFrom(admLvl, i)| == Width(admLvl) * (i + 1)
    decreases i
  {
    if i >= 0 {
      LevelsFromLength(admLvl, i - 1);
    }
  }

  /** `3(n+1)+6` fields for layers of level 4 and deeper, `4(n+1)+7` for
      the others (just the trailer when the level is negative). */
  lemma FieldCount(admLvl: int)
    ensures admLvl >= 4 ==> |FieldList(admLvl)| == 3 * (admLvl + 1) + 6
    ensures 0 <= admLvl < 4 ==> |FieldList(admLvl)| == 4 * (admLvl + 1) + 7
    ensures admLvl < 0 ==> |FieldList(admLvl)| == 7
  {
    if admLvl >= 0 {
      LevelsFromLength(admLvl, admLvl);
    }
  }

  /** Level `m`'s fields sit at `Width * (i - m)` in the fields of the
      levels from `i` down: the levels come deepest first. */
  lemma {:induction false} LevelsFromAt(admLvl: int, i: int, m: int, k: int)
    requires 0 <= m <= i && 0 <= k < Width(admLvl)
    ensures Width(admLvl) * (i - m) + k < |LevelsFrom(admLvl, i)|
    ensures LevelsFrom(admLvl, i)[Width(admLvl) * (i - m) + k] == LevelFields(admLvl, m)[k]
    decreases i
  {
    var w := Width(admLvl);
    LevelsFromLength(admLvl, i);
    if m < i {
      LevelsFromAt(admLvl, i - 1, m, k);
      assert w * (i - m) + k == w + (w * (i - 1 - m) + k);
    }
  }

  /** The layout of the field list: for every level from `admLvl` down to
      0 its name fields and its P-code, then the language, date and layer
      fields. */
  lemma FieldsAt(admLvl: int, m: int)
    requires 0 <= m <= admLvl
    ensures var fs, at := FieldList(admLvl), Width(admLvl) * (admLvl - m);
      && at + Width(admLvl) <= |fs|
      && fs[at] == AdmStem(m) + "_name"
      && fs[at + 1] == AdmStem(m) + "_name1"
      && (admLvl < 4 ==> fs[at + 2] == AdmStem(m) + "_name2")
      && fs[at + Width(admLvl) - 1] == AdmPcode(m)
    ensures FieldList(admLvl)[|LevelsFrom(admLvl, admLvl)|..] == Trailer(admLvl)
  {
    var w := Width(admLvl);
    var ls := LevelsFrom(admLvl, admLvl);
    var fs := FieldList(admLvl);
    var at := w * (admLvl - m);
    LevelsFromAt(admLvl, admLvl, m, 0);
    LevelsFromAt(admLvl, admLvl, m, 1);
    LevelsFromAt(admLvl, admLvl, m, w - 1);
    assert fs[at] == ls[at] && fs[at + 1] == ls[at + 1] && fs[at + w - 1] == ls[at + w - 1];
    if admLvl < 4 {
      LevelsFromAt(admLvl, admLvl, m, 2);
      assert fs[at + 2] == ls[at + 2];
    }
    assert fs[|ls|..] == Trailer(admLvl);
  }

  /** The selected fields are the columns level 1b writes: the name
      columns of the first two (or three) languages, the P-codes and the
      language columns. */
  lemma FieldsOfLevel1b(admLvl: int, i: int)
    ensures LevelFields(admLvl, i)[0] == Level1b.NameColumn(i, 0)
    ensures LevelFields(admLvl, i)[1] == Level1b.NameColumn(i, 1)
    ensures admLvl < 4 ==> LevelFields(admLvl, i)[2] == Level1b.NameColumn(i, 2)
    ensures Trailer(admLvl)[0] == Level1b.LangColumn(0) && Trailer(admLvl)[1] == Level1b.LangColumn(1)
    ensures admLvl < 4 ==> Trailer(admLvl)[2] == Level1b.LangColumn(2)
  {
    assert IntToString(1) == "1" && IntToString(2) == "2";
    assert AdmStem(i) + "_" + ("name" + "") == AdmStem(i) + "_name";
    assert AdmStem(i) + "_" + ("name" + "1") == AdmStem(i) + "_name1";
    assert AdmStem(i) + "_" + ("name" + "2") == AdmStem(i) + "_name2";
  }

  /** No field holds a comma, so the joined list splits back into it. */
  lemma GetFieldsSplit(admLvl: int)
    ensures Split(Join(FieldList(admLvl), ','), ',') == FieldList(admLvl)
  {
    var fs := FieldList(admLvl);
    NoCommaLevels(admLvl, admLvl);
    assert forall f :: f in Trailer(admLvl) ==> ',' !in f;
    SplitJoin(fs, ',');
  }

  lemma NoCommaAppended(stem: string, suffix: string)
    requires ',' !in stem && ',' !in suffix
    ensures ',' !in stem + suffix
  {
  }

  /** None of the levels' fields holds a comma. */
  lemma {:induction false} NoCommaLevels(admLvl: int, i: int)
    ensures forall f :: f in LevelsFrom(admLvl, i) ==> ',' !in f
    decreases i
  {
    if i >= 0 {
      var stem := AdmStem(i);
      NoCommaAppended(stem, "_name");
      NoCommaAppended(stem, "_name1");
      NoCommaAppended(stem, "_name2");
      NoCommaAppended(stem, "_pcode");
      NoCommaLevels(admLvl, i - 1);
    }
  }

  // ---------------------------------------------------------------------
  // Lines (gdb3.py, deduplicate_lines)
  // ---------------------------------------------------------------------

  /** The (type, code) pair of a line; nulls compare equal, as in
      `drop_duplicates`. */
  function LineKey(row: Row): Key {
    RowKey(row, Level3l.LineKeys)
  }

  /** `gdf.drop_duplicates(subset=["bdytyp", "iso3cd"])`: the first line of
      every pair, in order; KeyError when a column is missing. */
  function DeduplicateLines(f: Frame): (r: Result<Frame>)
    requires Valid(f)
    ensures r.Err? <==> Missing(Level3l.LineKeys, f.columns).Some?
    ensures r.Ok? ==> Valid(r.value) && r.value.columns == f.columns
  {
    match Missing(Level3l.LineKeys, f.columns)
    case Some(c) => Err(MissingColumn(c))
    case None =>
      var rows := KeepFirst(f.rows, LineKey);
      KeepFirstKeys(f.rows, LineKey);
      assert forall i :: 0 <= i < |rows| ==> rows[i] in f.rows;
      Ok(Frame(f.columns, rows))
  }

  /** No two kept lines share a pair, and every pair of the input is
      kept. */
  lemma DeduplicateLinesSpec(f: Frame)
    requires Valid(f) && DeduplicateLines(f).Ok?
    ensures var r := DeduplicateLines(f).value.rows;
      && (forall i, j :: 0 <= i < j < |r| ==> LineKey(r[i]) != LineKey(r[j]))
      && (forall row :: row in f.rows ==> exists i :: 0 <= i < |r| && LineKey(r[i]) == LineKey(row))
  {
    var r := KeepFirst(f.rows, LineKey);
    KeepFirstDistinctKeys(f.rows, LineKey);
    KeepFirstKeys(f.rows, LineKey);
    forall row | row in f.rows ensures exists i :: 0 <= i < |r| && LineKey(r[i]) == LineKey(row) {
      assert LineKey(row) in KeySet(f.rows, LineKey);
      var x :| x in r && LineKey(x) == LineKey(row);
      var i :| 0 <= i < |r| && r[i] == x;
    }
  }

  /** The kept lines are the first line of each pair, in input order: the
      `j`-th is the input line at `ps[j]`, the positions ascend, and they are
      exactly those whose pair no earlier line has. */
  lemma DeduplicateLinesOrder(f: Frame) returns (ps: seq<int>)
    requires Valid(f) && DeduplicateLines(f).Ok?
    ensures |ps| == |DeduplicateLines(f).value.rows| && Increasing(ps)
    ensures forall j :: 0 <= j < |ps| ==> 0 <= ps[j] < |f.rows| && DeduplicateLines(f).value.rows[j] == f.rows[ps[j]]
    ensures forall i :: 0 <= i < |f.rows| ==> (i in ps <==> !SeenBefore(f.rows, LineKey, i))
  {
    ps := KeepFirstPositions(f.rows, LineKey);
  }
}
