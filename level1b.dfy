/** Level 1b: the language columns. Column names are lower-cased, the
    languages of the layer's own level are read off its `adm{L}_xx`
    columns, and each language's name columns are renamed after the
    language's position, `adm{l}_name` for the first, `adm{l}_name1` for
    the second and so on, with a `lang`, `lang1`, … column holding the
    code on every row. */
module Level1b {
  import opened Text
  import opened Frames
  import opened Dissolve
  import opened Config
  import opened Utils

  // ---------------------------------------------------------------------
  // Column names (app/level_1b.py, get_langs)
  // ---------------------------------------------------------------------

  /** Python's `\w` on the ASCII word characters. Python's str patterns
      also count every other Unicode letter and digit (`é`, `ß`), which
      this predicate does not. */
  predicate IsWordChar(c: char) {
    IsAsciiUpper(c) || IsAsciiLower(c) || IsDigit(c) || c == '_'
  }

  /** `\w{2}$`: two word characters, optionally followed by the line feed
      that `$` also accepts. */
  predicate TwoWordChars(t: string) {
    && (|t| == 2 || (|t| == 3 && t[2] == '\n'))
    && IsWordChar(t[0]) && IsWordChar(t[1])
  }

  /** `re.compile(rf"^adm{level}_\w{{2}}$").search(c)`. */
  predicate IsLangColumn(c: string, level: int) {
    StartsWith(c, AdmStem(level) + "_") && TwoWordChars(c[|AdmStem(level)| + 1..])
  }

  /** What follows `adm{level}_`. */
  function Suffix(c: string, level: int): string
    requires StartsWith(c, AdmStem(level) + "_")
  {
    c[|AdmStem(level)| + 1..]
  }

  /** `c.split("_")[1]` of a language column: its suffix up to the first
      underscore, which is the whole two-character code when the suffix
      holds no underscore. */
  function LangOf(c: string, level: int): (lang: string)
    requires IsLangColumn(c, level)
    ensures lang == Split(Suffix(c, level), '_')[0]
    ensures '_' !in Suffix(c, level) ==> lang == Suffix(c, level)
    ensures |lang| <= 3
  {
    var stem, t := AdmStem(level), Suffix(c, level);
    assert c == c[..|stem| + 1] + t;
    assert c == stem + ['_'] + t;
    SplitAtSep(stem, t, '_');
    SplitHead(t, '_');
    Split(c, '_')[1]
  }

  /** `[x.split("_")[1] for x in columns if p.search(x)]`. */
  function Langs(cols: seq<string>, level: int): seq<string> {
    if cols == [] then []
    else (if IsLangColumn(cols[0], level) then [LangOf(cols[0], level)] else []) + Langs(cols[1..], level)
  }

  /** `get_langs`: `list(dict.fromkeys(langs))`, each language once, in
      order of first appearance. */
  function GetLangs(cols: seq<string>, level: int): seq<string> {
    KeepFirst(Langs(cols, level), (x: string) => x)
  }

  /** A language is listed exactly when a column of the level carries it. */
  lemma {:induction false} LangsMembers(cols: seq<string>, level: int)
    ensures forall x :: x in Langs(cols, level) <==>
      exists c :: c in cols && IsLangColumn(c, level) && LangOf(c, level) == x
  {
    if cols != [] {
      var tail := cols[1..];
      LangsMembers(tail, level);
      forall x ensures x in Langs(cols, level) <==>
        exists c :: c in cols && IsLangColumn(c, level) && LangOf(c, level) == x
      {
        if x in Langs(cols, level) && !(IsLangColumn(cols[0], level) && LangOf(cols[0], level) == x) {
          assert x in Langs(tail, level);
          var c :| c in tail && IsLangColumn(c, level) && LangOf(c, level) == x;
          assert c in cols;
        }
        if exists c :: c in cols && IsLangColumn(c, level) && LangOf(c, level) == x {
          var c :| c in cols && IsLangColumn(c, level) && LangOf(c, level) == x;
          if c != cols[0] {
            assert c in tail;
          }
        }
      }
    }
  }

  /** The languages found are pairwise different; a language is found
      exactly when some column of the level carries it; none is longer
      than three characters. */
  lemma GetLangsSpec(cols: seq<string>, level: int)
    ensures Distinct(GetLangs(cols, level))
    ensures forall x :: x in GetLangs(cols, level) <==>
      exists c :: c in cols && IsLangColumn(c, level) && LangOf(c, level) == x
    ensures forall x :: x in GetLangs(cols, level) ==> |x| <= 3
  {
    var id := (x: string) => x;
    var ls := Langs(cols, level);
    var r := GetLangs(cols, level);
    KeepFirstKeys(ls, id);
    KeepFirstDistinctKeys(ls, id);
    LangsMembers(cols, level);
    forall x | x in ls ensures x in r {
      assert id(x) in KeySet(ls, id);
      var y :| y in r && id(y) == id(x);
    }
    forall i, j | 0 <= i < j < |r| ensures r[i] != r[j] {
      assert id(r[i]) != id(r[j]);
    }
  }

  // ---------------------------------------------------------------------
  // New names (app/level_1b.py, refactor_columns)
  // ---------------------------------------------------------------------

  /** `'' if index == 0 else index`. */
  function IndexSuffix(index: nat): string {
    if index == 0 then "" else IntToString(index)
  }

  /** `f"adm{level}_{lang}"`, the column a language's names are read from. */
  function OldColumn(level: int, lang: string): string {
    AdmStem(level) + "_" + lang
  }

  /** `f"adm{level}_name{...}"`, the column they are renamed to. */
  function NameColumn(level: int, index: nat): string {
    AdmStem(level) + "_" + ("name" + IndexSuffix(index))
  }

  /** `f"lang{...}"`, the column holding the language's code. */
  function LangColumn(index: nat): string {
    "lang" + IndexSuffix(index)
  }

  /** Names made of an underscore-free stem, an underscore and a rest agree
      exactly when the stems and the rests do. */
  lemma StemsAgree(a: string, x: string, b: string, y: string)
    requires '_' !in a && '_' !in b && a + "_" + x == b + "_" + y
    ensures a == b && x == y
  {
    assert a + "_" + x == a + ['_'] + x;
    assert b + "_" + y == b + ['_'] + y;
    SplitAtSep(a, x, '_');
    SplitAtSep(b, y, '_');
    assert a == Split(a + ['_'] + x, '_')[0] == Split(b + ['_'] + y, '_')[0] == b;
    assert (a + "_" + x)[|a| + 1..] == x;
    assert (b + "_" + y)[|b| + 1..] == y;
  }

  lemma IndexSuffixInjective(i: nat, j: nat)
    requires IndexSuffix(i) == IndexSuffix(j)
    ensures i == j
  {
    IntToStringSign(i);
    IntToStringSign(j);
    if i != 0 && j != 0 {
      IntToStringInjective(i, j);
    }
  }

  /** Different levels or languages read from different columns. */
  lemma OldColumnInjective(l: int, a: string, m: int, b: string)
    requires OldColumn(l, a) == OldColumn(m, b)
    ensures l == m && a == b
  {
    StemsAgree(AdmStem(l), a, AdmStem(m), b);
    AdmStemInjective(l, m);
  }

  /** Different levels or positions are renamed to different columns. */
  lemma NameColumnInjective(l: int, i: nat, m: int, j: nat)
    requires NameColumn(l, i) == NameColumn(m, j)
    ensures l == m && i == j
  {
    StemsAgree(AdmStem(l), "name" + IndexSuffix(i), AdmStem(m), "name" + IndexSuffix(j));
    AdmStemInjective(l, m);
    assert ("name" + IndexSuffix(i))[4..] == IndexSuffix(i);
    assert ("name" + IndexSuffix(j))[4..] == IndexSuffix(j);
    IndexSuffixInjective(i, j);
  }

  lemma LangColumnInjective(i: nat, j: nat)
    requires LangColumn(i) == LangColumn(j)
    ensures i == j
  {
    assert LangColumn(i)[4..] == IndexSuffix(i);
    assert LangColumn(j)[4..] == IndexSuffix(j);
    IndexSuffixInjective(i, j);
  }

  /** A column read from is never a column renamed to: its code has at
      most three characters, where a new name has at least four. */
  lemma OldNotName(l: int, a: string, m: int, i: nat)
    requires |a| <= 3
    ensures OldColumn(l, a) != NameColumn(m, i)
  {
    if OldColumn(l, a) == NameColumn(m, i) {
      StemsAgree(AdmStem(l), a, AdmStem(m), "name" + IndexSuffix(i));
    }
  }

  /** Language columns start with 'l', the others with 'a'. */
  lemma LangColumnApart(l: int, a: string, m: int, i: nat, j: nat)
    ensures OldColumn(l, a) != LangColumn(j) && NameColumn(m, i) != LangColumn(j)
  {
    assert OldColumn(l, a)[0] == 'a' && NameColumn(m, i)[0] == 'a' && LangColumn(j)[0] == 'l';
  }

  // ---------------------------------------------------------------------
  // Steps
  // ---------------------------------------------------------------------

  /** One step of the renaming loop. */
  datatype Step =
    | RenameIfPresent(source: string, target: string)  // `if old_col in gdf.columns: gdf = gdf.rename(...)`
    | SetLang(column: string, lang: string)      // `gdf[lang_col] = lang`

  function RunStep(f: Frame, s: Step): (r: Result<Frame>)
    requires Valid(f)
    ensures r.Ok? ==> Valid(r.value) && |r.value.rows| == |f.rows|
  {
    match s
    case RenameIfPresent(a, b) => if a in f.columns then Rename(f, map[a := b]) else Ok(f)
    case SetLang(c, v) => Ok(Fill(f, c, Str(v)))
  }

  /** The steps one after the other; the first failure stops the run. */
  function Run(f: Frame, steps: seq<Step>): (r: Result<Frame>)
    requires Valid(f)
    ensures r.Ok? ==> Valid(r.value) && |r.value.rows| == |f.rows|
    decreases |steps|
  {
    if steps == [] then Ok(f)
    else
      var g :- RunStep(f, steps[0]);
      Run(g, steps[1..])
  }

  /** Whether a step reads or overwrites a column. */
  predicate Touches(s: Step, c: string) {
    match s
    case RenameIfPresent(a, _) => a == c
    case SetLang(d, _) => d == c
  }

  /** Whether a step can bring a column into being. */
  predicate Creates(s: Step, c: string) {
    match s
    case RenameIfPresent(_, b) => b == c
    case SetLang(d, _) => d == c
  }

  /** A rename that changes the name. */
  predicate Proper(s: Step) {
    s.RenameIfPresent? ==> s.source != s.target
  }

  /** Two steps on disjoint columns. */
  predicate Independent(s: Step, t: Step) {
    match s
    case RenameIfPresent(a, b) => !Touches(t, a) && !Touches(t, b) && !Creates(t, a) && !Creates(t, b)
    case SetLang(d, _) => !Touches(t, d) && !Creates(t, d)
  }

  /** Every step is proper and independent of every later one. */
  predicate WellFormed(steps: seq<Step>)
    decreases |steps|
  {
    steps == [] || (Proper(steps[0]) && (forall t :: t in steps[1..] ==> Independent(steps[0], t)) && WellFormed(steps[1..]))
  }

  lemma {:induction false} WellFormedAppend(a: seq<Step>, b: seq<Step>)
    requires WellFormed(a) && WellFormed(b)
    requires forall s, t :: s in a && t in b ==> Independent(s, t)
    ensures WellFormed(a + b)
    decreases |a|
  {
    if a != [] {
      assert (a + b)[1..] == a[1..] + b;
      assert forall s, t :: s in a[1..] && t in b ==> Independent(s, t) by {
        forall s, t | s in a[1..] && t in b ensures Independent(s, t) { assert s in a; }
      }
      WellFormedAppend(a[1..], b);
      assert a[0] in a;
      forall t | t in (a + b)[1..] ensures Independent(a[0], t) {
        if t !in a[1..] { assert t in b; }
      }
    } else {
      assert a + b == b;
    }
  }

  // ---------------------------------------------------------------------
  // What one step does
  // ---------------------------------------------------------------------

  /** A step keeps a column it does not touch, with its cells. */
  lemma StepKeeps(f: Frame, s: Step, c: string)
    requires Valid(f) && c in f.columns && !Touches(s, c) && RunStep(f, s).Ok?
    ensures var g := RunStep(f, s).value;
      c in g.columns && forall k :: 0 <= k < |f.rows| ==> Cell(g.rows[k], c) == Cell(f.rows[k], c)
  {
    if s.RenameIfPresent? && s.source in f.columns {
      var m := map[s.source := s.target];
      var g := RunStep(f, s).value;
      var k :| 0 <= k < |f.columns| && f.columns[k] == c;
      assert NewName(m, c) == c;
      assert g.columns[k] == c;
      forall i | 0 <= i < |f.rows| ensures Cell(g.rows[i], c) == Cell(f.rows[i], c) {
        assert g.rows[i][NewName(m, f.columns[k])] == f.rows[i][f.columns[k]];
      }
    }
  }

  /** A step does not bring back a column it does not create. */
  lemma StepAbsent(f: Frame, s: Step, c: string)
    requires Valid(f) && c !in f.columns && !Creates(s, c) && RunStep(f, s).Ok?
    ensures c !in RunStep(f, s).value.columns
  {
    if s.RenameIfPresent? && s.source in f.columns {
      var m := map[s.source := s.target];
      var g := RunStep(f, s).value;
      forall k | 0 <= k < |g.columns| ensures g.columns[k] != c {
        assert g.columns[k] == NewName(m, f.columns[k]);
      }
    }
  }

  /** A rename of a present column succeeds exactly when the new name is
      free; the new column then holds the old one's cells and the old name
      is gone. */
  lemma RenameMoves(f: Frame, a: string, b: string)
    requires Valid(f) && a in f.columns && a != b
    ensures RunStep(f, RenameIfPresent(a, b)).Ok? <==> b !in f.columns
    ensures RunStep(f, RenameIfPresent(a, b)).Ok? ==>
      var g := RunStep(f, RenameIfPresent(a, b)).value;
      && b in g.columns && a !in g.columns
      && forall k :: 0 <= k < |f.rows| ==> Cell(g.rows[k], b) == Cell(f.rows[k], a)
  {
    if b in f.columns {
      RenameBlocked(f, a, b);
    } else {
      RenameFree(f, a, b);
    }
  }

  lemma RenameBlocked(f: Frame, a: string, b: string)
    requires Valid(f) && a in f.columns && b in f.columns && a != b
    ensures !Distinct(RenamedColumns(f.columns, map[a := b]))
  {
    var nc := RenamedColumns(f.columns, map[a := b]);
    var p :| 0 <= p < |f.columns| && f.columns[p] == a;
    var q :| 0 <= q < |f.columns| && f.columns[q] == b;
    assert nc[p] == b && nc[q] == b;
  }

  lemma RenameFree(f: Frame, a: string, b: string)
    requires Valid(f) && a in f.columns && b !in f.columns
    ensures Rename(f, map[a := b]).Ok?
    ensures var g := Rename(f, map[a := b]).value;
      && b in g.columns && a !in g.columns
      && forall k :: 0 <= k < |f.rows| ==> Cell(g.rows[k], b) == Cell(f.rows[k], a)
  {
    var m := map[a := b];
    RenameFreeDistinct(f, a, b);
    var p :| 0 <= p < |f.columns| && f.columns[p] == a;
    var g := Rename(f, m).value;
    assert g.columns[p] == b;
    forall k | 0 <= k < |g.columns| ensures g.columns[k] != a {
      assert g.columns[k] == NewName(m, f.columns[k]);
    }
    forall i | 0 <= i < |f.rows| ensures Cell(g.rows[i], b) == Cell(f.rows[i], a) {
      assert g.rows[i][NewName(m, f.columns[p])] == f.rows[i][f.columns[p]];
    }
  }

  lemma RenameFreeDistinct(f: Frame, a: string, b: string)
    requires Valid(f) && b !in f.columns
    ensures Distinct(RenamedColumns(f.columns, map[a := b]))
  {
    var nc := RenamedColumns(f.columns, map[a := b]);
    forall i, j | 0 <= i < j < |nc| ensures nc[i] != nc[j] {
      assert f.columns[i] != f.columns[j];
    }
  }

  /** `gdf[column] = lang` gives the column the code on every row. */
  lemma SetLangSets(f: Frame, d: string, v: string)
    requires Valid(f)
    ensures var g := RunStep(f, SetLang(d, v)).value;
      d in g.columns && forall k :: 0 <= k < |g.rows| ==> Cell(g.rows[k], d) == Str(v)
  {
  }

  /** A step changes whether a column is present only if it touches or
      creates it. */
  lemma StepSame(f: Frame, s: Step, c: string)
    requires Valid(f) && !Touches(s, c) && !Creates(s, c) && RunStep(f, s).Ok?
    ensures c in RunStep(f, s).value.columns <==> c in f.columns
  {
    if c in f.columns {
      StepKeeps(f, s, c);
    } else {
      StepAbsent(f, s, c);
    }
  }

  // ---------------------------------------------------------------------
  // What a run of steps does
  // ---------------------------------------------------------------------

  /** A run keeps a column no step touches, with its cells. */
  lemma {:induction false} RunKeeps(f: Frame, steps: seq<Step>, c: string)
    requires Valid(f) && c in f.columns && Run(f, steps).Ok?
    requires forall t :: t in steps ==> !Touches(t, c)
    ensures var r := Run(f, steps).value;
      c in r.columns && forall k :: 0 <= k < |f.rows| ==> Cell(r.rows[k], c) == Cell(f.rows[k], c)
    decreases |steps|
  {
    if steps != [] {
      assert steps[0] in steps;
      var g := RunStep(f, steps[0]).value;
      StepKeeps(f, steps[0], c);
      assert forall t :: t in steps[1..] ==> t in steps;
      RunKeeps(g, steps[1..], c);
    }
  }

  /** A run does not bring in a column no step creates. */
  lemma {:induction false} RunAbsent(f: Frame, steps: seq<Step>, c: string)
    requires Valid(f) && c !in f.columns && Run(f, steps).Ok?
    requires forall t :: t in steps ==> !Creates(t, c)
    ensures c !in Run(f, steps).value.columns
    decreases |steps|
  {
    if steps != [] {
      assert steps[0] in steps;
      var g := RunStep(f, steps[0]).value;
      StepAbsent(f, steps[0], c);
      assert forall t :: t in steps[1..] ==> t in steps;
      RunAbsent(g, steps[1..], c);
    }
  }

  /** Every column after a run was there before or is created by a step. */
  lemma {:induction false} RunColumns(f: Frame, steps: seq<Step>)
    requires Valid(f) && Run(f, steps).Ok?
    ensures forall c :: c in Run(f, steps).value.columns ==>
      c in f.columns || exists t :: t in steps && Creates(t, c)
    decreases |steps|
  {
    if steps != [] {
      var g := RunStep(f, steps[0]).value;
      RunColumns(g, steps[1..]);
      forall c | c in Run(f, steps).value.columns && c !in f.columns
        ensures exists t :: t in steps && Creates(t, c)
      {
        if Creates(steps[0], c) {
          assert steps[0] in steps;
        } else {
          StepAbsent(f, steps[0], c);
          var t :| t in steps[1..] && Creates(t, c);
          assert t in steps;
        }
      }
    }
  }

  /** In a well-formed run, a rename of a column present at the start
      moves it: the new name holds its cells and the old one is gone. */
  lemma {:induction false} RunRenames(f: Frame, steps: seq<Step>, a: string, b: string)
    requires Valid(f) && WellFormed(steps) && RenameIfPresent(a, b) in steps
    requires a in f.columns && Run(f, steps).Ok?
    ensures var r := Run(f, steps).value;
      && b in r.columns && a !in r.columns
      && forall k :: 0 <= k < |f.rows| ==> Cell(r.rows[k], b) == Cell(f.rows[k], a)
    decreases |steps|
  {
    var s0, tail := steps[0], steps[1..];
    var g := RunStep(f, s0).value;
    if s0 == RenameIfPresent(a, b) {
      RenameMoves(f, a, b);
      assert forall t :: t in tail ==> !Touches(t, b) && !Creates(t, a);
      RunKeeps(g, tail, b);
      RunAbsent(g, tail, a);
    } else {
      assert RenameIfPresent(a, b) in tail;
      assert Independent(s0, RenameIfPresent(a, b));
      StepKeeps(f, s0, a);
      RunRenames(g, tail, a, b);
    }
  }

  /** In a well-formed run, setting a language column leaves the code on
      every row. */
  lemma {:induction false} RunSetsLang(f: Frame, steps: seq<Step>, d: string, v: string)
    requires Valid(f) && WellFormed(steps) && SetLang(d, v) in steps && Run(f, steps).Ok?
    ensures var r := Run(f, steps).value;
      d in r.columns && forall k :: 0 <= k < |r.rows| ==> Cell(r.rows[k], d) == Str(v)
    decreases |steps|
  {
    var s0, tail := steps[0], steps[1..];
    var g := RunStep(f, s0).value;
    if s0 == SetLang(d, v) {
      SetLangSets(f, d, v);
      assert forall t :: t in tail ==> !Touches(t, d);
      RunKeeps(g, tail, d);
    } else {
      assert SetLang(d, v) in tail;
      RunSetsLang(g, tail, d, v);
    }
  }

  /** No rename of the steps finds its old name present and its new name
      taken. */
  predicate Clear(cols: seq<string>, steps: seq<Step>) {
    forall t :: t in steps && t.RenameIfPresent? && t.source in cols ==> t.target !in cols
  }

  /** A step does not change whether the renames of later, independent
      steps are clear. */
  lemma ClearSame(f: Frame, s0: Step, tail: seq<Step>)
    requires Valid(f) && RunStep(f, s0).Ok?
    requires forall t :: t in tail ==> Independent(s0, t)
    ensures Clear(RunStep(f, s0).value.columns, tail) <==> Clear(f.columns, tail)
  {
    forall t | t in tail && t.RenameIfPresent?
      ensures (t.source in RunStep(f, s0).value.columns <==> t.source in f.columns)
           && (t.target in RunStep(f, s0).value.columns <==> t.target in f.columns)
    {
      assert Independent(s0, t);
      StepSame(f, s0, t.source);
      StepSame(f, s0, t.target);
    }
  }

  /** A well-formed run succeeds exactly when its renames are clear of the
      columns at the start. */
  lemma {:induction false} RunOk(f: Frame, steps: seq<Step>)
    requires Valid(f) && WellFormed(steps)
    ensures Run(f, steps).Ok? <==> Clear(f.columns, steps)
    decreases |steps|
  {
    if steps != [] {
      var s0, tail := steps[0], steps[1..];
      assert s0 in steps;
      assert forall t :: t in steps <==> t == s0 || t in tail;
      if s0.RenameIfPresent? && s0.source in f.columns {
        RenameMoves(f, s0.source, s0.target);
        if s0.target !in f.columns {
          var g := RunStep(f, s0).value;
          RunOk(g, tail);
          ClearSame(f, s0, tail);
        }
      } else {
        var g := RunStep(f, s0).value;
        RunOk(g, tail);
        ClearSame(f, s0, tail);
      }
    }
  }

  /** A run with a first step: that step, then the rest on its result. */
  lemma RunCons(g: Frame, s: Step, t: seq<Step>)
    requires Valid(g)
    ensures RunStep(g, s).Err? ==> Run(g, [s] + t) == Err(RunStep(g, s).error)
    ensures RunStep(g, s).Ok? ==> Run(g, [s] + t) == Run(RunStep(g, s).value, t)
  {
    assert ([s] + t)[1..] == t;
  }

  // ---------------------------------------------------------------------
  // The steps of refactor_columns (app/level_1b.py:29-37)
  // ---------------------------------------------------------------------

  /** `if old_col in gdf.columns: gdf = gdf.rename(columns={old_col: new_col})`. */
  function RenameStep(lang: string, index: nat, level: int): Step {
    RenameIfPresent(OldColumn(level, lang), NameColumn(level, index))
  }

  /** One language's renames, from `level` down to 0. */
  function LevelSteps(lang: string, index: nat, level: int): seq<Step>
    decreases level
  {
    if level < 0 then [] else [RenameStep(lang, index, level)] + LevelSteps(lang, index, level - 1)
  }

  /** One turn of the outer loop: the language's renames, then its code
      column. */
  function Block(lang: string, index: nat, level: int): seq<Step> {
    LevelSteps(lang, index, level) + [SetLang(LangColumn(index), lang)]
  }

  /** The turns of the languages from position `from` on. */
  function LangSteps(langs: seq<string>, from: nat, level: int): seq<Step>
    decreases |langs| - from
  {
    if from >= |langs| then [] else Block(langs[from], from, level) + LangSteps(langs, from + 1, level)
  }

  /** A step of the turn of the language at position `index`. */
  predicate InBlock(t: Step, lang: string, index: nat, level: int) {
    t == SetLang(LangColumn(index), lang) || exists l :: 0 <= l <= level && t == RenameStep(lang, index, l)
  }

  lemma {:induction false} LevelStepsMembers(lang: string, index: nat, level: int)
    ensures forall t :: t in LevelSteps(lang, index, level) <==>
      exists l :: 0 <= l <= level && t == RenameStep(lang, index, l)
    decreases level
  {
    if level >= 0 {
      var tail := LevelSteps(lang, index, level - 1);
      LevelStepsMembers(lang, index, level - 1);
      forall t ensures t in LevelSteps(lang, index, level) <==>
        exists l :: 0 <= l <= level && t == RenameStep(lang, index, l)
      {
        if exists l :: 0 <= l <= level && t == RenameStep(lang, index, l) {
          var l :| 0 <= l <= level && t == RenameStep(lang, index, l);
          if l < level {
            assert t in tail;
          }
        }
      }
    }
  }

  lemma BlockMembers(lang: string, index: nat, level: int)
    ensures forall t :: t in Block(lang, index, level) <==> InBlock(t, lang, index, level)
  {
    LevelStepsMembers(lang, index, level);
  }

  lemma {:induction false} LangStepsMembers(langs: seq<string>, from: nat, level: int)
    ensures forall t :: t in LangSteps(langs, from, level) <==>
      exists i :: from <= i < |langs| && InBlock(t, langs[i], i, level)
    decreases |langs| - from
  {
    if from < |langs| {
      LangStepsMembers(langs, from + 1, level);
      BlockMembers(langs[from], from, level);
      forall t ensures t in LangSteps(langs, from, level) <==>
        exists i :: from <= i < |langs| && InBlock(t, langs[i], i, level)
      {
        if exists i :: from <= i < |langs| && InBlock(t, langs[i], i, level) {
          var i :| from <= i < |langs| && InBlock(t, langs[i], i, level);
          if i > from {
            assert t in LangSteps(langs, from + 1, level);
          }
        }
      }
    }
  }

  lemma RenamesIndependent(a: string, i: nat, l: int, b: string, j: nat, m: int)
    requires |a| <= 3 && |b| <= 3 && (i != j || l != m) && (i != j ==> a != b)
    ensures Independent(RenameStep(a, i, l), RenameStep(b, j, m))
  {
    if OldColumn(l, a) == OldColumn(m, b) {
      OldColumnInjective(l, a, m, b);
    }
    if NameColumn(l, i) == NameColumn(m, j) {
      NameColumnInjective(l, i, m, j);
    }
    OldNotName(l, a, m, j);
    OldNotName(m, b, l, i);
  }

  lemma RenameSetIndependent(a: string, i: nat, l: int, j: nat, v: string)
    ensures Independent(RenameStep(a, i, l), SetLang(LangColumn(j), v))
    ensures Independent(SetLang(LangColumn(j), v), RenameStep(a, i, l))
  {
    LangColumnApart(l, a, l, i, j);
  }

  lemma SetsIndependent(i: nat, j: nat, v: string, w: string)
    requires i != j
    ensures Independent(SetLang(LangColumn(i), v), SetLang(LangColumn(j), w))
  {
    if LangColumn(i) == LangColumn(j) {
      LangColumnInjective(i, j);
    }
  }

  lemma {:induction false} LevelStepsWellFormed(lang: string, index: nat, level: int)
    requires |lang| <= 3
    ensures WellFormed(LevelSteps(lang, index, level))
    decreases level
  {
    if level >= 0 {
      var tail := LevelSteps(lang, index, level - 1);
      assert LevelSteps(lang, index, level)[1..] == tail;
      LevelStepsWellFormed(lang, index, level - 1);
      LevelStepsMembers(lang, index, level - 1);
      OldNotName(level, lang, level, index);
      forall t | t in tail ensures Independent(RenameStep(lang, index, level), t) {
        var l :| 0 <= l <= level - 1 && t == RenameStep(lang, index, l);
        RenamesIndependent(lang, index, level, lang, index, l);
      }
    }
  }

  lemma BlockWellFormed(lang: string, index: nat, level: int)
    requires |lang| <= 3
    ensures WellFormed(Block(lang, index, level))
  {
    var renames := LevelSteps(lang, index, level);
    var s := SetLang(LangColumn(index), lang);
    LevelStepsWellFormed(lang, index, level);
    LevelStepsMembers(lang, index, level);
    assert WellFormed([s]) by {
      assert [s][1..] == [];
    }
    forall x, t | x in renames && t in [s] ensures Independent(x, t) {
      var l :| 0 <= l <= level && x == RenameStep(lang, index, l);
      RenameSetIndependent(lang, index, l, index, lang);
    }
    WellFormedAppend(renames, [s]);
  }

  /** Languages a plan can be made from: pairwise different codes of at
      most three characters, as `get_langs` returns. */
  predicate GoodLangs(langs: seq<string>) {
    Distinct(langs) && forall x :: x in langs ==> |x| <= 3
  }

  lemma BlocksIndependent(s: Step, t: Step, langs: seq<string>, i: nat, j: nat, level: int)
    requires GoodLangs(langs) && i < j < |langs|
    requires InBlock(s, langs[i], i, level) && InBlock(t, langs[j], j, level)
    ensures Independent(s, t)
  {
    var a, b := langs[i], langs[j];
    assert a != b && a in langs && b in langs;
    if s.SetLang? {
      if t.SetLang? {
        SetsIndependent(i, j, a, b);
      } else {
        var m :| 0 <= m <= level && t == RenameStep(b, j, m);
        RenameSetIndependent(b, j, m, i, a);
      }
    } else {
      var l :| 0 <= l <= level && s == RenameStep(a, i, l);
      if t.SetLang? {
        RenameSetIndependent(a, i, l, j, b);
      } else {
        var m :| 0 <= m <= level && t == RenameStep(b, j, m);
        RenamesIndependent(a, i, l, b, j, m);
      }
    }
  }

  /** The steps of the loop are well formed: no two renames share a name,
      and no rename meets a code column. */
  lemma {:induction false} LangStepsWellFormed(langs: seq<string>, from: nat, level: int)
    requires GoodLangs(langs)
    ensures WellFormed(LangSteps(langs, from, level))
    decreases |langs| - from
  {
    if from < |langs| {
      var block, rest := Block(langs[from], from, level), LangSteps(langs, from + 1, level);
      assert langs[from] in langs;
      BlockWellFormed(langs[from], from, level);
      LangStepsWellFormed(langs, from + 1, level);
      BlockMembers(langs[from], from, level);
      LangStepsMembers(langs, from + 1, level);
      forall x, t | x in block && t in rest ensures Independent(x, t) {
        var j :| from + 1 <= j < |langs| && InBlock(t, langs[j], j, level);
        BlocksIndependent(x, t, langs, from, j, level);
      }
      WellFormedAppend(block, rest);
    }
  }

  // ---------------------------------------------------------------------
  // refactor_columns (app/level_1b.py:26-38)
  // ---------------------------------------------------------------------

  /** `[x.lower() for x in gdf.columns]`. */
  function LowerAll(cols: seq<string>): (r: seq<string>)
    ensures |r| == |cols| && forall k :: 0 <= k < |cols| ==> r[k] == Lower(cols[k])
  {
    seq(|cols|, k requires 0 <= k < |cols| => Lower(cols[k]))
  }

  /** `gdf.columns = [x.lower() for x in gdf.columns]`: each column under its
      lower-cased name, with its cells. Two names that lower-case alike
      give a duplicate column. */
  function Lowered(f: Frame): (r: Result<Frame>)
    requires Valid(f)
    ensures r.Ok? <==> Distinct(LowerAll(f.columns))
    ensures r.Ok? ==> Valid(r.value) && r.value.columns == LowerAll(f.columns) && |r.value.rows| == |f.rows|
    ensures r.Ok? ==> forall i, k :: 0 <= i < |f.rows| && 0 <= k < |f.columns| ==>
      Cell(r.value.rows[i], Lower(f.columns[k])) == Cell(f.rows[i], f.columns[k])
  {
    var m := map c | c in f.columns :: Lower(c);
    assert RenamedColumns(f.columns, m) == LowerAll(f.columns);
    Rename(f, m)
  }

  /** The languages of a layer once its column names are lower-cased. */
  function LangsOf(f: Frame, level: int): seq<string> {
    GetLangs(LowerAll(f.columns), level)
  }

  /** The whole loop of `refactor_columns`. */
  function Plan(cols: seq<string>, level: int): seq<Step> {
    LangSteps(GetLangs(cols, level), 0, level)
  }

  /** `refactor_columns(gdf, admin_level)`. */
  function Refactored(f: Frame, level: int): (r: Result<Frame>)
    requires Valid(f)
    ensures r.Ok? ==> Valid(r.value) && |r.value.rows| == |f.rows|
  {
    var h :- Lowered(f);
    Run(h, Plan(h.columns, level))
  }

  lemma PlanWellFormed(cols: seq<string>, level: int)
    ensures WellFormed(Plan(cols, level))
  {
    GetLangsSpec(cols, level);
    LangStepsWellFormed(GetLangs(cols, level), 0, level);
  }

  /** No language's rename, at any level, finds its old name present and
      its new name taken. */
  predicate NoClash(cols: seq<string>, langs: seq<string>, level: int) {
    forall i, l :: 0 <= i < |langs| && 0 <= l <= level && OldColumn(l, langs[i]) in cols ==>
      NameColumn(l, i) !in cols
  }

  /** The renames of the loop are clear of a layer's columns exactly when
      none of them clashes. */
  lemma ClearIsNoClash(cols: seq<string>, level: int)
    ensures Clear(cols, Plan(cols, level)) <==> NoClash(cols, GetLangs(cols, level), level)
  {
    if Clear(cols, Plan(cols, level)) {
      ClearNoClash(cols, level);
    } else {
      NotClearClash(cols, level);
    }
  }

  lemma ClearNoClash(cols: seq<string>, level: int)
    requires Clear(cols, Plan(cols, level))
    ensures NoClash(cols, GetLangs(cols, level), level)
  {
    var langs := GetLangs(cols, level);
    LangStepsMembers(langs, 0, level);
    forall i, l | 0 <= i < |langs| && 0 <= l <= level && OldColumn(l, langs[i]) in cols
      ensures NameColumn(l, i) !in cols
    {
      assert InBlock(RenameStep(langs[i], i, l), langs[i], i, level);
    }
  }

  lemma NotClearClash(cols: seq<string>, level: int)
    requires !Clear(cols, Plan(cols, level))
    ensures !NoClash(cols, GetLangs(cols, level), level)
  {
    var langs := GetLangs(cols, level);
    LangStepsMembers(langs, 0, level);
    var t :| t in Plan(cols, level) && t.RenameIfPresent? && t.source in cols && t.target in cols;
    var i :| 0 <= i < |langs| && InBlock(t, langs[i], i, level);
    var l :| 0 <= l <= level && t == RenameStep(langs[i], i, l);
  }

  /** The refactor succeeds exactly when no two column names lower-case
      alike and no rename of the loop runs into a column of the new name. */
  lemma RefactorOk(f: Frame, level: int)
    requires Valid(f)
    ensures Refactored(f, level).Ok? <==>
      Distinct(LowerAll(f.columns)) && NoClash(LowerAll(f.columns), LangsOf(f, level), level)
  {
    var cols := LowerAll(f.columns);
    if Distinct(cols) {
      var h := Lowered(f).value;
      assert Refactored(f, level) == Run(h, Plan(cols, level));
      PlanWellFormed(cols, level);
      RunOk(h, Plan(cols, level));
      ClearIsNoClash(cols, level);
    }
  }

  /** After the refactor, the code column of each language position holds
      the code on every row. */
  lemma RefactorLangColumns(f: Frame, level: int)
    requires Valid(f) && Refactored(f, level).Ok?
    ensures var r, langs := Refactored(f, level).value, LangsOf(f, level);
      forall i :: 0 <= i < |langs| ==>
        LangColumn(i) in r.columns && forall k :: 0 <= k < |r.rows| ==> Cell(r.rows[k], LangColumn(i)) == Str(langs[i])
  {
    var h := Lowered(f).value;
    var langs := LangsOf(f, level);
    PlanWellFormed(h.columns, level);
    LangStepsMembers(langs, 0, level);
    forall i | 0 <= i < |langs|
      ensures var r := Refactored(f, level).value;
        LangColumn(i) in r.columns && forall k :: 0 <= k < |r.rows| ==> Cell(r.rows[k], LangColumn(i)) == Str(langs[i])
    {
      assert InBlock(SetLang(LangColumn(i), langs[i]), langs[i], i, level);
      RunSetsLang(h, Plan(h.columns, level), LangColumn(i), langs[i]);
    }
  }

  /** After the refactor, a column `ADM{l}_XX` of a found language XX is
      gone and its cells are in the language position's name column of
      that level. */
  lemma RefactorRenames(f: Frame, level: int)
    requires Valid(f) && Refactored(f, level).Ok?
    ensures var r, langs := Refactored(f, level).value, LangsOf(f, level);
      forall i, l, c :: 0 <= i < |langs| && 0 <= l <= level && c in f.columns && Lower(c) == OldColumn(l, langs[i]) ==>
        && NameColumn(l, i) in r.columns && OldColumn(l, langs[i]) !in r.columns
        && forall k :: 0 <= k < |f.rows| ==> Cell(r.rows[k], NameColumn(l, i)) == Cell(f.rows[k], c)
  {
    var h := Lowered(f).value;
    var langs := LangsOf(f, level);
    PlanWellFormed(h.columns, level);
    LangStepsMembers(langs, 0, level);
    forall i, l, c | 0 <= i < |langs| && 0 <= l <= level && c in f.columns && Lower(c) == OldColumn(l, langs[i])
      ensures var r := Refactored(f, level).value;
        && NameColumn(l, i) in r.columns && OldColumn(l, langs[i]) !in r.columns
        && forall k :: 0 <= k < |f.rows| ==> Cell(r.rows[k], NameColumn(l, i)) == Cell(f.rows[k], c)
    {
      var p :| 0 <= p < |f.columns| && f.columns[p] == c;
      assert h.columns[p] == Lower(c);
      assert InBlock(RenameStep(langs[i], i, l), langs[i], i, level);
      RunRenames(h, Plan(h.columns, level), OldColumn(l, langs[i]), NameColumn(l, i));
    }
  }

  /** A lower-cased name the loop neither renames nor uses for a code. */
  predicate Untouched1b(c: string, langs: seq<string>, level: int) {
    forall i :: 0 <= i < |langs| ==>
      c != LangColumn(i) && forall l :: 0 <= l <= level ==> c != OldColumn(l, langs[i])
  }

  /** After the refactor, every other column is there under its
      lower-cased name with its cells. */
  lemma RefactorKeeps(f: Frame, level: int)
    requires Valid(f) && Refactored(f, level).Ok?
    ensures var r, langs := Refactored(f, level).value, LangsOf(f, level);
      forall c :: c in f.columns && Untouched1b(Lower(c), langs, level) ==>
        Lower(c) in r.columns && forall k :: 0 <= k < |f.rows| ==> Cell(r.rows[k], Lower(c)) == Cell(f.rows[k], c)
  {
    var h := Lowered(f).value;
    var langs := LangsOf(f, level);
    var plan := Plan(h.columns, level);
    LangStepsMembers(langs, 0, level);
    forall c | c in f.columns && Untouched1b(Lower(c), langs, level)
      ensures var r := Refactored(f, level).value;
        Lower(c) in r.columns && forall k :: 0 <= k < |f.rows| ==> Cell(r.rows[k], Lower(c)) == Cell(f.rows[k], c)
    {
      var p :| 0 <= p < |f.columns| && f.columns[p] == c;
      assert h.columns[p] == Lower(c);
      forall t | t in plan ensures !Touches(t, Lower(c)) {
        var i :| 0 <= i < |langs| && InBlock(t, langs[i], i, level);
      }
      RunKeeps(h, plan, Lower(c));
    }
  }

  /** A name without upper-case letters. */
  predicate NoUpper(s: string) {
    forall i :: 0 <= i < |s| ==> !IsAsciiUpper(s[i])
  }

  lemma LowerOfNoUpper(s: string)
    requires NoUpper(s)
    ensures Lower(s) == s
  {
    assert forall i :: 0 <= i < |s| ==> Lower(s)[i] == s[i];
  }

  lemma NoUpperAppend(a: string, b: string)
    requires NoUpper(a) && NoUpper(b)
    ensures NoUpper(a + b)
  {
    forall i | 0 <= i < |a + b| ensures !IsAsciiUpper((a + b)[i]) {
      if i >= |a| {
        assert (a + b)[i] == b[i - |a|];
      }
    }
  }

  lemma IntToStringNoUpper(n: int)
    ensures NoUpper(IntToString(n))
  {
    var d := NatToString(if n < 0 then -n else n);
    assert NoUpper(d);
    if n < 0 {
      NoUpperAppend("-", d);
    }
  }

  /** The names the loop creates are lower-case. */
  lemma NewNamesLower(l: int, i: nat, j: nat)
    ensures Lower(NameColumn(l, i)) == NameColumn(l, i) && Lower(LangColumn(j)) == LangColumn(j)
  {
    IntToStringNoUpper(l);
    IntToStringNoUpper(i);
    IntToStringNoUpper(j);
    NoUpperAppend("adm", IntToString(l));
    NoUpperAppend(AdmStem(l), "_");
    NoUpperAppend("name", IndexSuffix(i));
    NoUpperAppend(AdmStem(l) + "_", "name" + IndexSuffix(i));
    NoUpperAppend("lang", IndexSuffix(j));
    LowerOfNoUpper(NameColumn(l, i));
    LowerOfNoUpper(LangColumn(j));
  }

  /** Every column name after the refactor is lower-case. */
  lemma RefactorLowerCase(f: Frame, level: int)
    requires Valid(f) && Refactored(f, level).Ok?
    ensures forall c :: c in Refactored(f, level).value.columns ==> Lower(c) == c
  {
    var h := Lowered(f).value;
    var langs := LangsOf(f, level);
    var plan := Plan(h.columns, level);
    RunColumns(h, plan);
    forall c | c in Refactored(f, level).value.columns ensures Lower(c) == c {
      if c in h.columns {
        var p :| 0 <= p < |h.columns| && h.columns[p] == c;
        LowerNormal(f.columns[p]);
      } else {
        var t :| t in plan && Creates(t, c);
        PlanCreated(t, c, langs, level);
      }
    }
  }

  /** Lower-casing a layer whose names are all lower-case changes nothing. */
  lemma LoweredIdentity(f: Frame)
    requires Valid(f) && forall c :: c in f.columns ==> Lower(c) == c
    ensures Lowered(f) == Ok(f)
  {
    assert LowerAll(f.columns) == f.columns;
    var g := Lowered(f).value;
    forall i | 0 <= i < |f.rows| ensures g.rows[i] == f.rows[i] {
      forall k | 0 <= k < |f.columns| ensures Cell(g.rows[i], f.columns[k]) == Cell(f.rows[i], f.columns[k]) {
        assert Lower(f.columns[k]) == f.columns[k];
      }
      RowsAgree(g.rows[i], f.rows[i], f.columns);
    }
    assert g.rows == f.rows;
  }

  /** Two rows over the same columns with the same cells are the same row. */
  lemma RowsAgree(x: Row, y: Row, cols: seq<string>)
    requires x.Keys == ColumnSet(cols) && y.Keys == ColumnSet(cols)
    requires forall k :: 0 <= k < |cols| ==> Cell(x, cols[k]) == Cell(y, cols[k])
    ensures x == y
  {
    forall c | c in x ensures x[c] == y[c] {
      var k :| 0 <= k < |cols| && cols[k] == c;
    }
  }

  /** The names the loop creates are never language columns themselves. */
  lemma NameColumnNotLang(l: int, i: nat, level: int)
    ensures !IsLangColumn(NameColumn(l, i), level)
  {
    if StartsWith(NameColumn(l, i), AdmStem(level) + "_") {
      NameSuffix(l, i, level);
    }
  }

  /** What follows a level's stem in a new name is `name…`, four
      characters or more. */
  lemma NameSuffix(l: int, i: nat, level: int)
    requires StartsWith(NameColumn(l, i), AdmStem(level) + "_")
    ensures |Suffix(NameColumn(l, i), level)| >= 4
  {
    var stem, name := AdmStem(level), "name" + IndexSuffix(i);
    var c, rest := NameColumn(l, i), Suffix(NameColumn(l, i), level);
    assert c == stem + "_" + rest by {
      assert c == c[..|stem| + 1] + rest;
    }
    StemsAgree(AdmStem(l), name, stem, rest);
  }

  lemma LangColumnNotLang(j: nat, level: int)
    ensures !IsLangColumn(LangColumn(j), level)
  {
    var p := AdmStem(level) + "_";
    assert p[0] != LangColumn(j)[0];
  }

  /** A column the loop creates is lower-case and not a language column. */
  lemma PlanCreated(t: Step, c: string, langs: seq<string>, level: int)
    requires t in LangSteps(langs, 0, level) && Creates(t, c)
    ensures Lower(c) == c && !IsLangColumn(c, level)
  {
    LangStepsMembers(langs, 0, level);
    var i :| 0 <= i < |langs| && InBlock(t, langs[i], i, level);
    if t.SetLang? {
      NewNamesLower(0, 0, i);
      LangColumnNotLang(i, level);
    } else {
      var l :| 0 <= l <= level && t == RenameStep(langs[i], i, l);
      NewNamesLower(l, i, 0);
      NameColumnNotLang(l, i, level);
    }
  }

  /** No language column's two characters hold an underscore. */
  predicate NoUnderscoreCodes(cols: seq<string>, level: int) {
    forall c :: c in cols && IsLangColumn(c, level) ==> '_' !in Suffix(c, level)
  }

  /** A language column of a found language is the column its names are
      read from at the layer's own level. */
  lemma LangColumnIsOld(c: string, level: int)
    requires IsLangColumn(c, level) && '_' !in Suffix(c, level)
    ensures c == OldColumn(level, LangOf(c, level))
  {
    assert c == c[..|AdmStem(level)| + 1] + Suffix(c, level);
  }

  /** A language column of the lower-cased layer is renamed away. */
  lemma OldLangRenamed(f: Frame, level: int, c: string)
    requires Valid(f) && level >= 0 && Refactored(f, level).Ok?
    requires c in LowerAll(f.columns) && IsLangColumn(c, level) && '_' !in Suffix(c, level)
    ensures c !in Refactored(f, level).value.columns
  {
    var h := Lowered(f).value;
    var langs := LangsOf(f, level);
    GetLangsSpec(h.columns, level);
    var x := LangOf(c, level);
    assert x in langs;
    var i :| 0 <= i < |langs| && langs[i] == x;
    LangColumnIsOld(c, level);
    LangStepsMembers(langs, 0, level);
    assert InBlock(RenameStep(x, i, level), x, i, level);
    PlanWellFormed(h.columns, level);
    RunRenames(h, Plan(h.columns, level), c, NameColumn(level, i));
  }

  /** When no code holds an underscore, the refactored layer has no
      language column of its level left. */
  lemma NoLangColumnLeft(f: Frame, level: int)
    requires Valid(f) && level >= 0 && Refactored(f, level).Ok?
    requires NoUnderscoreCodes(LowerAll(f.columns), level)
    ensures forall c :: c in Refactored(f, level).value.columns ==> !IsLangColumn(c, level)
  {
    var h := Lowered(f).value;
    var plan := Plan(h.columns, level);
    RunColumns(h, plan);
    forall c | c in Refactored(f, level).value.columns ensures !IsLangColumn(c, level) {
      if c in h.columns {
        if IsLangColumn(c, level) {
          OldLangRenamed(f, level, c);
        }
      } else {
        var t :| t in plan && Creates(t, c);
        PlanCreated(t, c, LangsOf(f, level), level);
      }
    }
  }

  /** Columns of which none is a language column carry no language. */
  lemma {:induction false} NoLangs(cols: seq<string>, level: int)
    requires forall c :: c in cols ==> !IsLangColumn(c, level)
    ensures Langs(cols, level) == []
  {
    if cols != [] {
      assert cols[0] in cols;
      NoLangs(cols[1..], level);
    }
  }

  /** Refactoring a refactored layer again changes nothing, provided no
      language column's code holds an underscore. */
  lemma RefactorIdempotent(f: Frame, level: int)
    requires Valid(f) && level >= 0 && Refactored(f, level).Ok?
    requires NoUnderscoreCodes(LowerAll(f.columns), level)
    ensures Refactored(Refactored(f, level).value, level) == Refactored(f, level)
  {
    var r := Refactored(f, level).value;
    RefactorLowerCase(f, level);
    LoweredIdentity(r);
    NoLangColumnLeft(f, level);
    NoLangs(r.columns, level);
    assert Plan(r.columns, level) == [];
  }

  /** Running two lists of steps one after the other is running their
      concatenation. */
  lemma {:induction false} RunAppend(g: Frame, a: seq<Step>, b: seq<Step>)
    requires Valid(g)
    ensures Run(g, a).Err? ==> Run(g, a + b) == Err(Run(g, a).error)
    ensures Run(g, a).Ok? ==> Run(g, a + b) == Run(Run(g, a).value, b)
    decreases |a|
  {
    if a == [] {
      assert a + b == b;
    } else {
      assert a + b == [a[0]] + (a[1..] + b);
      RunCons(g, a[0], a[1..] + b);
      if RunStep(g, a[0]).Ok? {
        RunAppend(RunStep(g, a[0]).value, a[1..], b);
      }
    }
  }

  /** The renames at a level are the rename of that level, then those
      below it. */
  lemma RenameTurn(g: Frame, lang: string, index: nat, l: int)
    requires Valid(g) && l >= 0
    ensures var s := RunStep(g, RenameStep(lang, index, l));
      && (s.Err? ==> Run(g, LevelSteps(lang, index, l)) == Err(s.error))
      && (s.Ok? ==> Run(g, LevelSteps(lang, index, l)) == Run(s.value, LevelSteps(lang, index, l - 1)))
  {
    RunCons(g, RenameStep(lang, index, l), LevelSteps(lang, index, l - 1));
  }

  /** The inner loop of `refactor_columns`: one language's renames at
      every level from `level` down to 0. */
  method RenameLevels(g0: Frame, lang: string, index: nat, level: int) returns (r: Result<Frame>)
    requires Valid(g0)
    ensures r == Run(g0, LevelSteps(lang, index, level))
  {
    var g := g0;
    var l := level;
    while l >= 0
      invariant Valid(g)
      invariant Run(g0, LevelSteps(lang, index, level)) == Run(g, LevelSteps(lang, index, l))
      decreases l
    {
      RenameTurn(g, lang, index, l);
      var a := OldColumn(l, lang);
      if a in g.columns {
        var renamed := Rename(g, map[a := NameColumn(l, index)]);
        if renamed.Err? {
          return Err(renamed.error);
        }
        g := renamed.value;
      }
      l := l - 1;
    }
    return Ok(g);
  }

  /** A language's turn: its renames, then its code column, then the
      turns after it. */
  lemma LangTurn(g: Frame, langs: seq<string>, index: nat, level: int)
    requires Valid(g) && index < |langs|
    ensures var r := Run(g, LevelSteps(langs[index], index, level));
      && (r.Err? ==> Run(g, LangSteps(langs, index, level)) == Err(r.error))
      && (r.Ok? ==> (Run(g, LangSteps(langs, index, level)) ==
            Run(Fill(r.value, LangColumn(index), Str(langs[index])), LangSteps(langs, index + 1, level))))
  {
    var renames, s := LevelSteps(langs[index], index, level), SetLang(LangColumn(index), langs[index]);
    var rest := LangSteps(langs, index + 1, level);
    assert LangSteps(langs, index, level) == renames + ([s] + rest);
    RunAppend(g, renames, [s] + rest);
    if Run(g, renames).Ok? {
      RunCons(Run(g, renames).value, s, rest);
    }
  }

  /** `refactor_columns(gdf, admin_level)`: lower-case the names, then for
      each language in turn rename its columns at every level from the
      layer's own down to 0, and set its code column. */
  method RefactorColumns(f: Frame, level: int) returns (r: Result<Frame>)
    requires Valid(f)
    ensures r == Refactored(f, level)
  {
    var h := Lowered(f);
    if h.Err? {
      return Err(h.error);
    }
    var g := h.value;
    var langs := GetLangs(g.columns, level);
    for index := 0 to |langs|
      invariant Valid(g)
      invariant Refactored(f, level) == Run(g, LangSteps(langs, index, level))
    {
      LangTurn(g, langs, index, level);
      var renamed := RenameLevels(g, langs[index], index, level);
      if renamed.Err? {
        return Err(renamed.error);
      }
      g := Fill(renamed.value, LangColumn(index), Str(langs[index]));
    }
    return Ok(g);
  }

  // ---------------------------------------------------------------------
  // One country (app/level_1b.py, the body of main's loop)
  // ---------------------------------------------------------------------

  /** The country's level-1a file of one level. */
  function Level1aPath(iso3: string, level: int): Path {
    Path(L1aDir, FileName(iso3, level))
  }

  /** The refactored layer of every level, up to the deepest, whose
      level-1a file exists. */
  function Level1bResults(store: Store, iso3: string): map<int, Result<Frame>>
    requires ValidStore(store)
  {
    map l | 0 <= l <= AdminLevelMax && Level1aPath(iso3, l) in store :: Refactored(store[Level1aPath(iso3, l)], l)
  }

  /** What level 1b writes for one country. */
  function Level1bRun(store: Store, iso3: string): Result<seq<Output>>
    requires ValidStore(store)
  {
    WriteLevels(Level1bResults(store, iso3), iso3, AdminLevelMax, "1b")
  }

  /** The country's run succeeds exactly when every level-1a file of the
      country refactors without error. */
  lemma Level1bOk(store: Store, iso3: string)
    requires ValidStore(store)
    ensures Level1bRun(store, iso3).Ok? <==>
      forall l :: 0 <= l <= AdminLevelMax && Level1aPath(iso3, l) in store ==> Refactored(store[Level1aPath(iso3, l)], l).Ok?
  {
    var res := Level1bResults(store, iso3);
    WriteLevelsOk(res, iso3, AdminLevelMax, "1b");
    assert forall l :: l in res <==> 0 <= l <= AdminLevelMax && Level1aPath(iso3, l) in store;
  }

  /** Which levels have a result, and what it is. */
  lemma Level1bResultsAt(store: Store, iso3: string, l: int)
    requires ValidStore(store)
    ensures l in Level1bResults(store, iso3) <==> 0 <= l <= AdminLevelMax && Level1aPath(iso3, l) in store
    ensures l in Level1bResults(store, iso3) ==>
      Level1bResults(store, iso3)[l] == Refactored(store[Level1aPath(iso3, l)], l)
  {
  }

  /** One country of `main`: every level from the deepest down, each whose
      level-1a file exists refactored and written. */
  method Level1bCountry(store: Store, iso3: string) returns (r: Result<seq<Output>>)
    requires ValidStore(store)
    ensures r == Level1bRun(store, iso3)
  {
    ghost var res := Level1bResults(store, iso3);
    ghost var total := WriteLevels(res, iso3, AdminLevelMax, "1b");
    var outs: seq<Output> := [];
    var l := AdminLevelMax;
    PrependNothing(total);
    while l >= 0
      invariant -1 <= l <= AdminLevelMax
      invariant total == Prepend(outs, WriteLevels(res, iso3, l, "1b"))
      decreases l
    {
      var p := Level1aPath(iso3, l);
      var here: seq<Output> := [];
      Level1bResultsAt(store, iso3, l);
      if p in store {
        var g := RefactorColumns(store[p], l);
        WriteLevelsTurn(res, iso3, l, "1b", outs, if g.Ok? then [ToParquet(g.value, iso3, l, "1b")] else []);
        if g.Err? {
          return Err(g.error);
        }
        here := [ToParquet(g.value, iso3, l, "1b")];
      } else {
        WriteLevelsTurn(res, iso3, l, "1b", outs, here);
      }
      outs := outs + here;
      l := l - 1;
    }
    assert outs + [] == outs;
    return Ok(outs);
  }
}
