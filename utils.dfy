/** Helpers shared by the stages: the per-country, per-level file name,
    reading from the first source that has a file, writing into a
    processing level's directory, the choice of the equal-area grid and the
    lookup of a country's official short name. */
module Utils {
  import opened Text
  import opened Frames
  import opened Config

  // ---------------------------------------------------------------------
  // File names
  // ---------------------------------------------------------------------

  /** `f"{iso3.lower()}_adm{level}.parquet"`, the name every stage reads
      and writes. */
  function FileName(iso3: string, level: int): string {
    Lower(iso3) + "_adm" + IntToString(level) + ".parquet"
  }

  /** `f"adm{level}"`, the stem of a level's column names. */
  function AdmStem(level: int): (stem: string)
    ensures '_' !in stem && ',' !in stem && |stem| >= 4 && stem[0] == 'a' && stem[1] == 'd'
  {
    ParseIntToString(level);
    IntToStringSign(level);
    "adm" + IntToString(level)
  }

  /** `f"adm{level}_pcode"`, a level's P-code column after level 1b. */
  function AdmPcode(level: int): (c: string)
    ensures |c| > 6 && c[0] == 'a' && c[1] == 'd' && c != GeometryColumn
  {
    AdmStem(level) + "_pcode"
  }

  /** Different levels have different stems. */
  lemma AdmStemInjective(l: int, m: int)
    requires AdmStem(l) == AdmStem(m)
    ensures l == m
  {
    assert AdmStem(l)[3..] == IntToString(l);
    assert AdmStem(m)[3..] == IntToString(m);
    IntToStringInjective(l, m);
  }

  /** A column name starts with `f"adm{level}_"` for one level at most. */
  lemma AdmStemPrefixUnique(c: string, a: int, b: int)
    requires StartsWith(c, AdmStem(a) + "_") && StartsWith(c, AdmStem(b) + "_")
    ensures a == b
  {
    UnderscorePrefix(c, AdmStem(a), AdmStem(b));
    AdmStemInjective(a, b);
  }

  /** Two prefixes free of `_`, each followed by `_` in the same string,
      are the same. */
  lemma UnderscorePrefix(c: string, sa: string, sb: string)
    requires '_' !in sa && '_' !in sb
    requires StartsWith(c, sa + "_") && StartsWith(c, sb + "_")
    ensures sa == sb
  {
    assert forall k :: 0 <= k < |sa| ==> c[k] == sa[k] && c[k] != '_';
    assert forall k :: 0 <= k < |sb| ==> c[k] == sb[k] && c[k] != '_';
    assert c[|sa|] == '_' && c[|sb|] == '_';
    assert |sa| == |sb|;
    assert sa == c[..|sa|] == sb;
  }

  /** Reads a decimal integer, with an optional leading minus sign. */
  function ParseInt(s: string): Option<int> {
    if s != [] && s[0] == '-' then
      if |s| > 1 && AllDigits(s[1..]) then var n: int := ParseNat(s[1..]); Some(-n) else None
    else if s != [] && AllDigits(s) then Some(ParseNat(s))
    else None
  }

  lemma ParseIntToString(n: int)
    ensures ParseInt(IntToString(n)) == Some(n)
    ensures '_' !in IntToString(n) && ',' !in IntToString(n)
  {
    if n < 0 {
      var d := NatToString(-n);
      assert IntToString(n)[1..] == d;
      ParseNatToString(-n);
    } else {
      assert IsDigit(NatToString(n)[0]);
      ParseNatToString(n);
    }
  }

  /** The position of the last occurrence of a character. */
  function LastIndex(s: string, c: char): (k: Option<nat>)
    ensures k.None? <==> c !in s
    ensures k.Some? ==> k.value < |s| && s[k.value] == c && c !in s[k.value + 1..]
  {
    if s == [] then None
    else if s[|s| - 1] == c then Some(|s| - 1)
    else
      var k := LastIndex(s[..|s| - 1], c);
      assert s == s[..|s| - 1] + [s[|s| - 1]];
      if k.Some? then
        assert s[k.value + 1..] == s[..|s| - 1][k.value + 1..] + [s[|s| - 1]];
        k
      else k
  }

  lemma {:induction false} LastIndexAfter(x: string, c: char, y: string)
    requires c !in y
    ensures LastIndex(x + [c] + y, c) == Some(|x|)
    decreases |y|
  {
    var s := x + [c] + y;
    if y == [] {
      assert s[|s| - 1] == c;
    } else {
      var y' := y[..|y| - 1];
      assert s[..|s| - 1] == x + [c] + y';
      assert s[|s| - 1] == y[|y| - 1] != c;
      LastIndexAfter(x, c, y');
    }
  }

  /** Takes a file name apart into its lower-cased country code and level. */
  function ParseFileName(name: string): Option<(string, int)> {
    if |name| < 8 || name[|name| - 8..] != ".parquet" then None
    else
      var stem := name[..|name| - 8];
      match LastIndex(stem, '_')
      case None => None
      case Some(k) =>
        var tail := stem[k + 1..];
        if |tail| >= 3 && tail[..3] == "adm" then
          match ParseInt(tail[3..])
          case Some(l) => Some((stem[..k], l))
          case None => None
        else None
  }

  /** A file name determines its country code and level: reading the name
      back gives them. */
  lemma FileNameRoundTrip(iso3: string, level: int)
    ensures ParseFileName(FileName(iso3, level)) == Some((Lower(iso3), level))
  {
    var num := IntToString(level);
    ParseIntToString(level);
    var name := FileName(iso3, level);
    var stem := Lower(iso3) + "_adm" + num;
    assert name == stem + ".parquet";
    assert name[..|name| - 8] == stem;
    assert name[|name| - 8..] == ".parquet";
    assert stem == Lower(iso3) + ['_'] + ("adm" + num);
    assert '_' !in "adm" + num;
    LastIndexAfter(Lower(iso3), '_', "adm" + num);
    var tail := stem[|Lower(iso3)| + 1..];
    assert tail == "adm" + num;
    assert tail[3..] == num;
    assert stem[..|Lower(iso3)|] == Lower(iso3);
  }

  /** Two countries or two levels never share a file. */
  lemma FileNameInjective(a: string, l: int, b: string, m: int)
    requires FileName(a, l) == FileName(b, m)
    ensures Lower(a) == Lower(b) && l == m
  {
    FileNameRoundTrip(a, l);
    FileNameRoundTrip(b, m);
  }

  /** A country's files of two different levels have different names. */
  lemma FileNamesDiffer(iso3: string, l: int, m: int)
    requires l != m
    ensures FileName(iso3, l) != FileName(iso3, m)
  {
    if FileName(iso3, l) == FileName(iso3, m) {
      FileNameInjective(iso3, l, iso3, m);
    }
  }

  /** Files named for one country and pairwise different levels are at
      pairwise distinct paths. */
  lemma NamesDistinct(outs: seq<Output>, iso3: string, level: int)
    requires forall j :: 0 <= j < |outs| ==> outs[j].path.name == FileName(iso3, level - j)
    ensures forall j, k :: 0 <= j < k < |outs| ==> outs[j].path != outs[k].path
  {
    forall j, k | 0 <= j < k < |outs| ensures outs[j].path != outs[k].path {
      FileNamesDiffer(iso3, level - j, level - k);
      assert outs[j].path.name != outs[k].path.name;
    }
  }

  // ---------------------------------------------------------------------
  // Reading and writing
  // ---------------------------------------------------------------------

  /** `inputs / source / name`. */
  function SourcePath(source: string, name: string): Path {
    Path(InputsDir + "/" + source, name)
  }

  /** The file of the first source, in list order, that has the file. */
  function FirstSource(store: Store, sources: seq<string>, name: string): Option<Frame> {
    if sources == [] then None
    else
      var p := SourcePath(sources[0], name);
      if p in store then Some(store[p]) else FirstSource(store, sources[1..], name)
  }

  /** There is no file exactly when no source has it; otherwise it is the
      file of a source that has it, and no earlier source has it. */
  lemma {:induction false} FirstSourceChoice(store: Store, sources: seq<string>, name: string)
    ensures var r := FirstSource(store, sources, name);
      && (r.None? <==> forall i :: 0 <= i < |sources| ==> SourcePath(sources[i], name) !in store)
      && (r.Some? ==> exists i :: (0 <= i < |sources| && SourcePath(sources[i], name) in store
            && r.value == store[SourcePath(sources[i], name)]
            && forall j :: 0 <= j < i ==> SourcePath(sources[j], name) !in store))
  {
    if sources != [] && SourcePath(sources[0], name) !in store {
      var tail := sources[1..];
      FirstSourceChoice(store, tail, name);
      assert forall i :: 1 <= i < |sources| ==> sources[i] == tail[i - 1];
      var r := FirstSource(store, tail, name);
      if r.Some? {
        var i :| 0 <= i < |tail| && SourcePath(tail[i], name) in store
          && r.value == store[SourcePath(tail[i], name)]
          && forall j :: 0 <= j < i ==> SourcePath(tail[j], name) !in store;
        assert SourcePath(sources[i + 1], name) in store;
      }
    }
  }

  /** `read_parquet(sources, iso3, level)`: the file from the first source
      that has it, or None. */
  method ReadParquet(store: Store, sources: seq<string>, iso3: string, level: int) returns (r: Option<Frame>)
    ensures r == FirstSource(store, sources, FileName(iso3, level))
  {
    var name := FileName(iso3, level);
    for k := 0 to |sources|
      invariant FirstSource(store, sources, name) == FirstSource(store, sources[k..], name)
    {
      var p := SourcePath(sources[k], name);
      if p in store {
        return Some(store[p]);
      }
      assert sources[k..][1..] == sources[k + 1..];
    }
    return None;
  }

  /** `to_parquet(gdf, iso3, level, processing)`: the file written into the
      processing level's directory, under the name that reads back as the
      country and level. */
  function ToParquet(f: Frame, iso3: string, level: int, processing: string): (o: Output)
    requires processing in ProcessingLevels
    ensures o.frame == f && o.path.dir == ProcessingLevels[processing] && o.path.name == FileName(iso3, level)
  {
    Output(Path(ProcessingLevels[processing], FileName(iso3, level)), f)
  }

  /** What a run returns once some files are already written: the failure
      as it is, or those files followed by the run's own. */
  function Prepend(outs: seq<Output>, r: Result<seq<Output>>): Result<seq<Output>> {
    if r.Err? then r else Ok(outs + r.value)
  }

  lemma PrependNothing(r: Result<seq<Output>>)
    ensures Prepend([], r) == r
  {
    if r.Ok? { assert [] + r.value == r.value; }
  }

  lemma PrependTwice(outs: seq<Output>, more: seq<Output>, r: Result<seq<Output>>)
    ensures Prepend(outs, Prepend(more, r)) == Prepend(outs + more, r)
  {
    if r.Ok? { assert outs + (more + r.value) == (outs + more) + r.value; }
  }

  /** Runs one after another, as a loop over countries does: the first
      failure, or every run's files in order. */
  function Chain(vs: seq<Result<seq<Output>>>): Result<seq<Output>>
    decreases |vs|
  {
    if vs == [] then Ok([])
    else
      var here :- vs[0];
      Prepend(here, Chain(vs[1..]))
  }

  /** The chain succeeds exactly when no run fails. */
  lemma {:induction false} ChainOk(vs: seq<Result<seq<Output>>>)
    ensures Chain(vs).Ok? <==> forall i :: 0 <= i < |vs| ==> vs[i].Ok?
    decreases |vs|
  {
    if vs != [] {
      ChainOk(vs[1..]);
      assert forall i :: 1 <= i < |vs| ==> vs[i] == vs[1..][i - 1];
    }
  }

  /** One turn of a loop over the runs. */
  lemma ChainTurn(vs: seq<Result<seq<Output>>>, i: int, outs: seq<Output>)
    requires 0 <= i < |vs|
    ensures vs[i].Err? ==> Prepend(outs, Chain(vs[i..])) == Err(vs[i].error)
    ensures vs[i].Ok? ==> Prepend(outs, Chain(vs[i..])) == Prepend(outs + vs[i].value, Chain(vs[i + 1..]))
  {
    assert vs[i..][0] == vs[i] && vs[i..][1..] == vs[i + 1..];
    if vs[i].Ok? {
      PrependTwice(outs, vs[i].value, Chain(vs[i + 1..]));
    }
  }

  /** On success a file comes from some run, and every run's files are
      among the files. */
  lemma {:induction false} ChainFiles(vs: seq<Result<seq<Output>>>, outs: seq<Output>)
    requires Chain(vs) == Ok(outs)
    ensures forall o :: o in outs ==> exists i :: 0 <= i < |vs| && vs[i].Ok? && o in vs[i].value
    ensures forall i, o :: 0 <= i < |vs| && vs[i].Ok? && o in vs[i].value ==> o in outs
    decreases |vs|
  {
    if vs != [] {
      var here, rest := vs[0].value, Chain(vs[1..]).value;
      ChainFiles(vs[1..], rest);
      assert outs == here + rest;
      forall o | o in outs ensures exists i :: 0 <= i < |vs| && vs[i].Ok? && o in vs[i].value {
        if o !in here {
          var i :| 0 <= i < |vs[1..]| && vs[1..][i].Ok? && o in vs[1..][i].value;
          assert vs[i + 1] == vs[1..][i];
        }
      }
      forall i, o | 0 <= i < |vs| && vs[i].Ok? && o in vs[i].value ensures o in outs {
        if i > 0 {
          assert vs[i] == vs[1..][i - 1];
        }
      }
    }
  }

  /** The walk of a stage's `main` down the levels, from `level` to 0,
      writing under `processing` the result of each level that `res`
      holds, finest first; the first failure ends the walk. */
  function WriteLevels(res: map<int, Result<Frame>>, iso3: string, level: int, processing: string)
    : Result<seq<Output>>
    requires processing in ProcessingLevels
    decreases level
  {
    if level < 0 then Ok([])
    else if level in res then
      var g :- res[level];
      Prepend([ToParquet(g, iso3, level, processing)], WriteLevels(res, iso3, level - 1, processing))
    else WriteLevels(res, iso3, level - 1, processing)
  }

  /** One level of the walk: skipped without a result, the end of the
      walk at a failure, its file followed by the levels below otherwise. */
  lemma WriteLevelsStep(res: map<int, Result<Frame>>, iso3: string, level: int, processing: string)
    requires processing in ProcessingLevels && level >= 0
    ensures level !in res ==>
      WriteLevels(res, iso3, level, processing) == WriteLevels(res, iso3, level - 1, processing)
    ensures level in res && res[level].Err? ==>
      WriteLevels(res, iso3, level, processing) == Err(res[level].error)
    ensures level in res && res[level].Ok? ==>
      WriteLevels(res, iso3, level, processing) ==
        Prepend([ToParquet(res[level].value, iso3, level, processing)], WriteLevels(res, iso3, level - 1, processing))
  {
  }

  /** One turn of a loop that walks the levels: after the files `outs`
      already written, level `level` either ends the walk with its
      failure or adds the files `here` and passes on to the level below. */
  lemma WriteLevelsTurn(res: map<int, Result<Frame>>, iso3: string, level: int, processing: string,
                        outs: seq<Output>, here: seq<Output>)
    requires processing in ProcessingLevels && level >= 0
    requires level !in res ==> here == []
    requires level in res && res[level].Ok? ==> here == [ToParquet(res[level].value, iso3, level, processing)]
    ensures level in res && res[level].Err? ==>
      Prepend(outs, WriteLevels(res, iso3, level, processing)) == Err(res[level].error)
    ensures !(level in res && res[level].Err?) ==>
      Prepend(outs, WriteLevels(res, iso3, level, processing)) == Prepend(outs + here, WriteLevels(res, iso3, level - 1, processing))
  {
    WriteLevelsStep(res, iso3, level, processing);
    PrependTwice(outs, here, WriteLevels(res, iso3, level - 1, processing));
    if level !in res {
      assert outs + here == outs;
    }
  }

  /** The file written for a level: that level's result, under the
      level's name in the processing level's directory. */
  predicate LevelOutput(res: map<int, Result<Frame>>, iso3: string, processing: string, o: Output, l: int)
    requires processing in ProcessingLevels
  {
    l in res && res[l] == Ok(o.frame) && o.path == Path(ProcessingLevels[processing], FileName(iso3, l))
  }

  /** The walk succeeds exactly when no level's result is a failure. */
  lemma {:induction false} WriteLevelsOk(res: map<int, Result<Frame>>, iso3: string, level: int, processing: string)
    requires processing in ProcessingLevels
    ensures WriteLevels(res, iso3, level, processing).Ok? <==>
      forall l :: 0 <= l <= level && l in res ==> res[l].Ok?
    decreases level
  {
    if level >= 0 {
      WriteLevelsOk(res, iso3, level - 1, processing);
    }
  }

  /** The levels from `level` down to 0 that have a result, finest first. */
  function ResultLevels(res: map<int, Result<Frame>>, level: int): seq<int>
    decreases level
  {
    if level < 0 then [] else (if level in res then [level] else []) + ResultLevels(res, level - 1)
  }

  /** These are exactly the levels from `level` down to 0 that have a
      result, in strictly decreasing order. */
  lemma {:induction false} ResultLevelsSpec(res: map<int, Result<Frame>>, level: int)
    ensures forall l :: l in ResultLevels(res, level) <==> 0 <= l <= level && l in res
    ensures forall j, k :: 0 <= j < k < |ResultLevels(res, level)| ==> ResultLevels(res, level)[j] > ResultLevels(res, level)[k]
    decreases level
  {
    if level >= 0 {
      var rest := ResultLevels(res, level - 1);
      ResultLevelsSpec(res, level - 1);
      if level in res {
        var ls := ResultLevels(res, level);
        assert ls == [level] + rest;
        forall j, k | 0 <= j < k < |ls| ensures ls[j] > ls[k] {
          assert ls[k] == rest[k - 1] && ls[k] in rest;
          if j > 0 {
            assert ls[j] == rest[j - 1];
          }
        }
      }
    }
  }

  /** Pairing files with levels survives putting one more pair in front. */
  lemma LevelOutputsCons(res: map<int, Result<Frame>>, iso3: string, processing: string,
                         o: Output, level: int, rest: seq<Output>, lrest: seq<int>)
    requires processing in ProcessingLevels
    requires LevelOutput(res, iso3, processing, o, level)
    requires |rest| == |lrest|
    requires forall j :: 0 <= j < |rest| ==> LevelOutput(res, iso3, processing, rest[j], lrest[j])
    ensures forall j :: 0 <= j < |rest| + 1 ==> LevelOutput(res, iso3, processing, ([o] + rest)[j], ([level] + lrest)[j])
  {
    forall j | 0 <= j < |rest| + 1 ensures LevelOutput(res, iso3, processing, ([o] + rest)[j], ([level] + lrest)[j]) {
      if j > 0 {
        assert ([o] + rest)[j] == rest[j - 1] && ([level] + lrest)[j] == lrest[j - 1];
      }
    }
  }

  /** The walk's files: the `j`-th is the result of the `j`-th level that
      has one, under that level's name. */
  lemma {:induction false} WriteLevelsFiles(res: map<int, Result<Frame>>, iso3: string, level: int, processing: string,
                                            outs: seq<Output>)
    requires processing in ProcessingLevels
    requires WriteLevels(res, iso3, level, processing) == Ok(outs)
    ensures |outs| == |ResultLevels(res, level)|
    ensures forall j :: 0 <= j < |outs| ==> LevelOutput(res, iso3, processing, outs[j], ResultLevels(res, level)[j])
    decreases level
  {
    if level >= 0 {
      WriteLevelsStep(res, iso3, level, processing);
      var rest := WriteLevels(res, iso3, level - 1, processing).value;
      WriteLevelsFiles(res, iso3, level - 1, processing, rest);
      var ls, lrest := ResultLevels(res, level), ResultLevels(res, level - 1);
      if level in res {
        var o := ToParquet(res[level].value, iso3, level, processing);
        assert outs == [o] + rest && ls == [level] + lrest;
        LevelOutputsCons(res, iso3, processing, o, level, rest, lrest);
      } else {
        assert outs == rest && ls == lrest;
      }
    }
  }

  /** The walk writes no two files at the same path. */
  lemma WriteLevelsDistinct(res: map<int, Result<Frame>>, iso3: string, level: int, processing: string,
                            outs: seq<Output>)
    requires processing in ProcessingLevels
    requires WriteLevels(res, iso3, level, processing) == Ok(outs)
    ensures forall j, k :: 0 <= j < k < |outs| ==> outs[j].path != outs[k].path
  {
    var ls := ResultLevels(res, level);
    WriteLevelsFiles(res, iso3, level, processing, outs);
    ResultLevelsSpec(res, level);
    forall j, k | 0 <= j < k < |outs| ensures outs[j].path != outs[k].path {
      FileNamesDiffer(iso3, ls[j], ls[k]);
    }
  }

  // ---------------------------------------------------------------------
  // The finest level a directory holds
  // ---------------------------------------------------------------------

  /** The deepest level from `level` down to 0 whose file the directory
      holds, if any: the level at which the scan of a stage's `main`
      breaks. */
  function FinestIn(store: Store, dir: string, iso3: string, level: int): (r: Option<int>)
    decreases level
  {
    if level < 0 then None
    else if Path(dir, FileName(iso3, level)) in store then Some(level)
    else FinestIn(store, dir, iso3, level - 1)
  }

  /** The scan finds nothing exactly when no level has a file; what it
      finds has a file, and no finer level does. */
  lemma {:induction false} FinestInSpec(store: Store, dir: string, iso3: string, level: int)
    ensures var r := FinestIn(store, dir, iso3, level);
      && (r.None? <==> forall l :: 0 <= l <= level ==> Path(dir, FileName(iso3, l)) !in store)
      && (r.Some? ==> 0 <= r.value <= level && Path(dir, FileName(iso3, r.value)) in store)
      && (r.Some? ==> forall l :: r.value < l <= level ==> Path(dir, FileName(iso3, l)) !in store)
    decreases level
  {
    if level >= 0 && Path(dir, FileName(iso3, level)) !in store {
      FinestInSpec(store, dir, iso3, level - 1);
    }
  }

  /** The scan never reaches a level below one that has a file, so the
      file of such a level can be anything. */
  lemma {:induction false} FinestIgnoresCoarser(store: Store, dir: string, iso3: string, level: int,
                                                l: int, m: int, f: Frame)
    requires 0 <= l < m <= level && Path(dir, FileName(iso3, m)) in store
    ensures FinestIn(store[Path(dir, FileName(iso3, l)) := f], dir, iso3, level) == FinestIn(store, dir, iso3, level)
    decreases level
  {
    FileNamesDiffer(iso3, level, l);
    if Path(dir, FileName(iso3, level)) !in store {
      FinestIgnoresCoarser(store, dir, iso3, level - 1, l, m, f);
    }
  }

  /** The scan of `main`: levels from the deepest down, stopping at the
      first whose file exists. */
  method FindFinest(store: Store, dir: string, iso3: string) returns (r: Option<int>)
    ensures r == FinestIn(store, dir, iso3, AdminLevelMax)
  {
    var l := AdminLevelMax;
    while l >= 0
      invariant -1 <= l <= AdminLevelMax
      invariant FinestIn(store, dir, iso3, AdminLevelMax) == FinestIn(store, dir, iso3, l)
      decreases l
    {
      if Path(dir, FileName(iso3, l)) in store {
        return Some(l);
      }
      l := l - 1;
    }
    return None;
  }

  // ---------------------------------------------------------------------
  // Equal-area grid and country names
  // ---------------------------------------------------------------------

  const EaseNorth := 6931
  const EaseSouth := 6932
  const EaseGlobal := 6933

  /** The EASE grid for a latitude range: north when the range reaches 80°
      and stays in the northern hemisphere, south when it reaches −80° and
      stays in the southern one, global otherwise. Both bounds are
      inclusive. */
  function GetEpsgEase(minLat: real, maxLat: real): (epsg: int)
    ensures epsg == EaseNorth || epsg == EaseSouth || epsg == EaseGlobal
    ensures epsg == EaseNorth <==> maxLat >= 80.0 && minLat >= 0.0
    ensures epsg == EaseSouth <==> minLat <= -80.0 && maxLat <= 0.0
  {
    if maxLat >= 80.0 && minLat >= 0.0 then EaseNorth
    else if minLat <= -80.0 && maxLat <= 0.0 then EaseSouth
    else EaseGlobal
  }

  /** The grid for a layer's bounds. An empty layer has NaN bounds, which
      fail every comparison and so select the global grid. */
  function EaseForBounds(bounds: Option<(real, real)>): (epsg: int)
    ensures bounds.None? ==> epsg == EaseGlobal
    ensures bounds.Some? ==> epsg == GetEpsgEase(bounds.value.0, bounds.value.1)
  {
    match bounds
    case None => EaseGlobal
    case Some((lo, hi)) => GetEpsgEase(lo, hi)
  }

  /** The M49 table: one record per ISO3 code. */
  type M49 = map<string, map<string, Value>>

  /** `get_adm0_name(iso3, lang)`: the record's `{lang}_short` field when
      the country is known (KeyError if the record lacks it), else "". */
  function GetAdm0Name(m49: M49, iso3: string, lang: string): (r: Result<Value>)
    ensures iso3 !in m49 ==> r == Ok(Str(""))
    ensures iso3 in m49 ==> (r.Ok? <==> lang + "_short" in m49[iso3])
    ensures iso3 in m49 && r.Ok? ==> r.value == m49[iso3][lang + "_short"]
    ensures r.Err? ==> r.error == MissingColumn(lang + "_short")
  {
    if iso3 in m49 then
      var field := lang + "_short";
      if field in m49[iso3] then Ok(m49[iso3][field]) else Err(MissingColumn(field))
    else Ok(Str(""))
  }
}
