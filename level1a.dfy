/** Level 1a: the per-country fix rules, the automatic fixes every layer
    gets, the cleanup of the name columns, and the cascade of dissolves that
    writes one file per administrative level, from the finest level found
    down to the country outline. */
module Level1a {
  import opened Text
  import opened Frames
  import opened Dissolve
  import opened Config
  import opened Utils

  // ---------------------------------------------------------------------
  // The fix rules (app/level_1a.py, config_fixes)
  // ---------------------------------------------------------------------

  /** A country's entry in the fix-rule file; a key the entry lacks is
      None. Mappings keep the file's order. */
  datatype FixRules = FixRules(
    level: Option<int>,
    drop: Option<seq<string>>,
    duplicate: Option<seq<(string, string)>>,                // (new column, original column)
    rename: Option<map<string, string>>,
    title: Option<seq<string>>,
    replace: Option<seq<(string, seq<(string, string)>)>>,   // column -> (pattern, replacement)
    date: Option<string>,
    update: Option<string>)

  /** The entry of a country the file does not mention. */
  const NoRules := FixRules(None, None, None, None, None, None, None, None)

  /** A replacement pattern is never empty: the empty key means fill. */
  type Pattern = s: string | s != [] witness " "

  /** One elementary step of the rules. */
  datatype FixOp =
    | DropOp(columns: seq<string>)
    | DuplicateOp(target: string, source: string)
    | RenameOp(mapping: map<string, string>)
    | TitleOp(column: string)
    | FillOp(column: string, text: string)
    | ReplaceOp(column: string, pattern: Pattern, text: string)
    | DateOp(column: string, stamp: Option<string>)


  /** The rank of a step in the fixed order drop, duplicate, rename,
      title, replace, date, validOn. */
  function Stage(op: FixOp): nat {
    match op
    case DropOp(_) => 0
    case DuplicateOp(_, _) => 1
    case RenameOp(_) => 2
    case TitleOp(_) => 3
    case FillOp(_, _) => 4
    case ReplaceOp(_, _, _) => 4
    case DateOp(c, _) => if c == "date" then 5 else 6
  }

  function DuplicateSteps(pairs: seq<(string, string)>): (ops: seq<FixOp>)
    ensures |ops| == |pairs|
    ensures forall i :: 0 <= i < |ops| ==> ops[i] == DuplicateOp(pairs[i].0, pairs[i].1)
  {
    if pairs == [] then [] else [DuplicateOp(pairs[0].0, pairs[0].1)] + DuplicateSteps(pairs[1..])
  }

  function TitleSteps(columns: seq<string>): (ops: seq<FixOp>)
    ensures |ops| == |columns|
    ensures forall i :: 0 <= i < |ops| ==> ops[i] == TitleOp(columns[i])
  {
    if columns == [] then [] else [TitleOp(columns[0])] + TitleSteps(columns[1..])
  }

  /** The replace entry of one column: the key "" fills nulls with its
      value, any other key is a literal substring replacement. */
  function ReplaceOf(column: string, pair: (string, string)): (op: FixOp)
    ensures Stage(op) == 4
  {
    if pair.0 == "" then FillOp(column, pair.1) else ReplaceOp(column, pair.0, pair.1)
  }

  function ReplaceSteps(column: string, pairs: seq<(string, string)>): (ops: seq<FixOp>)
    ensures |ops| == |pairs|
    ensures forall i :: 0 <= i < |ops| ==> ops[i] == ReplaceOf(column, pairs[i])
  {
    if pairs == [] then [] else [ReplaceOf(column, pairs[0])] + ReplaceSteps(column, pairs[1..])
  }

  function ReplaceAllSteps(entries: seq<(string, seq<(string, string)>)>): (ops: seq<FixOp>)
    ensures forall i :: 0 <= i < |ops| ==> Stage(ops[i]) == 4
  {
    if entries == [] then []
    else ReplaceSteps(entries[0].0, entries[0].1) + ReplaceAllSteps(entries[1..])
  }

  function DropSteps(cfg: FixRules): seq<FixOp> {
    if cfg.drop.Some? then [DropOp(cfg.drop.value)] else []
  }

  function DuplicateStage(cfg: FixRules): seq<FixOp> {
    if cfg.duplicate.Some? then DuplicateSteps(cfg.duplicate.value) else []
  }

  function RenameSteps(cfg: FixRules): seq<FixOp> {
    if cfg.rename.Some? then [RenameOp(cfg.rename.value)] else []
  }

  function TitleStage(cfg: FixRules): seq<FixOp> {
    if cfg.title.Some? then TitleSteps(cfg.title.value) else []
  }

  function ReplaceStage(cfg: FixRules): seq<FixOp> {
    if cfg.replace.Some? then ReplaceAllSteps(cfg.replace.value) else []
  }

  /** The date and validOn steps, which always run. */
  function DateSteps(cfg: FixRules): seq<FixOp> {
    [DateOp("date", cfg.date), DateOp("validOn", cfg.update)]
  }

  /** The steps before the dates. */
  function PreSteps(cfg: FixRules): seq<FixOp> {
    DropSteps(cfg) + (DuplicateStage(cfg) + (RenameSteps(cfg) + (TitleStage(cfg) + ReplaceStage(cfg))))
  }

  /** The steps a country's rules stand for, in the order they are applied. */
  function Steps(cfg: FixRules): seq<FixOp> {
    PreSteps(cfg) + DateSteps(cfg)
  }

  /** Stages never decrease along a list of steps. */
  predicate Ordered(s: seq<FixOp>) {
    forall i, j :: 0 <= i < j < |s| ==> Stage(s[i]) <= Stage(s[j])
  }

  lemma OrderedAppend(a: seq<FixOp>, b: seq<FixOp>, n: nat)
    requires Ordered(a) && Ordered(b)
    requires forall x :: x in a ==> Stage(x) <= n
    requires forall y :: y in b ==> n <= Stage(y)
    ensures Ordered(a + b)
    ensures forall x :: x in a + b <==> x in a || x in b
  {
    forall i, j | 0 <= i < j < |a + b| ensures Stage((a + b)[i]) <= Stage((a + b)[j]) {
      if j < |a| {
      } else if i >= |a| {
        assert (a + b)[i] == b[i - |a|] && (a + b)[j] == b[j - |a|];
      } else {
        assert (a + b)[i] == a[i] && (a + b)[j] == b[j - |a|];
        assert a[i] in a && b[j - |a|] in b;
      }
    }
  }

  /** Every step of a part has the same stage. */
  predicate AllStage(s: seq<FixOp>, n: nat) {
    forall x :: x in s ==> Stage(x) == n
  }

  lemma PartStages(cfg: FixRules)
    ensures AllStage(DropSteps(cfg), 0) && AllStage(DuplicateStage(cfg), 1)
    ensures AllStage(RenameSteps(cfg), 2) && AllStage(TitleStage(cfg), 3)
    ensures AllStage(ReplaceStage(cfg), 4)
    ensures forall x :: x in DateSteps(cfg) ==> Stage(x) >= 5
  {
    var d4 := ReplaceStage(cfg);
    forall x | x in d4 ensures Stage(x) == 4 {
      var i :| 0 <= i < |d4| && d4[i] == x;
    }
  }

  /** The steps come in the fixed order drop, duplicate, rename, title,
      replace, date, validOn. */
  lemma StepsOrdered(cfg: FixRules)
    ensures Ordered(Steps(cfg))
  {
    var d0, d1, d2, d3, d4, d5 := DropSteps(cfg), DuplicateStage(cfg), RenameSteps(cfg),
      TitleStage(cfg), ReplaceStage(cfg), DateSteps(cfg);
    PartStages(cfg);
    var t3 := d3 + d4;
    assert Ordered(t3) && StagesFrom(t3, 3) by { OrderedAppend(d3, d4, 3); }
    var t2 := d2 + t3;
    assert Ordered(t2) && StagesFrom(t2, 2) by { OrderedAppend(d2, t3, 2); }
    var t1 := d1 + t2;
    assert Ordered(t1) && StagesFrom(t1, 1) by { OrderedAppend(d1, t2, 1); }
    var t0 := d0 + t1;
    assert Ordered(t0) && forall x :: x in t0 ==> Stage(x) <= 4 by { OrderedAppend(d0, t1, 0); }
    assert t0 == PreSteps(cfg);
    OrderedAppend(t0, d5, 5);
  }

  /** Every step of the list is at a stage from `n` to 4. */
  predicate StagesFrom(s: seq<FixOp>, n: nat) {
    forall x :: x in s ==> n <= Stage(x) <= 4
  }

  lemma InSteps(cfg: FixRules, op: FixOp)
    requires op in Steps(cfg)
    ensures op in DropSteps(cfg) || op in DuplicateStage(cfg) || op in RenameSteps(cfg)
      || op in TitleStage(cfg) || op in ReplaceStage(cfg) || op in DateSteps(cfg)
  {
  }

  /** Each step before the dates comes from a key the rules hold: drop
      and rename give one step each, with the rule's own argument. */
  lemma StepsFromKeys(cfg: FixRules)
    ensures forall op :: op in Steps(cfg) && Stage(op) == 0 ==> cfg.drop.Some? && op == DropOp(cfg.drop.value)
    ensures forall op :: op in Steps(cfg) && Stage(op) == 1 ==> cfg.duplicate.Some?
    ensures forall op :: op in Steps(cfg) && Stage(op) == 2 ==> cfg.rename.Some? && op == RenameOp(cfg.rename.value)
    ensures forall op :: op in Steps(cfg) && Stage(op) == 3 ==> cfg.title.Some?
    ensures forall op :: op in Steps(cfg) && Stage(op) == 4 ==> cfg.replace.Some?
  {
    PartStages(cfg);
    forall op | op in Steps(cfg)
      ensures Stage(op) == 0 ==> cfg.drop.Some? && op == DropOp(cfg.drop.value)
      ensures Stage(op) == 1 ==> cfg.duplicate.Some?
      ensures Stage(op) == 2 ==> cfg.rename.Some? && op == RenameOp(cfg.rename.value)
      ensures Stage(op) == 3 ==> cfg.title.Some?
      ensures Stage(op) == 4 ==> cfg.replace.Some?
    {
      InSteps(cfg, op);
    }
  }

  /** The date and validOn steps close the list, whatever the rules. */
  lemma StepsEndWithDates(cfg: FixRules)
    ensures var s := Steps(cfg);
      |s| >= 2 && s[|s| - 2] == DateOp("date", cfg.date) && s[|s| - 1] == DateOp("validOn", cfg.update)
  {
    var s := Steps(cfg);
    assert s[|s| - 2..] == DateSteps(cfg);
  }

  /** One step on a frame; a column it needs that is absent is a KeyError. */
  function Apply(f: Frame, op: FixOp, e: Engine): (r: Result<Frame>)
    requires Valid(f)
    ensures r.Ok? ==> Valid(r.value)
  {
    match op
    case DropOp(cs) => DropColumns(f, cs)
    case DuplicateOp(t, s) =>
      if s in f.columns then Ok(SetColumn(f, t, Column(f, s))) else Err(MissingColumn(s))
    case RenameOp(m) => Rename(f, m)
    case TitleOp(c) =>
      if c in f.columns then Ok(MapColumn(f, c, OnString(e.title))) else Err(MissingColumn(c))
    case FillOp(c, v) =>
      if c in f.columns then Ok(MapColumn(f, c, FillNull(Str(v)))) else Err(MissingColumn(c))
    case ReplaceOp(c, p, v) =>
      if c in f.columns then Ok(MapColumn(f, c, StrReplace(p, v))) else Err(MissingColumn(c))
    case DateOp(c, stamp) =>
      if stamp.Some? then Ok(Fill(f, c, Day(e.timestamp(stamp.value))))
      else if c in f.columns then Ok(MapColumn(f, c, e.parseDate))
      else Err(MissingColumn(c))
  }

  /** The steps applied in turn; the first error stops the rules. */
  function Interpret(f: Frame, ops: seq<FixOp>, e: Engine): (r: Result<Frame>)
    requires Valid(f)
    ensures r.Ok? ==> Valid(r.value)
    decreases |ops|
  {
    if ops == [] then Ok(f)
    else
      match Apply(f, ops[0], e)
      case Err(x) => Err(x)
      case Ok(g) => Interpret(g, ops[1..], e)
  }

  lemma {:induction false} InterpretAppend(f: Frame, a: seq<FixOp>, b: seq<FixOp>, e: Engine)
    requires Valid(f)
    ensures Interpret(f, a + b, e) ==
      if Interpret(f, a, e).Err? then Interpret(f, a, e) else Interpret(Interpret(f, a, e).value, b, e)
    decreases |a|
  {
    if a != [] {
      assert (a + b)[0] == a[0] && (a + b)[1..] == a[1..] + b;
      var r := Apply(f, a[0], e);
      assert Interpret(f, a + b, e) == if r.Err? then Err(r.error) else Interpret(r.value, a[1..] + b, e);
      assert Interpret(f, a, e) == if r.Err? then Err(r.error) else Interpret(r.value, a[1..], e);
      if r.Ok? {
        InterpretAppend(r.value, a[1..], b, e);
      }
    } else {
      assert a + b == b;
    }
  }

  /** Duplicating copies the original column's values into the new
      column and leaves every other column as it was. */
  lemma DuplicateCopies(f: Frame, target: string, source: string, e: Engine)
    requires Valid(f)
    ensures Apply(f, DuplicateOp(target, source), e).Ok? <==> source in f.columns
    ensures Apply(f, DuplicateOp(target, source), e).Ok? ==>
      var g := Apply(f, DuplicateOp(target, source), e).value;
      && target in g.columns && Column(g, target) == Column(f, source)
      && (forall c :: c in f.columns ==> c in g.columns)
      && (forall c :: c in f.columns && c != target ==> Column(g, c) == Column(f, c))
  {
    if source in f.columns {
      var g := SetColumn(f, target, Column(f, source));
      assert Apply(f, DuplicateOp(target, source), e) == Ok(g);
      assert target in g.columns;
      assert forall i :: 0 <= i < |g.rows| ==> Column(g, target)[i] == Column(f, source)[i];
      forall c | c in f.columns && c != target ensures Column(g, c) == Column(f, c) {
        assert forall i :: 0 <= i < |f.rows| ==> Column(g, c)[i] == Column(f, c)[i];
      }
    }
  }

  /** A replace entry touches its own column only: the key "" fills its
      nulls, any other key replaces substrings in its strings. */
  lemma ReplaceSemantics(f: Frame, column: string, pair: (string, string), e: Engine)
    requires Valid(f) && column in f.columns
    ensures Apply(f, ReplaceOf(column, pair), e).Ok?
    ensures var g := Apply(f, ReplaceOf(column, pair), e).value;
      && g.columns == f.columns && |g.rows| == |f.rows|
      && (forall i, c :: 0 <= i < |f.rows| && c in f.columns && c != column ==> g.rows[i][c] == f.rows[i][c])
      && (forall i :: 0 <= i < |f.rows| ==>
            (g.rows[i][column] ==
              if pair.0 == "" then (if f.rows[i][column].Null? then Str(pair.1) else f.rows[i][column])
              else if f.rows[i][column].Str? then Str(ReplaceAll(f.rows[i][column].s, pair.0, pair.1))
              else Null))
  {
  }

  /** Two steps in turn. */
  lemma TwoSteps(h: Frame, op0: FixOp, op1: FixOp, e: Engine)
    requires Valid(h)
    ensures var r0 := Apply(h, op0, e);
      Interpret(h, [op0, op1], e) == if r0.Err? then Err(r0.error) else Apply(r0.value, op1, e)
  {
    assert [op0, op1][1..] == [op1];
    var r0 := Apply(h, op0, e);
    if r0.Ok? {
      assert Interpret(r0.value, [op1], e) == Apply(r0.value, op1, e);
    }
  }

  /** A date step on its own: the column is there afterwards, every other
      column keeps its values, and a configured date is every row's value. */
  lemma DateStep(h: Frame, column: string, stamp: Option<string>, e: Engine)
    requires Valid(h) && Apply(h, DateOp(column, stamp), e).Ok?
    ensures var g := Apply(h, DateOp(column, stamp), e).value;
      && column in g.columns && |g.rows| == |h.rows|
      && (forall c :: c in h.columns ==> c in g.columns)
      && (forall i, c :: 0 <= i < |h.rows| && c in h.columns && c != column ==> g.rows[i][c] == h.rows[i][c])
      && (stamp.Some? ==> forall i :: 0 <= i < |g.rows| ==> g.rows[i][column] == Day(e.timestamp(stamp.value)))
      && (stamp.None? ==> forall i :: 0 <= i < |g.rows| ==> g.rows[i][column] == e.parseDate(h.rows[i][column]))
  {
  }

  /** The last two steps set date and validOn: every row gets the
      configured date when the rules give one. */
  lemma {:induction false} ConfigDates(f: Frame, cfg: FixRules, e: Engine)
    requires Valid(f)
    requires Interpret(f, Steps(cfg), e).Ok?
    ensures var g := Interpret(f, Steps(cfg), e).value;
      && "date" in g.columns && "validOn" in g.columns
      && (cfg.date.Some? ==> forall i :: 0 <= i < |g.rows| ==> g.rows[i]["date"] == Day(e.timestamp(cfg.date.value)))
      && (cfg.update.Some? ==> forall i :: 0 <= i < |g.rows| ==> g.rows[i]["validOn"] == Day(e.timestamp(cfg.update.value)))
  {
    InterpretAppend(f, PreSteps(cfg), DateSteps(cfg), e);
    var h := Interpret(f, PreSteps(cfg), e).value;
    TwoSteps(h, DateOp("date", cfg.date), DateOp("validOn", cfg.update), e);
    var h1 := Apply(h, DateOp("date", cfg.date), e).value;
    DateStep(h, "date", cfg.date, e);
    DateStep(h1, "validOn", cfg.update, e);
  }

  /** The duplicate rules, pair by pair. */
  method DuplicateColumns(f: Frame, pairs: seq<(string, string)>, e: Engine) returns (r: Result<Frame>)
    requires Valid(f)
    ensures r == Interpret(f, DuplicateSteps(pairs), e)
  {
    var g := f;
    for k := 0 to |pairs|
      invariant Valid(g)
      invariant Interpret(f, DuplicateSteps(pairs), e) == Interpret(g, DuplicateSteps(pairs[k..]), e)
    {
      var (target, source) := pairs[k];
      assert pairs[k..][1..] == pairs[k + 1..];
      if source !in g.columns { return Err(MissingColumn(source)); }
      g := SetColumn(g, target, Column(g, source));
    }
    return Ok(g);
  }

  /** The title rules, column by column. */
  method TitleColumns(f: Frame, columns: seq<string>, e: Engine) returns (r: Result<Frame>)
    requires Valid(f)
    ensures r == Interpret(f, TitleSteps(columns), e)
  {
    var g := f;
    for k := 0 to |columns|
      invariant Valid(g)
      invariant Interpret(f, TitleSteps(columns), e) == Interpret(g, TitleSteps(columns[k..]), e)
    {
      assert columns[k..][1..] == columns[k + 1..];
      if columns[k] !in g.columns { return Err(MissingColumn(columns[k])); }
      g := MapColumn(g, columns[k], OnString(e.title));
    }
    return Ok(g);
  }

  /** The replace rules of one column, key by key. */
  method ReplaceColumn(f: Frame, column: string, pairs: seq<(string, string)>, e: Engine) returns (r: Result<Frame>)
    requires Valid(f)
    ensures r == Interpret(f, ReplaceSteps(column, pairs), e)
  {
    var g := f;
    for m := 0 to |pairs|
      invariant Valid(g)
      invariant Interpret(f, ReplaceSteps(column, pairs), e) == Interpret(g, ReplaceSteps(column, pairs[m..]), e)
    {
      var (key, value) := pairs[m];
      assert pairs[m..][1..] == pairs[m + 1..];
      if column !in g.columns { return Err(MissingColumn(column)); }
      if key == "" {
        g := MapColumn(g, column, FillNull(Str(value)));
      } else {
        g := MapColumn(g, column, StrReplace(key, value));
      }
    }
    return Ok(g);
  }

  /** The replace rules, column by column. */
  method ReplaceColumns(f: Frame, entries: seq<(string, seq<(string, string)>)>, e: Engine) returns (r: Result<Frame>)
    requires Valid(f)
    ensures r == Interpret(f, ReplaceAllSteps(entries), e)
  {
    var g := f;
    for k := 0 to |entries|
      invariant Valid(g)
      invariant Interpret(f, ReplaceAllSteps(entries), e) == Interpret(g, ReplaceAllSteps(entries[k..]), e)
    {
      var (column, pairs) := entries[k];
      assert entries[k..][1..] == entries[k + 1..];
      InterpretAppend(g, ReplaceSteps(column, pairs), ReplaceAllSteps(entries[k + 1..]), e);
      var d := ReplaceColumn(g, column, pairs, e);
      if d.Err? { return d; }
      g := d.value;
    }
    return Ok(g);
  }

  /** One date column: the configured date for every row, or the column
      itself parsed as dates. */
  method SetDate(f: Frame, column: string, stamp: Option<string>, e: Engine) returns (r: Result<Frame>)
    requires Valid(f)
    ensures r == Apply(f, DateOp(column, stamp), e)
  {
    if stamp.Some? {
      return Ok(Fill(f, column, Day(e.timestamp(stamp.value))));
    }
    if column !in f.columns { return Err(MissingColumn(column)); }
    return Ok(MapColumn(f, column, e.parseDate));
  }

  /** The keys of `config_fixes` before the dates: drop, duplicate,
      rename, title and replace, as the source applies them in turn. */
  method PreFixes(f: Frame, cfg: FixRules, e: Engine) returns (r: Result<Frame>)
    requires Valid(f)
    ensures r == Interpret(f, PreSteps(cfg), e)
  {
    var g := f;
    var rest := DuplicateStage(cfg) + (RenameSteps(cfg) + (TitleStage(cfg) + ReplaceStage(cfg)));
    InterpretAppend(f, DropSteps(cfg), rest, e);
    if cfg.drop.Some? {
      var d := DropColumns(g, cfg.drop.value);
      if d.Err? { return Err(d.error); }
      g := d.value;
    }
    assert Interpret(f, PreSteps(cfg), e) == Interpret(g, rest, e);

    var rest1 := RenameSteps(cfg) + (TitleStage(cfg) + ReplaceStage(cfg));
    InterpretAppend(g, DuplicateStage(cfg), rest1, e);
    if cfg.duplicate.Some? {
      var d := DuplicateColumns(g, cfg.duplicate.value, e);
      if d.Err? { return d; }
      g := d.value;
    }
    assert Interpret(f, PreSteps(cfg), e) == Interpret(g, rest1, e);

    var rest2 := TitleStage(cfg) + ReplaceStage(cfg);
    InterpretAppend(g, RenameSteps(cfg), rest2, e);
    if cfg.rename.Some? {
      var d := Rename(g, cfg.rename.value);
      if d.Err? { return Err(d.error); }
      g := d.value;
    }
    assert Interpret(f, PreSteps(cfg), e) == Interpret(g, rest2, e);

    InterpretAppend(g, TitleStage(cfg), ReplaceStage(cfg), e);
    if cfg.title.Some? {
      var d := TitleColumns(g, cfg.title.value, e);
      if d.Err? { return d; }
      g := d.value;
    }
    assert Interpret(f, PreSteps(cfg), e) == Interpret(g, ReplaceStage(cfg), e);

    if cfg.replace.Some? {
      var d := ReplaceColumns(g, cfg.replace.value, e);
      if d.Err? { return d; }
      g := d.value;
    }
    return Ok(g);
  }

  /** `config_fixes(gdf, country_config)`: the rules' keys in the fixed
      order, ending with date and validOn. */
  method ConfigFixes(f: Frame, cfg: FixRules, e: Engine) returns (r: Result<Frame>)
    requires Valid(f)
    ensures r == Interpret(f, Steps(cfg), e)
  {
    InterpretAppend(f, PreSteps(cfg), DateSteps(cfg), e);
    var d := PreFixes(f, cfg, e);
    if d.Err? { return d; }
    var g := d.value;
    var op0, op1 := DateOp("date", cfg.date), DateOp("validOn", cfg.update);
    assert DateSteps(cfg) == [op0] + [op1];
    InterpretAppend(g, [op0], [op1], e);
    d := SetDate(g, "date", cfg.date, e);
    if d.Err? { return d; }
    g := d.value;
    d := SetDate(g, "validOn", cfg.update, e);
    assert Interpret(g, [op1], e) == d;
    return d;
  }

  // ---------------------------------------------------------------------
  // Automatic fixes (app/level_1a.py, automatic_fixes)
  // ---------------------------------------------------------------------

  /** The legacy spellings of the validTo column that are dropped. */
  const LegacyValidTo := ["ValidTo", "VALIDTO"]

  lemma WithoutAbsent(s: seq<string>, xs: set<string>)
    requires forall x :: x in xs ==> x !in s
    ensures Without(s, xs) == s
  {
    if s != [] {
      assert s[0] in s;
      assert forall x :: x in s[1..] ==> x in s;
      WithoutAbsent(s[1..], xs);
    }
  }

  lemma {:induction false} WithoutTwice(s: seq<string>, a: set<string>, b: set<string>)
    ensures Without(Without(s, a), b) == Without(s, a + b)
  {
    if s != [] {
      WithoutTwice(s[1..], a, b);
      if s[0] !in a {
        assert Without(s, a) == [s[0]] + Without(s[1..], a);
        assert Without(s, a)[1..] == Without(s[1..], a);
      }
    }
  }

  /** Drops one column if it is present. */
  function DropIfPresent(f: Frame, x: string): (g: Frame)
    requires Valid(f)
    ensures Valid(g) && |g.rows| == |f.rows|
    ensures g.columns == Without(f.columns, {x})
    ensures forall i :: 0 <= i < |f.rows| ==> g.rows[i] == f.rows[i] - {x}
  {
    assert ColumnSet([x]) == {x};
    if x in f.columns then DropColumns(f, [x]).value
    else
      WithoutAbsent(f.columns, {x});
      assert forall i :: 0 <= i < |f.rows| ==> x !in f.rows[i].Keys;
      assert forall i :: 0 <= i < |f.rows| ==> f.rows[i] - {x} == f.rows[i];
      f
  }

  /** Each listed column that is present, dropped in turn. */
  function DropPresent(f: Frame, names: seq<string>): (r: Frame)
    requires Valid(f)
    ensures Valid(r) && |r.rows| == |f.rows|
    decreases |names|
  {
    if names == [] then f else DropPresent(DropIfPresent(f, names[0]), names[1..])
  }

  /** Dropping the present ones among a list of columns is dropping the
      list: the other columns keep their order and their values. */
  lemma {:induction false} DropPresentShape(f: Frame, names: seq<string>)
    requires Valid(f)
    ensures DropPresent(f, names).columns == Without(f.columns, ColumnSet(names))
    ensures forall i :: 0 <= i < |f.rows| ==> DropPresent(f, names).rows[i] == f.rows[i] - ColumnSet(names)
    decreases |names|
  {
    if names == [] {
      assert ColumnSet(names) == {};
      WithoutAbsent(f.columns, {});
      assert forall i :: 0 <= i < |f.rows| ==> f.rows[i] - {} == f.rows[i];
    } else {
      var x := names[0];
      var g := DropIfPresent(f, x);
      DropPresentShape(g, names[1..]);
      var rest := ColumnSet(names[1..]);
      assert ColumnSet(names) == {x} + rest;
      WithoutTwice(f.columns, {x}, rest);
      MinusTwice(f.rows, g.rows, DropPresent(f, names).rows, {x}, rest);
    }
  }

  lemma MinusTwice(a: seq<Row>, b: seq<Row>, c: seq<Row>, x: set<string>, y: set<string>)
    requires |b| == |a| && |c| == |a|
    requires forall i :: 0 <= i < |a| ==> b[i] == a[i] - x
    requires forall i :: 0 <= i < |a| ==> c[i] == b[i] - y
    ensures forall i :: 0 <= i < |a| ==> c[i] == a[i] - (x + y)
  {
    forall i | 0 <= i < |a| ensures c[i] == a[i] - (x + y) {
      assert (a[i] - x) - y == a[i] - (x + y);
    }
  }

  /** What `automatic_fixes` computes: the geometry reprojected to WGS 84
      and repaired, the legacy validTo columns dropped, and a validTo column
      of nulls. A layer without a geometry column cannot be reprojected. */
  function AutomaticFixed(f: Frame, e: Engine): (r: Result<Frame>)
    requires Valid(f)
    ensures r.Ok? ==> Valid(r.value)
  {
    if GeometryColumn !in f.columns then Err(MissingColumn(GeometryColumn))
    else
      var g := MapColumn(f, GeometryColumn, OnGeometry(e.repair));
      Ok(Fill(DropPresent(g, LegacyValidTo), "validTo", Null))
  }

  /** `automatic_fixes(gdf)`. */
  method AutomaticFixes(f: Frame, e: Engine) returns (r: Result<Frame>)
    requires Valid(f)
    ensures r == AutomaticFixed(f, e)
  {
    if GeometryColumn !in f.columns { return Err(MissingColumn(GeometryColumn)); }
    var g := MapColumn(f, GeometryColumn, OnGeometry(e.repair));
    ghost var g0 := g;
    for k := 0 to |LegacyValidTo|
      invariant Valid(g)
      invariant DropPresent(g0, LegacyValidTo) == DropPresent(g, LegacyValidTo[k..])
    {
      assert LegacyValidTo[k..][1..] == LegacyValidTo[k + 1..];
      ghost var prev := g;
      if LegacyValidTo[k] in g.columns {
        g := DropColumns(g, [LegacyValidTo[k]]).value;
      }
      assert g == DropIfPresent(prev, LegacyValidTo[k]);
    }
    return Ok(Fill(g, "validTo", Null));
  }

  /** A column the automatic fixes leave alone. */
  predicate Untouched(c: string) {
    c != "ValidTo" && c != "VALIDTO" && c != "validTo" && c != GeometryColumn
  }

  /** The automatic fixes succeed exactly when the layer has a geometry
      column; they keep its rows, add validTo, remove the legacy
      spellings and keep every other column. */
  lemma AutomaticFixesColumns(f: Frame, e: Engine)
    requires Valid(f)
    ensures AutomaticFixed(f, e).Ok? <==> GeometryColumn in f.columns
    ensures AutomaticFixed(f, e).Ok? ==>
      var g := AutomaticFixed(f, e).value;
      && |g.rows| == |f.rows|
      && "validTo" in g.columns && "ValidTo" !in g.columns && "VALIDTO" !in g.columns
      && (forall c :: c in f.columns && c != "ValidTo" && c != "VALIDTO" ==> c in g.columns)
  {
    if GeometryColumn in f.columns {
      var g := MapColumn(f, GeometryColumn, OnGeometry(e.repair));
      var h := DropPresent(g, LegacyValidTo);
      assert AutomaticFixed(f, e) == Ok(Fill(h, "validTo", Null));
      assert h.columns == Without(f.columns, {"ValidTo", "VALIDTO"}) by {
        DropPresentShape(g, LegacyValidTo);
        assert ColumnSet(LegacyValidTo) == {"ValidTo", "VALIDTO"};
      }
    }
  }

  /** After the automatic fixes validTo is null in every row, each
      geometry is the repaired input geometry, and every other cell is
      unchanged. */
  lemma AutomaticFixesCells(f: Frame, e: Engine)
    requires Valid(f) && GeometryColumn in f.columns
    ensures AutomaticFixed(f, e).Ok?
    ensures var g := AutomaticFixed(f, e).value;
      && (forall i :: 0 <= i < |g.rows| ==> Cell(g.rows[i], "validTo") == Null)
      && (forall i :: 0 <= i < |g.rows| ==>
            Cell(g.rows[i], GeometryColumn) == OnGeometry(e.repair)(Cell(f.rows[i], GeometryColumn)))
      && (forall i, c :: 0 <= i < |g.rows| && c in f.columns && Untouched(c) ==> Cell(g.rows[i], c) == Cell(f.rows[i], c))
  {
    var g := MapColumn(f, GeometryColumn, OnGeometry(e.repair));
    var h := DropPresent(g, LegacyValidTo);
    var r := Fill(h, "validTo", Null);
    assert AutomaticFixed(f, e) == Ok(r);
    var dropped := {"ValidTo", "VALIDTO"};
    assert forall i :: 0 <= i < |f.rows| ==> h.rows[i] == g.rows[i] - dropped by {
      DropPresentShape(g, LegacyValidTo);
      assert ColumnSet(LegacyValidTo) == dropped;
    }
    forall i | 0 <= i < |r.rows|
      ensures Cell(r.rows[i], "validTo") == Null
      ensures Cell(r.rows[i], GeometryColumn) == OnGeometry(e.repair)(Cell(f.rows[i], GeometryColumn))
      ensures forall c :: c in f.columns && Untouched(c) ==> Cell(r.rows[i], c) == Cell(f.rows[i], c)
    {
      assert f.rows[i].Keys == ColumnSet(f.columns);
      FixedRow(f.rows[i], g.rows[i], h.rows[i], r.rows[i], OnGeometry(e.repair), dropped);
    }
  }

  /** One row through the automatic fixes. */
  lemma FixedRow(fr: Row, gr: Row, hr: Row, rr: Row, op: Value -> Value, dropped: set<string>)
    requires GeometryColumn in fr && dropped == {"ValidTo", "VALIDTO"}
    requires gr == fr[GeometryColumn := op(fr[GeometryColumn])]
    requires hr == gr - dropped && rr == hr["validTo" := Null]
    ensures Cell(rr, "validTo") == Null
    ensures Cell(rr, GeometryColumn) == op(Cell(fr, GeometryColumn))
    ensures forall c :: c in fr && Untouched(c) ==> Cell(rr, c) == Cell(fr, c)
  {
  }

  // ---------------------------------------------------------------------
  // Name fixes (app/level_1a.py, name_fixes)
  // ---------------------------------------------------------------------

  /** `f"ADM{level}_"`. */
  function AdmPrefix(level: int): string {
    "ADM" + IntToString(level) + "_"
  }

  /** Two ASCII capitals, optionally followed by the line feed that `$`
      lets through. */
  predicate LanguageSuffix(t: string) {
    && (|t| == 2 || (|t| == 3 && t[2] == '\n'))
    && IsAsciiUpper(t[0]) && IsAsciiUpper(t[1])
  }

  /** `re.match(rf"^ADM{level}_[A-Z][A-Z]$", column)`. */
  predicate IsNameColumn(c: string, level: int) {
    StartsWith(c, AdmPrefix(level)) && LanguageSuffix(c[|AdmPrefix(level)|..])
  }

  /** The languages with an official short name in the M49 table. */
  const OfficialLanguages := ["AR", "EN", "ES", "FR", "RU", "ZH"]

  /** `re.match(r"^ADM0_(AR|EN|ES|FR|RU|ZH)$", column)`. */
  predicate IsOfficialAdm0(c: string) {
    && StartsWith(c, "ADM0_")
    && (c[5..] in OfficialLanguages || (|c| == 8 && c[5..7] in OfficialLanguages && c[7] == '\n'))
  }

  /** The name columns of the levels `level` down to 0, each level's in
      column order. */
  function NameColumns(cols: seq<string>, level: int): (r: seq<string>)
    ensures forall c :: c in r <==> c in cols && exists l :: 0 <= l <= level && IsNameColumn(c, l)
    decreases level
  {
    if level < 0 then []
    else
      var here := Filter(cols, c => IsNameColumn(c, level));
      var below := NameColumns(cols, level - 1);
      assert forall c :: c in here + below <==> c in here || c in below;
      here + below
  }

  lemma SplitPlain(t: string, sep: char)
    requires sep !in t
    ensures Split(t, sep) == [t]
  {
    SplitJoin([t], sep);
  }

  /** The language of an official ADM0 column: the text after "ADM0_". */
  function Language(c: string): (lang: string)
    requires IsOfficialAdm0(c)
    ensures "ADM0_" + lang == c
  {
    c[5..]
  }

  /** The language is what `column.split("_")[1]` gives. */
  lemma LanguageIsSplit(c: string)
    requires IsOfficialAdm0(c)
    ensures |Split(c, '_')| == 2 && Split(c, '_')[1] == Language(c)
  {
    var t := c[5..];
    assert c == "ADM0" + ("_" + t);
    assert '_' !in t by {
      if |c| == 8 && c[5..7] in OfficialLanguages { assert t == c[5..7] + [c[7]]; }
    }
    SplitPrefix("ADM0", "_" + t, '_');
    assert ("_" + t)[1..] == t;
    SplitPlain(t, '_');
  }

  /** Every official ADM0 column, in turn, set to the country's M49 short
      name in that language. */
  function OfficialNames(f: Frame, official: seq<string>, iso3: string, m49: M49): (r: Result<Frame>)
    requires Valid(f)
    requires forall c :: c in official ==> IsOfficialAdm0(c) && c in f.columns
    ensures r.Ok? ==> Valid(r.value) && r.value.columns == f.columns && |r.value.rows| == |f.rows|
    decreases |official|
  {
    if official == [] then Ok(f)
    else
      var lang := Language(official[0]);
      var v := GetAdm0Name(m49, iso3, Lower(lang));
      if v.Err? then Err(v.error)
      else
        assert forall x :: x in official[1..] ==> x in official;
        OfficialNames(Fill(f, "ADM0_" + lang, v.value), official[1..], iso3, m49)
  }

  /** The official names fail exactly when the country has an M49 record
      lacking one of the languages' short names; otherwise every official
      column holds, in every row, the short name of its language (the empty
      string for a country without a record), and no other column changes. */
  lemma {:induction false} OfficialNamesEffect(f: Frame, official: seq<string>, iso3: string, m49: M49)
    requires Valid(f)
    requires forall c :: c in official ==> IsOfficialAdm0(c) && c in f.columns
    ensures var r := OfficialNames(f, official, iso3, m49);
      && (r.Ok? <==> (iso3 in m49 ==> forall c :: c in official ==> Lower(Language(c)) + "_short" in m49[iso3]))
      && (r.Ok? ==> forall i, c :: 0 <= i < |f.rows| && c in official ==>
            r.value.rows[i][c] == GetAdm0Name(m49, iso3, Lower(Language(c))).value)
      && (r.Ok? ==> forall i, c :: 0 <= i < |f.rows| && c in f.columns && c !in official ==>
            r.value.rows[i][c] == f.rows[i][c])
    decreases |official|
  {
    if official != [] {
      var c0, tail := official[0], official[1..];
      assert forall x :: x in official <==> x == c0 || x in tail;
      var v := GetAdm0Name(m49, iso3, Lower(Language(c0)));
      if v.Ok? {
        var g := Fill(f, c0, v.value);
        assert OfficialNames(f, official, iso3, m49) == OfficialNames(g, tail, iso3, m49);
        OfficialNamesEffect(g, tail, iso3, m49);
        var r := OfficialNames(g, tail, iso3, m49);
        if r.Ok? {
          OfficialCells(f, g, r.value, c0, tail, v.value);
        }
      }
    }
  }

  /** The cells after the first official column is filled and the rest
      are done. */
  lemma OfficialCells(f: Frame, g: Frame, r: Frame, c0: string, tail: seq<string>, v: Value)
    requires Valid(f) && c0 in f.columns && g == Fill(f, c0, v)
    requires Valid(r) && r.columns == f.columns && |r.rows| == |g.rows|
    requires forall i, c :: 0 <= i < |g.rows| && c in g.columns && c !in tail ==> r.rows[i][c] == g.rows[i][c]
    ensures forall i :: 0 <= i < |f.rows| && c0 !in tail ==> r.rows[i][c0] == v
    ensures forall i, c :: 0 <= i < |f.rows| && c in f.columns && c != c0 && c !in tail ==> r.rows[i][c] == f.rows[i][c]
  {
  }

  /** `ADM0_PCODE`, added empty when absent, with its nulls filled by the
      country's two-letter code. */
  function AddPcode(f: Frame, iso2: string): (r: Frame)
    requires Valid(f)
    ensures Valid(r) && |r.rows| == |f.rows|
    ensures r.columns == if "ADM0_PCODE" in f.columns then f.columns else f.columns + ["ADM0_PCODE"]
    ensures forall i :: 0 <= i < |f.rows| ==>
      r.rows[i]["ADM0_PCODE"] == (if "ADM0_PCODE" in f.columns && f.rows[i]["ADM0_PCODE"] != Null
                                  then f.rows[i]["ADM0_PCODE"] else Str(iso2))
    ensures forall i, c :: 0 <= i < |f.rows| && c in f.columns && c != "ADM0_PCODE" ==> r.rows[i][c] == f.rows[i][c]
  {
    var g := if "ADM0_PCODE" in f.columns then f else Fill(f, "ADM0_PCODE", Null);
    MapColumn(g, "ADM0_PCODE", FillNull(Str(iso2)))
  }

  /** The decoded character tables: `ApostropheTable` and
      `InvisibleTable` show that these are the characters the "U+XXXX"
      names of the configuration stand for, in table order. */
  const Apostrophes: seq<char> := ['\U{60}', '\U{2019}', '\U{2032}']
  const Invisibles: seq<char> := ['\t', '\n', '\r', '\U{A0}', '\U{200C}', '\U{200E}', '\U{200F}', '\U{FEFF}']

  lemma DecodedTables()
    ensures Apostrophes == CharsOf(ApostropheChars) && Invisibles == CharsOf(InvisibleChars)
  {
    ApostropheTable();
    InvisibleTable();
  }

  /** One `str.replace(char, rep)` per character, in table order. */
  function ReplaceOps(chars: seq<char>, rep: string): (ops: seq<Value -> Value>)
    ensures |ops| == |chars|
    ensures forall k :: 0 <= k < |chars| ==> ops[k] == StrReplace([chars[k]], rep)
  {
    seq(|chars|, k requires 0 <= k < |chars| => StrReplace([chars[k]], rep))
  }

  /** `Series.replace(r" +", " ", regex=True)`: only strings are touched. */
  function CollapseCell(v: Value): Value {
    if v.Str? then Str(CollapseSpaces(v.s)) else v
  }

  /** The cell operations `name_fixes` applies to a name column, in order. */
  function CleanOps(): seq<Value -> Value> {
    ReplaceOps(Apostrophes, "'") + ReplaceOps(Invisibles, "") + [CollapseCell, OnString(Strip)]
  }

  /** Cell operations applied in turn. */
  function ApplyAll(ops: seq<Value -> Value>, v: Value): Value
    decreases |ops|
  {
    if ops == [] then v else ApplyAll(ops[1..], ops[0](v))
  }

  lemma {:induction false} ApplyAppend(a: seq<Value -> Value>, b: seq<Value -> Value>, v: Value)
    ensures ApplyAll(a + b, v) == ApplyAll(b, ApplyAll(a, v))
    decreases |a|
  {
    if a == [] {
      assert a + b == b;
    } else {
      assert (a + b)[0] == a[0] && (a + b)[1..] == a[1..] + b;
      ApplyAppend(a[1..], b, a[0](v));
    }
  }

  /** Each character replaced in turn. */
  function ReplaceEach(s: string, chars: seq<char>, rep: string): string
    decreases |chars|
  {
    if chars == [] then s else ReplaceEach(ReplaceAll(s, [chars[0]], rep), chars[1..], rep)
  }

  lemma {:induction false} ApplyReplaceOps(chars: seq<char>, rep: string, v: Value)
    ensures ApplyAll(ReplaceOps(chars, rep), v) ==
      if chars == [] then v else if v.Str? then Str(ReplaceEach(v.s, chars, rep)) else Null
    decreases |chars|
  {
    if chars != [] {
      var ops := ReplaceOps(chars, rep);
      assert ops[1..] == ReplaceOps(chars[1..], rep);
      var w := StrReplace([chars[0]], rep)(v);
      ApplyReplaceOps(chars[1..], rep, w);
    }
  }

  /** The whole cleanup of one name: apostrophes unified, invisible
      characters removed, runs of spaces collapsed, then stripped. */
  function CleanString(s: string): string {
    Strip(CollapseSpaces(ReplaceEach(ReplaceEach(s, Apostrophes, "'"), Invisibles, "")))
  }

  /** The cleanup of one cell of an object column: a string is cleaned,
      anything else is null (the first `str.replace` already turns it into
      NaN). */
  function CleanCell(v: Value): Value {
    if v.Str? then Str(CleanString(v.s)) else Null
  }

  /** The operations, applied in turn, are the cleanup of the cell. */
  lemma CleanOpsMeaning(v: Value)
    ensures ApplyAll(CleanOps(), v) == CleanCell(v)
  {
    var a, b := ReplaceOps(Apostrophes, "'"), ReplaceOps(Invisibles, "");
    var tail: seq<Value -> Value> := [CollapseCell, OnString(Strip)];
    assert CleanOps() == a + (b + tail);
    ApplyAppend(a, b + tail, v);
    var w := ApplyAll(a, v);
    ApplyAppend(b, tail, w);
    var x := ApplyAll(b, w);
    ApplyReplaceOps(Apostrophes, "'", v);
    ApplyReplaceOps(Invisibles, "", w);
    var last: seq<Value -> Value> := [OnString(Strip)];
    assert tail[0] == CollapseCell && tail[1..] == last;
    assert ApplyAll(tail, x) == ApplyAll(last, CollapseCell(x));
    assert last[0] == OnString(Strip) && last[1..] == [];
    assert ApplyAll(last, CollapseCell(x)) == OnString(Strip)(CollapseCell(x));
  }

  /** Cell operations applied in turn to one column. */
  function ColumnOps(f: Frame, c: string, ops: seq<Value -> Value>): (r: Frame)
    requires Valid(f) && c in f.columns
    ensures Valid(r) && r.columns == f.columns && |r.rows| == |f.rows|
    decreases |ops|
  {
    if ops == [] then f else ColumnOps(MapColumn(f, c, ops[0]), c, ops[1..])
  }

  lemma {:induction false} ColumnOpsMeaning(f: Frame, c: string, ops: seq<Value -> Value>)
    requires Valid(f) && c in f.columns
    ensures forall i :: 0 <= i < |f.rows| ==> ColumnOps(f, c, ops).rows[i] == f.rows[i][c := ApplyAll(ops, f.rows[i][c])]
    decreases |ops|
  {
    if ops == [] {
      assert forall i :: 0 <= i < |f.rows| ==> f.rows[i][c := f.rows[i][c]] == f.rows[i];
    } else {
      var g := MapColumn(f, c, ops[0]);
      ColumnOpsMeaning(g, c, ops[1..]);
    }
  }

  /** Applying the operations one by one is cleaning the column. */
  lemma CleanColumnStep(f: Frame, c: string)
    requires Valid(f) && c in f.columns
    ensures ColumnOps(f, c, CleanOps()) == MapColumn(f, c, CleanCell)
  {
    var a, b := ColumnOps(f, c, CleanOps()), MapColumn(f, c, CleanCell);
    ColumnOpsMeaning(f, c, CleanOps());
    forall i | 0 <= i < |f.rows| ensures a.rows[i] == b.rows[i] {
      CleanOpsMeaning(f.rows[i][c]);
    }
    assert a.rows == b.rows;
  }

  /** Every listed column cleaned, in turn. */
  function CleanColumns(f: Frame, cols: seq<string>): (r: Frame)
    requires Valid(f) && forall c :: c in cols ==> c in f.columns
    ensures Valid(r) && r.columns == f.columns && |r.rows| == |f.rows|
    decreases |cols|
  {
    if cols == [] then f else CleanColumns(MapColumn(f, cols[0], CleanCell), cols[1..])
  }

  /** `gdf.replace(r"^\s*$", None, regex=True)` on one cell. */
  function BlankCell(v: Value): Value {
    if v.Str? && IsBlank(v.s) then Null else v
  }

  /** The same on every cell of the frame. */
  function BlankToNull(f: Frame): (r: Frame)
    requires Valid(f)
    ensures Valid(r) && r.columns == f.columns && |r.rows| == |f.rows|
    ensures forall i, c :: 0 <= i < |f.rows| && c in f.columns ==> r.rows[i][c] == BlankCell(f.rows[i][c])
  {
    Frame(f.columns, seq(|f.rows|, i requires 0 <= i < |f.rows| => map c | c in f.rows[i] :: BlankCell(f.rows[i][c])))
  }

  /** What `name_fixes` computes. */
  function NameFixed(f: Frame, iso3: string, iso2: string, level: int, m49: M49): (r: Result<Frame>)
    requires Valid(f)
    ensures r.Ok? ==> Valid(r.value)
  {
    var names := NameColumns(f.columns, level);
    var official := Filter(names, IsOfficialAdm0);
    var g :- OfficialNames(f, official, iso3, m49);
    var h := AddPcode(g, iso2);
    Ok(BlankToNull(CleanColumns(h, names)))
  }

  /** Applies one cleanup operation to a column and moves to the next. */
  lemma ColumnOpsCons(f: Frame, c: string, op: Value -> Value, rest: seq<Value -> Value>)
    requires Valid(f) && c in f.columns
    ensures ColumnOps(f, c, [op] + rest) == ColumnOps(MapColumn(f, c, op), c, rest)
  {
    assert ([op] + rest)[1..] == rest;
  }

  lemma ReplaceOpsCons(chars: seq<char>, rep: string, m: nat)
    requires m < |chars|
    ensures ReplaceOps(chars[m..], rep) == [StrReplace([chars[m]], rep)] + ReplaceOps(chars[m + 1..], rep)
  {
  }

  /** `for char in table: gdf[column] = gdf[column].str.replace(char, rep)`,
      followed by the operations `rest`. */
  method ReplaceChars(f: Frame, column: string, chars: seq<char>, rep: string, ghost rest: seq<Value -> Value>)
    returns (g: Frame)
    requires Valid(f) && column in f.columns
    ensures Valid(g) && g.columns == f.columns
    ensures ColumnOps(f, column, ReplaceOps(chars, rep) + rest) == ColumnOps(g, column, rest)
  {
    g := f;
    assert chars[0..] == chars;
    for m := 0 to |chars|
      invariant Valid(g) && g.columns == f.columns
      invariant ColumnOps(f, column, ReplaceOps(chars, rep) + rest) == ColumnOps(g, column, ReplaceOps(chars[m..], rep) + rest)
    {
      var op := StrReplace([chars[m]], rep);
      ReplaceOpsCons(chars, rep, m);
      assert ReplaceOps(chars[m..], rep) + rest == [op] + (ReplaceOps(chars[m + 1..], rep) + rest);
      ColumnOpsCons(g, column, op, ReplaceOps(chars[m + 1..], rep) + rest);
      g := MapColumn(g, column, op);
    }
    assert ReplaceOps(chars[|chars|..], rep) + rest == rest;
  }

  /** The cleanup of one name column, operation by operation: the
      apostrophe table, the invisible table, the run collapse and the
      strip. */
  method CleanNameColumn(f: Frame, column: string) returns (g: Frame)
    requires Valid(f) && column in f.columns
    ensures g == MapColumn(f, column, CleanCell)
  {
    ghost var tail: seq<Value -> Value> := [CollapseCell, OnString(Strip)];
    assert CleanOps() == ReplaceOps(Apostrophes, "'") + (ReplaceOps(Invisibles, "") + tail);
    g := ReplaceChars(f, column, Apostrophes, "'", ReplaceOps(Invisibles, "") + tail);
    g := ReplaceChars(g, column, Invisibles, "", tail);
    assert tail == [CollapseCell] + [OnString(Strip)];
    ColumnOpsCons(g, column, CollapseCell, [OnString(Strip)]);
    g := MapColumn(g, column, CollapseCell);
    assert [OnString(Strip)] == [OnString(Strip)] + [];
    ColumnOpsCons(g, column, OnString(Strip), []);
    g := MapColumn(g, column, OnString(Strip));
    CleanColumnStep(f, column);
  }

  /** `for column in adm0_official_names: gdf[f"ADM0_{lang}"] = ...`. */
  method SetOfficialNames(f: Frame, official: seq<string>, iso3: string, m49: M49) returns (r: Result<Frame>)
    requires Valid(f)
    requires forall c :: c in official ==> IsOfficialAdm0(c) && c in f.columns
    ensures r == OfficialNames(f, official, iso3, m49)
  {
    var g := f;
    for k := 0 to |official|
      invariant Valid(g) && g.columns == f.columns
      invariant OfficialNames(f, official, iso3, m49) == OfficialNames(g, official[k..], iso3, m49)
    {
      assert official[k..][0] == official[k] && official[k..][1..] == official[k + 1..];
      var lang := Language(official[k]);
      var v := GetAdm0Name(m49, iso3, Lower(lang));
      if v.Err? { return Err(v.error); }
      g := Fill(g, "ADM0_" + lang, v.value);
    }
    return Ok(g);
  }

  /** `for column in name_columns: ...`: each name column cleaned in turn. */
  method CleanNames(h: Frame, names: seq<string>) returns (g: Frame)
    requires Valid(h) && forall c :: c in names ==> c in h.columns
    ensures g == CleanColumns(h, names)
  {
    g := h;
    for k := 0 to |names|
      invariant Valid(g) && g.columns == h.columns
      invariant CleanColumns(h, names) == CleanColumns(g, names[k..])
    {
      assert names[k..][0] == names[k] && names[k..][1..] == names[k + 1..];
      g := CleanNameColumn(g, names[k]);
    }
  }

  /** `name_fixes(gdf, iso3, iso2, admin_level)`. */
  method NameFixes(f: Frame, iso3: string, iso2: string, level: int, m49: M49) returns (r: Result<Frame>)
    requires Valid(f)
    ensures r == NameFixed(f, iso3, iso2, level, m49)
  {
    var names := NameColumns(f.columns, level);
    var official := Filter(names, IsOfficialAdm0);
    var o := SetOfficialNames(f, official, iso3, m49);
    if o.Err? { return o; }
    var g := o.value;
    ghost var g0 := g;
    if "ADM0_PCODE" !in g.columns {
      g := Fill(g, "ADM0_PCODE", Null);
    }
    g := MapColumn(g, "ADM0_PCODE", FillNull(Str(iso2)));
    assert g == AddPcode(g0, iso2);
    g := CleanNames(g, names);
    return Ok(BlankToNull(g));
  }

  // Properties of the name fixes

  /** A cleaned name: stripped, without runs of spaces, and free of the
      apostrophe variants and the invisible characters. */
  predicate CleanShape(s: string) {
    && Strip(s) == s && NoDoubleSpace(s)
    && forall d :: d in s ==> d !in Apostrophes && d !in Invisibles
  }

  lemma {:induction false} ReplaceEachMembers(s: string, chars: seq<char>, rep: string)
    ensures forall d :: d in ReplaceEach(s, chars, rep) ==> (d in s && d !in chars) || d in rep
    decreases |chars|
  {
    if chars != [] {
      var t := ReplaceAll(s, [chars[0]], rep);
      ReplaceCharMembers(s, chars[0], rep);
      ReplaceEachMembers(t, chars[1..], rep);
      assert forall d :: d in chars <==> d == chars[0] || d in chars[1..];
    }
  }

  lemma NoDoubleSpaceSlice(s: string, i: nat, j: nat)
    requires NoDoubleSpace(s) && i <= j <= |s|
    ensures NoDoubleSpace(s[i..j])
  {
    assert forall k :: 0 <= k < j - i ==> s[i..j][k] == s[i + k];
  }

  /** The cleanup pipeline, for any pair of character tables: the result
      is stripped, has no runs of spaces, and holds no character of either
      table (the apostrophe itself is not in the first one). */
  lemma CleanPipeline(s: string, a: seq<char>, inv: seq<char>)
    requires '\'' !in a
    ensures var r := Strip(CollapseSpaces(ReplaceEach(ReplaceEach(s, a, "'"), inv, "")));
      Strip(r) == r && NoDoubleSpace(r) && forall d :: d in r ==> d !in a && d !in inv
  {
    var s1 := ReplaceEach(s, a, "'");
    var s2 := ReplaceEach(s1, inv, "");
    var s3 := CollapseSpaces(s2);
    var s4 := Strip(s3);
    ReplaceEachMembers(s, a, "'");
    ReplaceEachMembers(s1, inv, "");
    CollapseMembers(s2);
    CollapseNoDouble(s2);
    StripIdempotent(s3);
    if !IsBlank(s3) {
      NoDoubleSpaceSlice(s3, StripStart(s3), StripEnd(s3));
      assert forall d :: d in s4 ==> d in s3;
    }
  }

  /** Whatever the cell held, its cleanup is null or a cleaned name. */
  lemma CleanCellShape(v: Value)
    ensures CleanCell(v).Null? || (CleanCell(v).Str? && CleanShape(CleanCell(v).s))
  {
    if v.Str? {
      CleanPipeline(v.s, Apostrophes, Invisibles);
    }
  }

  /** A name cell after cleanup. */
  predicate Cleaned(v: Value) {
    v.Null? || (v.Str? && CleanShape(v.s))
  }

  /** Cleaning a list of columns leaves a cleaned name or null in each of
      them and every other column as it was. */
  lemma {:induction false} CleanColumnsShape(f: Frame, cols: seq<string>)
    requires Valid(f) && forall c :: c in cols ==> c in f.columns
    ensures forall i, c :: 0 <= i < |f.rows| && c in cols ==> Cleaned(CleanColumns(f, cols).rows[i][c])
    ensures forall i, c :: 0 <= i < |f.rows| && c in f.columns && c !in cols ==>
      CleanColumns(f, cols).rows[i][c] == f.rows[i][c]
    decreases |cols|
  {
    if cols != [] {
      var c0 := cols[0];
      var g := MapColumn(f, c0, CleanCell);
      var r := CleanColumns(f, cols);
      assert r == CleanColumns(g, cols[1..]);
      assert forall x :: x in cols[1..] ==> x in cols;
      CleanColumnsShape(g, cols[1..]);
      forall i, c | 0 <= i < |f.rows| && c in cols ensures Cleaned(r.rows[i][c]) {
        if c !in cols[1..] {
          assert c == c0;
          assert r.rows[i][c0] == g.rows[i][c0] == CleanCell(f.rows[i][c0]);
          CleanCellShape(f.rows[i][c0]);
        }
      }
      forall i, c | 0 <= i < |f.rows| && c in f.columns && c !in cols ensures r.rows[i][c] == f.rows[i][c] {
        assert r.rows[i][c] == g.rows[i][c];
      }
    }
  }

  lemma PcodeNotName(l: int)
    ensures !IsNameColumn("ADM0_PCODE", l)
  {
    var c, p := "ADM0_PCODE", AdmPrefix(l);
    if StartsWith(c, p) {
      assert c[|p| - 1] == p[|p| - 1] == '_';
      assert forall k :: 0 <= k < |c| && c[k] == '_' ==> k == 4;
      assert c[|p|..] == "PCODE";
    }
  }

  /** After the name fixes no cell anywhere is a blank string, every name
      column of the levels `level` down to 0 holds null or a non-blank
      cleaned name, ADM0_PCODE exists and falls back on the two-letter code
      where it was missing (blank codes then become null), no row is lost,
      and the only column that may be added is ADM0_PCODE. */
  lemma NameFixesClean(f: Frame, iso3: string, iso2: string, level: int, m49: M49)
    requires Valid(f)
    requires NameFixed(f, iso3, iso2, level, m49).Ok?
    ensures var r := NameFixed(f, iso3, iso2, level, m49).value;
      && |r.rows| == |f.rows|
      && r.columns == (if "ADM0_PCODE" in f.columns then f.columns else f.columns + ["ADM0_PCODE"])
      && (forall i, c :: 0 <= i < |r.rows| && c in r.columns ==> !(Cell(r.rows[i], c).Str? && IsBlank(Cell(r.rows[i], c).s)))
      && (forall i, c :: 0 <= i < |r.rows| && c in NameColumns(f.columns, level) ==>
            Cleaned(Cell(r.rows[i], c)))
      && (forall i :: 0 <= i < |r.rows| ==>
            Cell(r.rows[i], "ADM0_PCODE") == BlankCell(if Cell(f.rows[i], "ADM0_PCODE") != Null
                                                       then Cell(f.rows[i], "ADM0_PCODE") else Str(iso2)))
  {
    var names := NameColumns(f.columns, level);
    var official := Filter(names, IsOfficialAdm0);
    var g := OfficialNames(f, official, iso3, m49).value;
    OfficialNamesEffect(f, official, iso3, m49);
    var h := AddPcode(g, iso2);
    var k := CleanColumns(h, names);
    var r := BlankToNull(k);
    assert NameFixed(f, iso3, iso2, level, m49) == Ok(r);
    CleanColumnsShape(h, names);
    BlankToNullShape(k, names);
    assert "ADM0_PCODE" !in names by {
      if "ADM0_PCODE" in names {
        var l :| 0 <= l <= level && IsNameColumn("ADM0_PCODE", l);
        PcodeNotName(l);
      }
    }
    assert "ADM0_PCODE" !in official;
    PcodeAfterNames(f, g, h, k, names, iso2);
  }

  /** The blank pass leaves no blank string anywhere and keeps cleaned
      cells cleaned. */
  lemma BlankToNullShape(k: Frame, names: seq<string>)
    requires Valid(k) && forall c :: c in names ==> c in k.columns
    requires forall i, c :: 0 <= i < |k.rows| && c in names ==> Cleaned(k.rows[i][c])
    ensures var r := BlankToNull(k);
      && (forall i, c :: 0 <= i < |r.rows| && c in r.columns ==> !(r.rows[i][c].Str? && IsBlank(r.rows[i][c].s)))
      && (forall i, c :: 0 <= i < |r.rows| && c in names ==> Cleaned(r.rows[i][c]))
  {
    var r := BlankToNull(k);
    forall i, c | 0 <= i < |r.rows| && c in r.columns ensures !(r.rows[i][c].Str? && IsBlank(r.rows[i][c].s)) {
      assert r.rows[i][c] == BlankCell(k.rows[i][c]);
    }
    forall i, c | 0 <= i < |r.rows| && c in names ensures Cleaned(r.rows[i][c]) {
      assert r.rows[i][c] == BlankCell(k.rows[i][c]);
    }
  }

  /** ADM0_PCODE, which is neither a name column nor an official one, goes
      through the name fixes as AddPcode and the blank pass leave it. */
  lemma PcodeAfterNames(f: Frame, g: Frame, h: Frame, k: Frame, names: seq<string>, iso2: string)
    requires Valid(f) && Valid(g) && g.columns == f.columns && |g.rows| == |f.rows|
    requires "ADM0_PCODE" in f.columns ==> forall i :: 0 <= i < |f.rows| ==> g.rows[i]["ADM0_PCODE"] == f.rows[i]["ADM0_PCODE"]
    requires h == AddPcode(g, iso2) && "ADM0_PCODE" !in names && forall c :: c in names ==> c in h.columns
    requires k == CleanColumns(h, names)
    ensures forall i :: 0 <= i < |f.rows| ==>
      BlankToNull(k).rows[i]["ADM0_PCODE"] == BlankCell(if "ADM0_PCODE" in f.columns && f.rows[i]["ADM0_PCODE"] != Null
                                                         then f.rows[i]["ADM0_PCODE"] else Str(iso2))
  {
    CleanColumnsShape(h, names);
    forall i | 0 <= i < |f.rows|
      ensures BlankToNull(k).rows[i]["ADM0_PCODE"] == BlankCell(if "ADM0_PCODE" in f.columns && f.rows[i]["ADM0_PCODE"] != Null
                                                                 then f.rows[i]["ADM0_PCODE"] else Str(iso2))
    {
      assert k.rows[i]["ADM0_PCODE"] == h.rows[i]["ADM0_PCODE"];
    }
  }

  /** A country without an M49 record has its official ADM0 names set to
      the empty string, which the blank pass turns into null. */
  lemma UnknownCountryNames(f: Frame, iso3: string, iso2: string, level: int, m49: M49)
    requires Valid(f) && iso3 !in m49
    ensures NameFixed(f, iso3, iso2, level, m49).Ok?
    ensures var r := NameFixed(f, iso3, iso2, level, m49).value;
      forall i, c :: 0 <= i < |r.rows| && c in NameColumns(f.columns, level) && IsOfficialAdm0(c) ==> r.rows[i][c] == Null
  {
    var names := NameColumns(f.columns, level);
    var official := Filter(names, IsOfficialAdm0);
    OfficialUnknown(f, official, iso3, m49);
    var g := OfficialNames(f, official, iso3, m49).value;
    var h := AddPcode(g, iso2);
    assert NameFixed(f, iso3, iso2, level, m49) == Ok(BlankToNull(CleanColumns(h, names)));
    assert !IsOfficialAdm0("ADM0_PCODE");
    OfficialStayEmpty(g, h, names, official, iso2);
  }

  /** Official columns holding the empty string end up null. */
  lemma OfficialStayEmpty(g: Frame, h: Frame, names: seq<string>, official: seq<string>, iso2: string)
    requires Valid(g) && h == AddPcode(g, iso2) && "ADM0_PCODE" !in official
    requires forall c :: c in names ==> c in g.columns
    requires forall c :: c in official ==> c in g.columns && forall i :: 0 <= i < |g.rows| ==> g.rows[i][c] == Str("")
    ensures forall i, c :: 0 <= i < |g.rows| && c in official ==> BlankToNull(CleanColumns(h, names)).rows[i][c] == Null
  {
    assert forall c :: c in official ==> forall i :: 0 <= i < |h.rows| ==> h.rows[i][c] == Str("");
    var k := CleanColumns(h, names);
    CleanColumnsEmpty(h, names, official);
    BlankEmpty(k, official);
  }

  lemma OfficialUnknown(f: Frame, official: seq<string>, iso3: string, m49: M49)
    requires Valid(f) && iso3 !in m49
    requires forall c :: c in official ==> IsOfficialAdm0(c) && c in f.columns
    ensures OfficialNames(f, official, iso3, m49).Ok?
    ensures forall i, c :: 0 <= i < |f.rows| && c in official ==> OfficialNames(f, official, iso3, m49).value.rows[i][c] == Str("")
  {
    OfficialNamesEffect(f, official, iso3, m49);
    forall c | c in official ensures GetAdm0Name(m49, iso3, Lower(Language(c))) == Ok(Str("")) {
    }
  }

  lemma BlankEmpty(k: Frame, cols: seq<string>)
    requires Valid(k)
    requires forall c :: c in cols ==> c in k.columns && forall i :: 0 <= i < |k.rows| ==> k.rows[i][c] == Str("")
    ensures forall i, c :: 0 <= i < |k.rows| && c in cols ==> BlankToNull(k).rows[i][c] == Null
  {
    assert IsBlank("");
  }

  /** Cleaning keeps an empty string empty. */
  lemma {:induction false} CleanColumnsEmpty(f: Frame, cols: seq<string>, empty: seq<string>)
    requires Valid(f) && forall c :: c in cols ==> c in f.columns
    requires forall c :: c in empty ==> c in f.columns && forall i :: 0 <= i < |f.rows| ==> f.rows[i][c] == Str("")
    ensures forall c :: c in empty ==> forall i :: 0 <= i < |f.rows| ==> CleanColumns(f, cols).rows[i][c] == Str("")
    decreases |cols|
  {
    if cols != [] {
      var g := MapColumn(f, cols[0], CleanCell);
      assert CleanString("") == "";
      CleanColumnsEmpty(g, cols[1..], empty);
    }
  }

  // ---------------------------------------------------------------------
  // Dissolve and save (app/level_1a.py, dissolve_and_save)
  // ---------------------------------------------------------------------

  /** `f"ADM{level}_PCODE"`. */
  function PcodeColumn(level: int): string {
    AdmPrefix(level) + "PCODE"
  }

  /** The columns every level file ends with. */
  const TailColumns := ["date", "validOn", "validTo", "AREA_SQKM", "geometry"]

  /** Is `c` a name column of the level? */
  function NameOf(level: int): string -> bool {
    c => IsNameColumn(c, level)
  }

  /** The columns a level's file keeps: for each level from `level` down to
      0 its name columns, in column order, and its P-code; then the tail. */
  function LevelColumns(cols: seq<string>, level: int): seq<string>
    decreases level
  {
    if level < 0 then TailColumns
    else Filter(cols, NameOf(level)) + [PcodeColumn(level)] + LevelColumns(cols, level - 1)
  }

  /** Up to its '_', a level's prefix holds no underscore. */
  lemma AdmPrefixUnderscore(level: int)
    ensures var p := AdmPrefix(level);
      |p| >= 5 && p[..3] == "ADM" && p[|p| - 1] == '_' && forall k :: 0 <= k < |p| - 1 ==> p[k] != '_'
  {
    ParseIntToString(level);
    var p, n := AdmPrefix(level), IntToString(level);
    assert forall k :: 3 <= k < |p| - 1 ==> p[k] == n[k - 3];
  }

  /** A column name starts with the prefix of one level at most. */
  lemma AdmPrefixUnique(c: string, a: int, b: int)
    requires StartsWith(c, AdmPrefix(a)) && StartsWith(c, AdmPrefix(b))
    ensures a == b
  {
    var pa, pb := AdmPrefix(a), AdmPrefix(b);
    AdmPrefixUnderscore(a);
    AdmPrefixUnderscore(b);
    assert forall k :: 0 <= k < |pa| ==> c[k] == pa[k];
    assert forall k :: 0 <= k < |pb| ==> c[k] == pb[k];
    assert |pa| == |pb|;
    assert pa == c[..|pa|] == pb;
    assert IntToString(a) == pa[3..|pa| - 1];
    IntToStringInjective(a, b);
  }

  /** Name columns belong to one level only. */
  lemma NameColumnLevel(c: string, a: int, b: int)
    requires IsNameColumn(c, a) && IsNameColumn(c, b)
    ensures a == b
  {
    AdmPrefixUnique(c, a, b);
  }

  /** A P-code column is no level's name column. */
  lemma PcodeNeverName(level: int, m: int)
    ensures !IsNameColumn(PcodeColumn(level), m)
  {
    var c, p := PcodeColumn(level), AdmPrefix(level);
    assert c[..|p|] == p;
    if StartsWith(c, AdmPrefix(m)) {
      AdmPrefixUnique(c, level, m);
      assert c[|p|..] == "PCODE";
    }
  }

  /** Different levels have different P-code columns. */
  lemma PcodeUnique(a: int, b: int)
    requires PcodeColumn(a) == PcodeColumn(b)
    ensures a == b
  {
    var c := PcodeColumn(a);
    assert c[..|AdmPrefix(a)|] == AdmPrefix(a);
    assert c[..|AdmPrefix(b)|] == AdmPrefix(b);
    AdmPrefixUnique(c, a, b);
  }

  /** No tail column starts like a level's column. */
  lemma TailNotAdm(c: string, m: int)
    requires c in TailColumns
    ensures !StartsWith(c, AdmPrefix(m))
  {
    AdmPrefixUnderscore(m);
    var p := AdmPrefix(m);
    assert p[0] == 'A' && p[1] == 'D';
    assert c[0] != 'A' || c[1] != 'D' by {
      assert c == "date" || c == "validOn" || c == "validTo" || c == "AREA_SQKM" || c == "geometry";
    }
  }

  /** Membership in a level's columns: a tail column, or for a level from
      `level` down to 0 its P-code or one of its name columns. */
  lemma {:induction false} LevelColumnsMembers(cols: seq<string>, level: int)
    ensures forall c :: c in LevelColumns(cols, level) <==>
      c in TailColumns || exists m :: 0 <= m <= level && (c == PcodeColumn(m) || (c in cols && IsNameColumn(c, m)))
    decreases level
  {
    if level >= 0 {
      LevelColumnsMembers(cols, level - 1);
      var here, p, below := Filter(cols, NameOf(level)), PcodeColumn(level), LevelColumns(cols, level - 1);
      assert LevelColumns(cols, level) == here + [p] + below;
      forall c ensures c in LevelColumns(cols, level) <==>
        c in TailColumns || exists m :: 0 <= m <= level && (c == PcodeColumn(m) || (c in cols && IsNameColumn(c, m)))
      {
        assert c in LevelColumns(cols, level) <==> c in here || c == p || c in below;
        assert c in here <==> c in cols && IsNameColumn(c, level);
        if c in here || c == p {
          assert 0 <= level <= level && (c == PcodeColumn(level) || (c in cols && IsNameColumn(c, level)));
        } else if exists m :: 0 <= m <= level && (c == PcodeColumn(m) || (c in cols && IsNameColumn(c, m))) {
          var m :| 0 <= m <= level && (c == PcodeColumn(m) || (c in cols && IsNameColumn(c, m)));
          assert m != level;
        }
      }
    }
  }

  /** A level's columns are distinct when the frame's are. */
  lemma {:induction false} LevelColumnsDistinct(cols: seq<string>, level: int)
    requires Distinct(cols)
    ensures Distinct(LevelColumns(cols, level))
    decreases level
  {
    if level < 0 {
      assert Distinct(TailColumns);
    } else {
      var here := Filter(cols, NameOf(level));
      var p := PcodeColumn(level);
      var below := LevelColumns(cols, level - 1);
      FilterDistinct(cols, NameOf(level));
      PcodeNeverName(level, level);
      DistinctAppend(here, [p]);
      LevelColumnsDistinct(cols, level - 1);
      LevelColumnsMembers(cols, level - 1);
      forall c | c in here + [p] ensures c !in below {
        if c in below {
          if c in TailColumns {
            if c == p { assert c[..|AdmPrefix(level)|] == AdmPrefix(level); }
            TailNotAdm(c, level);
          } else {
            var m :| 0 <= m <= level - 1 && (c == PcodeColumn(m) || (c in cols && IsNameColumn(c, m)));
            if c == p {
              if c == PcodeColumn(m) { PcodeUnique(level, m); } else { PcodeNeverName(level, m); }
            } else {
              assert IsNameColumn(c, level);
              if c == PcodeColumn(m) { PcodeNeverName(m, level); } else { NameColumnLevel(c, level, m); }
            }
          }
        }
      }
      DistinctAppend(here + [p], below);
    }
  }

  /** The name columns of level k among a level's columns are those of
      the frame when k is at most that level, and none otherwise. */
  lemma {:induction false} FilterLevelColumns(cols: seq<string>, level: int, k: int)
    requires k >= 0
    ensures Filter(LevelColumns(cols, level), NameOf(k)) == if k <= level then Filter(cols, NameOf(k)) else []
    decreases level
  {
    if level < 0 {
      forall c | c in TailColumns ensures !NameOf(k)(c) {
        TailNotAdm(c, k);
      }
      FilterNone(TailColumns, NameOf(k));
    } else {
      var here := Filter(cols, NameOf(level));
      var p := PcodeColumn(level);
      var below := LevelColumns(cols, level - 1);
      FilterAppend(here + [p], below, NameOf(k));
      FilterAppend(here, [p], NameOf(k));
      PcodeNeverName(level, k);
      assert Filter([p], NameOf(k)) == [];
      FilterLevelColumns(cols, level - 1, k);
      if k == level {
        FilterAll(here, NameOf(k));
      } else {
        forall c | c in here ensures !NameOf(k)(c) {
          if IsNameColumn(c, k) { NameColumnLevel(c, level, k); }
        }
        FilterNone(here, NameOf(k));
      }
    }
  }

  /** The columns of a lower level, taken from a level's file, are the
      lower level's columns of the original frame: each pass keeps what
      the passes below it select. */
  lemma {:induction false} LevelColumnsNested(cols: seq<string>, level: int, m: int)
    requires m <= level
    ensures LevelColumns(LevelColumns(cols, level), m) == LevelColumns(cols, m)
    decreases m
  {
    if m >= 0 {
      var outer := LevelColumns(cols, level);
      assert LevelColumns(outer, m) == Filter(outer, NameOf(m)) + [PcodeColumn(m)] + LevelColumns(outer, m - 1);
      assert LevelColumns(cols, m) == Filter(cols, NameOf(m)) + [PcodeColumn(m)] + LevelColumns(cols, m - 1);
      FilterLevelColumns(cols, level, m);
      LevelColumnsNested(cols, level, m - 1);
    }
  }

  /** `area / 1e6`: a geometry's area on the grid, in square kilometres. */
  function AreaCell(e: Engine, g: Geometry, epsg: int): Value {
    Num(e.area(g, epsg) / 1000000.0)
  }

  /** The area column: each geometry's area on the grid, in square
      kilometres. */
  function Areas(d: Frame, epsg: int, e: Engine): (vs: seq<Value>)
    ensures |vs| == |d.rows|
    ensures forall j :: 0 <= j < |d.rows| ==> vs[j] == AreaCell(e, GeomOf(Cell(d.rows[j], GeometryColumn)), epsg)
  {
    seq(|d.rows|, j requires 0 <= j < |d.rows| => AreaCell(e, GeomOf(Cell(d.rows[j], GeometryColumn)), epsg))
  }

  /** What one pass of the cascade writes for a level: the frame dissolved
      on the level's P-code, its areas on the grid that suits the whole
      layer's latitudes, and the level's columns. The P-code sort that
      follows changes nothing, since the dissolve already sorts on it. */
  function Dissolved1a(g: Frame, level: int, e: Engine): (r: Result<Frame>)
    requires Valid(g) && level >= 0
    ensures r.Ok? ==> Valid(r.value) && r.value.columns == LevelColumns(g.columns, level)
  {
    var key := [PcodeColumn(level)];
    assert PcodeColumn(level)[0] == 'A';
    var d :- DissolveBy(g, key);
    Select(WithArea(d, e), LevelColumns(g.columns, level))
  }

  /** The grid for a layer: the one that suits the latitudes of all its
      geometries. */
  function LayerEpsg(d: Frame, e: Engine): int {
    EaseForBounds(e.latitudes(UnionGeometry(d.rows)))
  }

  /** `gdf["AREA_SQKM"] = ...` on the dissolved frame. */
  function WithArea(d: Frame, e: Engine): (a: Frame)
    requires Valid(d)
    ensures Valid(a) && |a.rows| == |d.rows|
    ensures a.columns == if "AREA_SQKM" in d.columns then d.columns else d.columns + ["AREA_SQKM"]
  {
    SetColumn(d, "AREA_SQKM", Areas(d, LayerEpsg(d, e), e))
  }


  /** The area column is never a P-code column. */
  lemma PcodeNotArea(level: int)
    ensures PcodeColumn(level) != "AREA_SQKM" && PcodeColumn(level) != GeometryColumn
  {
    var c := PcodeColumn(level);
    assert c[|c| - 1] == 'E';
    assert c[0] == 'A';
  }

  /** Every level keeps its own P-code and the tail columns. */
  lemma {:induction false} TailInLevel(cols: seq<string>, level: int)
    ensures forall c :: c in TailColumns ==> c in LevelColumns(cols, level)
    ensures level >= 0 ==> PcodeColumn(level) in LevelColumns(cols, level)
    decreases level
  {
    if level >= 0 {
      TailInLevel(cols, level - 1);
    }
  }

  /** A pass fails exactly when the frame lacks one of the level's columns
      other than the area, which the pass adds: the P-code of the level or
      of a level above, the geometry, date, validOn or validTo. */
  lemma Dissolved1aFails(g: Frame, level: int, e: Engine)
    requires Valid(g) && level >= 0
    ensures Dissolved1a(g, level, e).Err? <==>
      exists c :: c in LevelColumns(g.columns, level) && c != "AREA_SQKM" && c !in g.columns
  {
    PcodeNotArea(level);
    if DissolveBy(g, [PcodeColumn(level)]).Ok? {
      SelectStepFails(g, level, e);
    } else {
      TailInLevel(g.columns, level);
      var m := Missing([PcodeColumn(level), GeometryColumn], g.columns).value;
      assert m in LevelColumns(g.columns, level) && m != "AREA_SQKM" && m !in g.columns;
    }
  }

  /** Once the dissolve succeeds, only the selection can fail. */
  lemma SelectStepFails(g: Frame, level: int, e: Engine)
    requires Valid(g) && level >= 0
    requires DissolveBy(g, [PcodeColumn(level)]).Ok?
    ensures Dissolved1a(g, level, e).Err? <==>
      exists c :: c in LevelColumns(g.columns, level) && c != "AREA_SQKM" && c !in g.columns
  {
    var key := [PcodeColumn(level)];
    var cols := LevelColumns(g.columns, level);
    PcodeNotArea(level);
    LevelColumnsDistinct(g.columns, level);
    var d := DissolveBy(g, key).value;
    var a := WithArea(d, e);
    DissolveKeepsColumns(g, key);
    WithAreaColumnSet(d, e);
    SelectMissing(a, cols, ColumnSet(g.columns));
    Dissolved1aUnfold(g, level, e);
  }

  /** A pass whose dissolve succeeds is the selection after the area. */
  lemma Dissolved1aUnfold(g: Frame, level: int, e: Engine)
    requires Valid(g) && level >= 0
    requires DissolveBy(g, [PcodeColumn(level)]).Ok?
    ensures Dissolved1a(g, level, e) ==
      Select(WithArea(DissolveBy(g, [PcodeColumn(level)]).value, e), LevelColumns(g.columns, level))
  {
    PcodeNotArea(level);
  }

  lemma WithAreaColumnSet(d: Frame, e: Engine)
    requires Valid(d)
    ensures ColumnSet(WithArea(d, e).columns) == ColumnSet(d.columns) + {"AREA_SQKM"}
  {
  }

  lemma DissolveKeepsColumns(g: Frame, key: seq<string>)
    requires Valid(g) && Distinct(key) && GeometryColumn !in key
    requires DissolveBy(g, key).Ok?
    ensures ColumnSet(DissolveBy(g, key).value.columns) == ColumnSet(g.columns)
  {
    assert ColumnSet(key + [GeometryColumn]) <= ColumnSet(g.columns);
  }

  /** Selecting distinct columns from a frame that has `have` plus the
      area fails exactly when one of them is neither. */
  lemma SelectMissing(a: Frame, cols: seq<string>, have: set<string>)
    requires Valid(a) && Distinct(cols)
    requires ColumnSet(a.columns) == have + {"AREA_SQKM"}
    ensures Select(a, cols).Err? <==> exists c :: c in cols && c != "AREA_SQKM" && c !in have
  {
    if Select(a, cols).Err? {
      var m := Missing(cols, a.columns).value;
      assert m !in ColumnSet(a.columns);
    } else {
      assert forall c :: c in cols ==> c in ColumnSet(a.columns);
    }
  }



  /** The dissolved frame of a pass, before its area and selection. */
  function PassDissolved(g: Frame, level: int): (d: Frame)
    requires Valid(g) && level >= 0
    requires DissolveBy(g, [PcodeColumn(level)]).Ok?
    ensures Valid(d) && GeometryColumn in d.columns
  {
    PcodeNotArea(level);
    var d := DissolveBy(g, [PcodeColumn(level)]).value;
    DissolveOnePerKey(g, [PcodeColumn(level)]);
    assert GeometryColumn in ColumnSet(d.columns);
    d
  }

  /** The facts every row lemma of a pass starts from: the dissolve
      succeeded, and the pass's frame is the selection of the level's
      columns from the dissolved frame with its areas. */
  lemma PassParts(g: Frame, level: int, e: Engine)
    requires Valid(g) && level >= 0
    requires Dissolved1a(g, level, e).Ok?
    ensures DissolveBy(g, [PcodeColumn(level)]).Ok?
    ensures var d := PassDissolved(g, level); var cols := LevelColumns(g.columns, level);
      && Select(WithArea(d, e), cols) == Dissolved1a(g, level, e)
      && PcodeColumn(level) in cols && GeometryColumn in cols && "AREA_SQKM" in cols
      && PcodeColumn(level) != GeometryColumn && PcodeColumn(level) != "AREA_SQKM"
  {
    PcodeNotArea(level);
    TailInLevel(g.columns, level);
    assert GeometryColumn in TailColumns && "AREA_SQKM" in TailColumns;
    Dissolved1aUnfold(g, level, e);
  }

  /** The keys a pass writes: one row per distinct non-null P-code of the
      level, in strictly ascending P-code order. */
  lemma Dissolved1aKeys(g: Frame, level: int, e: Engine)
    requires Valid(g) && level >= 0
    requires Dissolved1a(g, level, e).Ok?
    ensures var r := Dissolved1a(g, level, e).value; var key := [PcodeColumn(level)];
      && StrictlySorted(FrameKeys(r, key))
      && forall k :: k in FrameKeys(r, key) <==> exists i :: 0 <= i < |g.rows| && KeyOf(g.rows[i], key) == Some(k)
  {
    PassParts(g, level, e);
    var key, cols := [PcodeColumn(level)], LevelColumns(g.columns, level);
    var d := PassDissolved(g, level);
    var r := Dissolved1a(g, level, e).value;
    SamePassKeys(g, level, e, d, r);
    DissolveOnePerKey(g, key);
  }

  /** A pass keeps the dissolved frame's keys. */
  lemma SamePassKeys(g: Frame, level: int, e: Engine, d: Frame, r: Frame)
    requires Valid(g) && level >= 0
    requires DissolveBy(g, [PcodeColumn(level)]).Ok? && d == PassDissolved(g, level)
    requires Select(WithArea(d, e), LevelColumns(g.columns, level)) == Ok(r)
    requires PcodeColumn(level) in LevelColumns(g.columns, level) && PcodeColumn(level) != "AREA_SQKM"
    requires GeometryColumn in LevelColumns(g.columns, level)
    ensures |r.rows| == |d.rows| && FrameKeys(d, [PcodeColumn(level)]) == FrameKeys(r, [PcodeColumn(level)])
  {
    var key, cols := [PcodeColumn(level)], LevelColumns(g.columns, level);
    SelectedCells(d, WithArea(d, e), r, cols, e);
    assert forall j :: 0 <= j < |d.rows| ==> Cell(r.rows[j], key[0]) == Cell(d.rows[j], key[0]);
    SameKeys(d, r, key);
  }

  /** The geometry of each row a pass writes is the union of its group's
      geometries. */
  lemma Dissolved1aGeometry(g: Frame, level: int, e: Engine)
    requires Valid(g) && level >= 0
    requires Dissolved1a(g, level, e).Ok?
    ensures var r := Dissolved1a(g, level, e).value; var key := [PcodeColumn(level)];
      forall j :: 0 <= j < |r.rows| ==>
        Cell(r.rows[j], GeometryColumn) == Geom(UnionGeometry(Group(g.rows, key, FrameKeys(r, key)[j])))
  {
    PassParts(g, level, e);
    var key, cols := [PcodeColumn(level)], LevelColumns(g.columns, level);
    var d := PassDissolved(g, level);
    var r := Dissolved1a(g, level, e).value;
    SamePassKeys(g, level, e, d, r);
    assert forall j :: 0 <= j < |r.rows| ==> Cell(r.rows[j], GeometryColumn) == Cell(d.rows[j], GeometryColumn) by {
      SelectedCells(d, WithArea(d, e), r, cols, e);
    }
    TransferGeometry(g, key, d, r);
  }

  lemma TransferGeometry(g: Frame, key: seq<string>, d: Frame, r: Frame)
    requires Valid(g) && |key| == 1 && key[0] != GeometryColumn && DissolveBy(g, key) == Ok(d)
    requires |r.rows| == |d.rows| && FrameKeys(d, key) == FrameKeys(r, key)
    requires forall j :: 0 <= j < |r.rows| ==> Cell(r.rows[j], GeometryColumn) == Cell(d.rows[j], GeometryColumn)
    ensures forall j :: 0 <= j < |r.rows| ==>
      Cell(r.rows[j], GeometryColumn) == Geom(UnionGeometry(Group(g.rows, key, FrameKeys(r, key)[j])))
  {
    DissolveOnePerKey(g, key);
    assert GeometryColumn in ColumnSet(d.columns);
  }

  /** The area of each row a pass writes is its geometry's area, in
      square kilometres, on the equal-area grid that suits the latitudes
      of the whole file. */
  lemma Dissolved1aArea(g: Frame, level: int, e: Engine)
    requires Valid(g) && level >= 0
    requires Dissolved1a(g, level, e).Ok?
    ensures var r := Dissolved1a(g, level, e).value;
      forall j :: 0 <= j < |r.rows| ==>
        Cell(r.rows[j], "AREA_SQKM") == AreaCell(e, GeomOf(Cell(r.rows[j], GeometryColumn)), LayerEpsg(r, e))
  {
    PassParts(g, level, e);
    var d := PassDissolved(g, level);
    SelectKeepsArea(d, Dissolved1a(g, level, e).value, LevelColumns(g.columns, level), e);
  }

  /** Every other column of a row a pass writes holds the first non-null
      value of its group. */
  lemma Dissolved1aCells(g: Frame, level: int, e: Engine)
    requires Valid(g) && level >= 0
    requires Dissolved1a(g, level, e).Ok?
    ensures var r := Dissolved1a(g, level, e).value; var key := [PcodeColumn(level)];
      forall j, c :: 0 <= j < |r.rows| && c in r.columns && c !in key && c != GeometryColumn && c != "AREA_SQKM" ==>
        Cell(r.rows[j], c) == FirstNonNull(Group(g.rows, key, FrameKeys(r, key)[j]), c)
  {
    PassParts(g, level, e);
    var key, cols := [PcodeColumn(level)], LevelColumns(g.columns, level);
    var d := PassDissolved(g, level);
    var r := Dissolved1a(g, level, e).value;
    SamePassKeys(g, level, e, d, r);
    assert forall j, c :: 0 <= j < |r.rows| && c in r.columns && c != "AREA_SQKM" ==>
      c in d.columns && Cell(r.rows[j], c) == Cell(d.rows[j], c)
    by {
      SelectedCells(d, WithArea(d, e), r, cols, e);
      assert Missing(cols, WithArea(d, e).columns).None?;
      forall j, c | 0 <= j < |r.rows| && c in r.columns && c != "AREA_SQKM"
        ensures c in d.columns && Cell(r.rows[j], c) == Cell(d.rows[j], c)
      {
        assert c in WithArea(d, e).columns;
        assert r.rows[j][c] == d.rows[j][c];
      }
    }
    TransferCells(g, key, d, r);
  }

  lemma TransferCells(g: Frame, key: seq<string>, d: Frame, r: Frame)
    requires Valid(g) && |key| == 1 && key[0] != GeometryColumn && DissolveBy(g, key) == Ok(d)
    requires |r.rows| == |d.rows| && FrameKeys(d, key) == FrameKeys(r, key)
    requires forall j, c :: 0 <= j < |r.rows| && c in r.columns && c != "AREA_SQKM" ==>
      c in d.columns && Cell(r.rows[j], c) == Cell(d.rows[j], c)
    ensures forall j, c :: 0 <= j < |r.rows| && c in r.columns && c !in key && c != GeometryColumn && c != "AREA_SQKM" ==>
      Cell(r.rows[j], c) == FirstNonNull(Group(g.rows, key, FrameKeys(r, key)[j]), c)
  {
    DissolveOnePerKey(g, key);
  }

  /** Rows that agree on the key cell have the same keys. */
  lemma SameKeys(d: Frame, r: Frame, key: seq<string>)
    requires |d.rows| == |r.rows| && |key| == 1
    requires forall j :: 0 <= j < |d.rows| ==> Cell(r.rows[j], key[0]) == Cell(d.rows[j], key[0])
    ensures FrameKeys(d, key) == FrameKeys(r, key)
  {
    forall j | 0 <= j < |d.rows| ensures RowKey(d.rows[j], key) == RowKey(r.rows[j], key) {
      assert RowKey(d.rows[j], key)[0] == RowKey(r.rows[j], key)[0];
    }
  }

  lemma SelectKeepsArea(d: Frame, r: Frame, cols: seq<string>, e: Engine)
    requires Valid(d) && Select(WithArea(d, e), cols) == Ok(r)
    requires GeometryColumn in cols && "AREA_SQKM" in cols && GeometryColumn in d.columns
    ensures forall j :: 0 <= j < |r.rows| ==>
      Cell(r.rows[j], "AREA_SQKM") == AreaCell(e, GeomOf(Cell(r.rows[j], GeometryColumn)), LayerEpsg(r, e))
  {
    SelectedCells(d, WithArea(d, e), r, cols, e);
    SameGeometryUnion(r.rows, d.rows);
    var epsg := LayerEpsg(d, e);
    assert LayerEpsg(r, e) == epsg;
    forall j | 0 <= j < |r.rows|
      ensures Cell(r.rows[j], "AREA_SQKM") == AreaCell(e, GeomOf(Cell(r.rows[j], GeometryColumn)), LayerEpsg(r, e))
    {
      var x := GeomOf(Cell(r.rows[j], GeometryColumn));
      assert x == GeomOf(d.rows[j][GeometryColumn]);
      assert r.rows[j]["AREA_SQKM"] == AreaCell(e, GeomOf(d.rows[j][GeometryColumn]), LayerEpsg(d, e));
      assert Cell(r.rows[j], "AREA_SQKM") == r.rows[j]["AREA_SQKM"];
    }
  }

  /** Rows with the same geometries have the same union. */
  lemma {:induction false} SameGeometryUnion(x: seq<Row>, y: seq<Row>)
    requires |x| == |y| && forall j :: 0 <= j < |x| ==> Cell(x[j], GeometryColumn) == Cell(y[j], GeometryColumn)
    ensures UnionGeometry(x) == UnionGeometry(y)
  {
    if x != [] {
      SameGeometryUnion(x[1..], y[1..]);
    }
  }

  /** One row of the selection after the area: its other cells are the
      row's own, and its area cell is the value added. */
  lemma SelectedRow(row: Row, v: Value, cols: seq<string>, out: Row)
    requires out == Restrict(row["AREA_SQKM" := v], ColumnSet(cols))
    ensures forall c :: c in cols && c != "AREA_SQKM" && c in row ==> c in out && out[c] == row[c]
    ensures "AREA_SQKM" in cols ==> "AREA_SQKM" in out && out["AREA_SQKM"] == v
  {
    assert forall c :: c in cols ==> c in ColumnSet(cols);
  }

  /** The selection after the area is, row by row, the row with its area
      added, cut down to the selected columns. */
  lemma SelectedShape(d: Frame, a: Frame, r: Frame, cols: seq<string>, e: Engine)
    requires Valid(d) && a == WithArea(d, e) && Select(a, cols) == Ok(r)
    ensures |r.rows| == |d.rows| && r.columns == cols && Valid(r)
    ensures forall c :: c in cols && c != "AREA_SQKM" ==> c in d.columns
    ensures forall j :: 0 <= j < |r.rows| ==>
      r.rows[j] == Restrict(d.rows[j]["AREA_SQKM" := Areas(d, LayerEpsg(d, e), e)[j]], ColumnSet(cols))
  {
  }

  /** The selection after the area keeps the dissolved cells and the
      area of each row. */
  lemma SelectedCells(d: Frame, a: Frame, r: Frame, cols: seq<string>, e: Engine)
    requires Valid(d) && a == WithArea(d, e) && Select(a, cols) == Ok(r)
    requires GeometryColumn in cols && GeometryColumn in d.columns
    ensures |r.rows| == |d.rows| && r.columns == cols && Valid(r)
    ensures forall c :: c in cols && c != "AREA_SQKM" ==> c in d.columns
    ensures forall j, c :: 0 <= j < |r.rows| && c in cols && c != "AREA_SQKM" ==> r.rows[j][c] == d.rows[j][c]
    ensures forall j :: 0 <= j < |r.rows| ==> Cell(r.rows[j], GeometryColumn) == Cell(d.rows[j], GeometryColumn)
    ensures "AREA_SQKM" in cols ==> forall j :: 0 <= j < |r.rows| ==>
      r.rows[j]["AREA_SQKM"] == AreaCell(e, GeomOf(d.rows[j][GeometryColumn]), LayerEpsg(d, e))
  {
    SelectedShape(d, a, r, cols, e);
    var vals := Areas(d, LayerEpsg(d, e), e);
    forall j | 0 <= j < |r.rows|
      ensures forall c :: c in cols && c != "AREA_SQKM" ==> r.rows[j][c] == d.rows[j][c]
      ensures Cell(r.rows[j], GeometryColumn) == Cell(d.rows[j], GeometryColumn)
      ensures "AREA_SQKM" in cols ==> r.rows[j]["AREA_SQKM"] == vals[j]
    {
      SelectedRow(d.rows[j], vals[j], cols, r.rows[j]);
    }
  }

  // ---------------------------------------------------------------------
  // The cascade of passes
  // ---------------------------------------------------------------------

  /** What `dissolve_and_save` writes: a file per level from `level` down
      to 0, each pass working on the frame the previous pass wrote. */
  function Cascade1a(g: Frame, iso3: string, level: int, e: Engine): Result<seq<Output>>
    requires Valid(g)
    decreases level
  {
    if level < 0 then Ok([])
    else
      var h :- Dissolved1a(g, level, e);
      var rest :- Cascade1a(h, iso3, level - 1, e);
      Ok([ToParquet(h, iso3, level, "1a")] + rest)
  }

  /** A cascade's files from `level` down: one per level, finest first,
      each named for its country and level in the level-1a directory, with
      that level's columns of the frame `cols` came from and one row per
      P-code of the level, in ascending order. */
  predicate Level1aFiles(outs: seq<Output>, iso3: string, level: int, cols: seq<string>) {
    && |outs| == (if level < 0 then 0 else level + 1)
    && forall j :: 0 <= j < |outs| ==> Level1aFile(outs[j], iso3, level - j, cols)
  }

  /** The file of level `m`: its path, its columns, and its codes sorted
      and distinct. */
  predicate Level1aFile(o: Output, iso3: string, m: int, cols: seq<string>) {
    && o.path == Path(ProcessingLevels["1a"], FileName(iso3, m))
    && o.frame.columns == LevelColumns(cols, m)
    && StrictlySorted(FrameKeys(o.frame, [PcodeColumn(m)]))
  }

  /** The cascade writes the files `Level1aFiles` describes. */
  lemma {:induction false} Cascade1aShape(g: Frame, iso3: string, level: int, e: Engine, outs: seq<Output>)
    requires Valid(g)
    requires Cascade1a(g, iso3, level, e) == Ok(outs)
    ensures Level1aFiles(outs, iso3, level, g.columns)
    decreases level
  {
    if level >= 0 {
      var h := Dissolved1a(g, level, e).value;
      var rest := Cascade1a(h, iso3, level - 1, e).value;
      Dissolved1aKeys(g, level, e);
      Cascade1aShape(h, iso3, level - 1, e, rest);
      var o := ToParquet(h, iso3, level, "1a");
      assert Level1aFile(o, iso3, level, g.columns);
      FilesCons(o, iso3, level, rest, outs, g.columns);
    }
  }

  /** A level's file in front of the files below it. */
  lemma FilesCons(o: Output, iso3: string, level: int, rest: seq<Output>, outs: seq<Output>, cols: seq<string>)
    requires level >= 0 && Level1aFile(o, iso3, level, cols)
    requires Level1aFiles(rest, iso3, level - 1, o.frame.columns)
    requires outs == [o] + rest
    ensures Level1aFiles(outs, iso3, level, cols)
  {
    forall j | 0 <= j < |outs| ensures Level1aFile(outs[j], iso3, level - j, cols) {
      if j > 0 {
        assert outs[j] == rest[j - 1];
        FileBelow(rest[j - 1], iso3, level - j, o.frame.columns, cols, level);
      }
    }
  }

  /** A lower level's file of a level's file is that lower level's file of
      the frame the level's file came from. */
  lemma FileBelow(r: Output, iso3: string, m: int, outer: seq<string>, cols: seq<string>, level: int)
    requires m <= level && outer == LevelColumns(cols, level)
    requires Level1aFile(r, iso3, m, outer)
    ensures Level1aFile(r, iso3, m, cols)
  {
    LevelColumnsNested(cols, level, m);
  }

  /** The columns a lower level needs are among those of a level's file. */
  lemma LevelColumnsShrink(cols: seq<string>, level: int, m: int)
    requires m <= level
    ensures forall c :: c in LevelColumns(cols, m) ==> c in LevelColumns(cols, level)
  {
    LevelColumnsMembers(cols, m);
    LevelColumnsMembers(cols, level);
  }

  /** Once a pass has written a level's file, every pass below it
      succeeds: the file already holds every column they select. */
  lemma {:induction false} CascadeAfterPass(h: Frame, iso3: string, m: int, e: Engine, cols: seq<string>, level: int)
    requires Valid(h) && h.columns == LevelColumns(cols, level) && m <= level
    ensures Cascade1a(h, iso3, m, e).Ok?
    decreases m
  {
    if m >= 0 {
      LevelColumnsNested(cols, level, m);
      LevelColumnsShrink(cols, level, m);
      Dissolved1aFails(h, m, e);
      var h2 := Dissolved1a(h, m, e).value;
      CascadeAfterPass(h2, iso3, m - 1, e, cols, m);
    }
  }

  /** The cascade fails exactly when its first pass does, that is when the
      frame lacks a column the finest level keeps. */
  lemma Cascade1aFails(g: Frame, iso3: string, level: int, e: Engine)
    requires Valid(g) && level >= 0
    ensures Cascade1a(g, iso3, level, e).Err? <==>
      exists c :: c in LevelColumns(g.columns, level) && c != "AREA_SQKM" && c !in g.columns
  {
    Dissolved1aFails(g, level, e);
    if Dissolved1a(g, level, e).Ok? {
      var h := Dissolved1a(g, level, e).value;
      CascadeAfterPass(h, iso3, level - 1, e, g.columns, level);
    }
  }

  /** The columns `dissolve_and_save` selects for a level, collected level
      by level. */
  method CollectColumns(cols: seq<string>, level: int) returns (r: seq<string>)
    ensures r == LevelColumns(cols, level)
  {
    r := [];
    var l := level;
    while l >= 0
      invariant l <= level
      invariant r + LevelColumns(cols, l) == LevelColumns(cols, level)
      decreases l
    {
      var here := Filter(cols, NameOf(l)) + [PcodeColumn(l)];
      assert LevelColumns(cols, l) == here + LevelColumns(cols, l - 1);
      assert r + LevelColumns(cols, l) == (r + here) + LevelColumns(cols, l - 1);
      r := r + here;
      l := l - 1;
    }
    r := r + TailColumns;
  }

  /** One pass of the cascade: its file, then the cascade below it. */
  lemma CascadeStep(g: Frame, iso3: string, level: int, e: Engine)
    requires Valid(g) && level >= 0
    ensures Dissolved1a(g, level, e).Err? ==> Cascade1a(g, iso3, level, e) == Err(Dissolved1a(g, level, e).error)
    ensures Dissolved1a(g, level, e).Ok? ==>
      var h := Dissolved1a(g, level, e).value;
      Cascade1a(g, iso3, level, e) == Prepend([ToParquet(h, iso3, level, "1a")], Cascade1a(h, iso3, level - 1, e))
  {
  }

  /** A pass whose dissolve fails fails with the dissolve's error. */
  lemma Dissolved1aDissolveErr(g: Frame, level: int, e: Engine)
    requires Valid(g) && level >= 0
    requires DissolveBy(g, [PcodeColumn(level)]).Err?
    ensures Dissolved1a(g, level, e) == Err(DissolveBy(g, [PcodeColumn(level)]).error)
  {
    PcodeNotArea(level);
  }

  /** `dissolve_and_save(gdf, iso3, admin_levels)`. */
  method DissolveAndSave(g0: Frame, iso3: string, levels: int, e: Engine) returns (r: Result<seq<Output>>)
    requires Valid(g0)
    ensures r == Cascade1a(g0, iso3, levels, e)
  {
    var g := g0;
    var outs: seq<Output> := [];
    var level := levels;
    PrependNothing(Cascade1a(g0, iso3, levels, e));
    while level >= 0
      invariant Valid(g) && level <= levels
      invariant Cascade1a(g0, iso3, levels, e) == Prepend(outs, Cascade1a(g, iso3, level, e))
      decreases level
    {
      var columns := CollectColumns(g.columns, level);
      var key := [PcodeColumn(level)];
      PcodeNotArea(level);
      CascadeStep(g, iso3, level, e);
      var d := DissolveBy(g, key);
      if d.Err? {
        Dissolved1aDissolveErr(g, level, e);
        assert Cascade1a(g, iso3, level, e) == Err(d.error);
        return Err(d.error);
      }
      Dissolved1aUnfold(g, level, e);
      var s := Select(WithArea(d.value, e), columns);
      assert Dissolved1a(g, level, e) == s;
      if s.Err? {
        assert Cascade1a(g, iso3, level, e) == Err(s.error);
        return Err(s.error);
      }
      var out := ToParquet(s.value, iso3, level, "1a");
      PrependTwice(outs, [out], Cascade1a(s.value, iso3, level - 1, e));
      g := s.value;
      outs := outs + [out];
      level := level - 1;
    }
    assert Cascade1a(g, iso3, level, e) == Ok([]);
    assert outs + [] == outs;
    return Ok(outs);
  }

  // ---------------------------------------------------------------------
  // One country (app/level_1a.py, the body of main's loop)
  // ---------------------------------------------------------------------

  /** The sources level 1a reads from, in order of preference. */
  const Level1aSources := ["fix", "hdx", "itos"]

  /** The country's file of one level, from the first source that has it. */
  function LevelFile(store: Store, iso3: string, level: int): Option<Frame> {
    FirstSource(store, Level1aSources, FileName(iso3, level))
  }

  /** The search from `level` down to 0 for the finest level with a file:
      that level and its file, or level 0 and no file when none has one. */
  function Finest(store: Store, iso3: string, level: int): (r: (int, Option<Frame>))
    requires level >= 0
    ensures 0 <= r.0 <= level && r.1 == LevelFile(store, iso3, r.0)
    decreases level
  {
    var f := LevelFile(store, iso3, level);
    if f.Some? || level == 0 then (level, f) else Finest(store, iso3, level - 1)
  }

  /** The search finds a file exactly when some level has one, and then
      no finer level has one; when it finds none it settles on level 0. */
  lemma {:induction false} FinestIsFinest(store: Store, iso3: string, level: int)
    requires level >= 0
    ensures var r := Finest(store, iso3, level);
      && (r.1.None? <==> forall l :: 0 <= l <= level ==> LevelFile(store, iso3, l).None?)
      && (r.1.Some? ==> forall l :: r.0 < l <= level ==> LevelFile(store, iso3, l).None?)
      && (r.1.None? ==> r.0 == 0)
    decreases level
  {
    if LevelFile(store, iso3, level).None? && level > 0 {
      FinestIsFinest(store, iso3, level - 1);
    }
  }

  /** The level and file a country starts from: the configured level and
      its file (if any), or else the finest level that has a file. */
  function ChooseInput(store: Store, iso3: string, cfg: FixRules): (r: (int, Option<Frame>))
    ensures r.1 == LevelFile(store, iso3, r.0)
    ensures cfg.level.Some? ==> r.0 == cfg.level.value
    ensures cfg.level.None? ==> r == Finest(store, iso3, AdminLevelMax)
  {
    if cfg.level.Some? then (cfg.level.value, LevelFile(store, iso3, cfg.level.value))
    else Finest(store, iso3, AdminLevelMax)
  }

  /** A file taken from a well-formed store is well formed. */
  lemma LevelFileValid(store: Store, iso3: string, level: int)
    requires ValidStore(store)
    ensures LevelFile(store, iso3, level).Some? ==> Valid(LevelFile(store, iso3, level).value)
  {
    FirstSourceChoice(store, Level1aSources, FileName(iso3, level));
  }

  /** The layer the cascade starts from: the rules, the automatic fixes
      and the name fixes applied in turn to the input file. */
  function Prepared(f: Frame, iso3: string, iso2: string, level: int, cfg: FixRules, m49: M49, e: Engine)
    : (r: Result<Frame>)
    requires Valid(f)
    ensures r.Ok? ==> Valid(r.value)
  {
    var a :- Interpret(f, Steps(cfg), e);
    var b :- AutomaticFixed(a, e);
    NameFixed(b, iso3, iso2, level, m49)
  }

  /** What level 1a writes for one country: nothing without an input file;
      otherwise the cascade of dissolves, from the file's level down, of
      the prepared layer. */
  function Level1aRun(store: Store, iso3: string, iso2: string, cfg: FixRules, m49: M49, e: Engine)
    : Result<seq<Output>>
    requires ValidStore(store)
  {
    var level, file := ChooseInput(store, iso3, cfg).0, ChooseInput(store, iso3, cfg).1;
    if file.None? then Ok([])
    else
      LevelFileValid(store, iso3, level);
      var c :- Prepared(file.value, iso3, iso2, level, cfg, m49, e);
      Cascade1a(c, iso3, level, e)
  }

  /** The country's files: none when no input was found; otherwise one per
      level from the starting level down to 0, finest first, each named
      for the country and its level in the level-1a directory, no two at
      the same path. */
  lemma Level1aRunFiles(store: Store, iso3: string, iso2: string, cfg: FixRules, m49: M49, e: Engine,
                        outs: seq<Output>)
    requires ValidStore(store)
    requires Level1aRun(store, iso3, iso2, cfg, m49, e) == Ok(outs)
    ensures var level, file := ChooseInput(store, iso3, cfg).0, ChooseInput(store, iso3, cfg).1;
      && (file.None? ==> outs == [])
      && (file.Some? ==> |outs| == (if level < 0 then 0 else level + 1))
      && (file.Some? ==> forall j :: 0 <= j < |outs| ==>
            outs[j].path == Path(ProcessingLevels["1a"], FileName(iso3, level - j)))
      && (forall j, k :: 0 <= j < k < |outs| ==> outs[j].path != outs[k].path)
  {
    var level, file := ChooseInput(store, iso3, cfg).0, ChooseInput(store, iso3, cfg).1;
    RunIsCascade(store, iso3, iso2, cfg, m49, e, outs);
    if file.Some? {
      var c := Prepared(file.value, iso3, iso2, level, cfg, m49, e).value;
      Cascade1aShape(c, iso3, level, e, outs);
      FilesDistinct(outs, iso3, level, c.columns);
      forall j | 0 <= j < |outs| ensures outs[j].path == Path(ProcessingLevels["1a"], FileName(iso3, level - j)) {
        assert Level1aFile(outs[j], iso3, level - j, c.columns);
      }
    }
  }

  /** A run that succeeds is the cascade of the prepared input layer. */
  lemma RunIsCascade(store: Store, iso3: string, iso2: string, cfg: FixRules, m49: M49, e: Engine,
                     outs: seq<Output>)
    requires ValidStore(store)
    requires Level1aRun(store, iso3, iso2, cfg, m49, e) == Ok(outs)
    ensures var level, file := ChooseInput(store, iso3, cfg).0, ChooseInput(store, iso3, cfg).1;
      && (file.None? ==> outs == [])
      && (file.Some? ==> Valid(file.value) && Prepared(file.value, iso3, iso2, level, cfg, m49, e).Ok?)
      && (file.Some? ==> Cascade1a(Prepared(file.value, iso3, iso2, level, cfg, m49, e).value, iso3, level, e) == Ok(outs))
  {
    var level, file := ChooseInput(store, iso3, cfg).0, ChooseInput(store, iso3, cfg).1;
    LevelFileValid(store, iso3, level);
  }

  /** The files of a cascade are at pairwise distinct paths. */
  lemma FilesDistinct(outs: seq<Output>, iso3: string, level: int, cols: seq<string>)
    requires Level1aFiles(outs, iso3, level, cols)
    ensures forall j, k :: 0 <= j < k < |outs| ==> outs[j].path != outs[k].path
  {
    forall j | 0 <= j < |outs| ensures outs[j].path.name == FileName(iso3, level - j) {
      assert Level1aFile(outs[j], iso3, level - j, cols);
    }
    NamesDistinct(outs, iso3, level);
  }


  /** The search of `main` for the finest level with a file, from the
      deepest level down, stopping at the first file found. */
  method FindInput(store: Store, iso3: string) returns (level: int, file: Option<Frame>)
    ensures (level, file) == Finest(store, iso3, AdminLevelMax)
  {
    level, file := AdminLevelMax, None;
    var l := AdminLevelMax;
    while l >= 0
      invariant -1 <= l <= AdminLevelMax
      invariant l >= 0 ==> Finest(store, iso3, AdminLevelMax) == Finest(store, iso3, l)
      invariant l < 0 ==> Finest(store, iso3, AdminLevelMax) == (level, file)
      decreases l
    {
      level := l;
      file := ReadParquet(store, Level1aSources, iso3, level);
      if file.Some? {
        assert Finest(store, iso3, l) == (level, file);
        break;
      }
      l := l - 1;
    }
  }

  /** One country of `main`: the input file chosen, the three kinds of
      fixes, and the dissolve-and-save cascade. */
  method Level1aCountry(store: Store, iso3: string, iso2: string, cfg: FixRules, m49: M49, e: Engine)
    returns (r: Result<seq<Output>>)
    requires ValidStore(store)
    ensures r == Level1aRun(store, iso3, iso2, cfg, m49, e)
  {
    var level: int, file: Option<Frame>;
    if cfg.level.Some? {
      level := cfg.level.value;
      file := ReadParquet(store, Level1aSources, iso3, level);
    } else {
      level, file := FindInput(store, iso3);
    }
    assert (level, file) == ChooseInput(store, iso3, cfg);
    if file.None? { return Ok([]); }
    LevelFileValid(store, iso3, level);
    var a := ConfigFixes(file.value, cfg, e);
    if a.Err? { return Err(a.error); }
    var b := AutomaticFixes(a.value, e);
    if b.Err? { return Err(b.error); }
    var c := NameFixes(b.value, iso3, iso2, level, m49);
    if c.Err? { return Err(c.error); }
    r := DissolveAndSave(c.value, iso3, level, e);
  }
}
