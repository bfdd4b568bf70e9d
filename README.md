# A Dafny model of the cod-stac boundary pipeline

This project is a model of the staged boundary pipeline of fieldmaps/cod-stac. The pipeline turns per-country administrative-boundary files into layers that are cleaned, aggregated level by level, edge-matched and uniformly named. The model is written in Dafny, and Dafny proves its properties. Each file of the pipeline has its own module:

- `Level1a` is the first pass over a country's raw layer (`app/level_1a.py`). It works in four steps:
  - It resolves the input level, either the configured one or the finest level that has a file.
  - It applies the country's fix rules in their fixed order: drop, duplicate, rename, title, replace, then the date and `validOn`.
  - It applies the automatic fixes: geometry repair, removal of `ValidTo`/`VALIDTO`, and a null `validTo`.
  - It runs the name fixes. The official ADM0 names come from the M49 table, and `ADM0_PCODE` falls back on the two-letter code. Apostrophes and invisible characters are replaced. Runs of spaces are collapsed, names are stripped, and blank cells become null.
  - Finally it runs the dissolve cascade, which writes one file per level with areas on the EASE grid.
- `Level1b` is the schema refactor (`app/level_1b.py`). Column names are lower-cased. The languages of the layer's own level are found. Each language's name columns are renamed to `adm{l}_name{i}`, and a `lang{i}` column records the language.
- `Level2a` appends the UN's additions and cuts a country's layer into the configured `==`/`!=` parts (`app/level_2a.py`).
- `Level2b` is the level-by-level dissolve of the extended layer (`app/level_2b.py`).
- `Level2l` derives each level's boundary lines: the child's outline less its parent's (`app/level_2l.py`).
- `Level3` clips every level to the country's UN outline (`app/level_3.py`).
- `Level3l` prepares the global lines and joins each country's global lines with its own clipped lines (`app/level_3l.py`).
- `Gdb3` holds the field list of the level-3 geodatabase and the line deduplication (`gdb3.py`).
- `Config` and `Utils` cover the constants, the ISO3 filter, the source resolver, the EASE grid choice, the file names and the per-country walks over levels (`app/config.py`, `app/utils.py`).

The modules share three more:

- `Text` holds Python's string primitives: `strip`, `replace`, `split`/`join`, case mapping (on ASCII letters only, see "## Left out"), numerals and string order.
- `Frames` holds the GeoDataFrame model and the pandas operations the pipeline uses.
- `Dissolve` models `dissolve` and keep-first deduplication.

The model rests on these choices:

- **Frames.** A `Frame` is a list of distinct column names and a list of rows. Each row is a map from every column to a `Value`: null, string, integer, number, date or geometry. `Valid` states that shape.
- **Files.** The file system is a `Store`, a map from `Path` to `Frame`. A stage's result is the list of `Output`s it writes.
- **Errors.** An exception from pandas (a missing column, a duplicate name, a missing file, a variable used before it is bound) is an `Err` of a `Result`.
- **Geometry.** A geometry is a set of points. Union, difference and clip become set union, difference and intersection.
- **Engine.** The numeric routines of the geometry engine and the date and title-case conversions are fields of an `Engine` value that every operation receives.
- **Partners.** Each operation of the pipeline is a method whose loop mirrors the source's. Its `ensures` ties it to a specification function, and lemmas prove what the function guarantees.

## Model

| member | source | states |
|---|---|---|
| Text.StripStart | app/level_1a.py:62 | the leading run that `str.strip()` removes is whitespace, and stops at a non-space |
| Text.StripEnd | app/level_1a.py:62 | the trailing run that `str.strip()` removes is whitespace, and starts after a non-space |
| Text.Strip | app/level_1a.py:62 | a blank string strips to ""; otherwise the result is the part between the first and the last non-whitespace character, and neither of its ends is whitespace |
| Text.StripCutsOnlySpace | app/level_1a.py:62 | stripping cuts off whitespace only |
| Text.StripIdempotent | app/level_1a.py:62 | stripping twice is stripping once |
| Text.StripKeepsAbsence | app/config.py:73 | stripping adds no character |
| Text.IsInfixAt | app/level_3l.py:37 | `sub in s` holds exactly when `sub` occurs at some position of `s` |
| Text.InfixWithin | app/level_3l.py:37 | a code occurs in any string built around it, as in a compound code such as "ABC-DEF" |
| Text.ReplaceAll | app/level_1a.py:58 | definition of `str.replace` with a literal pattern; its properties are stated by `Text.ReplaceAllSelf`, `Text.ReplaceAllAbsent` and `Text.ReplaceCharMembers` |
| Text.ReplaceAllSelf | app/level_1a.py:95 | replacing a pattern by itself changes nothing |
| Text.ReplaceAllAbsent | app/level_1a.py:58-60 | a pattern that does not occur leaves the string unchanged |
| Text.ReplaceCharMembers | app/level_1a.py:58-60 | after replacing a character, a character is present exactly when it was present and is not the replaced one, or the replaced one occurred and the character is in the replacement |
| Text.CollapseSpaces | app/level_1a.py:61 | definition of `replace(r" +", " ", regex=True)` on a string; its properties are stated by `Text.CollapseNoDouble`, `Text.CollapseFixpoint`, `Text.CollapseIdempotent` and `Text.CollapseMembers` |
| Text.CollapseHead | app/level_1a.py:61 | collapsing spaces keeps the first character |
| Text.CollapseNoDouble | app/level_1a.py:61 | after replacing `" +"` by `" "` no two spaces are adjacent |
| Text.CollapseFixpoint | app/level_1a.py:61 | a string without two adjacent spaces is left unchanged |
| Text.CollapseRewrite | app/level_1a.py:61 | two adjacent spaces anywhere may be replaced by one without changing the result |
| Text.CollapseIdempotent | app/level_1a.py:61 | collapsing twice is collapsing once |
| Text.CollapseMembers | app/level_1a.py:61 | collapsing removes spaces only: the result has the same characters as the input |
| Text.LowerNormal | app/utils.py:24 | `lower()` keeps the length, leaves no ASCII capital and is idempotent |
| Text.UpperNormal | app/config.py:73 | `upper()` keeps the length, leaves no ASCII small letter and is idempotent |
| Text.NatToString | app/utils.py:24 | the decimal numeral of a level is a non-empty digit string |
| Text.ParseNatToString | app/utils.py:24 | round trip: a numeral reads back as its number |
| Text.IntToStringSign | app/utils.py:24 | a numeral starts with '-' exactly for a negative number |
| Text.IntToStringInjective | app/utils.py:24 | different numbers give different numerals |
| Text.Split | app/config.py:73 | `str.split(",")` gives at least one piece |
| Text.SplitPiecesClean | app/config.py:73 | no piece of a split holds the separator |
| Text.JoinSplit | app/config.py:73 | joining the pieces of a split gives back the string |
| Text.SplitAtSep | app/level_1b.py:22 | splitting at the first separator gives the part before it, then the pieces of the rest |
| Text.SplitHead | app/level_1b.py:22 | the first piece of a split is a prefix of the string, and the whole string when the separator does not occur |
| Text.SplitJoin | gdb3.py:30 | splitting a join gives back the pieces when none holds the separator |
| Text.StrLessIrreflexive | app/level_2b.py:18 | no string sorts before itself |
| Text.StrLessTransitive | app/level_2b.py:18 | string order is transitive |
| Text.StrLessTotal | app/level_2b.py:18 | of two different strings one sorts before the other |
| Frames.Duplicate | app/level_1a.py:33 | there is no repeated column exactly when the names are distinct; a reported repeat is one of them |
| Frames.Missing | app/level_1a.py:33 | there is no missing name exactly when every listed name is a column; a reported one is listed and absent |
| Frames.Without | app/level_1a.py:72 | the names kept are exactly those listed and not dropped, in order, still distinct |
| Frames.DistinctCons | app/level_1a.py:33 | a new name in front of distinct names keeps them distinct |
| Frames.DistinctAppend | app/level_1a.py:33 | two groups of distinct, disjoint names stay distinct side by side |
| Frames.WithoutNone | app/level_1a.py:72 | dropping names that are not there changes nothing |
| Frames.WithoutAll | app/level_1a.py:72 | dropping every name leaves nothing |
| Frames.Filter | app/level_3.py:13 | boolean indexing keeps exactly the elements that pass, in order |
| Frames.FilterPartition | app/level_2a.py:29-32 | a test and its negation split a sequence: every element goes to one side, as often as it occurs |
| Frames.FilterAppend | app/level_3l.py:37-38 | filtering a concatenation is concatenating the filtered parts |
| Frames.FilterSame | app/level_3.py:13 | tests that agree on every element keep the same elements |
| Frames.FilterComplement | app/level_2a.py:29-32 | the `isin` part and the `~isin` part together hold every row once, and share none |
| Frames.FilterAll | app/level_3l.py:37 | a test every element passes keeps everything |
| Frames.FilterNone | app/level_3l.py:37 | a test no element passes keeps nothing |
| Frames.FilterDistinct | app/level_3.py:13 | filtering keeps distinct elements distinct |
| Frames.Column | app/level_1a.py:52 | a column holds each row's cell of that column, one per row |
| Frames.SetColumn | app/level_1a.py:32 | `gdf[c] = values` overwrites the column where it is or appends it, and sets row `i`'s cell to value `i` |
| Frames.Fill | app/level_1a.py:73 | `gdf[c] = v` overwrites or appends the column with `v` in every row |
| Frames.MapColumn | app/level_1a.py:62 | an element-wise operation replaces each cell of the column by its image and leaves the rest |
| Frames.DropColumns | app/level_1a.py:72 | `drop(columns=cs)` fails exactly when one of them is absent, naming it; otherwise it removes just those columns from every row |
| Frames.RenamedColumns | app/level_1a.py:85 | a rename maps each column name through the mapping, unlisted names unchanged |
| Frames.RenameRow | app/level_1a.py:85 | a renamed row holds each old cell under its new name |
| Frames.RenameInjective | app/level_1a.py:85 | a rename that keeps the names distinct never merges two columns |
| Frames.RenamedKeys | app/level_1a.py:85 | the renamed columns are the images of the old ones |
| Frames.Rename | app/level_1a.py:85 | `rename(columns=m)` succeeds exactly when no two columns end up with one name, and then holds each cell under its column's new name |
| Frames.Restrict | app/level_1a.py:33 | a row cut down to some columns keeps exactly those of its cells |
| Frames.Select | app/level_1a.py:33 | `gdf[cs]` fails on the first missing name, and otherwise holds exactly the listed columns, in that order, for every row |
| Frames.FilterRows | app/level_3.py:13 | boolean indexing keeps the columns and exactly the rows that pass, in order |
| Frames.Pad | app/level_2a.py:22 | concatenation widens a row to the union of the columns with nulls |
| Frames.PadAll | app/level_2a.py:22 | every widened row has exactly the union of the columns |
| Frames.ConcatColumns | app/level_2a.py:22 | the columns of `concat` are those of both frames, still distinct |
| Frames.Concat | app/level_2a.py:22 | `concat([a, b], ignore_index=True)` holds a's rows, then b's, each widened with nulls |
| Frames.ConcatRowAt | app/level_2a.py:22 | the row of b at `i` sits at `|a| + i` in the concatenation |
| Frames.SelectRowAt | app/level_1a.py:33 | the row at `k` of a selection is the row at `k` cut down to the selected columns |
| Dissolve.ValueLessIrreflexive | app/level_1a.py:29 | no key cell sorts before itself |
| Dissolve.ValueLessTransitive | app/level_1a.py:29 | the order of key cells is transitive |
| Dissolve.ValueLessTotal | app/level_1a.py:29 | of two different non-null, non-geometry key cells (integer, float, string or date) one sorts first |
| Dissolve.KeyLessIrreflexive | app/level_3l.py:25 | no key sorts before itself in the lexicographic order of multi-column keys |
| Dissolve.KeyLessTransitive | app/level_3l.py:25 | the key order is transitive |
| Dissolve.KeyLessTotal | app/level_3l.py:25 | of two different keys of non-null cells one sorts first |
| Dissolve.SortedDistinct | app/level_1a.py:29 | strictly sorted keys are pairwise different |
| Dissolve.SortedCons | app/level_1a.py:29 | a key below all keys of a sorted list can go in front |
| Dissolve.Insert | app/level_1a.py:29 | inserting a key keeps the list strictly sorted, adds that key and loses none |
| Dissolve.SortedKeys | app/level_1a.py:29 | the groups: exactly the distinct keys, strictly ascending |
| Dissolve.RowKey | app/level_3l.py:25 | a row's key holds its cell of each key column, in key order |
| Dissolve.KeyOf | app/level_1a.py:29 | dropna: a row belongs to no group exactly when one of its key cells is null; otherwise its group is its key, whatever the cells' type |
| Dissolve.KeysHeadTail | app/level_1a.py:29 | a key occurs among rows when it is the first row's or occurs among the rest |
| Dissolve.GroupKeys | app/level_1a.py:29 | the group keys are exactly the rows' keys without a null cell (dropna), integer, float, string and date cells alike |
| Dissolve.FirstNonNull | app/level_1a.py:29 | aggfunc "first": the value is some row's non-null cell, and null exactly when every row's cell is null |
| Dissolve.UnionGeometry | app/level_1a.py:29 | a group's geometry covers exactly the locations some member row covers |
| Dissolve.DissolvedColumns | app/level_1a.py:29 | the dissolved columns are the keys, the geometry and every other column, without repeats |
| Dissolve.AggregateRow | app/level_1a.py:29 | a dissolved row has exactly the dissolved columns |
| Dissolve.Groups | app/level_1a.py:29 | `dissolve(by)` forms one group per distinct key without a null cell, in ascending order |
| Dissolve.DissolveBy | app/level_1a.py:29 | `dissolve(by, as_index=False)` fails exactly when a key column or the geometry is missing, and otherwise holds one aggregated row per group |
| Dissolve.AggregateAll | app/level_1a.py:29 | one aggregated row per group, in group order |
| Dissolve.FrameKeys | app/level_1a.py:34 | a frame's keys are its rows' key cells, row by row |
| Dissolve.AggregateRowKey | app/level_1a.py:29 | a dissolved row carries its group's key in the key columns |
| Dissolve.DissolveOnePerKey | app/level_1a.py:29 | exactness of the dissolve: strictly ascending, distinct keys, exactly the input's keys without a null cell; each geometry is the union of the group's and every other cell the group's first non-null one |
| Dissolve.DissolveKeys | app/level_3l.py:25 | the keys of a dissolve are strictly ascending and distinct, and are exactly the input's keys without a null cell |
| Dissolve.DissolveAll | app/level_2l.py:16 | `dissolve()` with no key fails without a geometry column; otherwise it gives one row whose geometry is the union of all, or none for no rows |
| Dissolve.KeepFirst | gdb3.py:76 | definition of keep-first deduplication; stated by `Dissolve.KeepFirstKeys`, `Dissolve.KeepFirstDistinctKeys` and `Dissolve.KeepFirstPositions` |
| Dissolve.KeepFirstKeys | gdb3.py:76 | keep-first deduplication keeps only input elements and loses no key |
| Dissolve.KeepFirstDistinctKeys | app/level_1b.py:23 | no two kept elements share a key |
| Dissolve.SeenBeforePrefix | gdb3.py:76 | whether a key came earlier does not depend on the elements after it |
| Dissolve.FirstPositionsStep | gdb3.py:76 | one more element adds its position exactly when its key is new |
| Dissolve.KeepFirstPositions | gdb3.py:76 | the kept elements are the first of each key, in input order: ascending positions, exactly those without an earlier element of the same key |
| Dissolve.KeepFirstPrefix | gdb3.py:76 | the kept elements of each prefix sit at the positions of the first of each key in it |
| Config.ProcessingLevelsDistinct | app/config.py:21-43 | the seven processing levels write into seven distinct output directories |
| Config.CodeChar | app/level_1a.py:58 | a "U+XXXX" name decodes to a character only if everything after "U+" is hexadecimal, as `chr(int(char[2:], 16))` |
| Config.CharsOf | app/level_1a.py:57-60 | a character table stands for at most one character per name, and a character is in it exactly when some name of the table decodes to it |
| Config.CodeName | app/level_1a.py:58 | a six-character "U+XXXX" name decodes to the character whose code point its four hex digits spell |
| Config.CharsOfAll | app/level_1a.py:57-60 | a table whose every name decodes stands for exactly those characters, in table order |
| Config.InvisibleTable | app/config.py:59-68 | the invisible-character table stands for tab, line feed, carriage return, U+00A0, U+200C, U+200E, U+200F and U+FEFF, in that order |
| Config.ApostropheTable | app/config.py:69 | the apostrophe table stands for U+0060, U+2019 and U+2032, in that order |
| Config.CleanCodes | app/config.py:72-74 | cleaning keeps at most one code per piece, and a code is kept exactly when it is some non-blank piece upper-cased and stripped |
| Config.UpperKeepsBlank | app/config.py:73 | upper-casing neither creates nor removes blankness, and adds only ASCII capitals |
| Config.CleanPiece | app/config.py:73 | a non-blank piece without a comma, upper-cased and stripped, is a clean code: non-blank, stripped, upper-case, comma-free |
| Config.ParseIso3List | app/config.py:72-74 | definition of the ISO3 filter parsed from the environment; stated by `Config.ParsedCodesClean` and `Config.Iso3ListJoin` |
| Config.ParsedCodesClean | app/config.py:72-74 | every entry of the ISO3 filter is a clean code |
| Config.CleanCodesClean | app/config.py:72-74 | cleaning comma-free pieces yields only clean codes |
| Config.CleanCodesIdentity | app/config.py:72-74 | cleaning a list of clean codes changes nothing |
| Config.Iso3ListJoin | app/config.py:72-74 | round trip: the comma-joined list of clean codes parses back to the same list, the empty list included |
| Config.SyntheticCodes | app/config.py:76-93 | the three added registry entries have X-prefixed, pairwise distinct alpha-3 codes and numerics between 900 and 902 |
| Config.NumericNineHundreds | app/config.py:80-92 | a numeric "90d" is all digits and reads as 900 + d |
| Utils.AdmStem | app/level_1b.py:32-33 | the stem `adm{level}` starts with "ad", has at least four characters and holds no `_` and no comma |
| Utils.AdmPcode | app/level_1b.py:32-33 | the P-code column `adm{level}_pcode` starts with "ad" and is never the geometry column |
| Utils.AdmStemInjective | app/level_1b.py:32-33 | different levels have different stems |
| Utils.AdmStemPrefixUnique | app/level_1b.py:32-33 | a column name starts with `adm{level}_` for at most one level |
| Utils.UnderscorePrefix | app/level_1b.py:32-33 | two `_`-free prefixes each followed by `_` at the start of one string are equal |
| Utils.ParseIntToString | app/utils.py:24 | the decimal rendering of a level reads back as that level and contains neither `_` nor a comma |
| Utils.LastIndex | app/utils.py:24 | the last occurrence of a character: absent exactly when the character is, otherwise no later occurrence |
| Utils.LastIndexAfter | app/utils.py:24 | the last `_` of `x + "_" + y` is the one after `x` when `y` has none |
| Utils.FileName | app/utils.py:24 | definition of `f"{iso3.lower()}_adm{level}.parquet"`; stated by `Utils.FileNameRoundTrip` and `Utils.FileNameInjective` |
| Utils.FileNameRoundTrip | app/utils.py:24 | round trip: the name `f"{iso3.lower()}_adm{level}.parquet"` parses back into the lower-cased code and the level |
| Utils.FileNameInjective | app/utils.py:24 | two file names are equal only for the same lower-cased code and the same level |
| Utils.FileNamesDiffer | app/utils.py:24 | one country's files of different levels have different names |
| Utils.NamesDistinct | app/utils.py:46-47 | files named for one country and pairwise different levels sit at pairwise distinct paths |
| Utils.FirstSource | app/utils.py:25-29 | definition of the file `read_parquet` finds; stated by `Utils.FirstSourceChoice`, and `Utils.ReadParquet` is the loop proved equal to it |
| Utils.FirstSourceChoice | app/utils.py:25-29 | there is no file exactly when no source has one; otherwise it is the file of a source that has it, and no earlier source has it |
| Utils.ReadParquet | app/utils.py:9-29 | the loop over the sources returns the file of the first source, in list order, that has it, or nothing |
| Utils.ToParquet | app/utils.py:32-53 | the written file holds the frame, in the processing level's directory, under the country's and level's file name |
| Utils.PrependNothing | app/level_1a.py:19-35 | prepending no files leaves a run's result unchanged |
| Utils.PrependTwice | app/level_1a.py:19-35 | prepending two groups of files in turn is prepending the two together |
| Utils.ChainOk | app/level_3l.py:26-44 | a run over several countries succeeds exactly when every country's turn does |
| Utils.ChainTurn | app/level_3l.py:26-44 | one turn of the loop over countries: a failing turn ends the run with its error, a successful one adds its files and passes on |
| Utils.ChainFiles | app/level_3l.py:26-44 | after a successful run every file comes from some successful turn, and every turn's files are among the run's files |
| Utils.WriteLevelsStep | app/level_3.py:28-33 | one level of the walk: a level without input is skipped, a failing level ends the walk, otherwise its file comes first |
| Utils.WriteLevelsTurn | app/level_3.py:28-33 | one turn of the level loop, given the files already written: the failure, or the files so far plus the level's, passed on to the level below |
| Utils.WriteLevelsOk | app/level_3.py:28-33 | the walk succeeds exactly when no level from the start down to 0 that has an input fails |
| Utils.ResultLevelsSpec | app/level_3.py:28-33 | the levels written are exactly those from the start down to 0 that have an input, in strictly decreasing order |
| Utils.LevelOutputsCons | app/level_3.py:28-33 | pairing files with levels survives putting one more pair in front |
| Utils.WriteLevelsFiles | app/level_3.py:28-33 | the walk writes one file per level with an input, the `j`-th being that level's result under that level's name |
| Utils.WriteLevelsDistinct | app/level_3.py:28-33 | the walk writes no two files at the same path |
| Utils.FinestInSpec | app/level_2a.py:56-62 | the scan down from the deepest level finds nothing exactly when no level has a file; what it finds has a file and no deeper level does |
| Utils.FinestIgnoresCoarser | app/level_2b.py:30-36 | the files of levels below the one found do not change the scan's result |
| Utils.FindFinest | app/level_2a.py:56-62 | the loop from level 5 down that stops at the first existing file finds that deepest level, or nothing |
| Utils.GetEpsgEase | app/utils.py:56-76 | grid 6931 exactly when max ≥ 80 and min ≥ 0, grid 6932 exactly when min ≤ −80 and max ≤ 0, and grid 6933 otherwise |
| Utils.EaseForBounds | app/level_1a.py:30-31 | a layer's grid is that of its latitude bounds; a layer without bounds gets the global grid |
| Utils.GetAdm0Name | app/utils.py:79-92 | an unknown country gives "", a known one its `{lang}_short` field, and a record without that field gives a missing-column error |
| Level1a.DuplicateSteps | app/level_1a.py:81-83 | one duplicate step per configured pair, in the file's order |
| Level1a.TitleSteps | app/level_1a.py:86-88 | one title step per configured column, in order |
| Level1a.ReplaceOf | app/level_1a.py:91-95 | a replace entry, fill or substring replacement, belongs to the replace stage |
| Level1a.ReplaceSteps | app/level_1a.py:90-95 | one step per key of a column's replace entry, in order |
| Level1a.ReplaceAllSteps | app/level_1a.py:89-95 | every replace step belongs to the replace stage |
| Level1a.OrderedAppend | app/level_1a.py:78-104 | two ordered step lists, the first at stages no later than the second's, stay ordered side by side |
| Level1a.PartStages | app/level_1a.py:78-104 | drop, duplicate, rename, title and replace steps are at stages 0 to 4, the date steps later |
| Level1a.StepsOrdered | app/level_1a.py:78-104 | the rules apply in the fixed order drop, duplicate, rename, title, replace, date, validOn |
| Level1a.InSteps | app/level_1a.py:78-104 | every step comes from one of the seven parts of the rules |
| Level1a.StepsFromKeys | app/level_1a.py:79-95 | each step before the dates comes from a key the rules hold; drop and rename bring their own argument |
| Level1a.StepsEndWithDates | app/level_1a.py:96-103 | whatever the rules, the last two steps set date and validOn |
| Level1a.Apply | app/level_1a.py:78-104 | a step on a well-formed frame gives a well-formed frame |
| Level1a.Interpret | app/level_1a.py:78-104 | the steps in turn give a well-formed frame |
| Level1a.InterpretAppend | app/level_1a.py:78-104 | running two step lists in turn is running the first, stopping at its error, then the second |
| Level1a.DuplicateCopies | app/level_1a.py:82-83 | duplicating succeeds exactly when the original column exists; the new column equals it and every other column is unchanged |
| Level1a.ReplaceSemantics | app/level_1a.py:91-95 | the key "" fills the column's nulls, another key replaces substrings in its strings (non-strings become NaN), and no other column changes |
| Level1a.TwoSteps | app/level_1a.py:78-104 | two steps run in turn stop at the first one's error |
| Level1a.DateStep | app/level_1a.py:96-103 | a date step leaves the column present: the configured date in every row, or else each row's cell parsed as a date; other columns keep their values |
| Level1a.ConfigDates | app/level_1a.py:96-103 | after the rules, date and validOn exist and hold the configured dates in every row when the rules give them |
| Level1a.DuplicateColumns | app/level_1a.py:81-83 | the loop over the duplicate pairs is the interpretation of the duplicate steps |
| Level1a.TitleColumns | app/level_1a.py:86-88 | the loop over the title columns is the interpretation of the title steps |
| Level1a.ReplaceColumn | app/level_1a.py:91-95 | the loop over one column's replace keys is the interpretation of its steps |
| Level1a.ReplaceColumns | app/level_1a.py:89-95 | the loop over the replace entries is the interpretation of the replace steps |
| Level1a.SetDate | app/level_1a.py:96-103 | one date column, configured or parsed, is the date step |
| Level1a.PreFixes | app/level_1a.py:79-95 | the keys before the dates, applied in turn, are the steps before the dates |
| Level1a.ConfigFixes | app/level_1a.py:78-104 | `config_fixes` is the interpretation of the steps its rules stand for |
| Level1a.WithoutAbsent | app/level_1a.py:70-72 | dropping absent names changes no column list |
| Level1a.WithoutTwice | app/level_1a.py:70-72 | dropping two sets of names in turn is dropping both |
| Level1a.DropIfPresent | app/level_1a.py:71-72 | a column is dropped only if present, and every row loses exactly it |
| Level1a.DropPresent | app/level_1a.py:70-72 | dropping the present names keeps the rows |
| Level1a.DropPresentShape | app/level_1a.py:70-72 | dropping the present ones among names is dropping them all: other columns keep their order and values |
| Level1a.MinusTwice | app/level_1a.py:70-72 | removing two sets of cells in turn is removing both |
| Level1a.AutomaticFixed | app/level_1a.py:66-75 | the automatic fixes give a well-formed frame |
| Level1a.AutomaticFixes | app/level_1a.py:66-75 | `automatic_fixes` step by step is the function `AutomaticFixed` |
| Level1a.AutomaticFixesColumns | app/level_1a.py:66-75 | the automatic fixes succeed exactly when the layer has a geometry column; they keep every row, add validTo, remove ValidTo and VALIDTO and keep every other column |
| Level1a.AutomaticFixesCells | app/level_1a.py:66-75 | afterwards validTo is null, each geometry is the repaired input geometry, and every other cell is unchanged |
| Level1a.FixedRow | app/level_1a.py:66-75 | one row through the fixes: null validTo, repaired geometry, other cells kept |
| Level1a.NameColumns | app/level_1a.py:39-44 | the name columns are exactly the columns matching `^ADM{l}_[A-Z][A-Z]$` for some level l from the layer's down to 0 |
| Level1a.SplitPlain | app/level_1a.py:51 | a string without the separator splits into itself |
| Level1a.Language | app/level_1a.py:51 | an official ADM0 column is "ADM0_" followed by its language |
| Level1a.LanguageIsSplit | app/level_1a.py:51 | `column.split("_")[1]` is the language of an official ADM0 column |
| Level1a.OfficialNames | app/level_1a.py:50-52 | setting the official names keeps the columns and the rows |
| Level1a.OfficialNamesEffect | app/level_1a.py:50-52 | setting fails exactly when the country's M49 record lacks a language's short name; otherwise each official column holds that name in every row, or "" without a record, and nothing else changes |
| Level1a.OfficialCells | app/level_1a.py:50-52 | after one official column is filled the rest only touch their own columns |
| Level1a.AddPcode | app/level_1a.py:53-55 | ADM0_PCODE is added when absent and its nulls become the two-letter code; nothing else changes |
| Level1a.DecodedTables | app/level_1a.py:57-60 | the characters the cleanup replaces are those the configured "U+XXXX" tables name |
| Level1a.ReplaceOps | app/level_1a.py:57-60 | one `str.replace` per table character, in table order |
| Level1a.ApplyAppend | app/level_1a.py:56-62 | two lists of cell operations in turn are their concatenation |
| Level1a.ApplyReplaceOps | app/level_1a.py:57-60 | the replacements in turn replace each character in a string, and a non-string becomes NaN |
| Level1a.CleanOpsMeaning | app/level_1a.py:56-62 | the name cleanup's cell operations in turn are the cleanup of the cell |
| Level1a.ColumnOps | app/level_1a.py:56-62 | operations on one column keep the columns and rows |
| Level1a.ColumnOpsMeaning | app/level_1a.py:56-62 | operations applied in turn to a column change only that column's cells, each by all of them in turn |
| Level1a.CleanColumnStep | app/level_1a.py:56-62 | the operations one by one are cleaning the column |
| Level1a.CleanColumns | app/level_1a.py:56-62 | cleaning the name columns keeps the columns and rows |
| Level1a.BlankToNull | app/level_1a.py:63 | `replace(r"^\s*$", None, regex=True)` turns every blank string into null and leaves other cells |
| Level1a.NameFixed | app/level_1a.py:38-63 | the name fixes give a well-formed frame |
| Level1a.ColumnOpsCons | app/level_1a.py:56-62 | one operation, then the rest |
| Level1a.ReplaceOpsCons | app/level_1a.py:57-60 | the replacements from position m are that character's, then the rest |
| Level1a.ReplaceChars | app/level_1a.py:57-60 | the loop over a character table applies its replacements to the column |
| Level1a.CleanNameColumn | app/level_1a.py:57-62 | the cleanup of one name column, operation by operation, is mapping the cell cleanup over it |
| Level1a.SetOfficialNames | app/level_1a.py:50-52 | the loop over the official columns is the function `OfficialNames` |
| Level1a.CleanNames | app/level_1a.py:56-62 | the loop over the name columns cleans each in turn |
| Level1a.NameFixes | app/level_1a.py:38-63 | `name_fixes` step by step is the function `NameFixed` |
| Level1a.ReplaceEachMembers | app/level_1a.py:57-60 | after the replacements a character is an input character not in the table, or from the replacement |
| Level1a.NoDoubleSpaceSlice | app/level_1a.py:61-62 | a slice of a string without double spaces has none |
| Level1a.CleanPipeline | app/level_1a.py:57-62 | for any tables, the cleaned name is stripped, has no double space and holds no character of either table |
| Level1a.CleanCell | app/level_1a.py:57-62 | definition of the cleanup of one name cell; stated by `Level1a.CleanCellShape` and `Level1a.CleanPipeline`, and `Level1a.CleanNameColumn` is the loop proved equal to it |
| Level1a.CleanCellShape | app/level_1a.py:57-62 | a cleaned cell is null or a cleaned name |
| Level1a.CleanColumnsShape | app/level_1a.py:56-62 | cleaning leaves null or a cleaned name in each name column and every other column as it was |
| Level1a.PcodeNotName | app/level_1a.py:53-55 | ADM0_PCODE is no level's name column |
| Level1a.NameFixesClean | app/level_1a.py:38-63 | after the name fixes no cell is blank, every name column holds null or a cleaned name, ADM0_PCODE falls back on the two-letter code, and no row is lost |
| Level1a.BlankToNullShape | app/level_1a.py:63 | the blank pass leaves no blank string and keeps cleaned cells cleaned |
| Level1a.PcodeAfterNames | app/level_1a.py:53-63 | ADM0_PCODE goes through the cleanup only as the fill and the blank pass leave it |
| Level1a.UnknownCountryNames | app/level_1a.py:50-63 | for a country without an M49 record the official ADM0 names end up null |
| Level1a.OfficialStayEmpty | app/level_1a.py:56-63 | official columns holding "" end up null |
| Level1a.OfficialUnknown | app/utils.py:90-92 | without an M49 record every official column is set to "" |
| Level1a.BlankEmpty | app/level_1a.py:63 | columns holding "" become null |
| Level1a.CleanColumnsEmpty | app/level_1a.py:56-62 | cleaning keeps an empty string empty |
| Level1a.AdmPrefixUnderscore | app/level_1a.py:25 | the prefix `ADM{level}_` starts with "ADM" and has no other `_` |
| Level1a.AdmPrefixUnique | app/level_1a.py:25 | a column starts with the prefix of one level at most |
| Level1a.NameColumnLevel | app/level_1a.py:25 | a name column belongs to one level only |
| Level1a.PcodeNeverName | app/level_1a.py:25-27 | a P-code column is no level's name column |
| Level1a.PcodeUnique | app/level_1a.py:27 | different levels have different P-code columns |
| Level1a.TailNotAdm | app/level_1a.py:28 | no tail column starts like a level's column |
| Level1a.LevelColumnsMembers | app/level_1a.py:20-28 | a level's columns are the tail columns and, for each level down to 0, its P-code and its name columns |
| Level1a.LevelColumnsDistinct | app/level_1a.py:20-28 | a level's columns are distinct when the layer's are |
| Level1a.FilterLevelColumns | app/level_1a.py:20-28 | the name columns of level k among a level's columns are the layer's when k is at most that level, none otherwise |
| Level1a.LevelColumnsNested | app/level_1a.py:19-33 | a lower level's columns of a level's file are that lower level's columns of the original layer |
| Level1a.Areas | app/level_1a.py:32 | the area column holds each geometry's area on the grid, divided by 1e6 |
| Level1a.Dissolved1a | app/level_1a.py:29-34 | one pass writes exactly the level's columns |
| Level1a.WithArea | app/level_1a.py:32 | setting AREA_SQKM keeps the rows and adds the column when absent |
| Level1a.PcodeNotArea | app/level_1a.py:27-28 | a P-code column is neither AREA_SQKM nor the geometry |
| Level1a.TailInLevel | app/level_1a.py:27-28 | every level keeps the tail columns and its own P-code |
| Level1a.Dissolved1aFails | app/level_1a.py:29-33 | a pass fails exactly when the layer lacks one of the level's columns other than AREA_SQKM, which the pass adds |
| Level1a.SelectStepFails | app/level_1a.py:33 | once the dissolve succeeds, the selection fails exactly then |
| Level1a.Dissolved1aUnfold | app/level_1a.py:29-33 | a pass whose dissolve succeeds is the selection after the area |
| Level1a.WithAreaColumnSet | app/level_1a.py:32 | the area adds just AREA_SQKM |
| Level1a.DissolveKeepsColumns | app/level_1a.py:29 | the dissolve keeps the set of columns |
| Level1a.SelectMissing | app/level_1a.py:33 | selecting from the dissolved columns plus AREA_SQKM fails exactly when a column is neither |
| Level1a.PassDissolved | app/level_1a.py:29 | the dissolved frame of a pass is well formed and has the geometry |
| Level1a.PassParts | app/level_1a.py:29-33 | a successful pass is the selection of the level's columns from the dissolved frame with its areas |
| Level1a.Dissolved1aKeys | app/level_1a.py:29-34 | a pass writes one row per distinct non-null P-code of the level, whatever its type, strictly ascending |
| Level1a.SamePassKeys | app/level_1a.py:29-34 | the selection keeps the dissolved frame's keys |
| Level1a.Dissolved1aGeometry | app/level_1a.py:29 | each geometry written is the union of its group's geometries |
| Level1a.TransferGeometry | app/level_1a.py:29-33 | the union of the group survives the selection |
| Level1a.Dissolved1aArea | app/level_1a.py:30-32 | each row's AREA_SQKM is its geometry's area in km² on the EASE grid chosen from the whole file's latitude bounds |
| Level1a.Dissolved1aCells | app/level_1a.py:29 | every other column holds the group's first non-null value |
| Level1a.TransferCells | app/level_1a.py:29-33 | the first non-null values survive the selection |
| Level1a.SameKeys | app/level_1a.py:34 | rows that agree on the key cell have the same keys |
| Level1a.SelectKeepsArea | app/level_1a.py:30-33 | the selection keeps each row's area of its own geometry |
| Level1a.SameGeometryUnion | app/level_1a.py:30-31 | rows with the same geometries have the same union, so the same bounds |
| Level1a.SelectedRow | app/level_1a.py:32-33 | a selected row keeps its own cells and the area added |
| Level1a.SelectedShape | app/level_1a.py:32-33 | the selection after the area is each row with its area, cut to the selected columns |
| Level1a.SelectedCells | app/level_1a.py:32-33 | the selection keeps the dissolved cells and holds each row's area |
| Level1a.Cascade1a | app/level_1a.py:18-35 | definition of `dissolve_and_save`'s cascade; stated by `Level1a.Cascade1aShape` and `Level1a.Cascade1aFails`, and `Level1a.DissolveAndSave` is the loop proved equal to it |
| Level1a.Cascade1aShape | app/level_1a.py:18-35 | the cascade writes one file per level from the start down to 0, finest first, each at its level's path with its level's columns and strictly ascending P-codes |
| Level1a.FilesCons | app/level_1a.py:18-35 | a level's file in front of the files below it |
| Level1a.FileBelow | app/level_1a.py:19-33 | a lower level's file of a level's file is that lower level's file of the original layer |
| Level1a.LevelColumnsShrink | app/level_1a.py:20-28 | the columns a lower level needs are among a level's |
| Level1a.CascadeAfterPass | app/level_1a.py:19-35 | once one pass has written a level's file, every pass below it succeeds |
| Level1a.Cascade1aFails | app/level_1a.py:18-35 | the cascade fails exactly when the layer lacks a column the finest level keeps (other than AREA_SQKM) |
| Level1a.CollectColumns | app/level_1a.py:20-28 | the loop collecting a level's columns gives the level's columns |
| Level1a.CascadeStep | app/level_1a.py:19-35 | one pass: its failure, or its file followed by the cascade below on the frame it wrote |
| Level1a.Dissolved1aDissolveErr | app/level_1a.py:29 | a pass whose dissolve fails fails with its error |
| Level1a.DissolveAndSave | app/level_1a.py:18-35 | `dissolve_and_save`'s loop is the cascade |
| Level1a.Finest | app/level_1a.py:121-125 | the search settles on a level from the start down to 0, with that level's file |
| Level1a.FinestIsFinest | app/level_1a.py:121-125 | the search finds a file exactly when some level has one, and then no finer level does; without one it settles on level 0 |
| Level1a.ChooseInput | app/level_1a.py:114-125 | the configured level and its file when the rules give a level, otherwise the finest level with a file |
| Level1a.LevelFileValid | app/utils.py:25-29 | a file taken from a well-formed store is well formed |
| Level1a.Prepared | app/level_1a.py:127-129 | the rules, the automatic fixes and the name fixes in turn give a well-formed layer |
| Level1a.Level1aRun | app/level_1a.py:114-130 | definition of what level 1a writes for one country; stated by `Level1a.Level1aRunFiles` and `Level1a.RunIsCascade`, and `Level1a.Level1aCountry` is the method proved equal to it |
| Level1a.Level1aRunFiles | app/level_1a.py:114-130 | one country writes nothing without an input file, otherwise one file per level from the starting level down, at that level's path, no two alike |
| Level1a.RunIsCascade | app/level_1a.py:126-130 | a successful run is the cascade of the prepared input layer |
| Level1a.FilesDistinct | app/level_1a.py:18-35 | a cascade's files sit at pairwise distinct paths |
| Level1a.FindInput | app/level_1a.py:121-125 | the loop from level 5 down, stopping at the first file, is the search |
| Level1a.Level1aCountry | app/level_1a.py:111-130 | the body of `main` for one country is the run |
| Level1b.LangOf | app/level_1b.py:22 | `x.split("_")[1]` of a language column is its two-character code (three with the line feed `$` admits) when the code holds no underscore |
| Level1b.LangsMembers | app/level_1b.py:20-22 | a language is listed exactly when some column matching `^adm{level}_\w{2}$` carries it |
| Level1b.GetLangs | app/level_1b.py:10-23 | definition of `get_langs`; stated by `Level1b.GetLangsSpec` and `Level1b.LangsMembers` |
| Level1b.GetLangsSpec | app/level_1b.py:10-23 | `get_langs` lists each language of the level's columns once, and nothing else |
| Level1b.StemsAgree | app/level_1b.py:32-33 | names built as stem, underscore, rest agree only when stems and rests do |
| Level1b.IndexSuffixInjective | app/level_1b.py:33 | different positions give different suffixes |
| Level1b.OldColumnInjective | app/level_1b.py:32 | `adm{level}_{lang}` differs for different levels or languages |
| Level1b.NameColumnInjective | app/level_1b.py:33 | `adm{level}_name{i}` differs for different levels or positions |
| Level1b.LangColumnInjective | app/level_1b.py:36 | `lang{i}` differs for different positions |
| Level1b.OldNotName | app/level_1b.py:32-33 | a column renamed from is never a column renamed to |
| Level1b.LangColumnApart | app/level_1b.py:32-36 | a code column is neither renamed from nor to |
| Level1b.RunStep | app/level_1b.py:34-37 | a rename or a code column keeps the layer well formed with its rows |
| Level1b.Run | app/level_1b.py:30-37 | the steps in turn keep the layer well formed with its rows |
| Level1b.WellFormedAppend | app/level_1b.py:30-37 | two well-formed step lists, each step of the first independent of the second's, are well formed together |
| Level1b.StepKeeps | app/level_1b.py:34-37 | a step keeps a column it does not touch, with its cells |
| Level1b.StepAbsent | app/level_1b.py:34-37 | a step brings in only the column it creates |
| Level1b.RenameMoves | app/level_1b.py:34-35 | renaming a present column succeeds exactly when the new name is free; the cells move and the old name goes |
| Level1b.RenameBlocked | app/level_1b.py:35 | renaming onto a taken name gives a duplicate column |
| Level1b.RenameFree | app/level_1b.py:35 | renaming onto a free name succeeds and moves the cells |
| Level1b.RenameFreeDistinct | app/level_1b.py:35 | renaming onto a free name keeps the names distinct |
| Level1b.SetLangSets | app/level_1b.py:37 | `gdf[lang_col] = lang` puts the code on every row |
| Level1b.StepSame | app/level_1b.py:34-37 | a step changes a column's presence only if it touches or creates it |
| Level1b.RunKeeps | app/level_1b.py:30-37 | a run keeps a column no step touches, with its cells |
| Level1b.RunAbsent | app/level_1b.py:30-37 | a run brings in only columns its steps create |
| Level1b.RunColumns | app/level_1b.py:30-37 | every column after a run was there before or was created by a step |
| Level1b.RunRenames | app/level_1b.py:30-35 | in a well-formed run a rename of a present column moves its cells to the new name |
| Level1b.RunSetsLang | app/level_1b.py:36-37 | in a well-formed run a code column holds the code on every row |
| Level1b.ClearSame | app/level_1b.py:30-37 | a step does not change whether the later independent renames are clear |
| Level1b.RunOk | app/level_1b.py:30-37 | a well-formed run succeeds exactly when none of its renames finds its new name taken |
| Level1b.RunCons | app/level_1b.py:30-37 | a run with a first step is that step, then the rest |
| Level1b.LevelStepsMembers | app/level_1b.py:31-35 | one language's renames are exactly one per level from the layer's down to 0 |
| Level1b.BlockMembers | app/level_1b.py:30-37 | a turn of the loop is its renames and its code column |
| Level1b.LangStepsMembers | app/level_1b.py:30-37 | the loop's steps are exactly the turns of the languages |
| Level1b.RenamesIndependent | app/level_1b.py:31-35 | renames of different levels or positions touch different columns |
| Level1b.RenameSetIndependent | app/level_1b.py:32-37 | a rename and a code column touch different columns |
| Level1b.SetsIndependent | app/level_1b.py:36-37 | code columns of different positions differ |
| Level1b.LevelStepsWellFormed | app/level_1b.py:31-35 | one language's renames are well formed |
| Level1b.BlockWellFormed | app/level_1b.py:30-37 | a turn of the loop is well formed |
| Level1b.BlocksIndependent | app/level_1b.py:30-37 | the steps of different languages' turns are independent |
| Level1b.LangStepsWellFormed | app/level_1b.py:29-37 | the loop over the languages `get_langs` finds is well formed |
| Level1b.LowerAll | app/level_1b.py:28 | each name lower-cased, in place |
| Level1b.Lowered | app/level_1b.py:28 | the new names are distinct exactly when the assignment succeeds; each column keeps its cells under its lower-cased name |
| Level1b.Refactored | app/level_1b.py:26-38 | the refactor keeps the layer well formed with its rows |
| Level1b.PlanWellFormed | app/level_1b.py:29-37 | the refactor's plan is well formed |
| Level1b.ClearIsNoClash | app/level_1b.py:31-35 | the plan's renames are clear exactly when no language's old column meets an existing new name |
| Level1b.ClearNoClash | app/level_1b.py:31-35 | the forward half of that equivalence |
| Level1b.NotClearClash | app/level_1b.py:31-35 | the backward half of that equivalence |
| Level1b.RefactorOk | app/level_1b.py:26-38 | the refactor succeeds exactly when no two names lower-case alike and no rename runs into an existing column |
| Level1b.RefactorLangColumns | app/level_1b.py:36-37 | `lang`, `lang1`, … hold each found language's code in every row |
| Level1b.RefactorRenames | app/level_1b.py:30-35 | each `ADM{l}_XX` of a found language XX is gone and its cells are in `adm{l}_name{i}` |
| Level1b.RefactorKeeps | app/level_1b.py:26-38 | every column the loop does not rename or overwrite stays under its lower-cased name with its cells |
| Level1b.LowerOfNoUpper | app/level_1b.py:28 | lower-casing a name without capitals changes nothing |
| Level1b.NoUpperAppend | app/level_1b.py:32-36 | names joined from lower-case parts are lower-case |
| Level1b.IntToStringNoUpper | app/level_1b.py:33 | a numeral has no capitals |
| Level1b.NewNamesLower | app/level_1b.py:33-36 | the names the loop creates are lower-case |
| Level1b.RefactorLowerCase | app/level_1b.py:26-38 | every column name after the refactor is lower-case |
| Level1b.LoweredIdentity | app/level_1b.py:28 | lower-casing a lower-case layer changes nothing |
| Level1b.RowsAgree | app/level_1b.py:28 | rows over the same columns with the same cells are equal |
| Level1b.NameColumnNotLang | app/level_1b.py:21-33 | a new name column never matches the language pattern |
| Level1b.NameSuffix | app/level_1b.py:33 | what follows the stem in a new name has at least four characters |
| Level1b.LangColumnNotLang | app/level_1b.py:21-36 | a code column never matches the language pattern |
| Level1b.PlanCreated | app/level_1b.py:30-37 | a column the loop creates is lower-case and no language column |
| Level1b.LangColumnIsOld | app/level_1b.py:21-32 | a language column without an underscore in its code is the column read from at the layer's level |
| Level1b.OldLangRenamed | app/level_1b.py:30-35 | such a column is renamed away |
| Level1b.NoLangColumnLeft | app/level_1b.py:26-38 | no language column of the level is left when no code holds an underscore |
| Level1b.NoLangs | app/level_1b.py:20-22 | columns without language columns give no language |
| Level1b.RefactorIdempotent | app/level_1b.py:26-38 | refactoring a refactored layer again changes nothing, when no code holds an underscore |
| Level1b.RunAppend | app/level_1b.py:30-37 | running two step lists in turn is running their concatenation |
| Level1b.RenameTurn | app/level_1b.py:31-35 | the renames from a level are that level's, then those below |
| Level1b.RenameLevels | app/level_1b.py:31-35 | the inner loop is running the language's renames |
| Level1b.LangTurn | app/level_1b.py:30-37 | a language's turn is its renames, its code column, then the later turns |
| Level1b.RefactorColumns | app/level_1b.py:26-38 | `refactor_columns` step by step is the function `Refactored` |
| Level1b.Level1bRun | app/level_1b.py:49-55 | definition of what level 1b writes for one country; stated by `Level1b.Level1bOk` and `Level1b.Level1bResultsAt`, and `Level1b.Level1bCountry` is the method proved equal to it |
| Level1b.Level1bOk | app/level_1b.py:49-55 | a country's run succeeds exactly when each of its level-1a files refactors |
| Level1b.Level1bResultsAt | app/level_1b.py:49-54 | a level has a result exactly when its level-1a file exists, and it is that file refactored |
| Level1b.Level1bCountry | app/level_1b.py:49-55 | the loop over levels from the deepest down is the run |
| Level2a.ToWgs84 | app/level_2a.py:20 | reprojecting fails exactly when the additions have no geometry; otherwise it keeps their columns and rows |
| Level2a.Merged | app/level_2a.py:21-24 | the merged layer is well formed |
| Level2a.MergedRows | app/level_2a.py:21-24 | the layer's rows come first, in order, then each addition aligned to the layer's columns (missing cells null, extra columns dropped), and `validto` is null everywhere |
| Level2a.MergedSelect | app/level_2a.py:22 | selecting the layer's columns from the concatenation always succeeds; the merge is that selection with `validto` nulled |
| Level2a.MergedShape | app/level_2a.py:21-24 | the merge has the layer's columns, plus `validto` when it was missing, and the rows of both |
| Level2a.MergedOriginal | app/level_2a.py:22-23 | a row of the layer comes out as itself with a null `validto` |
| Level2a.MergedAddition | app/level_2a.py:22-23 | an addition comes out padded to the layer's columns with a null `validto` |
| Level2a.SelectedAddition | app/level_2a.py:22 | an addition after the selection is the addition padded to the layer's columns |
| Level2a.SelectedConcatRow | app/level_2a.py:22 | an addition after the selection is its padded row cut to the layer's columns |
| Level2a.OriginalRowKept | app/level_2a.py:22 | a row of the layer survives padding and cutting back to its own columns |
| Level2a.AddedRowAligned | app/level_2a.py:22 | an addition padded wide and cut back is the addition padded to the layer's columns |
| Level2a.WithAdditions | app/level_2a.py:18-24 | without an additions file the layer is unchanged; with one the layer is merged with the reprojected additions (failing only when they cannot be reprojected) |
| Level2a.Part | app/level_2a.py:29-32 | definition of one `==`/`!=` part; stated by `Level2a.PartRows` and `Level2a.PartsPartition` |
| Level2a.PartRows | app/level_2a.py:29-32 | a part needs the P-code column; an "==" part holds exactly the rows whose P-code is listed, a "!=" part exactly the others, nulls included, each in the layer's order |
| Level2a.PartsPartition | app/level_2a.py:29-32 | with the same codes, the "==" and "!=" parts divide the rows: together they are a permutation of the layer's rows |
| Level2a.SplitLayers | app/level_2a.py:28-38 | definition of the loop over the configured layers; stated by `Level2a.SplitLayersOk`, `Level2a.SplitLaterOk` and `Level2a.SplitLayersFiles` |
| Level2a.SplitLayersOk | app/level_2a.py:28-38 | the split fails exactly when the first layer's switch is neither "==" nor "!=" (its part is unbound) or the P-code column is missing |
| Level2a.SplitLaterOk | app/level_2a.py:28-38 | once a part is bound, the later layers cannot fail |
| Level2a.SplitLayersFiles | app/level_2a.py:28-38 | one file per layer under the layer's name; a layer with a valid switch writes its own part, one without writes again the part before it |
| Level2a.SplitFilesCons | app/level_2a.py:28-38 | the per-layer description of a split follows from that of its tail |
| Level2a.LayerFilesDistinct | app/level_2a.py:34 | layers of different names go to different files |
| Level2a.NoRuleWholeLayer | app/level_2a.py:39-45 | a country without a rule writes one file, the whole layer with its additions, under its own name |
| Level2a.AddRemoveSplit | app/level_2a.py:17-45 | `add_remove_split` step by step is its specification |
| Level2a.Level2aRun | app/level_2a.py:56-62 | definition of what level 2a writes for one country; stated by `Level2a.Level2aIgnoresCoarser`, and `Level2a.Level2aCountry` is the method proved equal to it |
| Level2a.Level2aIgnoresCoarser | app/level_2a.py:56-62 | replacing a coarser level-1b file changes nothing a country writes once a finer one exists |
| Level2a.SameAdditions | app/level_2a.py:18-19 | a write to the level-1b directory never changes the additions read |
| Level2a.Level2aCountry | app/level_2a.py:56-62 | the scan from the deepest level, stopping at the first file, then `add_remove_split`, is the country's run |
| Level2b.NameHasStem | app/level_2b.py:12 | a name column of a level starts with its stem `adm{level}_` |
| Level2b.NameColumnLevel | app/level_2b.py:12 | a name column belongs to one level only |
| Level2b.PcodeNeverName | app/level_2b.py:12-13 | a P-code column is never a name column |
| Level2b.PcodeUnique | app/level_2b.py:13 | different levels have different P-code columns |
| Level2b.Initials | app/level_2b.py:12-15 | administrative columns start with "ad", language columns with 'l', tail columns with neither |
| Level2b.TailApart | app/level_2b.py:12-15 | no tail column is an administrative or language column |
| Level2b.AdmColumnsMembers | app/level_2b.py:11-13 | the administrative columns are, for each level from the pass's down to 0, its P-code and its name columns |
| Level2b.AdmColumnsInitial | app/level_2b.py:11-13 | every administrative column starts with 'a' |
| Level2b.Columns2bMembers | app/level_2b.py:10-15 | a level's columns are the administrative columns, the language columns and the tail, nothing else |
| Level2b.AdmColumnsDistinct | app/level_2b.py:11-13 | the administrative columns are distinct when the frame's are |
| Level2b.Columns2bDistinct | app/level_2b.py:10-15 | a level's columns are distinct, so the selection fails only on a missing column |
| Level2b.FilterAdmColumns | app/level_2b.py:11-13 | the name columns of level k among the administrative columns are the frame's when k is at most the level, none otherwise |
| Level2b.FilterColumns2bNames | app/level_2b.py:10-15 | a level's file keeps the frame's name columns of every level down from it |
| Level2b.FilterColumns2bLangs | app/level_2b.py:14 | a level's file keeps the frame's language columns |
| Level2b.AdmColumnsNested | app/level_2b.py:11-13 | a lower level's administrative columns of a level's file are those of the frame |
| Level2b.Columns2bNested | app/level_2b.py:9-17 | a lower level's columns of a level's file are that lower level's columns of the frame |
| Level2b.Columns2bShrink | app/level_2b.py:9-17 | a lower level selects no column a level's file lacks |
| Level2b.NoAreaColumn | app/level_2b.py:10-15 | no level file keeps an area column |
| Level2b.NotKept | app/level_2b.py:10-15 | upper-case columns and columns starting "ar" are never kept |
| Level2b.CollectColumns | app/level_2b.py:10-15 | the loop collecting columns gives a level's columns |
| Level2b.NameColumnsOf | app/level_2b.py:12 | the comprehension keeps exactly the level's name columns, in order |
| Level2b.LanguageColumnsOf | app/level_2b.py:14 | the comprehension keeps exactly the language columns, in order |
| Level2b.FilterLoop | app/level_2b.py:12-14 | a comprehension with a condition, element by element, is the filter |
| Level2b.PcodeNotGeometry | app/level_2b.py:13-15 | a P-code column is never the geometry |
| Level2b.Dissolved2b | app/level_2b.py:16-18 | a pass writes exactly the level's columns |
| Level2b.KeptColumns | app/level_2b.py:13-15 | every level keeps its own P-code and the geometry |
| Level2b.SelectAfterDissolve | app/level_2b.py:16-17 | after the dissolve the selection fails exactly when the frame lacks a selected column |
| Level2b.Dissolved2bFails | app/level_2b.py:16-17 | a pass fails exactly when the frame lacks one of the level's columns |
| Level2b.PassDissolved | app/level_2b.py:16 | the dissolved frame of a pass is well formed |
| Level2b.PassParts | app/level_2b.py:16-17 | a successful pass is the selection of the level's columns from the dissolved frame |
| Level2b.SelectedCells | app/level_2b.py:17 | the selection keeps each row's cells of the selected columns |
| Level2b.SameKeys | app/level_2b.py:18 | rows agreeing on the key have the same keys |
| Level2b.PassKeys | app/level_2b.py:16-17 | the selection keeps the dissolved rows and keys |
| Level2b.Dissolved2bKeys | app/level_2b.py:16-18 | a pass writes one row per distinct non-null P-code of the level, whatever its type, strictly ascending |
| Level2b.Dissolved2bCells | app/level_2b.py:16-17 | each geometry is its group's union and every other column holds the group's first non-null value |
| Level2b.TransferCells | app/level_2b.py:16-17 | the dissolved cells survive the selection |
| Level2b.Cascade2b | app/level_2b.py:8-19 | definition of `dissolve_and_save`'s cascade; stated by `Level2b.Cascade2bShape` and `Level2b.Cascade2bFails`, and `Level2b.DissolveAndSave` is the loop proved equal to it |
| Level2b.Cascade2bShape | app/level_2b.py:8-19 | the cascade writes one file per level, finest first, each with that level's columns of the input |
| Level2b.FilesCons | app/level_2b.py:8-19 | a level's file in front of the files below it |
| Level2b.FileNested | app/level_2b.py:9-17 | a lower level's file of a level's file has that lower level's columns of the input |
| Level2b.FilesDistinct | app/level_2b.py:19 | the files of a cascade are at pairwise distinct paths |
| Level2b.CascadeAfterPass | app/level_2b.py:9-19 | once a pass has written a level's file every pass below succeeds |
| Level2b.Cascade2bFails | app/level_2b.py:8-19 | the cascade fails exactly when the input lacks a column the finest level keeps |
| Level2b.CascadeStep | app/level_2b.py:9-19 | one pass: its failure, or its file followed by the cascade below on what it wrote |
| Level2b.DissolveAndSave | app/level_2b.py:8-19 | `dissolve_and_save`'s loop is the cascade |
| Level2b.Level2bRun | app/level_2b.py:30-36 | definition of what level 2b writes for one country; stated by `Level2b.Level2bRunFiles`, and `Level2b.Level2bCountry` is the method proved equal to it |
| Level2b.Level2bRunFiles | app/level_2b.py:30-36 | none without an extended layer; otherwise one file per level from the layer's down to 0, at distinct paths, each with that level's columns; the run fails exactly when the layer lacks a column its own level keeps |
| Level2b.Level2bIgnoresCoarser | app/level_2b.py:30-36 | replacing a coarser extended file changes nothing once a finer one exists |
| Level2b.Level2bCountry | app/level_2b.py:30-36 | the scan from the deepest level, stopping at the first file, then the cascade, is the run |
| Level2l.Boundaries | app/level_2l.py:14-15 | taking the outlines fails exactly when the layer has no geometry; it keeps the columns and rows |
| Level2l.Difference | app/level_2l.py:16 | the difference keeps the child's columns |
| Level2l.BoundariesUnion | app/level_2l.py:14-15 | the outlines together are the layer's outline |
| Level2l.UnionOfOutlines | app/level_2l.py:14-15 | rows holding other rows' outlines have their outline as union |
| Level2l.UnionMinus | app/level_2l.py:16 | rows holding other rows' geometry less a mask have the union less the mask as union |
| Level2l.DifferenceUnion | app/level_2l.py:16 | what the difference keeps is the child's geometry less the parent's, and it keeps no row exactly when that is empty |
| Level2l.KeptUnion | app/level_2l.py:16 | dropping the rows that cover nothing keeps the union |
| Level2l.NoneKept | app/level_2l.py:16 | no row is kept exactly when the rows cover nothing |
| Level2l.UnionAppend | app/level_2l.py:16 | the union of two runs of rows is the union of each |
| Level2l.ClipLines | app/level_2l.py:8-20 | definition of `clip_lines`; stated by `Level2l.ClipLinesSpec` |
| Level2l.ClipLinesSpec | app/level_2l.py:8-20 | a level's lines fail exactly when the child or the parent has no geometry; otherwise they are one row tagged `10 + level` and the country, holding the child's outline less the parent's, or no row when that is empty |
| Level2l.TaggedDissolved | app/level_2l.py:16-19 | the tagged dissolve has no row when the difference has none, otherwise one row with the union of its geometries |
| Level2l.TaggedColumns | app/level_2l.py:17-19 | tagging keeps the geometry and adds `bdytyp` and `iso3cd` |
| Level2l.TaggedRow | app/level_2l.py:17-19 | a tagged row is the line row of its geometry |
| Level2l.SameLayerNoLines | app/level_2l.py:8-20 | a layer compared with itself adds no line |
| Level2l.CountryLayers | app/level_2l.py:33-38 | the country's level-2 files are well formed |
| Level2l.StepsValid | app/level_2l.py:32-40 | the lines of every level are well formed |
| Level2l.CountryStep | app/level_2l.py:33-40 | one turn of the loop, read off the store: nothing without a child file, otherwise that level's lines added |
| Level2l.Level2lCountry | app/level_2l.py:31-47 | the loop from the deepest level down to 1, then the write, is the country's run |
| Level2l.PadSame | app/level_2l.py:40 | a row padded to its own columns is itself |
| Level2l.ConcatLines | app/level_2l.py:40 | adding a level's lines settles the columns on the line columns and appends its rows |
| Level2l.GatherFails | app/level_2l.py:32-40 | gathering fails exactly when some level's lines fail |
| Level2l.GatherRows | app/level_2l.py:32-40 | a successful gathering appends the levels' rows, finest first, under the line columns |
| Level2l.GatherTurn | app/level_2l.py:39-40 | a level with lines adds them to the rows gathered so far |
| Level2l.LevelStepSpec | app/level_2l.py:33-39 | a level is skipped exactly without a child file, fails exactly when its parent is missing or either has no geometry, and otherwise adds its expected line |
| Level2l.StepsSpec | app/level_2l.py:32-40 | every level's step agrees with the layers |
| Level2l.AgreeLines | app/level_2l.py:17-19 | agreeing steps have the line columns |
| Level2l.StepFailsBroken | app/level_2l.py:32-40 | agreeing steps fail exactly when a level is broken |
| Level2l.StepRowsExpected | app/level_2l.py:32-40 | agreeing steps add exactly the expected rows |
| Level2l.ExpectedLinesCons | app/level_2l.py:32-40 | a level's expected rows come before those below it |
| Level2l.LineLevelsIn | app/level_2l.py:32 | each listed level is one from the start down to 1 that adds a line |
| Level2l.LineLevelsOrder | app/level_2l.py:32 | the listed levels strictly decrease |
| Level2l.LineLevelsComplete | app/level_2l.py:32 | every level that adds a line is listed |
| Level2l.LineLevelsEmpty | app/level_2l.py:32 | no level is listed exactly when none adds a line |
| Level2l.GatherAgreeing | app/level_2l.py:31-40 | gathering from the deepest level fails exactly when a level is broken, and otherwise holds the expected rows |
| Level2l.Level2lRun | app/level_2l.py:23-47 | definition of what level 2l writes for one country; stated by `Level2l.Level2lRunFiles`, and `Level2l.Level2lCountry` is the method proved equal to it |
| Level2l.Level2lRunFiles | app/level_2l.py:23-47 | a country's run fails exactly when a level from the deepest down to 1 has a file but no parent, or either lacks a geometry; otherwise it writes one file of the expected lines when some level adds one, and nothing otherwise |
| Level3.MaskPath | app/level_3.py:9-12 | codes starting with "X" read the disputed-areas file, every other code the countries' file |
| Level3.CountryMask | app/level_3.py:9-13 | the mask fails exactly when its file is missing or has no `iso3cd`; otherwise it holds exactly the file's rows whose `iso3cd` equals the code |
| Level3.Positions | app/level_3.py:14-16 | the labels `0 … n-1` |
| Level3.Clip | app/level_3.py:14 | the clip keeps the rows whose polygon meets the mask, each cut down to it and labelled with its input position |
| Level3.IncreasingCons | app/level_3.py:14 | an element below a strictly increasing sequence can go in front of it |
| Level3.IncreasingHead | app/level_3.py:14 | the head of a strictly increasing sequence is below its tail |
| Level3.FilterIncreasing | app/level_3.py:14 | filtering keeps a sequence strictly increasing |
| Level3.HitsSpec | app/level_3.py:14 | the clip keeps exactly the rows meeting the mask, each once and in input order |
| Level3.ClipRowSpec | app/level_3.py:14 | a point is in a clipped polygon exactly when it is in the polygon and in the mask; other columns are untouched |
| Level3.CastValidTo | app/level_3.py:15 | recasting fails exactly when `validto` is missing, and otherwise recasts just that cell of every row |
| Level3.ResetIndex | app/level_3.py:16 | the labels become a new first column `index` (`level_0` when `index` exists) and the reset fails when both exist |
| Level3.ResetIndexDrop | app/level_3.py:16 | dropping the new column gives back the frame |
| Level3.DropAdded | app/level_3.py:16 | adding and removing a new cell leaves a row as it was |
| Level3.WithoutFront | app/level_3.py:16 | removing a column put in front brings back the columns |
| Level3.SelectedUnion | app/level_3.py:13 | a point is in the selected rows' union exactly when some row of the country holds it |
| Level3.OutlineSpec | app/level_3.py:9-14 | a point is in the mask exactly when one of the mask file's rows for the country holds it |
| Level3.ClipAndSave | app/level_3.py:8-16 | definition of `clip_and_save`; stated by `Level3.ClipAndSaveSpec` |
| Level3.ClipAndSaveSpec | app/level_3.py:8-16 | a layer fails exactly on a missing mask file, `iso3cd`, geometry or `validto`, or on the index clash; otherwise it is the label column in front of the layer's, with one row per input row meeting the mask, in input order |
| Level3.Level3Run | app/level_3.py:28-33 | definition of what level 3 writes for one country; stated by `Level3.Level3Ok`, `Level3.Level3Written` and `Level3.Level3Files`, and `Level3.Level3Country` is the method proved equal to it |
| Level3.Level3ResultsAt | app/level_3.py:28-33 | a level has a result exactly when its level-2 file exists, and it is that file clipped |
| Level3.Level3Ok | app/level_3.py:28-33 | a country's run succeeds exactly when each of its level-2 files clips |
| Level3.Level3Written | app/level_3.py:28-33 | one file per level-2 file, finest first, each the clipped layer of that level, at distinct paths |
| Level3.Level3Files | app/level_3.py:28-33 | a file is written for a level exactly when its level-2 file exists |
| Level3.Level3Country | app/level_3.py:28-33 | the walk over every level from the deepest down, without stopping, is the run |
| Level3l.FillCodes | app/level_3l.py:22 | filling fails exactly when `iso3cd` is missing and otherwise makes each missing code "" and changes nothing else |
| Level3l.DropExcluded | app/level_3l.py:23 | dropping fails exactly when `bdytyp` is missing and otherwise keeps exactly the rows of a type other than 6 and 7 |
| Level3l.RestrictKey | app/level_3l.py:24-25 | keeping columns that include the key columns keeps each row's group key |
| Level3l.FilledKey | app/level_3l.py:22 | after the fill a line's code is never null, and its type is unchanged |
| Level3l.NarrowToSource | app/level_3l.py:22-24 | every prepared row comes from a kept source line with its key |
| Level3l.SourceToNarrow | app/level_3l.py:22-24 | every kept source line has a prepared row with its key |
| Level3l.NarrowRows | app/level_3l.py:22-24 | the prepared rows' keys are exactly the kept source lines' |
| Level3l.GlobalLines | app/level_3l.py:21-25 | definition of the prepared global lines; stated by `Level3l.GlobalLinesSpec` and `Level3l.FloatTypeGrouped` |
| Level3l.GlobalLinesSpec | app/level_3l.py:21-25 | the global lines fail exactly when the file, `iso3cd`, `bdytyp` or the geometry is missing; otherwise they have the three columns and one row per (type, code) of the kept source lines, ascending, none of type 6 or 7 |
| Level3l.GlobalColumnsDissolved | app/level_3l.py:24-25 | dissolving the three columns by type and code keeps them |
| Level3l.GlobalKeys | app/level_3l.py:25 | the dissolved keys are strictly ascending and exactly those of the kept source lines |
| Level3l.FloatTypeGrouped | app/level_3l.py:21-25 | a line whose type is read as a float (1.0) still forms a group: the single line gives one global line with its key |
| Level3l.KeptRow | app/level_3l.py:22-25 | every global line is of a type other than 6 and 7 and has a code |
| Level3l.ClipLines | app/level_3l.py:8-16 | the country's own lines are well formed |
| Level3l.ClipLinesSpec | app/level_3l.py:8-16 | the country's lines fail exactly when the mask fails, a geometry, type or code column is missing, or `index` and `level_0` are both taken; without an `index` column they are the clipped lines dissolved, one row per (type, code), ascending |
| Level3l.CountryLines | app/level_3l.py:37 | the country's global lines are exactly the lines whose code contains the country's code |
| Level3l.CountryLinesSpec | app/level_3l.py:37 | a line is kept exactly when the code occurs in its code, so a code naming the country with another is kept too |
| Level3l.Level3lCountry | app/level_3l.py:32-44 | definition of the file one country gets; stated by `Level3l.Level3lCountrySpec` |
| Level3l.Level3lCountrySpec | app/level_3l.py:32-44 | no file without a level-2 lines file; otherwise one file whose rows are the country's global lines, then its own, widened to both column lists |
| Level3l.Level3lRun | app/level_3l.py:19-44 | definition of the whole level-3l run; stated by `Level3l.Level3lRunOk`, `Level3l.Level3lRunFails` and `Level3l.Level3lRunFiles`, and `Level3l.Level3lMain` is the method proved equal to it |
| Level3l.Visits | app/level_3l.py:27-44 | one turn per country, in order |
| Level3l.VisitFiles | app/level_3l.py:30-44 | a turn writes the country's file exactly when the filter selects it and it has a level-2 lines file |
| Level3l.Level3lRunOk | app/level_3l.py:19-44 | with the global lines built, the run succeeds exactly when every turn does |
| Level3l.Level3lRunFails | app/level_3l.py:21-25 | the run fails with the global lines' error when they cannot be built |
| Level3l.Level3lRunFiles | app/level_3l.py:26-44 | every file written belongs to a selected country with a level-2 lines file, and every such country gets one |
| Level3l.Level3lTurn | app/level_3l.py:28-44 | the body of the loop for one country is its turn |
| Level3l.Level3lMain | app/level_3l.py:19-44 | `main` step by step is the run |
| Gdb3.FieldList | gdb3.py:14-30 | definition of the fields a layer keeps; stated by `Gdb3.FieldCount`, `Gdb3.FieldsAt` and `Gdb3.FieldsOfLevel1b`, and `Gdb3.GetFields` is the loop proved equal to it |
| Gdb3.LevelFields | gdb3.py:18-25 | a level contributes three fields for layers of level 4 and deeper, four for the others |
| Gdb3.GetFields | gdb3.py:14-30 | `get_fields` step by step is the field list joined with commas |
| Gdb3.LevelsStep | gdb3.py:17-25 | one turn of the loop adds the level's fields in front of those below it |
| Gdb3.LevelsDone | gdb3.py:26-30 | after the loop only the trailer is left to add |
| Gdb3.LevelsFromLength | gdb3.py:17-25 | each level from the start down to 0 contributes its width |
| Gdb3.FieldCount | gdb3.py:14-30 | `3(n+1)+6` fields for layers of level 4 and deeper, `4(n+1)+7` for the others, 7 for a negative level |
| Gdb3.LevelsFromAt | gdb3.py:17-25 | level m's fields sit at width times (start - m): the levels come deepest first |
| Gdb3.FieldsAt | gdb3.py:14-30 | for every level from the layer's down to 0, its name fields then its P-code; then the language, date and layer fields |
| Gdb3.FieldsOfLevel1b | gdb3.py:20-29 | the selected fields are the name and language columns level 1b writes |
| Gdb3.GetFieldsSplit | gdb3.py:30 | no field holds a comma, so the joined list splits back into the fields |
| Gdb3.NoCommaAppended | gdb3.py:20-24 | names joined from comma-free parts are comma-free |
| Gdb3.NoCommaLevels | gdb3.py:17-25 | none of the levels' fields holds a comma |
| Gdb3.DeduplicateLines | gdb3.py:76 | deduplicating fails exactly when `bdytyp` or `iso3cd` is missing, and keeps the columns |
| Gdb3.DeduplicateLinesSpec | gdb3.py:76 | no two kept lines share a (type, code) pair, and every pair of the input is kept |
| Gdb3.DeduplicateLinesOrder | gdb3.py:76 | the kept lines are, in input order, exactly the lines whose pair no earlier line has |

## Left out

- Reading and writing files. Parquet I/O, compression and the geoarrow options are not modelled. A read is a lookup in the store and a write is an `Output`.
- The registry loop. Iterating over pycountry's `countries` (with tqdm) is modelled once, in `Level3l.Level3lRun`, over a list of codes; the loop body is modelled one country at a time. For levels 1b to 3 the model is that body. Their ISO3 filter is the same `continue` that `Level3l.Visit` models.
- The registry itself: `add_entry` is not modelled because it mutates pycountry's registry. The three synthetic entries appear as a constant table.
- Loading configuration: dotenv, `mkdir`, and the JSON and CSV files. Every fix table (level-1a fixes, level-2 rules, M49 names) is a parameter.
- `if gdf is not None` after a read of a file that exists is not modelled: such a read always returns a frame.
- The numeric geometry routines are not modelled: reprojection, `force_2d`, `make_valid`, outlines, latitude bounds and area. They are opaque `Engine` functions, and every geometry is a set of points. The model therefore does not capture floating-point area, line-versus-polygon types, `keep_geom_type=True` in `clip`, or the row order a spatial index might produce.
- Date parsing (`Timestamp`, `to_datetime`, `astype("date32[pyarrow]")`) and `str.title` are opaque `Engine` functions.
- `str.contains` is treated as a plain substring test. Its regular-expression reading is not modelled, because ISO3 codes hold no regex metacharacters.
- `active_geometry_name` is not read: the geometry column is always `geometry`. In `Level2l`, "has an active geometry" means the concatenation has that column.
- Files written before a failure are not kept. Levels 1b and 3 may fail at one level of a country, and level 3l at one country of the run. The files that the source has already written by then (for finer levels or earlier countries) are not modelled: the result is that one `Err`. In levels 1a, 2a and 2b nothing is written before a failure, because only the first pass or layer can fail (`Level1a.CascadeAfterPass`, `Level2b.CascadeAfterPass`, `Level2a.SplitLaterOk`).
- The `sort_values` after each dissolve in levels 1a and 2b is a no-op in the model. The dissolve already returns its rows in ascending key order, one per key, so the sort changes nothing. This holds for a P-code column of one type; pandas cannot sort a column that mixes kinds, and the model's order between kinds is its own.
- In level 2l and 3l, `concat` of frames with different columns pads the missing cells with null. The model does not follow the column order or dtypes pandas would infer.
- The gdb1, gdb2 and the rest of gdb3 (`run_lines`, `run_polygons`, `transfer_polygons`, sozip, rclone) are not modelled: they are subprocess plumbing. So are the stac, images, pmtiles and convert scripts.
- `app/level_1.py` and `app/level_2.py` are not part of this model. The first reads each country's file of every level from 5 down, from the `hdx` source when it has one and from `itos` otherwise, makes `validTo` a null `date32` column when the file has one, and writes the result to level 1. The second is never called from `app/__main__.py`; its `refactor_columns` uses `match` without importing it.
- Level3l.ClipLinesSpec: does not describe the result when the country's lines already carry an `index` column. Its second clause assumes there is none; the error cases are still described in full.
- Level1b.RefactorIdempotent: holds only when no language column's two characters include an underscore. A column such as `adm2_a_` matches `\w{2}`, so `split("_")[1]` gives `a`, which differs from the column's code. A second pass can then find a different set of languages.
- Level1a.ReplaceSemantics: the model has no column dtypes. pandas' `.str` accessor works only on an object column; on a float64 or int64 column (all numbers, or all NaN) `.str.replace` (app/level_1a.py:95) and `.str.title` (app/level_1a.py:88) raise `AttributeError` and the country fails. The model instead turns every non-string cell into null and succeeds.
- Level1a.ApplyReplaceOps: the same missing dtypes in the name cleanup. An official ADM0 column filled with an M49 NaN (app/utils.py:90-92, app/level_1a.py:52) is float64, so `.str.replace` at app/level_1a.py:58 raises in the source. The model turns the cells into null and goes on.
- Level1a.CleanCell: models a name cell of an object column only; see the `Level1a.ApplyReplaceOps` line for a numeric column.
- Frames.Rename: pandas' `rename` never fails. Renaming onto a name that is taken keeps two columns with the same label, where the model returns `Err(DuplicateColumn)`. For the configured rename of level 1a (app/level_1a.py:85) the source goes on with the duplicate labels. A later `gdf[columns]` (app/level_1a.py:33) that does not list the duplicated name drops both, so the source can write its files where the model fails.
- Level1b.RenameMoves: a rename onto a taken name (app/level_1b.py:32-33) is an error in the model. pandas keeps both labels, and the duplicated labels go on to `to_parquet`.
- Level1b.RenameBlocked: states the model's `DuplicateColumn` error for a rename onto a taken name; pandas does not fail there (see the `Level1b.RenameMoves` line).
- Level1b.RefactorOk: the condition it ties success to (no two names lower-case alike and no rename onto a taken name) is the model's. pandas' `refactor_columns` never fails: it keeps duplicate labels and hands them on to `to_parquet`.
- Level1b.Lowered: where two names lower-case alike, pandas would keep duplicate labels. The model reports `DuplicateColumn` instead. A rename onto an existing name is treated the same way.
- Text.LowerNormal: `Lower` maps only the ASCII capitals `A`–`Z`. Python's `str.lower()` maps every cased Unicode letter (`É` to `é`); such a letter stays as it is in the model.
- Text.UpperNormal: `Upper` maps only the ASCII small letters `a`–`z`, where `str.upper()` maps every cased Unicode letter.
- Level1b.LowerAll: lower-cases only `A`–`Z`, so `ADM1_ÉS` becomes `adm1_És` where `str.lower()` gives `adm1_és`.
- Level1b.Lowered: the same ASCII-only lower-casing as `Level1b.LowerAll`.
- Level1b.LangsMembers: `\w` is modelled on the ASCII word characters `[A-Za-z0-9_]`. Python's str `\w` also matches every other Unicode letter and digit, so a column such as `adm1_és` is a language column in the source and not in the model, and its language is missed.
- Level1b.GetLangsSpec: the same ASCII `\w` as `Level1b.LangsMembers`: a language code with a non-ASCII letter that `get_langs` returns is not found, and its columns are not renamed.
- Config.CleanCodes: upper-cases only `a`–`z`. A filter entry holding another small letter keeps it, where `str.upper()` maps it.
- Config.UpperKeepsBlank: states the ASCII-only `Upper` described on the `Config.CleanCodes` line.
- Dissolve.DissolveBy: an integer and a float of the same value (`Int(6)` and `Num(6.0)`) in one key column form two adjacent groups, where pandas' groupby puts them in one. A column read from parquet has one type, so this arises only for a column whose cells mix kinds. Between kinds (numbers, strings, dates) the model sorts numbers first, then strings, then dates, where pandas refuses to sort.
- Level3.ResetIndex: pandas raises its own `ValueError` when both `index` and `level_0` exist. The model reports it as `DuplicateColumn("level_0")`.

## Notes on the code

- **EASE grid.** The grid for the level-1a areas is chosen once per dissolved layer, from the latitude bounds of the whole layer (`app/level_1a.py:30-31`, `Level1a.Dissolved1aArea`).
- **Boundary lines.** A level's lines are the child's outline minus the parent's, `overlay(how="difference")` (`app/level_2l.py:16`, `Level2l.DifferenceUnion`). Parts of the parent's outline that the child lacks are not kept.
- **Name cleanup.** The cleanup replaces only the apostrophe table and removes only the invisible-character table (`app/level_1a.py:57-60`). `quote_chars` is defined at `app/config.py:70` and used nowhere. U+2011 (the non-breaking hyphen) is in neither table, so it is kept.
- **Idempotence.** The refactor is idempotent only under the condition stated for `Level1b.RefactorIdempotent`, under "## Left out".
