# MIMIC-IV DuckDB ETL runner: a verified model

This project models the text-processing and bookkeeping core of the scripts
that run the MIMIC-IV to OMOP ETL on DuckDB:

- the SQL runner `scripts/duckdb_run_script.py`: configuration merging,
  variable templating, statement splitting, the BigQuery-to-DuckDB rewrites of
  `normalize_query`, and the order in which `run_scripts` applies them;
- the workflow runner `scripts/run_workflow.py`: templating of settings, the
  argument vectors of Python steps, `--set` overrides, the default injectors,
  type dispatch, workflow names and the progress total;
- the CSV ingester `scripts/ingest_mimic_csv_to_duckdb.py`: string quoting,
  table names, file order, the folder groups, and what `drop_relation`,
  `load_folder` and `create_schema_views` do to the database catalog;
- the custom-mapping loader `scripts/load_custom_mappings_to_etl.py`: cell
  normalisation and the row collection of `read_rows` and `main`;
- the cleanup and index scripts `scripts/cleanup_duckdb.py` and
  `scripts/optimize_duckdb_indexes.py`: identifier quoting, truthiness, and
  which schemas are dropped and which indexes are created.

Modules, one per concern:

| file | module | models |
|---|---|---|
| wrappers.dfy | Wrappers | `Option` and `Result` |
| text.dfy | Text | the Python string methods used (`strip`, `splitlines`, `partition`, `replace`, `lower`, `upper`, `sorted`, `Path.stem`), ASCII only |
| identifiers.dfy | Identifiers | `sql_ident` |
| config.dfy | Config | JSON values, insertion-ordered dicts, `merge_config`, `substitute_variables` |
| segmenter.dfy | Segmenter | `split_queries` |
| structfields.dfy | StructSplit | `_split_struct_fields` |
| rewrite.dfy | Rewrite | the regular expressions of `normalize_struct_json` and `normalize_query` as explicit matchers, and `re.sub` as a left-to-right scan |
| normalizer.dfy | Normalizer | `normalize_struct_json`, `normalize_query` |
| pipeline.dfy | Pipeline | `DEFAULT_CONFIG`, the configuration of `main`, and the statements `run_scripts` executes |
| workflow.dfy | Workflow | `scripts/run_workflow.py` |
| ingest.dfy | Ingest | `scripts/ingest_mimic_csv_to_duckdb.py` |
| custom_mappings.dfy | CustomMappings | `scripts/load_custom_mappings_to_etl.py` |
| cleanup.dfy | Cleanup | `scripts/cleanup_duckdb.py` |
| optimize.dfy | Optimize | `scripts/optimize_duckdb_indexes.py` |

Representation choices:

- A Python dict is a sequence of (key, value) pairs in insertion order
  (`Entries<V>`). `substitute_variables` and the ordered folder groups depend
  on that order.
- Regular expressions are hand-written matchers at an index. They follow the
  patterns exactly as written: ASCII word characters for `\b`, the lazy
  `(.*?)` of the struct pattern, and no word boundary in front of `r'`.
  `re.sub` is modelled by `Rewrite.Sub`, which scans left to right, replaces a
  match and resumes after it, and copies a character where nothing matches.
- Whitespace is ASCII whitespace, and lines are split at `\n`.
- State the scripts change in place is modelled by classes. The `variables`
  dict of the workflow runner is `Workflow.Variables`. The DuckDB connection
  of the ingester is `Ingest.Database`, and its catalog is a map from
  (schema, name) to a relation with a `table_type`.
- Loops that build lists are methods proved equal to a specification function,
  and the properties are proved as lemmas about that function.
- Database queries and file reads are parameters. Examples are the set of base
  tables, a folder's listing, a map from path to file text, and whether the
  database file exists.

## Model

| member | source | states |
|---|---|---|
| Identifiers.SqlIdent | scripts/cleanup_duckdb.py:20-21 | the identifier is the name in double quotes with each `"` doubled: its length is the name's plus 2 plus the number of `"`, and un-quoting it gives the name back (the same definition is at scripts/optimize_duckdb_indexes.py:80-81) |
| Identifiers.SqlIdentInjective | scripts/cleanup_duckdb.py:20-21 | distinct names quote to distinct identifiers |
| Text.Strip | scripts/duckdb_run_script.py:51 | `str.strip`: the result is no longer than the input and neither starts nor ends with whitespace |
| Text.StripSlice | scripts/duckdb_run_script.py:51 | `str.strip` returns a slice of its input with only whitespace cut off on either side |
| Text.StripIdempotent | scripts/duckdb_run_script.py:80 | stripping twice is stripping once |
| Text.StripEmptyIffBlank | scripts/duckdb_run_script.py:59 | a text strips to `""` exactly when it is all whitespace |
| Text.SplitLines | scripts/duckdb_run_script.py:50 | `splitlines`: no line holds `\n`, and there are no lines exactly when the text is empty |
| Text.SplitLinesRoundTrip | scripts/duckdb_run_script.py:50 | the lines joined with `\n`, plus the final `\n` if there was one, give the text back |
| Text.Before | scripts/duckdb_run_script.py:58 | `partition(";")[0]` is a prefix without `;`, shorter than the text exactly when the text holds `;` |
| Text.PiecesJoin | scripts/duckdb_run_script.py:42 | `str.replace` cuts the text at the non-overlapping occurrences found left to right, and puts the replacement between the pieces; the pieces joined by the pattern give the text back |
| Text.PiecesFreeOfOld | scripts/duckdb_run_script.py:42 | no piece between two replaced occurrences contains the pattern |
| Text.ReplaceAbsent | scripts/duckdb_run_script.py:42 | replacing a pattern that does not occur changes nothing |
| Text.ReplaceChars | scripts/duckdb_run_script.py:42 | every character of the result comes from the text or from the replacement |
| Text.ReplaceRemovesChar | scripts/duckdb_run_script.py:119 | replacing a character with `""` removes every occurrence of it |
| Text.QuoteRoundTrip | scripts/ingest_mimic_csv_to_duckdb.py:40-41 | quoting with doubled quotes: the length grows by 2 plus the quote count, and un-quoting gives the text back |
| Text.Sort | scripts/ingest_mimic_csv_to_duckdb.py:18 | `sorted`: the result is ordered and is a permutation of the input |
| Text.BaseNameTrailing | scripts/run_workflow.py:84 | `PurePath(path).name` ignores a trailing `/` or `/.`: they add no component |
| Text.StemTrailing | scripts/duckdb_run_script.py:150 | so does the stem of the database path and of a workflow file |
| Config.Get | scripts/duckdb_run_script.py:33 | `d.get(k)` finds a value exactly when `k` is a key |
| Config.GetIn | scripts/duckdb_run_script.py:33 | the value `d.get(k)` finds is stored under `k` |
| Config.Put | scripts/ingest_mimic_csv_to_duckdb.py:154-156 | `d[k] = v`: `k` reads `v` and every other key reads as before; an existing key keeps its place and a new key goes last |
| Config.MergeConfigGet | scripts/duckdb_run_script.py:30-37 | under a key the override lacks, the merge holds the base value; under an override key, it holds the recursive merge when both values are dicts, and the override value otherwise |
| Config.MergeConfigUnique | scripts/duckdb_run_script.py:30-37 | the merged dict has no key twice |
| Config.MergeConfigKeys | scripts/duckdb_run_script.py:30-37 | the merged keys are the base keys in their order, then the override keys the base lacks, in override order |
| Config.MergeConfigInnerExample | scripts/duckdb_run_script.py:30-37 | `{"b": 1, "c": 2}` merged with `{"c": 3}` gives `{"b": 1, "c": 3}` |
| Config.MergeConfigDeepExample | scripts/duckdb_run_script.py:30-37 | merging `{"a": {"b": 1, "c": 2}, "x": 1}` with `{"a": {"c": 3}, "y": 2}` keeps `x`, adds `y`, and merges the two dicts under `a` |
| Config.SubstituteVariables | scripts/duckdb_run_script.py:40-43 | the loop that reassigns `text` once per variable computes the dict-order sequence of `str.replace` calls |
| Config.SubstitutedAppend | scripts/duckdb_run_script.py:41-42 | applying a dict means applying its first part and then the rest, so the pairs act one after another and not at once |
| Config.SubstitutedPair | scripts/duckdb_run_script.py:41-42 | a two-entry dict is the first replacement followed by the second |
| Config.SubstituteOne | scripts/duckdb_run_script.py:42 | one variable: the result is the text's pieces around each occurrence of the name, joined by the value, and no piece holds the name |
| Config.SubstituteCanReform | scripts/duckdb_run_script.py:42 | replacing `ab` by `b` in `aab` gives `ab`, so an occurrence can remain even though the value does not contain the name |
| Config.SubstitutionOrderMatters | scripts/duckdb_run_script.py:41 | a value that names a later variable is expanded again; one that names an earlier variable is not |
| Segmenter.SplitQueries | scripts/duckdb_run_script.py:46-64 | the line loop with `queries`, `current` and `depth` returns exactly `Statements(raw)` |
| Segmenter.NonBlankExact | scripts/duckdb_run_script.py:64 | the final filter keeps exactly the non-blank statements |
| Segmenter.ScanInvariant | scripts/duckdb_run_script.py:49-61 | the depth is the running total of `(` minus `)` over every kept line, never reset; the buffer is the latest run of kept lines; every statement so far is non-blank and holds no `;` |
| Segmenter.ClosingRule | scripts/duckdb_run_script.py:55-61 | a kept line empties the buffer exactly when it holds `;` and the cumulative depth is at most 0; otherwise the line is appended to the buffer |
| Segmenter.CommentSkipped | scripts/duckdb_run_script.py:51-53 | a line whose stripped form starts with `--` changes neither the buffer nor the depth |
| Segmenter.StatementsShape | scripts/duckdb_run_script.py:59-64 | the result is the statements closed by `;` followed by the trailing buffer when it is non-blank; no statement is blank |
| Segmenter.ClosedStatement | scripts/duckdb_run_script.py:56-61 | a closing line emits the buffer, that line included, joined by `\n` and cut before its first `;`; the emitted text is a prefix of the joined buffer and holds no `;`, and it is dropped when blank |
| Segmenter.StatementsBeforeSemicolon | scripts/duckdb_run_script.py:56-64 | every statement but the last was cut at a `;` and holds none |
| Segmenter.NoSemicolonOneStatement | scripts/duckdb_run_script.py:62-64 | a text without `;` yields its kept lines joined by `\n` as one statement, or nothing when that is blank |
| Segmenter.StatementsNoComment | scripts/duckdb_run_script.py:50-53 | no returned statement holds a line whose stripped form starts with `--` |
| StructSplit.SplitStructFields | scripts/duckdb_run_script.py:67-80 | the character loop with `depth` and `start` returns exactly `StructFields(payload)` |
| StructSplit.StrippedNonBlank | scripts/duckdb_run_script.py:80 | every returned field is non-empty and already stripped |
| StructSplit.RawFieldsAreTopLevelCut | scripts/duckdb_run_script.py:71-79 | before stripping, the fields are the payload cut at exactly the commas where the parenthesis depth is 0, so there is one more field than such commas |
| StructSplit.DepthAtCounts | scripts/duckdb_run_script.py:73-76 | the running depth in front of a character is the count of `(` minus the count of `)` before it |
| StructSplit.TopCommasComplete | scripts/duckdb_run_script.py:72 | every comma at depth 0 is a cut point |
| StructSplit.RawFieldsJoin | scripts/duckdb_run_script.py:71-79 | the raw fields joined with `,` give the payload back |
| StructSplit.NoTopCommaOneField | scripts/duckdb_run_script.py:67-80 | a payload with no comma at depth 0 gives its stripped self, or nothing when it is blank |
| Rewrite.SkipSpace | scripts/duckdb_run_script.py:84 | `\s*` matches the longest run of whitespace |
| Rewrite.CloseFrom | scripts/duckdb_run_script.py:84 | the lazy `(.*?)` ends at the first index where `\)\s*\)` matches, and at no earlier index |
| Rewrite.StructAt | scripts/duckdb_run_script.py:84 | a struct match starts with `TO_JSON_STRING` in any case, and its payload is followed by `)`, optional whitespace and `)` |
| Rewrite.StructFirstClose | scripts/duckdb_run_script.py:84-97 | the payload captured in `TO_JSON_STRING(STRUCT(p))` is `p` up to the first `))`, so a nested call ends the payload early |
| Rewrite.AsChunksAlias | scripts/duckdb_run_script.py:90 | `expr AS alias` splits on `\s+AS\s+` into the expression and the alias |
| Rewrite.StructSingleAlias | scripts/duckdb_run_script.py:86-95 | a single field `expr AS alias` becomes `to_json(struct_pack(alias := expr))` |
| Rewrite.SubNoMatch | scripts/duckdb_run_script.py:97 | `re.sub` with no match anywhere returns its input |
| Rewrite.SubSkip | scripts/duckdb_run_script.py:97 | text before the first match is copied unchanged |
| Rewrite.SubOneMatch | scripts/duckdb_run_script.py:97 | with exactly one match, the replacement is spliced between the untouched text on either side |
| Rewrite.SubKeepsOut | scripts/duckdb_run_script.py:110-128 | a character absent from the text and from what the rule adds is absent from the result |
| Rewrite.WordAbsent | scripts/duckdb_run_script.py:110-118 | a word that does not occur in exactly this case leaves the text unchanged, so `regexp_extract` and text without the word stay as they are |
| Rewrite.WordOnce | scripts/duckdb_run_script.py:110-118 | a word occurring once is replaced exactly when it stands alone between non-word characters (and, for `DATETIME`, is not followed by `\s*(`); otherwise the text is unchanged |
| Rewrite.RawStringDropsR | scripts/duckdb_run_script.py:120 | `r'...'` loses its `r` whatever precedes it, so the `r` that ends an ordinary literal is deleted too |
| Rewrite.ParseDateFolds | scripts/duckdb_run_script.py:123-128 | `PARSE_DATE('fmt', 'lit')` in any letter case becomes `DATE 'lit'` |
| Normalizer.NormalizeQuery | scripts/duckdb_run_script.py:100-129 | the step-by-step reassignment of `normalized` computes the fixed order of rewrites `Normalized(sql)` |
| Normalizer.NormalizedHasNoBacktick | scripts/duckdb_run_script.py:119-128 | no backtick survives `normalize_query` |
| Normalizer.FarmFingerprintWhole | scripts/duckdb_run_script.py:101-122 | for every text before and after it, `FARM_FINGERPRINT(GENERATE_UUID())` is rewritten as a whole before the bare `GENERATE_UUID()` rule, which then leaves it alone, and the text on each side is rewritten as if it stood alone |
| Pipeline.WorkflowConfWins | scripts/duckdb_run_script.py:220 | a top-level setting that is not a dict in the workflow file takes that value over the global file and the defaults |
| Pipeline.DefaultsKept | scripts/duckdb_run_script.py:15-23 | a top-level setting neither file names keeps its `DEFAULT_CONFIG` value |
| Pipeline.WithCatalog | scripts/duckdb_run_script.py:146-150 | `@duckdb_catalog` is the stem of the substituted database path, and every other variable is unchanged; an existing `@duckdb_catalog` keeps its place, and a new one goes last |
| Pipeline.SplitSubstituteOrder | scripts/duckdb_run_script.py:179-200 | a `pre_sql` file is split before it is substituted and a script after: with `@v` set to `a;` and `b` on two lines, the text `@v` is one `pre_sql` statement but two script statements |
| Pipeline.PreSqlFile | scripts/duckdb_run_script.py:181-185 | the statement loop of one `pre_sql` file executes `PreSqlStatements` in order |
| Pipeline.ScriptFile | scripts/duckdb_run_script.py:194-200 | the statement loop of one script executes `ScriptStatements` in order |
| Pipeline.PreSqlLoop | scripts/duckdb_run_script.py:179-188 | the `pre_sql` loop executes each file's statements in turn and stops at the first missing file |
| Pipeline.ScriptLoop | scripts/duckdb_run_script.py:190-205 | the script loop executes each script's statements in turn and stops at the first missing script |
| Pipeline.RunScripts | scripts/duckdb_run_script.py:143-205 | the `pre_sql` statements, then the script statements, with the catalog variable added |
| Pipeline.ScriptsRunStopsAtMissing | scripts/duckdb_run_script.py:190-193 | the script loop fails exactly at the first missing script |
| Pipeline.PreSqlRunStopsAtMissing | scripts/duckdb_run_script.py:179-181 | the `pre_sql` loop fails exactly at the first file that, once its path is substituted, is not there |
| Pipeline.RunStopsAtMissing | scripts/duckdb_run_script.py:179-193 | `run_scripts` fails exactly on the first missing `pre_sql` file, or else on the first missing script, and runs through when neither is missing |
| Pipeline.FirstMissingIsFirst | scripts/duckdb_run_script.py:190-193 | that script is absent and every script before it is present; with none missing, every script is present |
| Pipeline.ScriptsRunCount | scripts/duckdb_run_script.py:196-205 | with every script present, one text is executed per statement of every script |
| Workflow.ApplyVariablesShape | scripts/run_workflow.py:47-54 | templating keeps the shape: strings stay strings, lists keep their length, dicts keep their keys in order, other scalars are unchanged |
| Workflow.ApplyNoVariables | scripts/run_workflow.py:47-54 | with no variables, templating is the identity |
| Workflow.BuildArgv | scripts/run_workflow.py:57-68 | the append-and-pop loop builds `Argv(executable, script, args, vars)` |
| Workflow.ArgvLength | scripts/run_workflow.py:59-68 | each configured value adds at most one argument |
| Workflow.ArgvNoEmpty | scripts/run_workflow.py:61-67 | an empty string is never passed on |
| Workflow.ArgvAllPresent | scripts/run_workflow.py:59-68 | with no empty value, every value is appended, in order |
| Workflow.FlagWithEmptyValueDropped | scripts/run_workflow.py:61-67 | `["-flag", ""]` contributes nothing: the value and its flag are both dropped |
| Workflow.ArgvKeepsHead | scripts/run_workflow.py:58-67 | the argument vector starts with the interpreter and the script |
| Workflow.ParseSet | scripts/run_workflow.py:268-271 | a `--set` entry parses exactly when it holds `=`: the key is the stripped text before the first `=`, and the value is the rest as given; otherwise it fails with the `ValueError` message |
| Workflow.SetsAppliedFails | scripts/run_workflow.py:265-272 | the overrides fail exactly when some entry has no `=` |
| Workflow.SetsAppliedGet | scripts/run_workflow.py:265-272 | afterwards a key holds the value of its last `--set`, and untouched keys keep theirs |
| Workflow.WithDefaultsGet | scripts/run_workflow.py:206-222 | after a run of `setdefault` calls, a present key keeps its value and a missing key gets the first default named for it |
| Workflow.WithDefaultsKeys | scripts/run_workflow.py:206-222 | existing keys keep their order, and new keys only go after them |
| Workflow.AuditDefaultsFill | scripts/run_workflow.py:183-188 | the audit thresholds default to `"0"`, and `@audit_mapping_tables` to `""`, only when missing; other keys are untouched |
| Workflow.IngestDefaultsFill | scripts/run_workflow.py:206-217 | each of the ten ingest keys is present afterwards, and is `""` only where it was missing |
| Workflow.OptimizeDefaultsFill | scripts/run_workflow.py:219-222 | the two optimisation switches default to `"0"` only where missing |
| Workflow.Variables.SetDefaults | scripts/run_workflow.py:206-222 | a run of `setdefault` calls on the dict held in place |
| Workflow.Variables.ApplyAuditThresholdDefaults | scripts/run_workflow.py:183-188 | the threshold `setdefault` calls of `apply_audit_defaults` |
| Workflow.Variables.ApplyIngestDefaults | scripts/run_workflow.py:206-217 | `apply_ingest_defaults` |
| Workflow.Variables.ApplyOptimizeDefaults | scripts/run_workflow.py:219-222 | `apply_optimize_defaults` |
| Workflow.Variables.ApplyOverrides | scripts/run_workflow.py:265-272 | the `--set` loop writes the entries in turn, or reports the first malformed one |
| Workflow.Dispatch | scripts/run_workflow.py:98-110 | a type other than `sql` or `py` fails; `sql` hands the step scripts, in order, to the SQL runner; `py` builds one argument vector per step, `Argv` of that step's script and arguments |
| Workflow.WorkflowName | scripts/run_workflow.py:84 | the entry's name when given, else the conf file's name, else the conf path's stem; the name is empty only when all three are |
| Workflow.FirstFailingIsFirst | scripts/run_workflow.py:105-108 | the Python step loop stops at a step whose `check_call` fails while every step before it succeeds, and runs through exactly when no step fails |
| Workflow.WorkflowErrorCases | scripts/run_workflow.py:98-110 | one workflow raises `ValueError` for an unsupported type; a `sql` workflow raises `FileNotFoundError` exactly when `run_scripts` over its settings misses a file, naming that file; a `py` workflow raises exactly when the process of some step exits with a non-zero status |
| Workflow.RunFromSteps | scripts/run_workflow.py:285-290 | a run without error completes one action per workflow, and the actions run as many scripts as the progress total counts; it has no error exactly when no workflow raises (unsupported type, missing SQL file, failing Python step), and otherwise stops at the first workflow that raises, with its error, having completed only the workflows before it |
| Workflow.RunWorkflows | scripts/run_workflow.py:281-290 | an empty workflow list raises before anything runs; otherwise the run succeeds exactly when no workflow raises, and then completes one action per workflow, running as many scripts as the sum of the script-list lengths; a failed run ends with the error of the first workflow that raises |
| Ingest.SqlQuoteString | scripts/ingest_mimic_csv_to_duckdb.py:40-41 | the literal's length is the value's plus 2 plus the number of `'`, and un-doubling the interior gives the value back |
| Ingest.TableNameOfCompressed | scripts/ingest_mimic_csv_to_duckdb.py:55-59 | `x.csv`, `x.csv.gz` and `x.csv.zip` all load into table `x`, lower-cased exactly when `lowercase` |
| Ingest.Matching | scripts/ingest_mimic_csv_to_duckdb.py:17-18 | a glob `*<ext>` keeps exactly the names ending in the extension |
| Ingest.DiscoverFiles | scripts/ingest_mimic_csv_to_duckdb.py:16-18 | the `.csv` files sorted, then the `.csv.gz` files sorted, then the `.csv.zip` files sorted, each block a permutation of its glob |
| Ingest.DiscoverFilesMembers | scripts/ingest_mimic_csv_to_duckdb.py:16-18 | exactly the names matching one of the three patterns are loaded |
| Ingest.BuildMapping | scripts/ingest_mimic_csv_to_duckdb.py:136-146 | the five `if`s build the mapping of the given folders in option order |
| Ingest.MappingMembers | scripts/ingest_mimic_csv_to_duckdb.py:136-146 | the mapping holds a pair for every given folder and for nothing else |
| Ingest.MappingAppend | scripts/ingest_mimic_csv_to_duckdb.py:136-146 | earlier options come first |
| Ingest.GroupFolders | scripts/ingest_mimic_csv_to_duckdb.py:151-156 | the `setdefault`/append loop builds `Grouped(mapping)` |
| Ingest.GroupedShape | scripts/ingest_mimic_csv_to_duckdb.py:151-156 | every folder appears once, in first-seen order, and each schema list is non-empty without repeats |
| Ingest.GroupedMembers | scripts/ingest_mimic_csv_to_duckdb.py:151-156 | a schema is listed under a folder exactly when the mapping pairs them |
| Ingest.GroupedSchemas | scripts/ingest_mimic_csv_to_duckdb.py:151-156 | a folder's schema list is what it held, then the schemas paired with it that it lacks, each once, in mapping order |
| Ingest.GroupedFirst | scripts/ingest_mimic_csv_to_duckdb.py:151-159 | the first schema listed for a folder, the one that receives the load, is the schema of the first pair naming that folder |
| Ingest.Dropped | scripts/ingest_mimic_csv_to_duckdb.py:21-37 | the dropped relation is gone, and every other relation and schema is as before |
| Ingest.LoadedShape | scripts/ingest_mimic_csv_to_duckdb.py:53-69 | `load_folder` creates the schema and leaves the table of every discovered file as a base table, made from the last discovered file with that table name and replacing any table or view of that name; nothing else changes |
| Ingest.LastLoadIsLast | scripts/ingest_mimic_csv_to_duckdb.py:54-69 | the load a table is made from is a load of that table that no later load of it follows |
| Ingest.LastLoadSome | scripts/ingest_mimic_csv_to_duckdb.py:54-69 | a table has such a load exactly when some discovered file names it |
| Ingest.ViewedShape | scripts/ingest_mimic_csv_to_duckdb.py:84-102 | afterwards the target holds exactly one view per base table of the source, over that table; stale relations of the target are gone |
| Ingest.ViewedElsewhere | scripts/ingest_mimic_csv_to_duckdb.py:84-102 | `create_schema_views` changes no schema but the target |
| Ingest.AliasedViews | scripts/ingest_mimic_csv_to_duckdb.py:167-168 | every alias schema ends up holding exactly the views over the canonical schema's base tables |
| Ingest.AliasedElsewhere | scripts/ingest_mimic_csv_to_duckdb.py:167-168 | aliasing changes only the alias schemas, and the canonical schema is untouched |
| Ingest.IngestedFailsAtFirstMissing | scripts/ingest_mimic_csv_to_duckdb.py:158-168 | the ingester fails exactly at the first missing folder |
| Ingest.FirstMissingFolderIsFirst | scripts/ingest_mimic_csv_to_duckdb.py:158-168 | that folder is absent and every folder before it exists; with none missing, every folder exists |
| Ingest.Database.DropRelation | scripts/ingest_mimic_csv_to_duckdb.py:21-37 | returns the DDL of `DropStatement` and removes that relation from the catalog |
| Ingest.Database.LoadFolder | scripts/ingest_mimic_csv_to_duckdb.py:44-69 | a missing folder raises with the catalog unchanged; otherwise the catalog becomes `Loaded` |
| Ingest.Database.ClearSchema | scripts/ingest_mimic_csv_to_duckdb.py:88-97 | every relation of the schema is dropped |
| Ingest.Database.AliasBaseTables | scripts/ingest_mimic_csv_to_duckdb.py:98-102 | one view per base table of the source replaces whatever had that name in the target |
| Ingest.Database.CreateSchemaViews | scripts/ingest_mimic_csv_to_duckdb.py:84-102 | the catalog becomes `Viewed(source, target)` |
| Ingest.Database.AliasSchemas | scripts/ingest_mimic_csv_to_duckdb.py:167-168 | each alias schema in turn gets the views over the canonical schema |
| Ingest.Database.IngestGroups | scripts/ingest_mimic_csv_to_duckdb.py:158-168 | the folder loop: load into the first schema, alias the others, stop at a missing folder |
| Ingest.Database.RunIngest | scripts/ingest_mimic_csv_to_duckdb.py:128-169 | `main`: the mapping, the groups, then the loads and aliases |
| CustomMappings.Norm | scripts/load_custom_mappings_to_etl.py:55-59 | a missing cell stays missing; a present result is the stripped, non-empty text |
| CustomMappings.NormBlank | scripts/load_custom_mappings_to_etl.py:55-59 | `None` exactly for a missing or all-whitespace cell |
| CustomMappings.NormIdempotent | scripts/load_custom_mappings_to_etl.py:55-59 | normalising twice is normalising once |
| CustomMappings.FixHeaderClean | scripts/load_custom_mappings_to_etl.py:74-76 | no header name keeps the `reverese_relationship_id` typo or surrounding whitespace |
| CustomMappings.FieldFound | scripts/load_custom_mappings_to_etl.py:79 | `row.get(key)` finds the value of a column with that name, and nothing when there is none |
| CustomMappings.ParseIntShow | scripts/load_custom_mappings_to_etl.py:82 | `int(str(n)) == n` for the integer parser |
| CustomMappings.ConceptOfFields | scripts/load_custom_mappings_to_etl.py:84-91 | the concept has the row's id, and its name, domain, vocabulary, class and code are the stripped cells, `""` when blank |
| CustomMappings.ConceptOfValidity | scripts/load_custom_mappings_to_etl.py:90-94 | blank validity dates become `1970-01-01` and `2099-12-31`, and `standard_concept` and `invalid_reason` are `None` exactly when blank |
| CustomMappings.RelOfFields | scripts/load_custom_mappings_to_etl.py:102-108 | a relationship links the row's id to the target with the relationship id; blank dates become `1970-01-01` and `2099-12-31`, and `invalid_reason_cr` is `None` exactly when blank |
| CustomMappings.PutConceptFind | scripts/load_custom_mappings_to_etl.py:96 | after `concepts[id] = c`, `id` finds `c` and every other id finds what it did before |
| CustomMappings.PutConceptIds | scripts/load_custom_mappings_to_etl.py:96 | a stored id keeps its place, and a new id goes to the end |
| CustomMappings.ReadRowsLoop | scripts/load_custom_mappings_to_etl.py:66-111 | the row loop computes `ReadRows`, failing at the first id that does not parse |
| CustomMappings.RowsFromIds | scripts/load_custom_mappings_to_etl.py:66-111 | one concept per id, in the order the ids first appear |
| CustomMappings.RowsFromLast | scripts/load_custom_mappings_to_etl.py:84-96 | each concept is the one described by the last row with its id |
| CustomMappings.RowsFromRels | scripts/load_custom_mappings_to_etl.py:98-110 | the relationships are exactly the set of those the rows describe, so duplicates collapse |
| CustomMappings.RelSetMembers | scripts/load_custom_mappings_to_etl.py:100-110 | a relationship is recorded exactly when some row has both a target id and a relationship id |
| CustomMappings.RowWithoutIdSkipped | scripts/load_custom_mappings_to_etl.py:79-81 | a row without a source concept id contributes nothing |
| CustomMappings.MappingFiles | scripts/load_custom_mappings_to_etl.py:62-63 | exactly the `gcpt_*.csv` names are read |
| CustomMappings.GatherRows | scripts/load_custom_mappings_to_etl.py:126-131 | the `extend` loop computes `GatherFrom` |
| CustomMappings.GatherAppend | scripts/load_custom_mappings_to_etl.py:128-131 | the files are gathered in order, and nothing is merged across files |
| CustomMappings.GatherEmpty | scripts/load_custom_mappings_to_etl.py:133-135 | nothing is inserted exactly when every file gives no concept and no relationship |
| CustomMappings.GatherOk | scripts/load_custom_mappings_to_etl.py:126-131 | the file loop succeeds exactly when every file reads, and otherwise raises the error of the first file that does not |
| CustomMappings.LoadMappings | scripts/load_custom_mappings_to_etl.py:114-135 | a missing database raises first, naming the database; then a missing folder, naming the folder; otherwise `main` fails exactly when the file loop does, with its error, and inserts the gathered rows only when there is at least one |
| CustomMappings.LoadMappingsNothing | scripts/load_custom_mappings_to_etl.py:114-135 | `main` returns without inserting exactly when the database and folder exist and every mapping file reads back with no concept and no relationship |
| Cleanup.TruthyPadded | scripts/cleanup_duckdb.py:16-17 | a true word in any letter case, with any whitespace around it, is truthy |
| Cleanup.TruthyDefaults | scripts/cleanup_duckdb.py:16-17 | the default `1` is truthy, and `0` and `""` are not |
| Cleanup.DropSchema | scripts/cleanup_duckdb.py:52-55 | an empty name issues nothing, and any other name one statement |
| Cleanup.DropStatementInjective | scripts/cleanup_duckdb.py:55 | distinct schemas give distinct drop statements |
| Cleanup.DroppedMembers | scripts/cleanup_duckdb.py:83-88 | a schema is dropped exactly when it is listed, non-empty and not preserved |
| Cleanup.DroppedInOrder | scripts/cleanup_duckdb.py:83-88 | the dropped schemas are a sub-list of the listed schemas: none added, none reordered |
| Cleanup.SchemaDroppedIff | scripts/cleanup_duckdb.py:68-89 | a drop statement for a schema runs exactly when the schema is in the drop list, non-empty, and outside the preserve set |
| Cleanup.LegacyListed | scripts/cleanup_duckdb.py:70-79 | the legacy schema is listed exactly when its flag is truthy, or when it is also an intermediate schema |
| Cleanup.VacuumLast | scripts/cleanup_duckdb.py:91-94 | `VACUUM` runs exactly when its flag is truthy, and then as the last statement |
| Cleanup.BuildDropList | scripts/cleanup_duckdb.py:70-79 | the append builds `DropList` |
| Cleanup.DropSchemas | scripts/cleanup_duckdb.py:83-89 | the drop loop issues the drop statements of the non-empty, unpreserved schemas, in order |
| Cleanup.RunCleanup | scripts/cleanup_duckdb.py:58-97 | disabled means nothing is done; a missing database raises; otherwise the drops run, then `VACUUM` if asked for |
| Optimize.EnabledSublist | scripts/optimize_duckdb_indexes.py:84-88 | the enabled specs are a sub-list of the specs: nothing added, nothing reordered |
| Optimize.EnabledMembers | scripts/optimize_duckdb_indexes.py:84-88 | a spec is enabled exactly when it is listed and is not a large spec while large specs are off |
| Optimize.EnabledAppend | scripts/optimize_duckdb_indexes.py:84-88 | the specs are filtered in `INDEX_SPECS` order |
| Optimize.EnabledIndexSpecs | scripts/optimize_duckdb_indexes.py:34-55 | all 18 specs when large specs are on, and the 12 core specs otherwise |
| Optimize.QuotedColumns | scripts/optimize_duckdb_indexes.py:98 | every column is quoted by `sql_ident` |
| Optimize.IndexDdlNamesIndex | scripts/optimize_duckdb_indexes.py:100-101 | the DDL starts with `CREATE INDEX IF NOT EXISTS` followed by the quoted index name, quoted by `Identifiers.SqlIdent` |
| Optimize.ApplicableMembers | scripts/optimize_duckdb_indexes.py:95-97 | a spec is indexed exactly when it is enabled and its table exists as a base table |
| Optimize.IndexEach | scripts/optimize_duckdb_indexes.py:95-103 | the loop counts and issues exactly the DDL of the specs whose table exists |
| Optimize.CreateIndexes | scripts/optimize_duckdb_indexes.py:91-107 | the count is the number of enabled specs whose table exists, never more than the enabled count; `ANALYZE` runs after the DDL |
| Optimize.RunOptimize | scripts/optimize_duckdb_indexes.py:110-120 | a missing database raises; `--enable` other than 1 creates nothing; otherwise `create_indexes` runs, with large specs exactly when `--enable-large` is 1 |
| Optimize.IndexCreatedIff | scripts/optimize_duckdb_indexes.py:95-103 | every enabled spec on an existing base table gets its DDL, and no other spec is indexed |

## Left out

- DuckDB itself is not modelled: `con.execute`, `execute_query` and `information_schema`. What the scripts send to the database is recorded as strings. The catalog the ingester changes is an abstract map from (schema, name) to a relation type, and the base tables the index script checks are a set.
- `run_scripts` issues connection settings (`SET threads`, `memory_limit`, `temp_directory`, `max_expression_depth`) and `ATTACH` statements. These are not modelled. Neither is the rest of the settings lookup of `run_scripts`, including `int(threads)`: `Pipeline.Run` takes the database path, the variables and the path lists as already read.
- Files and processes are parameters: `read_text`, `glob`, `Path.exists`, `expanduser`/`resolve`, and `subprocess.check_call`. `Path.resolve` is treated as the identity on folder paths, so two spellings of the same folder stay distinct.
- Progress bars, logging, `print`, timestamps and `time.perf_counter` are not modelled.
- Workflow.RunWorkflows: a `sql` workflow fails here only on a SQL file that is not there. An error DuckDB raises while executing a statement is not modelled. A `py` step fails when its process exits with a non-zero status, given as the set `failing` of argument vectors. The steps and statements a failing workflow ran before it raised are not listed among the completed actions.
- Workflow.RunFromSteps: states that the actions run as many scripts as `total_steps` counts. A `sql` workflow advances the bar once per statement, not once per script (scripts/duckdb_run_script.py:204-205), so the bar can pass its total. Those per-statement updates are not modelled.
- `apply_audit_defaults` also sets `@run_started_at`, `@run_id` and `@git_sha`. Only its four threshold defaults are modelled, because the other three come from the clock, `uuid4` and `git`.
- `apply_vocab_defaults` and `verify_vocab_tables` are not modelled, because they branch on file existence and database contents.
- `resolve_workflow` is represented only by its result, `Workflow.Resolved`: the type, steps, variables and name, and the `duckdb.database` and `duckdb.pre_sql` settings that `run_scripts` reads. The merge it performs is `Config.MergeConfig`.
- The scripts that only talk to the database are not part of this model: `verify_vocab_duckdb.py`, `bootstrap_vocab_smoke.py`, `create_vocab_snapshot.py`, `materialize_omop_schema.py`, `load_crosswalks_to_etl.py`, `load_vocab_to_duckdb.py` and `clean_run.py`. The mock-data generator and the `INSERT` statements of the custom-mapping loader are not part of it either.
- Tests pass ingestion options (a schema parser, typed CSV loading, copy modes, on-exists policies, row limits). The ingester's argument parser defines none of them, so they are not modelled.
- `csv.DictReader` parsing is not modelled: a file is a header plus records. A record shorter than the header reads as missing cells, and extra values are ignored.
- Text.BaseName: follows `PurePath` for `/`-separated paths: empty and `.` components are dropped. Windows drive letters and `\\` separators are not modelled.
- Unicode is not modelled: whitespace, word characters and case mapping are ASCII only, and lines split at `\n` only. Lines are not split at `\r`, `\r\n` or the other Unicode separators.
- JSON numbers are integers, and no floating point is modelled.
- Config.MergeConfigGet: Dafny values are immutable, so the promise that `merge_config` does not mutate its inputs holds trivially and is not stated.
- Config.SubstituteOne: does not state that no occurrence of the variable remains unless the value contains it. That promise is false for `str.replace` (`Config.SubstituteCanReform`), so the model states the exact decomposition instead.
- Segmenter.ScanInvariant: the depth is never clamped, because `split_queries` never clamps it.
- Ingest.Database.ClearSchema: `information_schema` returns rows in some order, and the model picks an arbitrary one. The resulting catalog is the same for every order.
- Ingest.Database.AliasBaseTables: the model picks tables in an arbitrary order instead of sorted by name. The resulting catalog is the same for every order.
- CustomMappings.ParseIntShow: `int()` is modelled for an optional ASCII sign followed by ASCII digits. Surrounding whitespace cannot occur, because the text has already been stripped. Underscores and non-ASCII digits are not modelled.
- Workflow.ArgvKeepsHead: requires that the script path not start with `-`. Otherwise an empty first value pops the script itself, as the code does.
- Rewrite.StructSingleAlias: proved for one `expr AS alias` field. With several fields, `StructSplit.RawFieldsAreTopLevelCut` states where the fields are cut and `Rewrite.AsChunksAlias` how each one is rewritten, but no single lemma states the whole multi-field rewrite.
- Rewrite.WordOnce: proved for a single occurrence of the word. Text without the word is covered by `Rewrite.WordAbsent`, but no lemma states the general many-occurrence rewrite, and idempotence of the `REGEXP_EXTRACT` rename is not proved.
