/**
 * The text pipeline of `run_scripts` and `main` in scripts/duckdb_run_script.py.
 *
 * The database connection is abstracted away: what the model records is the
 * sequence of SQL texts handed to `con.execute` for the `pre_sql` files and
 * the scripts, in order. The filesystem is a map from path to file text; a
 * path absent from it is a missing file, and reading it raises
 * `FileNotFoundError`, which ends the run after the statements already run.
 */
module Pipeline {
  import opened Wrappers
  import opened Text
  import opened Config
  import opened Segmenter
  import opened Normalizer

  const DefaultDatabase := "data/mimiciv.duckdb"
  const CatalogVariable := "@duckdb_catalog"

  /** `DEFAULT_CONFIG`. */
  const DefaultConfig: Entries<Value> := [
    ("variables", Dict([])),
    ("duckdb", Dict([
      ("database", Str(DefaultDatabase)),
      ("attachments", List([])),
      ("pre_sql", List([])),
      ("max_expression_depth", Num(100000))]))]

  /** The configuration `main` hands to `run_scripts`: defaults, then the global file, then the workflow file. */
  function MainConfig(etlconf: Entries<Value>, workflowConf: Entries<Value>): Entries<Value>
  {
    MergeConfig(DefaultConfig, MergeConfig(etlconf, workflowConf))
  }

  /** A top-level setting that is not a dict takes the workflow file's value over the global one. */
  lemma WorkflowConfWins(etlconf: Entries<Value>, workflowConf: Entries<Value>, k: string)
    requires UniqueKeys(etlconf) && UniqueKeys(workflowConf)
    requires k in Keys(workflowConf) && !Get(workflowConf, k).value.Dict?
    ensures Get(MainConfig(etlconf, workflowConf), k) == Get(workflowConf, k)
  {
    var inner := MergeConfig(etlconf, workflowConf);
    MergeConfigGet(etlconf, workflowConf, k);
    MergeConfigUnique(etlconf, workflowConf);
    MergeConfigGet(DefaultConfig, inner, k);
  }

  /** A top-level setting neither file names keeps its default. */
  lemma DefaultsKept(etlconf: Entries<Value>, workflowConf: Entries<Value>, k: string)
    requires UniqueKeys(etlconf) && UniqueKeys(workflowConf)
    requires k !in Keys(etlconf) && k !in Keys(workflowConf)
    ensures Get(MainConfig(etlconf, workflowConf), k) == Get(DefaultConfig, k)
  {
    var inner := MergeConfig(etlconf, workflowConf);
    MergeConfigGet(etlconf, workflowConf, k);
    MergeConfigUnique(etlconf, workflowConf);
    MergeConfigGet(DefaultConfig, inner, k);
    assert k !in Keys(inner);
  }

  // ---------------------------------------------------------------------------
  // The variables the statements see
  // ---------------------------------------------------------------------------

  /** `{**variables, "@duckdb_catalog": Path(db_path).stem}` with `db_path` the substituted database path. */
  function WithCatalog(vars: Entries<string>, database: string): (r: Entries<string>)
    ensures Get(r, CatalogVariable) == Some(Stem(Substituted(database, vars)))
    ensures forall k :: k != CatalogVariable ==> Get(r, k) == Get(vars, k)
    ensures UniqueKeys(vars) ==> UniqueKeys(r)
    ensures Keys(r) == if CatalogVariable in Keys(vars) then Keys(vars) else Keys(vars) + [CatalogVariable]
  {
    var r := Put(vars, CatalogVariable, Stem(Substituted(database, vars)));
    assert UniqueKeys(vars) ==> UniqueKeys(r) by {
      if UniqueKeys(vars) {
        UniqueKeysPut(vars, CatalogVariable, Stem(Substituted(database, vars)));
      }
    }
    r
  }

  // ---------------------------------------------------------------------------
  // What gets executed
  // ---------------------------------------------------------------------------

  /** A `pre_sql` file: split first, then each statement normalised and only then substituted. */
  function PreSqlStatements(text: string, vars: Entries<string>): (r: seq<string>)
    ensures |r| == |Statements(text)|
    ensures forall i :: 0 <= i < |r| ==> r[i] == Substituted(Normalized(Statements(text)[i]), vars)
  {
    var sts := Statements(text);
    seq(|sts|, i requires 0 <= i < |sts| => Substituted(Normalized(sts[i]), vars))
  }

  /** A script: the whole text substituted first, then split, then each statement normalised. */
  function ScriptStatements(raw: string, vars: Entries<string>): (r: seq<string>)
    ensures |r| == |Statements(Substituted(raw, vars))|
    ensures forall i :: 0 <= i < |r| ==> r[i] == Normalized(Statements(Substituted(raw, vars))[i])
  {
    var sts := Statements(Substituted(raw, vars));
    seq(|sts|, i requires 0 <= i < |sts| => Normalized(sts[i]))
  }

  /**
   * The two orders differ: a `pre_sql` file is split before it is
   * substituted, a script after. A variable whose value ends a line with `;`
   * therefore leaves one `pre_sql` statement whole but cuts a script in two.
   */
  lemma SplitSubstituteOrder()
    ensures var vars := [("@v", "a;\nb")];
      && |PreSqlStatements("@v", vars)| == 1
      && PreSqlStatements("@v", vars)[0] == Substituted(Normalized("@v"), vars)
      && |ScriptStatements("@v", vars)| == 2
      && ScriptStatements("@v", vars)[0] == Normalized("a")
      && ScriptStatements("@v", vars)[1] == Normalized("b")
  {
    var vars: Entries<string> := [("@v", "a;\nb")];
    PlainLineStatement();
    var pre := PreSqlStatements("@v", vars);
    assert |pre| == 1 && pre[0] == Substituted(Normalized("@v"), vars);
    SubstitutedWhole(vars);
    TwoLineStatements();
    var script := ScriptStatements("@v", vars);
    assert |script| == 2 && script[0] == Normalized("a") && script[1] == Normalized("b");
  }

  lemma SubstitutedWhole(vars: Entries<string>)
    requires vars == [("@v", "a;\nb")]
    ensures Substituted("@v", vars) == "a;\nb"
  {
    ReplaceWhole("@v", "a;\nb");
    assert vars[1..] == [];
  }

  /** `@v` alone is one statement. */
  lemma PlainLineStatement()
    ensures Statements("@v") == ["@v"]
  {
    var l := "@v";
    SplitLinesNoBreak(l);
    assert Strip(l) == l by {
      assert LeadingSpaces(l) == 0;
      assert TrailingStart(l) == |l|;
    }
    assert !IsComment(l);
    assert Balance(l) == 0 by {
      assert multiset(l) == multiset{'@', 'v'};
    }
    assert Scan([l]) == Step(Scan([]), l);
    assert Scan([l]) == State([], [l], 0);
    assert Join([l], "\n") == l;
    assert [l][1..] == [];
  }

  /** `a;` then `b` on the next line are two statements. */
  lemma TwoLineStatements()
    ensures Statements("a;\nb") == ["a", "b"]
  {
    SplitTwoLines();
    ScanTwoLines();
    assert Join(["b"], "\n") == "b";
    NonBlankTwo();
  }

  lemma SplitTwoLines()
    ensures SplitLines("a;\nb") == ["a;", "b"]
  {
    SplitLinesSep("a;", "b");
    SplitLinesNoBreak("b");
    assert "a;" + "\n" + "b" == "a;\nb";
  }

  lemma NonBlankTwo()
    ensures NonBlank(["a", "b"]) == ["a", "b"]
  {
    assert Strip("a") == "a" by {
      assert LeadingSpaces("a") == 0;
      assert TrailingStart("a") == 1;
    }
    assert Strip("b") == "b" by {
      assert LeadingSpaces("b") == 0;
      assert TrailingStart("b") == 1;
    }
    assert ["a", "b"][1..] == ["b"];
    assert ["b"][1..] == [];
  }

  /** The loop state of `split_queries` over the lines `a;` and `b`. */
  lemma ScanTwoLines()
    ensures Scan(["a;", "b"]) == State(["a"], ["b"], 0)
  {
    ScanFirstLine();
    assert ["a;", "b"][..1] == ["a;"];
    assert Strip("b") == "b" by {
      assert LeadingSpaces("b") == 0;
      assert TrailingStart("b") == 1;
    }
    assert Balance("b") == 0 by {
      assert multiset("b") == multiset{'b'};
    }
    StepCases(State(["a"], [], 0), "b");
  }

  /** `a;` closes the statement `a`. */
  lemma ScanFirstLine()
    ensures Scan(["a;"]) == State(["a"], [], 0)
  {
    var l := "a;";
    assert Scan([l]) == Step(Scan([]), l);
    assert Strip(l) == l by {
      assert LeadingSpaces(l) == 0;
      assert TrailingStart(l) == |l|;
    }
    assert Balance(l) == 0 by {
      assert multiset(l) == multiset{'a', ';'};
    }
    assert Join([l], "\n") == l;
    assert Before(l, ';') == "a";
    assert Strip("a") == "a" by {
      assert LeadingSpaces("a") == 0;
      assert TrailingStart("a") == 1;
    }
    StepCases(State([], [], 0), l);
  }

  /** The statements executed, and the missing file that stopped the run, if any. */
  datatype Outcome = Outcome(executed: seq<string>, missing: Option<string>)

  /** `a` ran to completion, then `b`. */
  function Then(a: seq<string>, b: Outcome): Outcome
  {
    Outcome(a + b.executed, b.missing)
  }

  /** The `pre_sql` loop: each path is itself substituted before it is read. */
  function PreSqlRun(preSql: seq<string>, files: map<string, string>, vars: Entries<string>): Outcome
  {
    if preSql == [] then Outcome([], None)
    else
      var path := Substituted(preSql[0], vars);
      if path !in files then Outcome([], Some(path))
      else Then(PreSqlStatements(files[path], vars), PreSqlRun(preSql[1..], files, vars))
  }

  /** The script loop: a script path is taken as given and must exist. */
  function ScriptsRun(scripts: seq<string>, files: map<string, string>, vars: Entries<string>): Outcome
  {
    if scripts == [] then Outcome([], None)
    else if scripts[0] !in files then Outcome([], Some(scripts[0]))
    else Then(ScriptStatements(files[scripts[0]], vars), ScriptsRun(scripts[1..], files, vars))
  }

  /** `run_scripts`, once the settings are read out of the merged configuration. */
  function Run(database: string, vars: Entries<string>, preSql: seq<string>, scripts: seq<string>, files: map<string, string>): Outcome
  {
    var v := WithCatalog(vars, database);
    var pre := PreSqlRun(preSql, files, v);
    if pre.missing.Some? then pre else Then(pre.executed, ScriptsRun(scripts, files, v))
  }

  lemma PreSqlRunStep(preSql: seq<string>, i: nat, files: map<string, string>, vars: Entries<string>)
    requires i < |preSql| && Substituted(preSql[i], vars) in files
    ensures PreSqlRun(preSql[i..], files, vars)
         == Then(PreSqlStatements(files[Substituted(preSql[i], vars)], vars), PreSqlRun(preSql[i + 1..], files, vars))
  {
    assert preSql[i..][0] == preSql[i];
    assert preSql[i..][1..] == preSql[i + 1..];
  }

  lemma ScriptsRunStep(scripts: seq<string>, i: nat, files: map<string, string>, vars: Entries<string>)
    requires i < |scripts| && scripts[i] in files
    ensures ScriptsRun(scripts[i..], files, vars)
         == Then(ScriptStatements(files[scripts[i]], vars), ScriptsRun(scripts[i + 1..], files, vars))
  {
    assert scripts[i..][0] == scripts[i];
    assert scripts[i..][1..] == scripts[i + 1..];
  }

  lemma ThenAssoc(a: seq<string>, b: seq<string>, c: Outcome)
    ensures Then(a + b, c) == Then(a, Then(b, c))
  {
    assert (a + b) + c.executed == a + (b + c.executed);
  }

  /** The statements of one `pre_sql` file, in the order they are executed. */
  method PreSqlFile(text: string, variables: Entries<string>) returns (queries: seq<string>)
    ensures queries == PreSqlStatements(text, variables)
  {
    var statements := SplitQueries(text);
    queries := [];
    for idx := 0 to |statements|
      invariant |queries| == idx
      invariant forall j :: 0 <= j < idx ==> queries[j] == Substituted(Normalized(statements[j]), variables)
    {
      var normalized := NormalizeQuery(statements[idx]);
      var query := SubstituteVariables(normalized, variables);
      queries := queries + [query];
    }
  }

  /** The statements of one script, in the order they are executed. */
  method ScriptFile(raw: string, variables: Entries<string>) returns (queries: seq<string>)
    ensures queries == ScriptStatements(raw, variables)
  {
    var templated := SubstituteVariables(raw, variables);
    var statements := SplitQueries(templated);
    queries := [];
    for idx := 0 to |statements|
      invariant |queries| == idx
      invariant forall j :: 0 <= j < idx ==> queries[j] == Normalized(statements[j])
    {
      var query := NormalizeQuery(statements[idx]);
      queries := queries + [query];
    }
  }

  /** The `pre_sql` loop of `run_scripts`. */
  method PreSqlLoop(preSql: seq<string>, files: map<string, string>, variables: Entries<string>)
    returns (executed: seq<string>, missing: Option<string>)
    ensures Outcome(executed, missing) == PreSqlRun(preSql, files, variables)
  {
    executed := [];
    for i := 0 to |preSql|
      invariant Then(executed, PreSqlRun(preSql[i..], files, variables)) == PreSqlRun(preSql, files, variables)
    {
      var prePath := SubstituteVariables(preSql[i], variables);
      if prePath !in files {
        assert preSql[i..][0] == preSql[i];
        missing := Some(prePath);
        return;
      }
      PreSqlRunStep(preSql, i, files, variables);
      var queries := PreSqlFile(files[prePath], variables);
      ThenAssoc(executed, queries, PreSqlRun(preSql[i + 1..], files, variables));
      executed := executed + queries;
    }
    assert preSql[|preSql|..] == [];
    missing := None;
  }

  /** The script loop of `run_scripts`. */
  method ScriptLoop(scripts: seq<string>, files: map<string, string>, variables: Entries<string>)
    returns (executed: seq<string>, missing: Option<string>)
    ensures Outcome(executed, missing) == ScriptsRun(scripts, files, variables)
  {
    executed := [];
    for i := 0 to |scripts|
      invariant Then(executed, ScriptsRun(scripts[i..], files, variables)) == ScriptsRun(scripts, files, variables)
    {
      if scripts[i] !in files {
        assert scripts[i..][0] == scripts[i];
        missing := Some(scripts[i]);
        return;
      }
      ScriptsRunStep(scripts, i, files, variables);
      var queries := ScriptFile(files[scripts[i]], variables);
      ThenAssoc(executed, queries, ScriptsRun(scripts[i + 1..], files, variables));
      executed := executed + queries;
    }
    assert scripts[|scripts|..] == [];
    missing := None;
  }

  /**
   * `run_scripts`: the catalog variable, then the `pre_sql` files, then the
   * scripts, each split into statements that are executed one by one.
   */
  method RunScripts(database: string, vars: Entries<string>, preSql: seq<string>, scripts: seq<string>, files: map<string, string>)
    returns (executed: seq<string>, missing: Option<string>)
    ensures Outcome(executed, missing) == Run(database, vars, preSql, scripts, files)
  {
    var dbPath := SubstituteVariables(database, vars);
    var variables := Put(vars, CatalogVariable, Stem(dbPath));
    assert variables == WithCatalog(vars, database);
    executed, missing := PreSqlLoop(preSql, files, variables);
    if missing.Some? {
      return;
    }
    var more;
    more, missing := ScriptLoop(scripts, files, variables);
    executed := executed + more;
  }

  // ---------------------------------------------------------------------------
  // Properties of a run
  // ---------------------------------------------------------------------------

  /** The statement count of the scripts, in order. */
  function ScriptStatementCount(scripts: seq<string>, files: map<string, string>, vars: Entries<string>): nat
    requires forall s :: s in scripts ==> s in files
  {
    if scripts == [] then 0
    else |Statements(Substituted(files[scripts[0]], vars))| + ScriptStatementCount(scripts[1..], files, vars)
  }

  /** The first script that is not there, if any. */
  function FirstMissing(scripts: seq<string>, files: map<string, string>): Option<string>
  {
    if scripts == [] then None
    else if scripts[0] !in files then Some(scripts[0])
    else FirstMissing(scripts[1..], files)
  }

  /** The script loop stops exactly at the first missing script. */
  lemma {:induction false} ScriptsRunStopsAtMissing(scripts: seq<string>, files: map<string, string>, vars: Entries<string>)
    ensures ScriptsRun(scripts, files, vars).missing == FirstMissing(scripts, files)
  {
    if scripts != [] && scripts[0] in files {
      ScriptsRunStopsAtMissing(scripts[1..], files, vars);
    }
  }

  /** The first `pre_sql` path, once substituted, that is not there, if any. */
  function PreSqlMissing(preSql: seq<string>, files: map<string, string>, vars: Entries<string>): Option<string>
  {
    if preSql == [] then None
    else if Substituted(preSql[0], vars) !in files then Some(Substituted(preSql[0], vars))
    else PreSqlMissing(preSql[1..], files, vars)
  }

  /** The `pre_sql` loop stops exactly at the first missing file. */
  lemma {:induction false} PreSqlRunStopsAtMissing(preSql: seq<string>, files: map<string, string>, vars: Entries<string>)
    ensures PreSqlRun(preSql, files, vars).missing == PreSqlMissing(preSql, files, vars)
  {
    if preSql != [] && Substituted(preSql[0], vars) in files {
      PreSqlRunStopsAtMissing(preSql[1..], files, vars);
    }
  }

  /** The file `run_scripts` raises on: the first missing `pre_sql` file, else the first missing script. */
  function RunMissing(database: string, vars: Entries<string>, preSql: seq<string>, scripts: seq<string>, files: map<string, string>): Option<string>
  {
    var v := WithCatalog(vars, database);
    if PreSqlMissing(preSql, files, v).Some? then PreSqlMissing(preSql, files, v) else FirstMissing(scripts, files)
  }

  /** A run raises on exactly that file, and runs through when there is none. */
  lemma RunStopsAtMissing(database: string, vars: Entries<string>, preSql: seq<string>, scripts: seq<string>, files: map<string, string>)
    ensures Run(database, vars, preSql, scripts, files).missing == RunMissing(database, vars, preSql, scripts, files)
  {
    var v := WithCatalog(vars, database);
    PreSqlRunStopsAtMissing(preSql, files, v);
    ScriptsRunStopsAtMissing(scripts, files, v);
  }

  /**
   * `FirstMissing` names a script that is absent while every script before
   * it is present, and finds none exactly when every script is present.
   */
  lemma {:induction false} FirstMissingIsFirst(scripts: seq<string>, files: map<string, string>)
    ensures FirstMissing(scripts, files).None? <==> forall s :: s in scripts ==> s in files
    ensures FirstMissing(scripts, files).Some? ==>
      exists i :: 0 <= i < |scripts| && scripts[i] == FirstMissing(scripts, files).value
        && scripts[i] !in files && forall j :: 0 <= j < i ==> scripts[j] in files
  {
    if scripts != [] && scripts[0] in files {
      FirstMissingIsFirst(scripts[1..], files);
      var r := FirstMissing(scripts[1..], files);
      if r.Some? {
        var i :| 0 <= i < |scripts[1..]| && scripts[1..][i] == r.value
          && scripts[1..][i] !in files && forall j :: 0 <= j < i ==> scripts[1..][j] in files;
        assert scripts[i + 1] == r.value;
        forall j | 0 <= j < i + 1 ensures scripts[j] in files {
          if j > 0 {
            assert scripts[j] == scripts[1..][j - 1];
          }
        }
      } else {
        forall s | s in scripts ensures s in files {
          if s != scripts[0] {
            assert s in scripts[1..];
          }
        }
      }
    } else if scripts != [] {
      assert scripts[0] in scripts;
      assert scripts[0] !in files;
    }
  }

  /** With every script present, the script loop executes exactly one text per statement of every script. */
  lemma {:induction false} ScriptsRunCount(scripts: seq<string>, files: map<string, string>, vars: Entries<string>)
    requires forall s :: s in scripts ==> s in files
    ensures |ScriptsRun(scripts, files, vars).executed| == ScriptStatementCount(scripts, files, vars)
  {
    if scripts != [] {
      forall s | s in scripts[1..] ensures s in files {
        assert s in scripts;
      }
      ScriptsRunCount(scripts[1..], files, vars);
    }
  }
}
