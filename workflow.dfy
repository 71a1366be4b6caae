/**
 * The workflow runner of scripts/run_workflow.py: templating of JSON-like
 * settings, the argument vector of a Python step, `--set VAR=VALUE`
 * overrides, the defaults written into the variables dict, the dispatch on a
 * workflow's type and the step count.
 *
 * The variables dict holds strings here (the values the runner writes are
 * all strings). Launching processes, progress bars, clocks, random ids and
 * git are outside the model.
 */
module Workflow {
  import opened Wrappers
  import opened Text
  import opened Config
  import Pipeline

  // ---------------------------------------------------------------------------
  // apply_variables
  // ---------------------------------------------------------------------------

  /** `apply_variables(obj, variables)`: substitute inside every string, keep the rest. */
  function ApplyVariables(obj: Value, vars: Entries<string>): Value
    decreases obj
  {
    match obj
    case Str(s) => Str(Substituted(s, vars))
    case List(items) =>
      List(seq(|items|, i requires 0 <= i < |items| => ApplyVariables(items[i], vars)))
    case Dict(es) =>
      Dict(seq(|es|, i requires 0 <= i < |es| => (es[i].0, ApplyVariables(es[i].1, vars))))
    case _ => obj
  }

  /**
   * `a` and `b` have the same structure: strings where `a` has strings, lists
   * of the same length, dicts with the same keys in the same order, and the
   * very same value everywhere else.
   */
  predicate SameShape(a: Value, b: Value)
    decreases a
  {
    match a
    case Str(_) => b.Str?
    case List(xs) =>
      b.List? && |b.items| == |xs| && forall i :: 0 <= i < |xs| ==> SameShape(xs[i], b.items[i])
    case Dict(es) =>
      b.Dict? && |b.entries| == |es|
      && forall i :: 0 <= i < |es| ==> b.entries[i].0 == es[i].0 && SameShape(es[i].1, b.entries[i].1)
    case _ => b == a
  }

  /** Templating never changes the structure of a setting. */
  lemma {:induction false} ApplyVariablesShape(obj: Value, vars: Entries<string>)
    ensures SameShape(obj, ApplyVariables(obj, vars))
    decreases obj
  {
    match obj
    case List(items) =>
      forall i | 0 <= i < |items| ensures SameShape(items[i], ApplyVariables(obj, vars).items[i]) {
        ApplyVariablesShape(items[i], vars);
      }
    case Dict(es) =>
      forall i | 0 <= i < |es| ensures SameShape(es[i].1, ApplyVariables(obj, vars).entries[i].1) {
        assert es[i] in es;
        ApplyVariablesShape(es[i].1, vars);
      }
    case _ =>
  }

  /** With no variables, templating is the identity. */
  lemma {:induction false} ApplyNoVariables(obj: Value)
    ensures ApplyVariables(obj, []) == obj
    decreases obj
  {
    match obj
    case List(items) =>
      forall i | 0 <= i < |items| ensures ApplyVariables(items[i], []) == items[i] {
        ApplyNoVariables(items[i]);
      }
      assert ApplyVariables(obj, []).items == items;
    case Dict(es) =>
      forall i | 0 <= i < |es| ensures (es[i].0, ApplyVariables(es[i].1, [])) == es[i] {
        assert es[i] in es;
        ApplyNoVariables(es[i].1);
      }
      assert ApplyVariables(obj, []).entries == es;
    case _ =>
  }

  // ---------------------------------------------------------------------------
  // The argument vector of a Python step (run_python_script)
  // ---------------------------------------------------------------------------

  /** A configured value that substitutes to `""` takes a preceding `-flag` with it. */
  function DropFlag(args: seq<string>): (r: seq<string>)
  {
    if |args| > 0 && StartsWith(args[|args| - 1], "-") then args[..|args| - 1] else args
  }

  /** The arguments built from the substituted values `vals`, on top of `args`. */
  function ArgvFrom(args: seq<string>, vals: seq<string>): seq<string>
    decreases |vals|
  {
    if vals == [] then args
    else if vals[0] == "" then ArgvFrom(DropFlag(args), vals[1..])
    else ArgvFrom(args + [vals[0]], vals[1..])
  }

  /** Every configured argument, substituted. */
  function SubstitutedAll(extras: seq<string>, vars: Entries<string>): (r: seq<string>)
    ensures |r| == |extras|
    ensures forall i :: 0 <= i < |r| ==> r[i] == Substituted(extras[i], vars)
  {
    seq(|extras|, i requires 0 <= i < |extras| => Substituted(extras[i], vars))
  }

  /** The `args` list `run_python_script` hands to the process launcher. */
  function Argv(executable: string, script: string, extras: seq<string>, vars: Entries<string>): seq<string>
  {
    ArgvFrom([executable, script], SubstitutedAll(extras, vars))
  }

  /** The loop of `run_python_script`, appending and popping. */
  method BuildArgv(executable: string, script: string, extras: seq<string>, vars: Entries<string>) returns (args: seq<string>)
    ensures args == Argv(executable, script, extras, vars)
  {
    ghost var vals := SubstitutedAll(extras, vars);
    args := [executable, script];
    for i := 0 to |extras|
      invariant ArgvFrom(args, vals[i..]) == Argv(executable, script, extras, vars)
    {
      assert vals[i..][0] == vals[i] && vals[i..][1..] == vals[i + 1..];
      var value := SubstituteVariables(extras[i], vars);
      if value == "" {
        if |args| > 0 && StartsWith(args[|args| - 1], "-") {
          args := args[..|args| - 1];
        }
      } else {
        args := args + [value];
      }
    }
    assert vals[|extras|..] == [];
  }

  /** Each value adds at most one argument. */
  lemma {:induction false} ArgvLength(args: seq<string>, vals: seq<string>)
    ensures |ArgvFrom(args, vals)| <= |args| + |vals|
    decreases |vals|
  {
    if vals != [] {
      if vals[0] == "" {
        ArgvLength(DropFlag(args), vals[1..]);
      } else {
        ArgvLength(args + [vals[0]], vals[1..]);
      }
    }
  }

  /** An empty string is never passed on. */
  lemma {:induction false} ArgvNoEmpty(args: seq<string>, vals: seq<string>)
    requires "" !in args
    ensures "" !in ArgvFrom(args, vals)
    decreases |vals|
  {
    if vals != [] {
      if vals[0] == "" {
        var d := DropFlag(args);
        assert forall x :: x in d ==> x in args;
        ArgvNoEmpty(d, vals[1..]);
      } else {
        ArgvNoEmpty(args + [vals[0]], vals[1..]);
      }
    }
  }

  /** With no empty value, every value is appended, in order. */
  lemma {:induction false} ArgvAllPresent(args: seq<string>, vals: seq<string>)
    requires "" !in vals
    ensures ArgvFrom(args, vals) == args + vals
    decreases |vals|
  {
    if vals != [] {
      assert vals[0] in vals;
      assert forall x :: x in vals[1..] ==> x in vals;
      ArgvAllPresent(args + [vals[0]], vals[1..]);
      assert args + [vals[0]] + vals[1..] == args + vals;
    }
  }

  /** `["--flag", "@maybe_empty"]` with an empty value: both are dropped. */
  lemma FlagWithEmptyValueDropped(args: seq<string>, flag: string, rest: seq<string>)
    requires StartsWith(flag, "-")
    ensures ArgvFrom(args, [flag, ""] + rest) == ArgvFrom(args, rest)
  {
    var vals := [flag, ""] + rest;
    assert vals[0] == flag && vals[1..] == [""] + rest;
    assert ([""] + rest)[0] == "" && ([""] + rest)[1..] == rest;
    assert (args + [flag])[..|args|] == args;
  }

  /**
   * The interpreter and the script stay in front, provided the script path
   * does not itself start with `-` (otherwise an empty first value would pop it).
   */
  lemma {:induction false} ArgvKeepsHead(args: seq<string>, vals: seq<string>)
    requires |args| >= 2 && !StartsWith(args[1], "-")
    ensures |ArgvFrom(args, vals)| >= 2 && ArgvFrom(args, vals)[..2] == args[..2]
    decreases |vals|
  {
    if vals != [] {
      if vals[0] == "" {
        var d := DropFlag(args);
        assert |d| >= 2 && d[..2] == args[..2];
        ArgvKeepsHead(d, vals[1..]);
      } else {
        var a := args + [vals[0]];
        assert a[..2] == args[..2];
        ArgvKeepsHead(a, vals[1..]);
      }
    }
  }

  // ---------------------------------------------------------------------------
  // --set VAR=VALUE
  // ---------------------------------------------------------------------------

  /** One `--set` entry: the key is the stripped text before the first `=`, the value the rest as given. */
  function ParseSet(raw: string): (r: Result<(string, string)>)
    ensures r.Ok? <==> '=' in raw
    ensures r.Ok? ==> exists pre :: '=' !in pre && raw == pre + "=" + r.value.1 && r.value.0 == Strip(pre)
    ensures r.Err? ==> r.error == "Invalid --set value (expected VAR=VALUE): " + raw
  {
    if '=' !in raw then Err("Invalid --set value (expected VAR=VALUE): " + raw)
    else
      var i := IndexOf(raw, '=');
      assert raw == raw[..i] + "=" + raw[i + 1..];
      Ok((Strip(raw[..i]), raw[i + 1..]))
  }

  /** The `--set` loop: each entry written in turn; the first malformed one raises. */
  function SetsApplied(vars: Entries<string>, raws: seq<string>): Result<Entries<string>>
    decreases |raws|
  {
    if raws == [] then Ok(vars)
    else
      match ParseSet(raws[0])
      case Err(e) => Err(e)
      case Ok(kv) => SetsApplied(Put(vars, kv.0, kv.1), raws[1..])
  }

  /** One turn of the `--set` loop. */
  lemma SetsAppliedStep(vars: Entries<string>, raws: seq<string>)
    requires raws != []
    ensures '=' !in raws[0] ==> SetsApplied(vars, raws) == Err("Invalid --set value (expected VAR=VALUE): " + raws[0])
    ensures '=' in raws[0] ==>
      var eq := IndexOf(raws[0], '=');
      SetsApplied(vars, raws) == SetsApplied(Put(vars, Strip(raws[0][..eq]), raws[0][eq + 1..]), raws[1..])
  {
  }

  /** The value of the last entry that sets `k`, if any. */
  function LastSet(raws: seq<string>, k: string): Option<string>
  {
    if raws == [] then None
    else
      var later := LastSet(raws[1..], k);
      if later.Some? then later
      else if ParseSet(raws[0]).Ok? && ParseSet(raws[0]).value.0 == k then Some(ParseSet(raws[0]).value.1)
      else None
  }

  /** The overrides fail exactly when some entry has no `=`. */
  lemma {:induction false} SetsAppliedFails(vars: Entries<string>, raws: seq<string>)
    ensures SetsApplied(vars, raws).Err? <==> exists i :: 0 <= i < |raws| && '=' !in raws[i]
    decreases |raws|
  {
    if raws != [] {
      if '=' in raws[0] {
        var kv := ParseSet(raws[0]).value;
        SetsAppliedFails(Put(vars, kv.0, kv.1), raws[1..]);
        if exists i :: 0 <= i < |raws[1..]| && '=' !in raws[1..][i] {
          var i :| 0 <= i < |raws[1..]| && '=' !in raws[1..][i];
          assert '=' !in raws[i + 1];
        }
        if exists i :: 0 <= i < |raws| && '=' !in raws[i] {
          var i :| 0 <= i < |raws| && '=' !in raws[i];
          assert i > 0 && '=' !in raws[1..][i - 1];
        }
      } else {
        assert '=' !in raws[0];
      }
    }
  }

  /** After the overrides, a key holds the value of its last `--set`; untouched keys keep theirs. */
  lemma {:induction false} SetsAppliedGet(vars: Entries<string>, raws: seq<string>, k: string)
    requires SetsApplied(vars, raws).Ok?
    ensures Get(SetsApplied(vars, raws).value, k) == if LastSet(raws, k).Some? then LastSet(raws, k) else Get(vars, k)
    decreases |raws|
  {
    if raws != [] {
      var kv := ParseSet(raws[0]).value;
      SetsAppliedGet(Put(vars, kv.0, kv.1), raws[1..], k);
    }
  }

  // ---------------------------------------------------------------------------
  // setdefault-style defaults
  // ---------------------------------------------------------------------------

  /** `variables.setdefault(k, d)`. */
  function WithDefault(vars: Entries<string>, k: string, d: string): Entries<string>
  {
    if Get(vars, k).Some? then vars else Put(vars, k, d)
  }

  /** Several `setdefault` calls in a row. */
  function WithDefaults(vars: Entries<string>, defaults: Entries<string>): Entries<string>
    decreases |defaults|
  {
    if defaults == [] then vars else WithDefaults(WithDefault(vars, defaults[0].0, defaults[0].1), defaults[1..])
  }

  /** A key that is present keeps its value; a missing key gets the first default named for it. */
  lemma {:induction false} WithDefaultsGet(vars: Entries<string>, defaults: Entries<string>, k: string)
    ensures Get(WithDefaults(vars, defaults), k) == if Get(vars, k).Some? then Get(vars, k) else Get(defaults, k)
    decreases |defaults|
  {
    if defaults != [] {
      WithDefaultsGet(WithDefault(vars, defaults[0].0, defaults[0].1), defaults[1..], k);
    }
  }

  /** Existing keys keep their order; new keys only go after them. */
  lemma {:induction false} WithDefaultsKeys(vars: Entries<string>, defaults: Entries<string>)
    ensures |Keys(vars)| <= |Keys(WithDefaults(vars, defaults))|
    ensures Keys(WithDefaults(vars, defaults))[..|Keys(vars)|] == Keys(vars)
    decreases |defaults|
  {
    if defaults != [] {
      var v1 := WithDefault(vars, defaults[0].0, defaults[0].1);
      WithDefaultsKeys(v1, defaults[1..]);
      var ks := Keys(WithDefaults(v1, defaults[1..]));
      assert ks[..|Keys(vars)|] == ks[..|Keys(v1)|][..|Keys(vars)|];
    }
  }

  /** Every key of `ks` paired with the same default `d`. */
  function Uniform(ks: seq<string>, d: string): Entries<string>
  {
    if ks == [] then [] else [(ks[0], d)] + Uniform(ks[1..], d)
  }

  /** A key of a uniform table reads back as its one default. */
  lemma {:induction false} UniformGet(ks: seq<string>, d: string, k: string)
    ensures Get(Uniform(ks, d), k) == if k in ks then Some(d) else None
  {
    if ks != [] {
      UniformGet(ks[1..], d, k);
      assert k in ks <==> k == ks[0] || k in ks[1..];
    }
  }

  const AuditThresholdDefaults: Entries<string> := [
    ("@audit_min_percent_mapped", "0"),
    ("@audit_min_percent_standard", "0"),
    ("@audit_fail_on_dq", "0"),
    ("@audit_mapping_tables", "")]

  const IngestKeys: seq<string> := [
    "@ingest_sample_size",
    "@ingest_mode",
    "@ingest_manifest",
    "@ingest_on_exists",
    "@ingest_include_tables",
    "@ingest_row_limit",
    "@ingest_type_overrides",
    "@ingest_all_varchar_flag",
    "@ingest_drop_raw_flag",
    "@ingest_keep_case_flag"]

  const IngestDefaults: Entries<string> := Uniform(IngestKeys, "")

  const OptimizeKeys: seq<string> := ["@optimize_enable", "@optimize_enable_large"]

  const OptimizeDefaults: Entries<string> := Uniform(OptimizeKeys, "0")

  /** After the ingest defaults every one of the ten keys is present, `""` where it was missing. */
  lemma IngestDefaultsFill(vars: Entries<string>, k: string)
    requires k in IngestKeys
    ensures Get(WithDefaults(vars, IngestDefaults), k) == if Get(vars, k).Some? then Get(vars, k) else Some("")
  {
    WithDefaultsGet(vars, IngestDefaults, k);
    UniformGet(IngestKeys, "", k);
  }

  /** The optimisation switches default to `"0"`. */
  lemma OptimizeDefaultsFill(vars: Entries<string>, k: string)
    requires k in OptimizeKeys
    ensures Get(WithDefaults(vars, OptimizeDefaults), k) == if Get(vars, k).Some? then Get(vars, k) else Some("0")
  {
    WithDefaultsGet(vars, OptimizeDefaults, k);
    UniformGet(OptimizeKeys, "0", k);
  }

  /**
   * The audit thresholds: the two percentages and the data-quality switch
   * default to `"0"`, the mapping-table list to `""`; present keys and all
   * other keys are left alone.
   */
  lemma AuditDefaultsFill(vars: Entries<string>, k: string)
    ensures Get(vars, k).Some? ==> Get(WithDefaults(vars, AuditThresholdDefaults), k) == Get(vars, k)
    ensures Get(vars, k).None? && k in ["@audit_min_percent_mapped", "@audit_min_percent_standard", "@audit_fail_on_dq"] ==>
      Get(WithDefaults(vars, AuditThresholdDefaults), k) == Some("0")
    ensures Get(vars, k).None? && k == "@audit_mapping_tables" ==>
      Get(WithDefaults(vars, AuditThresholdDefaults), k) == Some("")
    ensures k !in Keys(AuditThresholdDefaults) ==> Get(WithDefaults(vars, AuditThresholdDefaults), k) == Get(vars, k)
  {
    WithDefaultsGet(vars, AuditThresholdDefaults, k);
    AuditDefaultsAt(k);
  }

  /** The default each audit threshold key gets. */
  lemma AuditDefaultsAt(k: string)
    ensures Get(AuditThresholdDefaults, k) ==
      if k in ["@audit_min_percent_mapped", "@audit_min_percent_standard", "@audit_fail_on_dq"] then Some("0")
      else if k == "@audit_mapping_tables" then Some("")
      else None
  {
    var d := AuditThresholdDefaults;
    assert d[1..][1..][1..][1..] == [];
  }

  /** The variables dict of the merged ETL configuration, which the runner updates in place. */
  class Variables {
    var items: Entries<string>

    constructor (items0: Entries<string>)
      ensures items == items0
    {
      items := items0;
    }

    /** `variables.setdefault(k, d)`. */
    method SetDefault(k: string, d: string)
      modifies this
      ensures items == WithDefault(old(items), k, d)
    {
      if Get(items, k).None? {
        items := Put(items, k, d);
      }
    }

    /** A run of `setdefault` calls, in the order given. */
    method SetDefaults(defaults: Entries<string>)
      modifies this
      ensures items == WithDefaults(old(items), defaults)
    {
      ghost var start := items;
      for i := 0 to |defaults|
        invariant WithDefaults(items, defaults[i..]) == WithDefaults(start, defaults)
      {
        assert defaults[i..][0] == defaults[i] && defaults[i..][1..] == defaults[i + 1..];
        SetDefault(defaults[i].0, defaults[i].1);
      }
      assert defaults[|defaults|..] == [];
    }

    /** The threshold part of `apply_audit_defaults`. */
    method ApplyAuditThresholdDefaults()
      modifies this
      ensures items == WithDefaults(old(items), AuditThresholdDefaults)
    {
      SetDefaults(AuditThresholdDefaults);
    }

    /** `apply_ingest_defaults`. */
    method ApplyIngestDefaults()
      modifies this
      ensures items == WithDefaults(old(items), IngestDefaults)
    {
      SetDefaults(IngestDefaults);
    }

    /** `apply_optimize_defaults`. */
    method ApplyOptimizeDefaults()
      modifies this
      ensures items == WithDefaults(old(items), OptimizeDefaults)
    {
      SetDefaults(OptimizeDefaults);
    }

    /**
     * The `--set` loop of `main`: each entry is written as it is read, so a
     * malformed entry raises after the earlier ones were written.
     */
    method ApplyOverrides(raws: seq<string>) returns (error: Option<string>)
      modifies this
      ensures SetsApplied(old(items), raws).Err? <==> error.Some?
      ensures error.None? ==> items == SetsApplied(old(items), raws).value
      ensures error.Some? ==> error.value == SetsApplied(old(items), raws).error
    {
      ghost var start := items;
      for i := 0 to |raws|
        invariant SetsApplied(items, raws[i..]) == SetsApplied(start, raws)
      {
        assert raws[i..][0] == raws[i] && raws[i..][1..] == raws[i + 1..];
        SetsAppliedStep(items, raws[i..]);
        var raw := raws[i];
        if '=' !in raw {
          error := Some("Invalid --set value (expected VAR=VALUE): " + raw);
          return;
        }
        var eq := IndexOf(raw, '=');
        var key := Strip(raw[..eq]);
        var value := raw[eq + 1..];
        items := Put(items, key, value);
      }
      assert raws[|raws|..] == [];
      error := None;
    }
  }

  // ---------------------------------------------------------------------------
  // run_workflow, the workflow name, the step count
  // ---------------------------------------------------------------------------

  /** One configured step: a script and, for Python steps, its arguments. */
  datatype Step = Step(script: string, args: seq<string>)

  /** What running one workflow does: the SQL scripts handed to `run_scripts`, or the Python argument vectors. */
  datatype Action = RunSql(paths: seq<string>) | RunPython(argvs: seq<seq<string>>)

  /** Python's rendering of a workflow type read with `.get("type")`. */
  function TypeName(t: Option<string>): string
  {
    match t
    case None => "None"
    case Some(s) => s
  }

  /** `run_workflow`'s dispatch on the workflow type. */
  function Dispatch(wtype: Option<string>, steps: seq<Step>, vars: Entries<string>, executable: string): (r: Result<Action>)
    ensures r.Err? <==> wtype != Some("sql") && wtype != Some("py")
    ensures r.Ok? && r.value.RunSql? ==> |r.value.paths| == |steps| && forall i :: 0 <= i < |steps| ==> r.value.paths[i] == steps[i].script
    ensures r.Ok? && r.value.RunPython? ==>
      |r.value.argvs| == |steps| && forall i :: 0 <= i < |steps| ==> r.value.argvs[i] == Argv(executable, steps[i].script, steps[i].args, vars)
  {
    if wtype == Some("sql") then Ok(RunSql(seq(|steps|, i requires 0 <= i < |steps| => steps[i].script)))
    else if wtype == Some("py") then
      Ok(RunPython(seq(|steps|, i requires 0 <= i < |steps| => Argv(executable, steps[i].script, steps[i].args, vars))))
    else Err("Unsupported workflow type: " + TypeName(wtype))
  }

  /** A value Python treats as true in `a or b`: present and not empty. */
  predicate Given(s: Option<string>)
  {
    s.Some? && s.value != ""
  }

  /**
   * `workflow_entry.get("name") or workflow_conf.get("name") or workflow_conf_path.stem`:
   * the first name that is given wins, and the name is empty only when none is.
   */
  function WorkflowName(entryName: Option<string>, confName: Option<string>, confPath: string): (r: string)
    ensures Given(entryName) ==> r == entryName.value
    ensures !Given(entryName) && Given(confName) ==> r == confName.value
    ensures r == "" <==> !Given(entryName) && !Given(confName) && Stem(confPath) == ""
  {
    if Given(entryName) then entryName.value
    else if Given(confName) then confName.value
    else Stem(confPath)
  }

  /**
   * A workflow once resolved: its type, its steps, the variables of its merged
   * configuration, its name, and the `duckdb.database` and `duckdb.pre_sql`
   * settings that `run_scripts` reads from that configuration.
   */
  datatype Resolved = Resolved(wtype: Option<string>, steps: seq<Step>, vars: Entries<string>, name: string,
                               database: string, preSql: seq<string>)

  /** `sum(len(scripts) for ...)`: the progress total. */
  function TotalSteps(wfs: seq<Resolved>): nat
  {
    if wfs == [] then 0 else |wfs[0].steps| + TotalSteps(wfs[1..])
  }

  /**
   * What stops the runner: a `ValueError` with its message, the `FileNotFoundError`
   * of a SQL file that is not there, or the `CalledProcessError` of a Python step.
   */
  datatype RunError = ValueError(message: string) | FileNotFound(path: string) | CalledProcessError(argv: seq<string>)

  /**
   * The first argument vector whose process exits with a non-zero status;
   * `check_call` raises on it and the later steps never start.
   */
  function FirstFailing(argvs: seq<seq<string>>, failing: set<seq<string>>): Option<seq<string>>
  {
    if argvs == [] then None
    else if argvs[0] in failing then Some(argvs[0])
    else FirstFailing(argvs[1..], failing)
  }

  /**
   * `FirstFailing` names a failing step while every step before it succeeds,
   * and finds none exactly when every step succeeds.
   */
  lemma {:induction false} FirstFailingIsFirst(argvs: seq<seq<string>>, failing: set<seq<string>>)
    ensures FirstFailing(argvs, failing).None? <==> forall v :: v in argvs ==> v !in failing
    ensures FirstFailing(argvs, failing).Some? ==>
      exists i :: 0 <= i < |argvs| && argvs[i] == FirstFailing(argvs, failing).value
        && argvs[i] in failing && forall j :: 0 <= j < i ==> argvs[j] !in failing
  {
    if argvs != [] && argvs[0] !in failing {
      FirstFailingIsFirst(argvs[1..], failing);
      var r := FirstFailing(argvs[1..], failing);
      if r.Some? {
        var i :| 0 <= i < |argvs[1..]| && argvs[1..][i] == r.value
          && argvs[1..][i] in failing && forall j :: 0 <= j < i ==> argvs[1..][j] !in failing;
        assert argvs[i + 1] == r.value;
        forall j | 0 <= j < i + 1 ensures argvs[j] !in failing {
          if j > 0 {
            assert argvs[j] == argvs[1..][j - 1];
          }
        }
      } else {
        forall v | v in argvs ensures v !in failing {
          if v != argvs[0] {
            assert v in argvs[1..];
          }
        }
      }
    } else if argvs != [] {
      assert argvs[0] in argvs;
    }
  }

  /**
   * What executing a workflow's action raises, if anything. A SQL action is
   * `run_scripts` over the workflow's settings and stops at the first file
   * that is not there; a Python action stops at the first step whose process
   * fails. `files` are the files on disk, `failing` the argument vectors whose
   * process exits with a non-zero status.
   */
  function ActionError(w: Resolved, a: Action, files: map<string, string>, failing: set<seq<string>>): Option<RunError>
  {
    match a
    case RunSql(ps) =>
      (match Pipeline.RunMissing(w.database, w.vars, w.preSql, ps, files)
       case None => None
       case Some(p) => Some(FileNotFound(p)))
    case RunPython(vs) =>
      (match FirstFailing(vs, failing)
       case None => None
       case Some(v) => Some(CalledProcessError(v)))
  }

  /** What running one workflow raises, if anything: its dispatch first, then its action. */
  function WorkflowError(w: Resolved, executable: string, files: map<string, string>, failing: set<seq<string>>): Option<RunError>
  {
    match Dispatch(w.wtype, w.steps, w.vars, executable)
    case Err(e) => Some(ValueError(e))
    case Ok(a) => ActionError(w, a, files, failing)
  }

  /**
   * The three ways one workflow fails: an unsupported type raises `ValueError`,
   * a `sql` workflow raises on the file `run_scripts` misses, and a `py`
   * workflow raises on its first failing step.
   */
  lemma WorkflowErrorCases(w: Resolved, executable: string, files: map<string, string>, failing: set<seq<string>>)
    ensures w.wtype != Some("sql") && w.wtype != Some("py") ==>
      WorkflowError(w, executable, files, failing) == Some(ValueError("Unsupported workflow type: " + TypeName(w.wtype)))
    ensures w.wtype == Some("sql") ==>
      var paths := seq(|w.steps|, i requires 0 <= i < |w.steps| => w.steps[i].script);
      (WorkflowError(w, executable, files, failing).None? <==> Pipeline.Run(w.database, w.vars, w.preSql, paths, files).missing.None?)
      && (WorkflowError(w, executable, files, failing).Some? ==>
            WorkflowError(w, executable, files, failing) == Some(FileNotFound(Pipeline.Run(w.database, w.vars, w.preSql, paths, files).missing.value)))
    ensures w.wtype == Some("py") ==>
      (WorkflowError(w, executable, files, failing).None? <==>
        forall i :: 0 <= i < |w.steps| ==> Argv(executable, w.steps[i].script, w.steps[i].args, w.vars) !in failing)
  {
    var d := Dispatch(w.wtype, w.steps, w.vars, executable);
    if w.wtype == Some("sql") {
      var paths := seq(|w.steps|, i requires 0 <= i < |w.steps| => w.steps[i].script);
      assert d.value.paths == paths;
      Pipeline.RunStopsAtMissing(w.database, w.vars, w.preSql, paths, files);
    } else if w.wtype == Some("py") {
      FirstFailingIsFirst(d.value.argvs, failing);
      if FirstFailing(d.value.argvs, failing).None? {
        forall i | 0 <= i < |w.steps| ensures Argv(executable, w.steps[i].script, w.steps[i].args, w.vars) !in failing {
          assert d.value.argvs[i] in d.value.argvs;
        }
      }
    }
  }

  /** The actions completed, and the error that stopped the runner, if any. */
  datatype RunLog = RunLog(actions: seq<Action>, error: Option<RunError>)

  /**
   * The workflows in order. The first workflow that raises, in its dispatch or
   * while its action runs, stops the rest; the actions listed are those that
   * ran to completion.
   */
  function RunFrom(wfs: seq<Resolved>, executable: string, files: map<string, string>, failing: set<seq<string>>): RunLog
  {
    if wfs == [] then RunLog([], None)
    else
      match WorkflowError(wfs[0], executable, files, failing)
      case Some(e) => RunLog([], Some(e))
      case None =>
        var rest := RunFrom(wfs[1..], executable, files, failing);
        RunLog([Dispatch(wfs[0].wtype, wfs[0].steps, wfs[0].vars, executable).value] + rest.actions, rest.error)
  }

  /** The number of scripts an action runs: one per configured step. */
  function ActionScripts(a: Action): nat
  {
    match a
    case RunSql(ps) => |ps|
    case RunPython(vs) => |vs|
  }

  function TotalActionScripts(actions: seq<Action>): nat
  {
    if actions == [] then 0 else ActionScripts(actions[0]) + TotalActionScripts(actions[1..])
  }

  /**
   * A run without error completes one action per workflow, and the actions
   * run as many scripts as the progress total counts. It has no error exactly
   * when no workflow raises; otherwise it stops at the first workflow that
   * raises, with that workflow's error, having completed only the workflows
   * before it.
   */
  lemma {:induction false} RunFromSteps(wfs: seq<Resolved>, executable: string, files: map<string, string>, failing: set<seq<string>>)
    ensures RunFrom(wfs, executable, files, failing).error.None? ==>
      |RunFrom(wfs, executable, files, failing).actions| == |wfs|
      && TotalActionScripts(RunFrom(wfs, executable, files, failing).actions) == TotalSteps(wfs)
    ensures RunFrom(wfs, executable, files, failing).error.None? <==>
      forall i :: 0 <= i < |wfs| ==> WorkflowError(wfs[i], executable, files, failing).None?
    ensures RunFrom(wfs, executable, files, failing).error.Some? ==>
      var n := |RunFrom(wfs, executable, files, failing).actions|;
      n < |wfs| && RunFrom(wfs, executable, files, failing).error == WorkflowError(wfs[n], executable, files, failing)
      && forall i :: 0 <= i < n ==> WorkflowError(wfs[i], executable, files, failing).None?
  {
    RunFromScripts(wfs, executable, files, failing);
    RunFromStops(wfs, executable, files, failing);
    if RunFrom(wfs, executable, files, failing).error.Some? {
      var n := |RunFrom(wfs, executable, files, failing).actions|;
      assert WorkflowError(wfs[n], executable, files, failing).Some?;
    }
  }

  /** A run stops at the first workflow that raises, with its error, having completed only the workflows before it. */
  lemma {:induction false} RunFromStops(wfs: seq<Resolved>, executable: string, files: map<string, string>, failing: set<seq<string>>)
    ensures RunFrom(wfs, executable, files, failing).error.None? ==>
      forall i :: 0 <= i < |wfs| ==> WorkflowError(wfs[i], executable, files, failing).None?
    ensures RunFrom(wfs, executable, files, failing).error.Some? ==>
      var n := |RunFrom(wfs, executable, files, failing).actions|;
      n < |wfs| && RunFrom(wfs, executable, files, failing).error == WorkflowError(wfs[n], executable, files, failing)
      && forall i :: 0 <= i < n ==> WorkflowError(wfs[i], executable, files, failing).None?
    decreases |wfs|
  {
    if wfs != [] && WorkflowError(wfs[0], executable, files, failing).None? {
      RunFromStops(wfs[1..], executable, files, failing);
      var r := RunFrom(wfs, executable, files, failing);
      var rest := RunFrom(wfs[1..], executable, files, failing);
      assert r.error == rest.error && |r.actions| == 1 + |rest.actions|;
      // The workflows known not to raise: all of them, or those before the one that does.
      var m := if rest.error.None? then |wfs| else 1 + |rest.actions|;
      forall i | 0 <= i < m ensures WorkflowError(wfs[i], executable, files, failing).None? {
        if 0 < i {
          assert wfs[i] == wfs[1..][i - 1];
        }
      }
      if rest.error.Some? {
        assert wfs[m] == wfs[1..][m - 1];
      }
    }
  }

  /** Without error, the run completes one action per workflow, and they run as many scripts as the progress total counts. */
  lemma {:induction false} RunFromScripts(wfs: seq<Resolved>, executable: string, files: map<string, string>, failing: set<seq<string>>)
    ensures RunFrom(wfs, executable, files, failing).error.None? ==>
      |RunFrom(wfs, executable, files, failing).actions| == |wfs|
      && TotalActionScripts(RunFrom(wfs, executable, files, failing).actions) == TotalSteps(wfs)
    decreases |wfs|
  {
    if wfs != [] && WorkflowError(wfs[0], executable, files, failing).None? {
      var d := Dispatch(wfs[0].wtype, wfs[0].steps, wfs[0].vars, executable);
      RunFromScripts(wfs[1..], executable, files, failing);
      var rest := RunFrom(wfs[1..], executable, files, failing);
      var acts := [d.value] + rest.actions;
      assert acts[1..] == rest.actions;
    }
  }

  /**
   * The tail of `main`: an empty workflow list raises before anything runs;
   * otherwise the run succeeds exactly when no workflow raises, and then
   * completes one action per workflow, running as many scripts as the
   * progress total counts.
   */
  function RunWorkflows(wfs: seq<Resolved>, executable: string, files: map<string, string>, failing: set<seq<string>>): (r: RunLog)
    ensures wfs == [] ==> r == RunLog([], Some(ValueError("No workflows defined in ETL config")))
    ensures r.error.None? <==>
      wfs != [] && forall i :: 0 <= i < |wfs| ==> WorkflowError(wfs[i], executable, files, failing).None?
    ensures r.error.None? ==> |r.actions| == |wfs| && TotalActionScripts(r.actions) == TotalSteps(wfs)
    ensures wfs != [] && r.error.Some? ==>
      |r.actions| < |wfs| && r.error == WorkflowError(wfs[|r.actions|], executable, files, failing)
  {
    if wfs == [] then RunLog([], Some(ValueError("No workflows defined in ETL config")))
    else
      var r := RunFrom(wfs, executable, files, failing);
      assert (r.error.None? <==> forall i :: 0 <= i < |wfs| ==> WorkflowError(wfs[i], executable, files, failing).None?)
        && (r.error.None? ==> |r.actions| == |wfs| && TotalActionScripts(r.actions) == TotalSteps(wfs))
        && (r.error.Some? ==> |r.actions| < |wfs| && r.error == WorkflowError(wfs[|r.actions|], executable, files, failing))
      by {
        RunFromSteps(wfs, executable, files, failing);
      }
      r
  }
}
