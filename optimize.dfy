/**
 * scripts/optimize_duckdb_indexes.py: the curated index list, which of its
 * entries are enabled, and the statements `create_indexes` runs against a
 * catalog of base tables. The database is the list of statements executed
 * on it, in order.
 */
module Optimize {
  import opened Wrappers
  import opened Text
  import opened Identifiers

  datatype IndexSpec = IndexSpec(table: string, name: string, columns: seq<string>, large: bool)

  /** Specs from (table, index name, columns) entries, all with the same `large` flag. */
  function Specs(entries: seq<(string, string, seq<string>)>, large: bool): (r: seq<IndexSpec>)
    ensures |r| == |entries|
    ensures forall i :: 0 <= i < |r| ==> r[i] == IndexSpec(entries[i].0, entries[i].1, entries[i].2, large)
  {
    seq(|entries|, i requires 0 <= i < |entries| => IndexSpec(entries[i].0, entries[i].1, entries[i].2, large))
  }

  /** The core join keys (small and medium tables). */
  const CoreEntries: seq<(string, string, seq<string>)> := [
    ("src_patients", "idx_src_patients_subject_id", ["subject_id"]),
    ("src_admissions", "idx_src_admissions_hadm_id", ["hadm_id"]),
    ("src_admissions", "idx_src_admissions_subject_id", ["subject_id"]),
    ("src_transfers", "idx_src_transfers_hadm_id", ["hadm_id"]),
    ("src_services", "idx_src_services_hadm_id", ["hadm_id"]),
    ("src_diagnoses_icd", "idx_src_diagnoses_icd_hadm_id", ["hadm_id"]),
    ("src_procedures_icd", "idx_src_procedures_icd_hadm_id", ["hadm_id"]),
    ("src_hcpcsevents", "idx_src_hcpcsevents_hadm_id", ["hadm_id"]),
    ("src_prescriptions", "idx_src_prescriptions_hadm_id", ["hadm_id"]),
    ("src_microbiologyevents", "idx_src_microbiologyevents_hadm_id", ["hadm_id"]),
    ("src_d_labitems", "idx_src_d_labitems_itemid", ["itemid"]),
    ("src_d_items", "idx_src_d_items_itemid", ["itemid"])
  ]

  /** The large fact-like sources, indexed only on request. */
  const LargeEntries: seq<(string, string, seq<string>)> := [
    ("src_labevents", "idx_src_labevents_itemid", ["itemid"]),
    ("src_labevents", "idx_src_labevents_hadm_id", ["hadm_id"]),
    ("src_chartevents", "idx_src_chartevents_itemid", ["itemid"]),
    ("src_chartevents", "idx_src_chartevents_stay_id", ["stay_id"]),
    ("src_outputevents", "idx_src_outputevents_itemid", ["itemid"]),
    ("src_outputevents", "idx_src_outputevents_stay_id", ["stay_id"])
  ]

  const CoreSpecs: seq<IndexSpec> := Specs(CoreEntries, false)
  const LargeSpecs: seq<IndexSpec> := Specs(LargeEntries, true)

  /** `INDEX_SPECS`. */
  const IndexSpecs: seq<IndexSpec> := CoreSpecs + LargeSpecs

  // ---------------------------------------------------------------------------
  // iter_enabled_specs
  // ---------------------------------------------------------------------------

  /** `iter_enabled_specs`: the specs in order, the large ones only when `enableLarge`. */
  function EnabledSpecs(specs: seq<IndexSpec>, enableLarge: bool): (r: seq<IndexSpec>)
    ensures |r| <= |specs|
  {
    if specs == [] then []
    else
      var rest := EnabledSpecs(specs[1..], enableLarge);
      if specs[0].large && !enableLarge then rest else [specs[0]] + rest
  }

  /** A spec is enabled exactly when it is listed and is not a large one left off. */
  lemma {:induction false} EnabledMembers(specs: seq<IndexSpec>, enableLarge: bool, s: IndexSpec)
    ensures s in EnabledSpecs(specs, enableLarge) <==> s in specs && (enableLarge || !s.large)
  {
    if specs != [] {
      assert specs == [specs[0]] + specs[1..];
      EnabledMembers(specs[1..], enableLarge, s);
    }
  }

  /** The enabled specs are a sub-list of the specs: nothing added, nothing reordered. */
  lemma {:induction false} EnabledSublist(specs: seq<IndexSpec>, enableLarge: bool)
    ensures Subsequence(EnabledSpecs(specs, enableLarge), specs)
  {
    if specs != [] {
      EnabledSublist(specs[1..], enableLarge);
      var r := EnabledSpecs(specs, enableLarge);
      var rest := EnabledSpecs(specs[1..], enableLarge);
      if r != rest {
        assert r[0] == specs[0] && r[1..] == rest;
      }
    }
  }

  lemma {:induction false} EnabledAppend(a: seq<IndexSpec>, b: seq<IndexSpec>, enableLarge: bool)
    ensures EnabledSpecs(a + b, enableLarge) == EnabledSpecs(a, enableLarge) + EnabledSpecs(b, enableLarge)
  {
    if a == [] {
      assert a + b == b;
    } else {
      assert (a + b)[0] == a[0] && (a + b)[1..] == a[1..] + b;
      EnabledAppend(a[1..], b, enableLarge);
    }
  }

  /** With `enableLarge` every spec is yielded, in order. */
  lemma {:induction false} EnabledAll(specs: seq<IndexSpec>)
    ensures EnabledSpecs(specs, true) == specs
  {
    if specs != [] {
      EnabledAll(specs[1..]);
      assert specs == [specs[0]] + specs[1..];
    }
  }

  /** Without it, a list of large specs yields nothing and one of small specs yields itself. */
  lemma {:induction false} EnabledSmall(specs: seq<IndexSpec>)
    requires forall i :: 0 <= i < |specs| ==> !specs[i].large
    ensures EnabledSpecs(specs, false) == specs
  {
    if specs != [] {
      EnabledSmall(specs[1..]);
      assert specs == [specs[0]] + specs[1..];
    }
  }

  lemma {:induction false} EnabledLargeNone(specs: seq<IndexSpec>)
    requires forall i :: 0 <= i < |specs| ==> specs[i].large
    ensures EnabledSpecs(specs, false) == []
  {
    if specs != [] {
      EnabledLargeNone(specs[1..]);
    }
  }

  /** All 18 specs when large tables are enabled; the 12 core ones otherwise. */
  lemma EnabledIndexSpecs()
    ensures EnabledSpecs(IndexSpecs, true) == IndexSpecs && |IndexSpecs| == 18
    ensures EnabledSpecs(IndexSpecs, false) == CoreSpecs && |CoreSpecs| == 12
  {
    EnabledAll(IndexSpecs);
    EnabledAppend(CoreSpecs, LargeSpecs, false);
    EnabledSmall(CoreSpecs);
    EnabledLargeNone(LargeSpecs);
    assert CoreSpecs + [] == CoreSpecs;
  }

  // ---------------------------------------------------------------------------
  // create_indexes
  // ---------------------------------------------------------------------------

  /** The quoted columns, comma-separated. */
  function QuotedColumns(columns: seq<string>): (r: seq<string>)
    ensures |r| == |columns| && forall i :: 0 <= i < |columns| ==> Unquote(r[i], '"') == Some(columns[i])
  {
    seq(|columns|, i requires 0 <= i < |columns| => SqlIdent(columns[i]))
  }

  const CreatePrefix := "CREATE INDEX IF NOT EXISTS "

  /** The index DDL: every identifier goes through `sql_ident`. */
  function IndexDdl(spec: IndexSpec, schema: string): string
  {
    CreatePrefix + SqlIdent(spec.name) + IndexTarget(spec, schema)
  }

  /** The `ON "schema"."table" ("col", ...)` part of the DDL. */
  function IndexTarget(spec: IndexSpec, schema: string): string
  {
    " ON " + SqlIdent(schema) + "." + SqlIdent(spec.table) + " (" + Join(QuotedColumns(spec.columns), ", ") + ")"
  }

  /** The DDL names its index: the prefix is followed by the spec's name, quoted. */
  lemma IndexDdlNamesIndex(spec: IndexSpec, schema: string)
    ensures StartsWith(IndexDdl(spec, schema), CreatePrefix + SqlIdent(spec.name))
  {
    var p := CreatePrefix + SqlIdent(spec.name);
    assert IndexDdl(spec, schema)[..|p|] == p;
  }

  /** `table_exists`: the schema holds a base table of that name. */
  predicate TableExists(baseTables: set<(string, string)>, schema: string, table: string)
  {
    (schema, table) in baseTables
  }

  /** The enabled specs whose table exists, in order. */
  function Applicable(specs: seq<IndexSpec>, baseTables: set<(string, string)>, schema: string): (r: seq<IndexSpec>)
    ensures |r| <= |specs|
  {
    if specs == [] then []
    else
      var rest := Applicable(specs[1..], baseTables, schema);
      if TableExists(baseTables, schema, specs[0].table) then [specs[0]] + rest else rest
  }

  lemma {:induction false} ApplicableMembers(specs: seq<IndexSpec>, baseTables: set<(string, string)>, schema: string, s: IndexSpec)
    ensures s in Applicable(specs, baseTables, schema) <==> s in specs && TableExists(baseTables, schema, s.table)
  {
    if specs != [] {
      assert specs == [specs[0]] + specs[1..];
      ApplicableMembers(specs[1..], baseTables, schema, s);
    }
  }

  /** One DDL statement per spec. */
  function Ddls(specs: seq<IndexSpec>, schema: string): (r: seq<string>)
    ensures |r| == |specs| && forall i :: 0 <= i < |specs| ==> r[i] == IndexDdl(specs[i], schema)
  {
    seq(|specs|, i requires 0 <= i < |specs| => IndexDdl(specs[i], schema))
  }

  /** What `create_indexes` runs: the DDL of each applicable spec, then `ANALYZE`. */
  function IndexStatements(specs: seq<IndexSpec>, baseTables: set<(string, string)>, schema: string): seq<string>
  {
    Ddls(Applicable(specs, baseTables, schema), schema) + ["ANALYZE"]
  }

  /** Indexing from position `i` on: the spec at `i` when its table exists, then the rest. */
  lemma ApplicableStep(specs: seq<IndexSpec>, baseTables: set<(string, string)>, schema: string, i: nat)
    requires i < |specs|
    ensures Applicable(specs[i..], baseTables, schema) ==
      (if TableExists(baseTables, schema, specs[i].table) then [specs[i]] else []) + Applicable(specs[i + 1..], baseTables, schema)
  {
    assert specs[i..][0] == specs[i] && specs[i..][1..] == specs[i + 1..];
  }

  /** The loop of `create_indexes` over `specs`: skip a spec whose table is missing, index the others and count them. */
  method IndexEach(specs: seq<IndexSpec>, baseTables: set<(string, string)>, schema: string)
    returns (created: nat, executed: seq<string>)
    ensures created == |Applicable(specs, baseTables, schema)|
    ensures executed == Ddls(Applicable(specs, baseTables, schema), schema)
  {
    created := 0;
    executed := [];
    ghost var done: seq<IndexSpec> := [];
    for i := 0 to |specs|
      invariant done + Applicable(specs[i..], baseTables, schema) == Applicable(specs, baseTables, schema)
      invariant created == |done| == |executed|
      invariant forall k :: 0 <= k < |done| ==> executed[k] == IndexDdl(done[k], schema)
    {
      var spec := specs[i];
      ApplicableStep(specs, baseTables, schema, i);
      if !TableExists(baseTables, schema, spec.table) {
        continue;
      }
      assert done + [spec] + Applicable(specs[i + 1..], baseTables, schema)
        == done + ([spec] + Applicable(specs[i + 1..], baseTables, schema));
      executed := executed + [IndexDdl(spec, schema)];
      created := created + 1;
      done := done + [spec];
    }
    assert specs[|specs|..] == [];
    assert done + [] == done;
    assert executed == Ddls(done, schema);
  }

  /**
   * `create_indexes`: one `CREATE INDEX` per enabled spec whose table exists,
   * in spec order, then `ANALYZE`; the count is the number of indexes created
   * and never exceeds the number of enabled specs.
   */
  method CreateIndexes(baseTables: set<(string, string)>, schema: string, enableLarge: bool)
    returns (created: nat, executed: seq<string>)
    ensures created == |Applicable(EnabledSpecs(IndexSpecs, enableLarge), baseTables, schema)|
    ensures created <= |EnabledSpecs(IndexSpecs, enableLarge)|
    ensures executed == IndexStatements(EnabledSpecs(IndexSpecs, enableLarge), baseTables, schema)
  {
    created, executed := IndexEach(EnabledSpecs(IndexSpecs, enableLarge), baseTables, schema);
    executed := executed + ["ANALYZE"];
  }

  // ---------------------------------------------------------------------------
  // main
  // ---------------------------------------------------------------------------

  /**
   * `main`: a missing database raises; `--enable` other than 1 creates
   * nothing (`None`); otherwise the count and statements of `create_indexes`,
   * with large tables exactly when `--enable-large` is 1.
   */
  function OptimizeOutcome(dbExists: bool, enable: int, enableLarge: int, schema: string, baseTables: set<(string, string)>): Result<Option<(nat, seq<string>)>>
  {
    if !dbExists then Err("FileNotFoundError")
    else if enable != 1 then Ok(None)
    else
      var specs := Applicable(EnabledSpecs(IndexSpecs, enableLarge == 1), baseTables, schema);
      Ok(Some((|specs|, IndexStatements(EnabledSpecs(IndexSpecs, enableLarge == 1), baseTables, schema))))
  }

  method RunOptimize(dbExists: bool, enable: int, enableLarge: int, schema: string, baseTables: set<(string, string)>)
    returns (result: Result<Option<(nat, seq<string>)>>)
    ensures result == OptimizeOutcome(dbExists, enable, enableLarge, schema, baseTables)
    ensures enable != 1 ==> result.Ok? ==> result.value.None?
  {
    if !dbExists {
      return Err("FileNotFoundError");
    }
    if enable != 1 {
      return Ok(None);
    }
    var created, executed := CreateIndexes(baseTables, schema, enableLarge == 1);
    result := Ok(Some((created, executed)));
  }

  /** Every index created is an enabled spec on an existing base table, and each such spec gets its DDL. */
  lemma IndexCreatedIff(specs: seq<IndexSpec>, baseTables: set<(string, string)>, schema: string, s: IndexSpec)
    ensures s in Applicable(specs, baseTables, schema) ==> IndexDdl(s, schema) in IndexStatements(specs, baseTables, schema)
    ensures s in Applicable(specs, baseTables, schema) <==> s in specs && TableExists(baseTables, schema, s.table)
  {
    ApplicableMembers(specs, baseTables, schema, s);
    if s in Applicable(specs, baseTables, schema) {
      DdlsCover(Applicable(specs, baseTables, schema), schema, s);
    }
  }

  lemma DdlsCover(specs: seq<IndexSpec>, schema: string, s: IndexSpec)
    requires s in specs
    ensures IndexDdl(s, schema) in Ddls(specs, schema)
  {
    var i :| 0 <= i < |specs| && specs[i] == s;
    assert Ddls(specs, schema)[i] == IndexDdl(s, schema);
  }
}
