/**
 * scripts/cleanup_duckdb.py: after a successful run, drop the intermediate
 * schemas (never a preserved one) and optionally VACUUM. The database is the
 * list of statements executed on it, in order.
 */
module Cleanup {
  import opened Wrappers
  import opened Text
  import opened Identifiers

  // ---------------------------------------------------------------------------
  // Flags
  // ---------------------------------------------------------------------------

  const TrueWords: seq<string> := ["1", "true", "yes", "y", "on"]

  /** `_truthy`: the stripped, lower-cased value is one of the true words. */
  function Truthy(value: string): bool
  {
    Lower(Strip(value)) in TrueWords
  }

  /** A true word in any letter case, with any whitespace around it, is truthy. */
  lemma TruthyPadded(pre: string, w: string, post: string)
    requires IsBlank(pre) && IsBlank(post)
    requires Lower(w) in TrueWords
    ensures Truthy(pre + w + post)
  {
    var l := Lower(w);
    assert l[0] == LowerChar(w[0]) && l[|l| - 1] == LowerChar(w[|w| - 1]);
    assert !IsSpace(l[0]) && !IsSpace(l[|l| - 1]);
    StripPadded(pre, w, post);
  }

  /** The default `1` switches a flag on; `0` and the empty string leave it off. */
  lemma TruthyDefaults()
    ensures Truthy("1")
    ensures !Truthy("0") && !Truthy("")
  {
    StripTrimmed("1");
    StripTrimmed("0");
    assert Lower("0") == "0";
    assert Lower("1") == "1";
  }

  // ---------------------------------------------------------------------------
  // Arguments
  // ---------------------------------------------------------------------------

  datatype CleanupArgs = CleanupArgs(
    enable: string, vacuum: string,
    etlSchema: string, rawHospSchema: string, rawIcuSchema: string,
    rawDerivedSchema: string, rawWaveformSchema: string, ingestSchema: string,
    outputSchema: string, auditSchema: string,
    dropLegacyOmopSchema: string, legacyOmopSchema: string)

  /** The argument defaults of `parse_args`. */
  const DefaultArgs := CleanupArgs(
    "1", "1", "omop_cdm", "raw_hosp", "raw_icu", "raw_derived", "raw_waveform", "ingest",
    "main", "audit", "1", "omop")

  /** The schemas never dropped. */
  function Preserved(a: CleanupArgs): set<string>
  {
    {a.outputSchema, a.auditSchema, "main", "information_schema", "pg_catalog"}
  }

  /** The intermediate schemas, in the order they are dropped. */
  function BaseDropList(a: CleanupArgs): seq<string>
  {
    [a.etlSchema, a.rawHospSchema, a.rawIcuSchema, a.rawDerivedSchema, a.rawWaveformSchema, a.ingestSchema]
  }

  /** `schemas_to_drop`: the intermediate schemas, then the legacy schema when its flag is set. */
  function DropList(a: CleanupArgs): seq<string>
  {
    BaseDropList(a) + if Truthy(a.dropLegacyOmopSchema) then [a.legacyOmopSchema] else []
  }

  // ---------------------------------------------------------------------------
  // Statements
  // ---------------------------------------------------------------------------

  function DropStatement(schema: string): string
  {
    "DROP SCHEMA IF EXISTS " + SqlIdent(schema) + " CASCADE"
  }

  /** The drop statement names its schema: distinct schemas give distinct statements. */
  lemma DropStatementInjective(s: string, t: string)
    requires DropStatement(s) == DropStatement(t)
    ensures s == t
  {
    var p := "DROP SCHEMA IF EXISTS ";
    var x := DropStatement(s);
    assert |SqlIdent(s)| == |SqlIdent(t)|;
    assert x[|p|..|p| + |SqlIdent(s)|] == SqlIdent(s);
    assert DropStatement(t)[|p|..|p| + |SqlIdent(t)|] == SqlIdent(t);
    SqlIdentInjective(s, t);
  }

  /** `drop_schema`: nothing for an empty name, else one drop statement. */
  function DropSchema(schema: string): (r: seq<string>)
    ensures |r| <= 1
    ensures r == [] <==> schema == ""
  {
    if schema == "" then [] else [DropStatement(schema)]
  }

  /** The schemas the loop drops: the non-empty, unpreserved ones, in list order. */
  function Dropped(schemas: seq<string>, preserve: set<string>): seq<string>
  {
    if schemas == [] then []
    else
      var rest := Dropped(schemas[1..], preserve);
      if schemas[0] == "" || schemas[0] in preserve then rest else [schemas[0]] + rest
  }

  /** A schema is dropped exactly when it is listed, non-empty and not preserved. */
  lemma {:induction false} DroppedMembers(schemas: seq<string>, preserve: set<string>, s: string)
    ensures s in Dropped(schemas, preserve) <==> s in schemas && s != "" && s !in preserve
  {
    if schemas != [] {
      assert schemas == [schemas[0]] + schemas[1..];
      DroppedMembers(schemas[1..], preserve, s);
    }
  }

  /** The dropped schemas are a sub-list of the listed ones: nothing added, nothing reordered. */
  lemma {:induction false} DroppedInOrder(schemas: seq<string>, preserve: set<string>)
    ensures Subsequence(Dropped(schemas, preserve), schemas)
  {
    if schemas != [] {
      DroppedInOrder(schemas[1..], preserve);
      var d := Dropped(schemas, preserve);
      var rest := Dropped(schemas[1..], preserve);
      if d != rest {
        assert d[0] == schemas[0] && d[1..] == rest;
      }
    }
  }

  /** One drop statement per schema, in order. */
  function DropAll(schemas: seq<string>): seq<string>
  {
    if schemas == [] then [] else DropSchema(schemas[0]) + DropAll(schemas[1..])
  }

  /** No drop statement is `VACUUM`. */
  lemma {:induction false} NoVacuumDrop(schemas: seq<string>)
    ensures "VACUUM" !in DropAll(schemas)
  {
    if schemas != [] {
      NoVacuumDrop(schemas[1..]);
      if schemas[0] != "" {
        assert DropStatement(schemas[0])[0] == 'D';
      }
    }
  }

  /** A schema's drop statement is among the statements exactly when the schema is listed and non-empty. */
  lemma {:induction false} DropAllHas(schemas: seq<string>, s: string)
    ensures DropStatement(s) in DropAll(schemas) <==> s in schemas && s != ""
  {
    if schemas != [] {
      var h := schemas[0];
      DropAllHas(schemas[1..], s);
      assert schemas == [h] + schemas[1..];
      assert DropAll(schemas) == DropSchema(h) + DropAll(schemas[1..]);
      if h != "" && DropStatement(s) == DropStatement(h) {
        DropStatementInjective(s, h);
      }
    }
  }

  /** Dropping from position `i` on: the schema at `i`, unless skipped, then the rest. */
  lemma DropStep(schemas: seq<string>, preserve: set<string>, i: nat)
    requires i < |schemas|
    ensures DropAll(Dropped(schemas[i..], preserve)) ==
      (if schemas[i] == "" || schemas[i] in preserve then [] else DropSchema(schemas[i])) + DropAll(Dropped(schemas[i + 1..], preserve))
  {
    var rest := Dropped(schemas[i + 1..], preserve);
    assert schemas[i..][0] == schemas[i] && schemas[i..][1..] == schemas[i + 1..];
    if schemas[i] != "" && schemas[i] !in preserve {
      assert ([schemas[i]] + rest)[1..] == rest;
    }
  }

  /** The statements of an enabled run: the drops, then `VACUUM` when asked for. */
  function Statements(a: CleanupArgs): seq<string>
  {
    DropAll(Dropped(DropList(a), Preserved(a))) + if Truthy(a.vacuum) then ["VACUUM"] else []
  }

  /** `main`: a no-op when disabled; a missing database raises; otherwise the statements run. */
  function CleanupOutcome(a: CleanupArgs, dbExists: bool): Result<seq<string>>
  {
    if !Truthy(a.enable) then Ok([])
    else if !dbExists then Err("FileNotFoundError")
    else Ok(Statements(a))
  }

  /**
   * A schema is dropped exactly when it is named in the drop list, is not
   * empty and is not preserved; so a preserved schema is never dropped.
   */
  lemma SchemaDroppedIff(a: CleanupArgs, s: string)
    ensures DropStatement(s) in Statements(a) <==> s in DropList(a) && s != "" && s !in Preserved(a)
  {
    var d := Dropped(DropList(a), Preserved(a));
    var tail: seq<string> := if Truthy(a.vacuum) then ["VACUUM"] else [];
    assert Statements(a) == DropAll(d) + tail;
    assert DropStatement(s) !in tail by {
      assert DropStatement(s)[0] == 'D';
    }
    DropAllHas(d, s);
    DroppedMembers(DropList(a), Preserved(a), s);
  }

  /** The legacy schema is in the drop list exactly when its flag is set or it is also an intermediate schema. */
  lemma LegacyListed(a: CleanupArgs)
    ensures a.legacyOmopSchema in DropList(a) <==> Truthy(a.dropLegacyOmopSchema) || a.legacyOmopSchema in BaseDropList(a)
  {
    if Truthy(a.dropLegacyOmopSchema) {
      assert DropList(a)[6] == a.legacyOmopSchema;
    } else {
      assert DropList(a) == BaseDropList(a);
    }
  }

  /** `VACUUM` runs exactly when asked for, and then as the last statement. */
  lemma VacuumLast(a: CleanupArgs)
    ensures "VACUUM" in Statements(a) <==> Truthy(a.vacuum)
    ensures Truthy(a.vacuum) ==> Statements(a)[|Statements(a)| - 1] == "VACUUM"
  {
    NoVacuumDrop(Dropped(DropList(a), Preserved(a)));
  }

  // ---------------------------------------------------------------------------
  // main
  // ---------------------------------------------------------------------------

  /** `schemas_to_drop`, built by appending the legacy schema when its flag is set. */
  method BuildDropList(a: CleanupArgs) returns (schemasToDrop: seq<string>)
    ensures schemasToDrop == DropList(a)
  {
    schemasToDrop := BaseDropList(a);
    if Truthy(a.dropLegacyOmopSchema) {
      schemasToDrop := schemasToDrop + [a.legacyOmopSchema];
    }
  }

  /** The drop loop of `main`: skip empty and preserved names, drop the rest in order. */
  method DropSchemas(schemasToDrop: seq<string>, preserve: set<string>) returns (executed: seq<string>)
    ensures executed == DropAll(Dropped(schemasToDrop, preserve))
  {
    executed := [];
    for i := 0 to |schemasToDrop|
      invariant executed + DropAll(Dropped(schemasToDrop[i..], preserve)) == DropAll(Dropped(schemasToDrop, preserve))
    {
      var schema := schemasToDrop[i];
      DropStep(schemasToDrop, preserve, i);
      if schema == "" {
        continue;
      }
      if schema in preserve {
        continue;
      }
      ConcatAssoc(executed, DropSchema(schema), DropAll(Dropped(schemasToDrop[i + 1..], preserve)));
      executed := executed + DropSchema(schema);
    }
    assert schemasToDrop[|schemasToDrop|..] == [];
  }

  /** `main`, building the drop list by appending and running the drop loop, then `VACUUM`. */
  method RunCleanup(a: CleanupArgs, dbExists: bool) returns (result: Result<seq<string>>)
    ensures result == CleanupOutcome(a, dbExists)
  {
    if !Truthy(a.enable) {
      return Ok([]);
    }
    if !dbExists {
      return Err("FileNotFoundError");
    }
    var preserve := Preserved(a);
    var schemasToDrop := BuildDropList(a);
    var executed := DropSchemas(schemasToDrop, preserve);
    assert executed == DropAll(Dropped(DropList(a), Preserved(a)));
    if Truthy(a.vacuum) {
      executed := executed + ["VACUUM"];
    }
    assert executed == Statements(a);
    result := Ok(executed);
  }
}
