/**
 * `normalize_struct_json` and `normalize_query` of scripts/duckdb_run_script.py:
 * the fixed, ordered rewrites that turn BigQuery-flavoured SQL into SQL that
 * DuckDB accepts.
 */
module Normalizer {
  import opened Wrappers
  import opened Text
  import opened StructSplit
  import opened Rewrite
  import opened Config

  const FarmFingerprint := "FARM_FINGERPRINT(GENERATE_UUID())"
  const FarmReplacement := "(abs(hash(uuid())) % 9007199254740991)"
  const GenerateUuid := "GENERATE_UUID()"

  /** The `replacements` dict of `normalize_query`, in insertion order. */
  const Replacements: Entries<string> := [(FarmFingerprint, FarmReplacement), (GenerateUuid, "uuid()")]

  /** `\bREGEXP_EXTRACT\b` -> `BQ_REGEXP_EXTRACT`, case-sensitive. */
  const RegexpExtractRule := Word("REGEXP_EXTRACT", "BQ_REGEXP_EXTRACT", false)
  const StringRule := Word("STRING", "VARCHAR", false)
  const Int64Rule := Word("INT64", "BIGINT", false)
  const Float64Rule := Word("FLOAT64", "DOUBLE", false)
  /** `\bDATETIME\b(?!\s*\()` -> `TIMESTAMP`: the type, not the function. */
  const DatetimeRule := Word("DATETIME", "TIMESTAMP", true)

  /** `normalize_struct_json(sql)`. */
  function NormalizeStructJson(sql: string): string
  {
    Sub(StructJson, sql)
  }

  /** The regex rewrites of `normalize_query` up to the `DATETIME` one. */
  function Retyped(sql: string): string
  {
    var n1 := NormalizeStructJson(sql);
    var n2 := Sub(RegexpExtractRule, n1);
    var n3 := Sub(StringRule, n2);
    var n4 := Sub(Int64Rule, n3);
    var n5 := Sub(Float64Rule, n4);
    Sub(DatetimeRule, n5)
  }

  /** The remaining steps: backticks, raw strings, the `replacements` dict, `PARSE_DATE`. */
  function Cleaned(n6: string): string
  {
    var n7 := ReplaceAll(n6, "`", "");
    var n8 := Sub(RawString, n7);
    var n9 := Substituted(n8, Replacements);
    Sub(ParseDate, n9)
  }

  /** `normalize_query(sql)`: the rewrites in their fixed order. */
  function Normalized(sql: string): string
  {
    Cleaned(Retyped(sql))
  }

  /** `normalize_query`, reassigning `normalized` step by step. */
  method NormalizeQuery(sql: string) returns (normalized: string)
    ensures normalized == Normalized(sql)
  {
    var replacements := Replacements;
    normalized := NormalizeStructJson(sql);
    normalized := Sub(RegexpExtractRule, normalized);
    normalized := Sub(StringRule, normalized);
    normalized := Sub(Int64Rule, normalized);
    normalized := Sub(Float64Rule, normalized);
    normalized := Sub(DatetimeRule, normalized);
    assert normalized == Retyped(sql);
    normalized := ReplaceAll(normalized, "`", "");
    normalized := Sub(RawString, normalized);
    ghost var before := normalized;
    for i := 0 to |replacements|
      invariant Substituted(normalized, replacements[i..]) == Substituted(before, replacements)
    {
      assert replacements[i..][1..] == replacements[i + 1..];
      normalized := ReplaceAll(normalized, replacements[i].0, replacements[i].1);
    }
    assert replacements[|replacements|..] == [];
    normalized := Sub(ParseDate, normalized);
  }

  // ---------------------------------------------------------------------------
  // Backticks
  // ---------------------------------------------------------------------------

  lemma SubstitutedChars(s: string, c: char)
    requires c !in s && c !in FarmReplacement && c !in "uuid()"
    ensures c !in Substituted(s, Replacements)
  {
    var s1 := ReplaceAll(s, FarmFingerprint, FarmReplacement);
    ReplaceChars(s, FarmFingerprint, FarmReplacement);
    ReplaceChars(s1, GenerateUuid, "uuid()");
    SubstitutedPair(s, Replacements[0], Replacements[1]);
  }

  /** No backtick survives `normalize_query`: later steps only add quotes, `DATE`, and fixed text. */
  lemma NormalizedHasNoBacktick(sql: string)
    ensures '`' !in Normalized(sql)
  {
    CleanedHasNoBacktick(Retyped(sql));
  }

  lemma CleanedHasNoBacktick(n6: string)
    ensures '`' !in Cleaned(n6)
  {
    var n7 := ReplaceAll(n6, "`", "");
    var n8 := Sub(RawString, n7);
    var n9 := Substituted(n8, Replacements);
    BacktickFreeConstants();
    ReplaceRemovesChar(n6, '`');
    SubKeepsOut(RawString, n7, '`');
    SubstitutedChars(n8, '`');
    SubKeepsOut(ParseDate, n9, '`');
  }

  /** No fixed text that the later steps insert holds a backtick. */
  lemma BacktickFreeConstants()
    ensures '`' !in FarmReplacement && '`' !in "uuid()"
    ensures '`' !in RuleChars(RawString) && '`' !in RuleChars(ParseDate)
  {
  }

  // ---------------------------------------------------------------------------
  // The two exact-text replacements
  // ---------------------------------------------------------------------------

  lemma AbsentChar(p: string, s: string, c: char)
    requires c in p && c !in s
    ensures !Occurs(p, s)
  {
    forall k: nat ensures !OccursAt(p, s, k) {
      if k + |p| <= |s| {
        var j :| 0 <= j < |p| && p[j] == c;
        assert s[k..k + |p|][j] != p[j];
      }
    }
  }

  /**
   * Wherever `FARM_FINGERPRINT(GENERATE_UUID())` stands in a text, it is
   * rewritten as a whole before the bare `GENERATE_UUID()` rule could touch
   * it, and the text on either side is rewritten as if it stood alone.
   */
  lemma FarmFingerprintWhole(a: string, b: string)
    ensures Substituted(a + FarmFingerprint + b, Replacements)
         == Substituted(a, Replacements) + FarmReplacement + Substituted(b, Replacements)
  {
    var a1 := ReplaceAll(a, FarmFingerprint, FarmReplacement);
    var b1 := ReplaceAll(b, FarmFingerprint, FarmReplacement);
    FarmRule(a, b);
    UuidRule(a1, b1);
    SubstitutedPair(a + FarmFingerprint + b, Replacements[0], Replacements[1]);
    SubstitutedPair(a, Replacements[0], Replacements[1]);
    SubstitutedPair(b, Replacements[0], Replacements[1]);
  }

  /** The first rule rewrites the key where it stands: it has no border, so no occurrence straddles its front. */
  lemma FarmRule(a: string, b: string)
    ensures ReplaceAll(a + FarmFingerprint + b, FarmFingerprint, FarmReplacement)
         == ReplaceAll(a, FarmFingerprint, FarmReplacement) + FarmReplacement + ReplaceAll(b, FarmFingerprint, FarmReplacement)
  {
    var s := FarmFingerprint + b;
    FarmBorder();
    NoStraddle(a, FarmFingerprint, b, FarmFingerprint);
    assert a + FarmFingerprint + b == a + s;
    ReplaceSplit(a, s, FarmFingerprint, FarmReplacement);
    assert StartsWith(s, FarmFingerprint) && s[|FarmFingerprint|..] == b;
  }

  /** The second rule leaves the replacement alone: `GENERATE_UUID()` neither reaches into it nor starts inside it. */
  lemma UuidRule(a: string, b: string)
    ensures ReplaceAll(a + FarmReplacement + b, GenerateUuid, "uuid()")
         == ReplaceAll(a, GenerateUuid, "uuid()") + FarmReplacement + ReplaceAll(b, GenerateUuid, "uuid()")
  {
    var s := FarmReplacement + b;
    UuidBorder();
    NoStraddle(a, FarmReplacement, b, GenerateUuid);
    assert a + FarmReplacement + b == a + s;
    ReplaceSplit(a, s, GenerateUuid, "uuid()");
    GOnlyInKey();
    forall k | 0 <= k < |FarmReplacement| < k + |GenerateUuid| ensures !OccursAt(GenerateUuid, s, k) {
      assert s[k] != GenerateUuid[0];
    }
    ReplaceSplit(FarmReplacement, b, GenerateUuid, "uuid()");
    AbsentChar(GenerateUuid, FarmReplacement, 'G');
    ReplaceAbsent(FarmReplacement, GenerateUuid, "uuid()");
  }

  /** No proper suffix of `FARM_FINGERPRINT(GENERATE_UUID())` begins with its own first two characters. */
  lemma FarmBorder()
    ensures forall j :: 0 < j < |FarmFingerprint| ==>
      FarmFingerprint[j] != FarmFingerprint[0] || (j + 1 < |FarmFingerprint| && FarmFingerprint[j + 1] != FarmFingerprint[1])
  {
  }

  /** No proper suffix of `GENERATE_UUID()` begins with `(a`, the start of the replacement. */
  lemma UuidBorder()
    ensures forall j :: 0 < j < |GenerateUuid| ==>
      GenerateUuid[j] != FarmReplacement[0] || (j + 1 < |GenerateUuid| && GenerateUuid[j + 1] != FarmReplacement[1])
  {
  }

  lemma GOnlyInKey()
    ensures 'G' in GenerateUuid && 'G' !in FarmReplacement
  {
    assert GenerateUuid[0] == 'G';
  }
}
