/**
 * The CSV ingester of scripts/ingest_mimic_csv_to_duckdb.py: quoting of the
 * file path literal, table names derived from file names, the order in which
 * a folder's files are loaded, the grouping of input folders into one
 * canonical schema plus alias schemas, and the effect of loading and aliasing
 * on the database catalog.
 *
 * The catalog is a map from (schema, name) to the relation stored there.
 * A folder's listing is a parameter (`None` when the folder does not exist);
 * reading the CSV data itself is outside the model.
 */
module Ingest {
  import opened Wrappers
  import opened Text
  import opened Config

  // ---------------------------------------------------------------------------
  // sql_quote_string
  // ---------------------------------------------------------------------------

  /** `sql_quote_string`: a single-quoted SQL literal that reads back as `value`. */
  function SqlQuoteString(value: string): (r: string)
    ensures |r| == |value| + 2 + Count(value, '\'')
    ensures Unquote(r, '\'') == Some(value)
  {
    QuoteRoundTrip(value, '\'');
    Quote(value, '\'')
  }

  // ---------------------------------------------------------------------------
  // Table names and file order
  // ---------------------------------------------------------------------------

  /** A stem less one trailing `.csv`, when it has one. */
  function CsvBase(stem: string): string
  {
    if EndsWith(stem, ".csv") then stem[..|stem| - 4] else stem
  }

  /** The table a CSV file loads into: its stem, less one more `.csv`, lower-cased unless the case is kept. */
  function TableName(path: string, lowercase: bool): string
  {
    var name := CsvBase(Stem(path));
    if lowercase then Lower(name) else name
  }

  lemma {:induction false} RFindAppend(s: string, t: string, c: char)
    requires c !in t
    ensures RFind(s + t, c) == RFind(s, c)
    decreases |t|
  {
    if t != [] {
      var u := t[..|t| - 1];
      assert t == u + [t[|t| - 1]];
      assert c !in u && t[|t| - 1] != c;
      assert s + t == (s + u) + [t[|t| - 1]];
      assert (s + t)[..|s + t| - 1] == s + u;
      RFindAppend(s, u, c);
    } else {
      assert s + t == s;
    }
  }

  /** The stem of `x.ext` is `x` when `ext` is a single suffix and `x` is a plain, non-empty file name. */
  lemma StemOfSuffixed(x: string, ext: string)
    requires x != [] && '/' !in x && '/' !in ext && '.' !in ext && ext != []
    ensures Stem(x + "." + ext) == x
  {
    var name := x + "." + ext;
    assert '/' !in name && name != ".";
    BaseNamePlain(name);
    assert name == (x + ".") + ext;
    RFindAppend(x + ".", ext, '.');
    assert RFind(x + ".", '.') == |x|;
    assert name[..|x|] == x;
  }

  lemma StemCsv(x: string)
    requires x != [] && '/' !in x
    ensures Stem(x + ".csv") == x
  {
    assert x + ".csv" == x + "." + "csv";
    StemOfSuffixed(x, "csv");
  }

  lemma StemGz(x: string)
    requires x != [] && '/' !in x
    ensures Stem(x + ".csv.gz") == x + ".csv"
  {
    assert x + ".csv.gz" == (x + ".csv") + "." + "gz";
    StemOfSuffixed(x + ".csv", "gz");
  }

  lemma StemZip(x: string)
    requires x != [] && '/' !in x
    ensures Stem(x + ".csv.zip") == x + ".csv"
  {
    assert x + ".csv.zip" == (x + ".csv") + "." + "zip";
    StemOfSuffixed(x + ".csv", "zip");
  }

  /** The table name depends on the path through its stem only. */
  lemma TableNameOfStem(path: string, stem: string, lowercase: bool)
    requires Stem(path) == stem
    ensures TableName(path, lowercase) == if lowercase then Lower(CsvBase(stem)) else CsvBase(stem)
  {
  }

  lemma CsvBaseOf(x: string)
    requires !EndsWith(x, ".csv")
    ensures CsvBase(x) == x
    ensures CsvBase(x + ".csv") == x
  {
    var y := x + ".csv";
    assert y[|y| - 4..] == ".csv";
    assert y[..|y| - 4] == x;
  }

  /**
   * `x.csv`, `x.csv.gz` and `x.csv.zip` all load into the same table: `x`,
   * lower-cased unless the case is kept (for a plain file name `x` that does
   * not itself end in `.csv`).
   */
  lemma TableNameOfCompressed(x: string, lowercase: bool)
    requires x != [] && '/' !in x && !EndsWith(x, ".csv")
    ensures TableName(x + ".csv", lowercase) == (if lowercase then Lower(x) else x)
    ensures TableName(x + ".csv.gz", lowercase) == (if lowercase then Lower(x) else x)
    ensures TableName(x + ".csv.zip", lowercase) == (if lowercase then Lower(x) else x)
  {
    CsvBaseOf(x);
    StemCsv(x);
    TableNameOfStem(x + ".csv", x, lowercase);
    StemGz(x);
    TableNameOfStem(x + ".csv.gz", x + ".csv", lowercase);
    StemZip(x);
    TableNameOfStem(x + ".csv.zip", x + ".csv", lowercase);
  }

  /** The names of `names` that end in `suffix`, in their order (a glob `*<suffix>`). */
  function Matching(names: seq<string>, suffix: string): (r: seq<string>)
    ensures forall i :: 0 <= i < |r| ==> EndsWith(r[i], suffix)
    ensures forall x :: x in r <==> x in names && EndsWith(x, suffix)
    ensures multiset(r) <= multiset(names)
  {
    if names == [] then []
    else
      var rest := Matching(names[1..], suffix);
      assert names == [names[0]] + names[1..];
      if EndsWith(names[0], suffix) then [names[0]] + rest else rest
  }

  /** `discover_files`: the `.csv` files sorted, then the `.csv.gz` files sorted, then the `.csv.zip` files sorted. */
  function DiscoverFiles(names: seq<string>): (r: seq<string>)
    ensures var c := |Matching(names, ".csv")|;
      var g := |Matching(names, ".csv.gz")|;
      c + g <= |r|
      && Sorted(r[..c]) && multiset(r[..c]) == multiset(Matching(names, ".csv"))
      && Sorted(r[c..c + g]) && multiset(r[c..c + g]) == multiset(Matching(names, ".csv.gz"))
      && Sorted(r[c + g..]) && multiset(r[c + g..]) == multiset(Matching(names, ".csv.zip"))
  {
    var a := Sort(Matching(names, ".csv"));
    var b := Sort(Matching(names, ".csv.gz"));
    var z := Sort(Matching(names, ".csv.zip"));
    ThreeParts(a, b, z);
    a + b + z
  }

  lemma ThreeParts<T>(a: seq<T>, b: seq<T>, z: seq<T>)
    ensures (a + b + z)[..|a|] == a && (a + b + z)[|a|..|a| + |b|] == b && (a + b + z)[|a| + |b|..] == z
  {
  }

  /** Exactly the names matching one of the three patterns are loaded. */
  lemma DiscoverFilesMembers(names: seq<string>, x: string)
    ensures x in DiscoverFiles(names) <==>
      x in names && (EndsWith(x, ".csv") || EndsWith(x, ".csv.gz") || EndsWith(x, ".csv.zip"))
  {
    var a := Sort(Matching(names, ".csv"));
    var b := Sort(Matching(names, ".csv.gz"));
    var z := Sort(Matching(names, ".csv.zip"));
    assert x in a <==> x in multiset(a);
    assert x in b <==> x in multiset(b);
    assert x in z <==> x in multiset(z);
    assert x in Matching(names, ".csv") <==> x in multiset(Matching(names, ".csv"));
    assert x in Matching(names, ".csv.gz") <==> x in multiset(Matching(names, ".csv.gz"));
    assert x in Matching(names, ".csv.zip") <==> x in multiset(Matching(names, ".csv.zip"));
  }

  // ---------------------------------------------------------------------------
  // The input mapping and the folder groups of main
  // ---------------------------------------------------------------------------

  /** The command line of the ingester; a folder is `None` when its option is not given. */
  datatype IngestArgs = IngestArgs(
    coreDir: Option<string>, hospDir: Option<string>, icuDir: Option<string>,
    derivedDir: Option<string>, waveformDir: Option<string>,
    rawCoreSchema: string, rawHospSchema: string, rawIcuSchema: string,
    rawDerivedSchema: string, rawWaveformSchema: string,
    keepCase: bool)

  /** The schemas used when their options are not given. */
  function WithDefaultSchemas(core: Option<string>, hosp: Option<string>, icu: Option<string>,
                              derived: Option<string>, waveform: Option<string>, keepCase: bool): IngestArgs
  {
    IngestArgs(core, hosp, icu, derived, waveform, "raw_core", "raw_hosp", "raw_icu", "raw_derived", "raw_waveform", keepCase)
  }

  /** The five folder options in their fixed order: core, hosp, icu, derived, waveform. */
  function Dirs(a: IngestArgs): seq<Option<string>>
  {
    [a.coreDir, a.hospDir, a.icuDir, a.derivedDir, a.waveformDir]
  }

  function SchemaOptions(a: IngestArgs): seq<string>
  {
    [a.rawCoreSchema, a.rawHospSchema, a.rawIcuSchema, a.rawDerivedSchema, a.rawWaveformSchema]
  }

  /** The pair one option contributes: none when the folder is not given. */
  function PairOf(dir: Option<string>, schema: string): seq<(string, string)>
  {
    if dir.Some? then [(dir.value, schema)] else []
  }

  /** `mapping`: one (folder, schema) pair per given folder, in the option order. */
  function Mapping(dirs: seq<Option<string>>, schemas: seq<string>): seq<(string, string)>
    requires |dirs| == |schemas|
    decreases |dirs|
  {
    if dirs == [] then []
    else PairOf(dirs[0], schemas[0]) + Mapping(dirs[1..], schemas[1..])
  }

  /** The mapping holds a pair exactly for each given folder. */
  lemma {:induction false} MappingMembers(dirs: seq<Option<string>>, schemas: seq<string>)
    requires |dirs| == |schemas|
    ensures |Mapping(dirs, schemas)| <= |dirs|
    ensures forall i :: 0 <= i < |dirs| && dirs[i].Some? ==> (dirs[i].value, schemas[i]) in Mapping(dirs, schemas)
    ensures forall p :: p in Mapping(dirs, schemas) ==> exists i :: 0 <= i < |dirs| && dirs[i] == Some(p.0) && schemas[i] == p.1
    decreases |dirs|
  {
    if dirs != [] {
      MappingMembers(dirs[1..], schemas[1..]);
      var rest := Mapping(dirs[1..], schemas[1..]);
      assert forall i :: 1 <= i < |dirs| ==> dirs[i] == dirs[1..][i - 1] && schemas[i] == schemas[1..][i - 1];
      forall p | p in rest ensures exists i :: 1 <= i < |dirs| && dirs[i] == Some(p.0) && schemas[i] == p.1 {
        var j :| 0 <= j < |dirs[1..]| && dirs[1..][j] == Some(p.0) && schemas[1..][j] == p.1;
        assert dirs[j + 1] == Some(p.0) && schemas[j + 1] == p.1;
      }
    }
  }

  /** Earlier options come first: the mapping of two runs of options is the two mappings in turn. */
  lemma {:induction false} MappingAppend(d1: seq<Option<string>>, s1: seq<string>, d2: seq<Option<string>>, s2: seq<string>)
    requires |d1| == |s1| && |d2| == |s2|
    ensures Mapping(d1 + d2, s1 + s2) == Mapping(d1, s1) + Mapping(d2, s2)
    decreases |d1|
  {
    if d1 == [] {
      assert d1 + d2 == d2 && s1 + s2 == s2;
    } else {
      assert (d1 + d2)[1..] == d1[1..] + d2 && (s1 + s2)[1..] == s1[1..] + s2;
      MappingAppend(d1[1..], s1[1..], d2, s2);
    }
  }

  /** `if args.x_dir: mapping.append((args.x_dir, args.raw_x_schema))`. */
  method AppendIfGiven(mapping: seq<(string, string)>, dir: Option<string>, schema: string) returns (r: seq<(string, string)>)
    ensures r == mapping + PairOf(dir, schema)
  {
    r := mapping;
    if dir.Some? {
      r := r + [(dir.value, schema)];
    }
  }

  /** The mapping of the five options, one contribution after another. */
  lemma MappingOfOptions(a: IngestArgs)
    ensures Mapping(Dirs(a), SchemaOptions(a)) ==
      PairOf(a.coreDir, a.rawCoreSchema) + (PairOf(a.hospDir, a.rawHospSchema) + (PairOf(a.icuDir, a.rawIcuSchema) +
      (PairOf(a.derivedDir, a.rawDerivedSchema) + (PairOf(a.waveformDir, a.rawWaveformSchema) + []))))
  {
    var d4, s4 := [a.waveformDir], [a.rawWaveformSchema];
    MappingCons(a.waveformDir, [], a.rawWaveformSchema, []);
    assert d4 == [a.waveformDir] + [] && s4 == [a.rawWaveformSchema] + [];
    var d3, s3 := [a.derivedDir] + d4, [a.rawDerivedSchema] + s4;
    MappingCons(a.derivedDir, d4, a.rawDerivedSchema, s4);
    var d2, s2 := [a.icuDir] + d3, [a.rawIcuSchema] + s3;
    MappingCons(a.icuDir, d3, a.rawIcuSchema, s3);
    var d1, s1 := [a.hospDir] + d2, [a.rawHospSchema] + s2;
    MappingCons(a.hospDir, d2, a.rawHospSchema, s2);
    MappingCons(a.coreDir, d1, a.rawCoreSchema, s1);
    assert Dirs(a) == [a.coreDir] + d1 && SchemaOptions(a) == [a.rawCoreSchema] + s1;
  }

  lemma MappingCons(x: Option<string>, xs: seq<Option<string>>, y: string, ys: seq<string>)
    requires |xs| == |ys|
    ensures Mapping([x] + xs, [y] + ys) == PairOf(x, y) + Mapping(xs, ys)
  {
    assert ([x] + xs)[1..] == xs && ([y] + ys)[1..] == ys;
  }

  /** The list the ingester builds, one `if` per option. */
  method BuildMapping(a: IngestArgs) returns (mapping: seq<(string, string)>)
    ensures mapping == Mapping(Dirs(a), SchemaOptions(a))
  {
    ghost var p0 := PairOf(a.coreDir, a.rawCoreSchema);
    ghost var p1 := PairOf(a.hospDir, a.rawHospSchema);
    ghost var p2 := PairOf(a.icuDir, a.rawIcuSchema);
    ghost var p3 := PairOf(a.derivedDir, a.rawDerivedSchema);
    ghost var p4 := PairOf(a.waveformDir, a.rawWaveformSchema);
    mapping := [];
    mapping := AppendIfGiven(mapping, a.coreDir, a.rawCoreSchema);
    assert mapping == p0;
    mapping := AppendIfGiven(mapping, a.hospDir, a.rawHospSchema);
    mapping := AppendIfGiven(mapping, a.icuDir, a.rawIcuSchema);
    ConcatAssoc(p0, p1, p2);
    mapping := AppendIfGiven(mapping, a.derivedDir, a.rawDerivedSchema);
    ConcatAssoc(p0, p1 + p2, p3);
    ConcatAssoc(p1, p2, p3);
    mapping := AppendIfGiven(mapping, a.waveformDir, a.rawWaveformSchema);
    ConcatAssoc(p0, p1 + (p2 + p3), p4);
    ConcatAssoc(p1, p2 + p3, p4);
    ConcatAssoc(p2, p3, p4);
    assert p4 + [] == p4;
    MappingOfOptions(a);
  }

  /** The ordered dict `folder_to_schemas` after one more (folder, schema) pair. */
  function AddPair(groups: Entries<seq<string>>, folder: string, schema: string): Entries<seq<string>>
  {
    var cur := if Get(groups, folder).Some? then Get(groups, folder).value else [];
    Put(groups, folder, if schema in cur then cur else cur + [schema])
  }

  /** `folder_to_schemas` built from the pairs of `mapping`, on top of `groups`. */
  function GroupedFrom(groups: Entries<seq<string>>, mapping: seq<(string, string)>): Entries<seq<string>>
    decreases |mapping|
  {
    if mapping == [] then groups else GroupedFrom(AddPair(groups, mapping[0].0, mapping[0].1), mapping[1..])
  }

  function Grouped(mapping: seq<(string, string)>): (r: Entries<seq<string>>)
    ensures NonEmptyGroups(r)
  {
    var g := GroupedFrom([], mapping);
    assert NonEmptyGroups(g) by {
      GroupedShape([], mapping);
      forall i | 0 <= i < |g| ensures |g[i].1| > 0 {
        GetAt(g, i);
      }
    }
    g
  }

  /** The first column of a list of pairs: the folders of a mapping, the tables of a list of loads. */
  function Firsts(pairs: seq<(string, string)>): (r: seq<string>)
    ensures |r| == |pairs| && forall i :: 0 <= i < |r| ==> r[i] == pairs[i].0
  {
    seq(|pairs|, i requires 0 <= i < |pairs| => pairs[i].0)
  }

  /** The loop of `main` building `folder_to_schemas`. */
  method GroupFolders(mapping: seq<(string, string)>) returns (groups: Entries<seq<string>>)
    ensures groups == Grouped(mapping)
  {
    groups := [];
    for i := 0 to |mapping|
      invariant GroupedFrom(groups, mapping[i..]) == Grouped(mapping)
    {
      assert mapping[i..][0] == mapping[i] && mapping[i..][1..] == mapping[i + 1..];
      var (folder, schema) := mapping[i];
      var schemas := if Get(groups, folder).Some? then Get(groups, folder).value else [];
      if schema !in schemas {
        schemas := schemas + [schema];
      }
      groups := Put(groups, folder, schemas);
    }
    assert mapping[|mapping|..] == [];
  }

  /** A list of schemas with no repeats. */
  predicate NoRepeats(xs: seq<string>)
  {
    forall j, l :: 0 <= j < l < |xs| ==> xs[j] != xs[l]
  }

  /** Every folder's schema list is non-empty and free of repeats. */
  ghost predicate WellGrouped(groups: Entries<seq<string>>)
  {
    forall k :: Get(groups, k).Some? ==> |Get(groups, k).value| > 0 && NoRepeats(Get(groups, k).value)
  }

  lemma AddPairWellGrouped(groups: Entries<seq<string>>, folder: string, schema: string)
    requires WellGrouped(groups) && UniqueKeys(groups)
    ensures WellGrouped(AddPair(groups, folder, schema)) && UniqueKeys(AddPair(groups, folder, schema))
  {
    var cur := if Get(groups, folder).Some? then Get(groups, folder).value else [];
    var next := if schema in cur then cur else cur + [schema];
    UniqueKeysPut(groups, folder, next);
    assert NoRepeats(next);
  }

  /**
   * The folder groups: each folder once, in first-seen order; each folder's
   * schemas are exactly the schemas paired with it, each once, non-empty.
   */
  lemma {:induction false} GroupedShape(groups: Entries<seq<string>>, mapping: seq<(string, string)>)
    requires WellGrouped(groups) && UniqueKeys(groups)
    ensures WellGrouped(GroupedFrom(groups, mapping)) && UniqueKeys(GroupedFrom(groups, mapping))
    ensures Keys(GroupedFrom(groups, mapping)) == Distinct(Firsts(mapping), Keys(groups))
    decreases |mapping|
  {
    if mapping != [] {
      var (f, s) := mapping[0];
      AddPairWellGrouped(groups, f, s);
      GroupedShape(AddPair(groups, f, s), mapping[1..]);
      AddPairKeys(groups, f, s);
      DistinctFolders(mapping, Keys(groups));
    }
  }

  /** A pair adds its folder to the keys when it is new. */
  lemma AddPairKeys(groups: Entries<seq<string>>, f: string, s: string)
    ensures Keys(AddPair(groups, f, s)) == if f in Keys(groups) then Keys(groups) else Keys(groups) + [f]
  {
  }

  /** One step of the first-seen order over the folders of a mapping. */
  lemma DistinctFolders(mapping: seq<(string, string)>, seen: seq<string>)
    requires mapping != []
    ensures var f := mapping[0].0;
      Distinct(Firsts(mapping), seen) == Distinct(Firsts(mapping[1..]), if f in seen then seen else seen + [f])
  {
    assert Firsts(mapping)[0] == mapping[0].0 && Firsts(mapping)[1..] == Firsts(mapping[1..]);
  }

  /** `schema` is listed under `folder`. */
  predicate InGroup(groups: Entries<seq<string>>, folder: string, schema: string)
  {
    Get(groups, folder).Some? && schema in Get(groups, folder).value
  }

  lemma AddPairMembers(groups: Entries<seq<string>>, f: string, s: string, folder: string, schema: string)
    ensures InGroup(AddPair(groups, f, s), folder, schema) <==> InGroup(groups, folder, schema) || (folder == f && schema == s)
  {
  }

  /** A schema is listed under a folder exactly when the mapping pairs them (or it already was). */
  lemma {:induction false} GroupedMembers(groups: Entries<seq<string>>, mapping: seq<(string, string)>, folder: string, schema: string)
    ensures InGroup(GroupedFrom(groups, mapping), folder, schema) <==> InGroup(groups, folder, schema) || (folder, schema) in mapping
    decreases |mapping|
  {
    if mapping != [] {
      var (f, s) := mapping[0];
      AddPairMembers(groups, f, s, folder, schema);
      GroupedMembers(AddPair(groups, f, s), mapping[1..], folder, schema);
      assert (folder, schema) in mapping <==> (folder, schema) == mapping[0] || (folder, schema) in mapping[1..] by {
        assert mapping == [mapping[0]] + mapping[1..];
      }
    }
  }

  /** The schemas `mapping` pairs with `folder`, in mapping order, repeats kept. */
  function SchemasFor(mapping: seq<(string, string)>, folder: string): seq<string>
  {
    if mapping == [] then []
    else (if mapping[0].0 == folder then [mapping[0].1] else []) + SchemasFor(mapping[1..], folder)
  }

  /** `folder_to_schemas.setdefault(folder, [])` without the update: what a folder holds so far. */
  function Current(groups: Entries<seq<string>>, folder: string): seq<string>
  {
    if Get(groups, folder).Some? then Get(groups, folder).value else []
  }

  /**
   * The schema list of one folder: what it held, then the schemas the mapping
   * pairs with it that it lacks, each once, in the order they first appear.
   */
  lemma {:induction false} GroupedSchemas(groups: Entries<seq<string>>, mapping: seq<(string, string)>, folder: string)
    ensures Get(GroupedFrom(groups, mapping), folder) ==
      if Get(groups, folder).None? && SchemasFor(mapping, folder) == [] then None
      else Some(Distinct(SchemasFor(mapping, folder), Current(groups, folder)))
    decreases |mapping|
  {
    if mapping != [] {
      var (f, s) := mapping[0];
      var next := AddPair(groups, f, s);
      GroupedSchemas(next, mapping[1..], folder);
      AddPairCurrent(groups, f, s, folder);
      SchemasForCons(mapping, folder);
      if f == folder {
        DistinctCons(s, SchemasFor(mapping[1..], folder), Current(groups, folder));
      }
    }
  }

  lemma AddPairCurrent(groups: Entries<seq<string>>, f: string, s: string, folder: string)
    ensures Get(AddPair(groups, f, s), folder).Some? <==> Get(groups, folder).Some? || f == folder
    ensures Current(AddPair(groups, f, s), folder) ==
      if f != folder then Current(groups, folder)
      else if s in Current(groups, folder) then Current(groups, folder) else Current(groups, folder) + [s]
  {
  }

  lemma SchemasForCons(mapping: seq<(string, string)>, folder: string)
    requires mapping != []
    ensures SchemasFor(mapping, folder) ==
      if mapping[0].0 == folder then [mapping[0].1] + SchemasFor(mapping[1..], folder) else SchemasFor(mapping[1..], folder)
  {
  }

  lemma DistinctCons<T>(x: T, xs: seq<T>, seen: seq<T>)
    ensures Distinct([x] + xs, seen) == Distinct(xs, if x in seen then seen else seen + [x])
  {
    assert ([x] + xs)[0] == x && ([x] + xs)[1..] == xs;
  }

  /** The first pair that names a folder gives the first schema paired with it. */
  lemma {:induction false} SchemasForFirst(mapping: seq<(string, string)>, folder: string, i: nat)
    requires i < |mapping| && mapping[i].0 == folder
    requires forall j :: 0 <= j < i ==> mapping[j].0 != folder
    ensures SchemasFor(mapping, folder) != [] && SchemasFor(mapping, folder)[0] == mapping[i].1
  {
    if i > 0 {
      forall j | 0 <= j < i - 1 ensures mapping[1..][j].0 != folder {
        assert mapping[1..][j] == mapping[j + 1];
      }
      SchemasForFirst(mapping[1..], folder, i - 1);
    }
  }

  /**
   * `folder_to_schemas[folder]` lists the schemas paired with the folder, each
   * once, in option order; its head, the schema that receives the real load,
   * is the schema of the first pair naming the folder.
   */
  lemma GroupedFirst(mapping: seq<(string, string)>, folder: string, i: nat)
    requires i < |mapping| && mapping[i].0 == folder
    requires forall j :: 0 <= j < i ==> mapping[j].0 != folder
    ensures Get(Grouped(mapping), folder) == Some(Distinct(SchemasFor(mapping, folder), []))
    ensures [mapping[i].1] <= Get(Grouped(mapping), folder).value
  {
    GroupedSchemas([], mapping, folder);
    SchemasForFirst(mapping, folder, i);
    var xs := SchemasFor(mapping, folder);
    var none: seq<string> := [];
    assert xs == [xs[0]] + xs[1..];
    DistinctCons(xs[0], xs[1..], none);
    assert none + [xs[0]] == [xs[0]];
    DistinctPrefix(xs[1..], [xs[0]]);
    assert Distinct(xs, none) == Distinct(xs[1..], [xs[0]]);
  }

  // ---------------------------------------------------------------------------
  // The catalog
  // ---------------------------------------------------------------------------

  /** A relation of `information_schema.tables`: its `table_type` and what it was made from. */
  datatype Relation = Relation(tableType: string, from: string)

  const BaseTable := "BASE TABLE"

  /** The database's schemas and relations, keyed by (schema, name). */
  datatype Catalog = Catalog(schemas: set<string>, rels: map<(string, string), Relation>)


  /** `drop_relation`: the DDL issued, `None` when nothing of that name exists. */
  function DropStatement(c: Catalog, schema: string, name: string): (r: Option<string>)
    ensures r.None? <==> (schema, name) !in c.rels
    ensures r.Some? ==> (r.value ==
      (if Upper(c.rels[(schema, name)].tableType) == "VIEW" then "DROP VIEW IF EXISTS " else "DROP TABLE IF EXISTS ")
      + schema + "." + name)
  {
    if (schema, name) !in c.rels then None
    else if Upper(c.rels[(schema, name)].tableType) == "VIEW" then Some("DROP VIEW IF EXISTS " + schema + "." + name)
    else Some("DROP TABLE IF EXISTS " + schema + "." + name)
  }

  /** The catalog after `drop_relation`: that one relation gone, everything else as it was. */
  function Dropped(c: Catalog, schema: string, name: string): (r: Catalog)
    ensures r.schemas == c.schemas && (schema, name) !in r.rels
    ensures forall k :: k != (schema, name) ==> (k in r.rels <==> k in c.rels) && (k in r.rels ==> r.rels[k] == c.rels[k])
  {
    c.(rels := c.rels - {(schema, name)})
  }

  /** The (table, path) pairs `load_folder` creates, one per discovered file, in load order. */
  function Loads(folder: string, files: seq<string>, lowercase: bool): (r: seq<(string, string)>)
    ensures |r| == |files|
    ensures forall i :: 0 <= i < |files| ==> r[i] == (TableName(folder + "/" + files[i], lowercase), folder + "/" + files[i])
  {
    seq(|files|, i requires 0 <= i < |files| => (TableName(folder + "/" + files[i], lowercase), folder + "/" + files[i]))
  }

  /** One table created from a CSV file, replacing whatever relation had its name. */
  function LoadOne(c: Catalog, schema: string, load: (string, string)): Catalog
  {
    c.(rels := c.rels[(schema, load.0) := Relation(BaseTable, load.1)])
  }

  /** The loads applied in order; a later file of the same table replaces the earlier one. */
  function LoadedFrom(c: Catalog, schema: string, loads: seq<(string, string)>): Catalog
    decreases |loads|
  {
    if loads == [] then c else LoadedFrom(LoadOne(c, schema, loads[0]), schema, loads[1..])
  }

  /** The path of the last load of table `t`, if any: a later load of a table replaces an earlier one. */
  function LastLoad(loads: seq<(string, string)>, t: string): Option<string>
    decreases |loads|
  {
    if loads == [] then None
    else
      var later := LastLoad(loads[1..], t);
      if later.Some? then later
      else if loads[0].0 == t then Some(loads[0].1)
      else None
  }

  /** A table has a last load exactly when some load names it. */
  lemma {:induction false} LastLoadSome(loads: seq<(string, string)>, t: string)
    ensures LastLoad(loads, t).Some? <==> t in Firsts(loads)
    decreases |loads|
  {
    if loads != [] {
      LastLoadSome(loads[1..], t);
      assert Firsts(loads) == [loads[0].0] + Firsts(loads[1..]);
    }
  }

  /** The last load of `t` is a load of `t` that no later load of `t` follows. */
  lemma {:induction false} LastLoadIsLast(loads: seq<(string, string)>, t: string)
    ensures LastLoad(loads, t).Some? ==> exists i :: (0 <= i < |loads| && loads[i] == (t, LastLoad(loads, t).value)
      && forall j :: i < j < |loads| ==> loads[j].0 != t)
    decreases |loads|
  {
    if loads != [] {
      var rest := loads[1..];
      LastLoadIsLast(rest, t);
      if LastLoad(rest, t).Some? {
        var i :| 0 <= i < |rest| && rest[i] == (t, LastLoad(rest, t).value) && forall j :: i < j < |rest| ==> rest[j].0 != t;
        assert loads[i + 1] == rest[i];
        forall j | i + 1 < j < |loads| ensures loads[j].0 != t {
          assert loads[j] == rest[j - 1];
        }
      } else if loads[0].0 == t {
        LastLoadSome(rest, t);
        forall j | 0 < j < |loads| ensures loads[j].0 != t {
          assert loads[j] == rest[j - 1] && Firsts(rest)[j - 1] == loads[j].0;
        }
      }
    }
  }

  /**
   * After loading, every loaded name of the schema is a base table made from
   * its last load; every other relation, and the set of schemas, is as it was.
   */
  lemma {:induction false} LoadedFromAt(c: Catalog, schema: string, loads: seq<(string, string)>, k: (string, string))
    ensures LoadedFrom(c, schema, loads).schemas == c.schemas
    ensures k.0 == schema && k.1 in Firsts(loads) ==>
      k in LoadedFrom(c, schema, loads).rels && LoadedFrom(c, schema, loads).rels[k].tableType == BaseTable
      && Some(LoadedFrom(c, schema, loads).rels[k].from) == LastLoad(loads, k.1)
    ensures !(k.0 == schema && k.1 in Firsts(loads)) ==>
      (k in LoadedFrom(c, schema, loads).rels <==> k in c.rels)
      && (k in c.rels ==> LoadedFrom(c, schema, loads).rels[k] == c.rels[k])
    decreases |loads|
  {
    if loads != [] {
      LoadedFromAt(LoadOne(c, schema, loads[0]), schema, loads[1..], k);
      LastLoadSome(loads[1..], k.1);
      assert Firsts(loads) == [loads[0].0] + Firsts(loads[1..]);
    }
  }

  lemma LoadedFromStep(c: Catalog, schema: string, loads: seq<(string, string)>, i: nat)
    requires i < |loads|
    ensures LoadedFrom(LoadOne(c, schema, loads[i]), schema, loads[i + 1..]) == LoadedFrom(c, schema, loads[i..])
  {
    assert loads[i..][0] == loads[i] && loads[i..][1..] == loads[i + 1..];
  }

  /** `load_folder` on an existing folder: the schema created, then every discovered file loaded. */
  function Loaded(c: Catalog, folder: string, listing: seq<string>, schema: string, lowercase: bool): Catalog
  {
    LoadedFrom(c.(schemas := c.schemas + {schema}), schema, Loads(folder, DiscoverFiles(listing), lowercase))
  }

  /** The loads of a list of files touch exactly the tables those files name. */
  lemma LoadsShape(c: Catalog, folder: string, files: seq<string>, schema: string, lowercase: bool, k: (string, string))
    ensures LoadedFrom(c, schema, Loads(folder, files, lowercase)).schemas == c.schemas
    ensures (k.0 == schema && exists f :: f in files && k.1 == TableName(folder + "/" + f, lowercase)) ==>
      k in LoadedFrom(c, schema, Loads(folder, files, lowercase)).rels
      && LoadedFrom(c, schema, Loads(folder, files, lowercase)).rels[k].tableType == BaseTable
      && Some(LoadedFrom(c, schema, Loads(folder, files, lowercase)).rels[k].from) == LastLoad(Loads(folder, files, lowercase), k.1)
    ensures (k.0 != schema || forall f :: f in files ==> k.1 != TableName(folder + "/" + f, lowercase)) ==>
      (k in LoadedFrom(c, schema, Loads(folder, files, lowercase)).rels <==> k in c.rels)
      && (k in c.rels ==> LoadedFrom(c, schema, Loads(folder, files, lowercase)).rels[k] == c.rels[k])
  {
    var loads := Loads(folder, files, lowercase);
    LoadedFromAt(c, schema, loads, k);
    if k.1 in Firsts(loads) {
      var i :| 0 <= i < |loads| && Firsts(loads)[i] == k.1;
      assert files[i] in files;
    }
    if k.0 == schema && exists f :: f in files && k.1 == TableName(folder + "/" + f, lowercase) {
      var f :| f in files && k.1 == TableName(folder + "/" + f, lowercase);
      var i :| 0 <= i < |files| && files[i] == f;
      assert Firsts(loads)[i] == k.1;
    }
  }

  /**
   * `load_folder` creates the schema, leaves the table of every discovered
   * file as a base table of it, made from the last discovered file with that
   * table name, and changes nothing else.
   */
  lemma LoadedShape(c: Catalog, folder: string, listing: seq<string>, schema: string, lowercase: bool, k: (string, string))
    ensures Loaded(c, folder, listing, schema, lowercase).schemas == c.schemas + {schema}
    ensures (k.0 == schema && exists f :: f in DiscoverFiles(listing) && k.1 == TableName(folder + "/" + f, lowercase)) ==>
      k in Loaded(c, folder, listing, schema, lowercase).rels
      && Loaded(c, folder, listing, schema, lowercase).rels[k].tableType == BaseTable
      && Some(Loaded(c, folder, listing, schema, lowercase).rels[k].from) == LastLoad(Loads(folder, DiscoverFiles(listing), lowercase), k.1)
    ensures (k.0 != schema || forall f :: f in DiscoverFiles(listing) ==> k.1 != TableName(folder + "/" + f, lowercase)) ==>
      (k in Loaded(c, folder, listing, schema, lowercase).rels <==> k in c.rels)
      && (k in c.rels ==> Loaded(c, folder, listing, schema, lowercase).rels[k] == c.rels[k])
  {
    LoadsShape(c.(schemas := c.schemas + {schema}), folder, DiscoverFiles(listing), schema, lowercase, k);
  }

  /** The names of the base tables of `schema`. */
  function BaseTables(c: Catalog, schema: string): set<string>
  {
    set k | k in c.rels && k.0 == schema && c.rels[k].tableType == BaseTable :: k.1
  }

  /** The catalog with every relation of `schema` gone. */
  function Cleared(c: Catalog, schema: string): Catalog
  {
    c.(rels := map k | k in c.rels && k.0 != schema :: c.rels[k])
  }

  /** The view `create_schema_views` makes over `source.name`. */
  function ViewOf(source: string, name: string): Relation
  {
    Relation("VIEW", source + "." + name)
  }

  /** A view in `target` over each named table of `source`, replacing what had that name. */
  function AddViews(c: Catalog, source: string, target: string, names: set<string>): Catalog
  {
    c.(rels := c.rels + map n | n in names :: (target, n) := ViewOf(source, n))
  }

  /** `create_schema_views`: the target created and cleared, then one view per base table of the source. */
  function Viewed(c: Catalog, source: string, target: string): Catalog
  {
    var c1 := Cleared(c.(schemas := c.schemas + {target}), target);
    AddViews(c1, source, target, BaseTables(c1, source))
  }

  /**
   * After `create_schema_views` the target holds exactly one view per base
   * table of the source and nothing else; other schemas are untouched.
   * (When source and target coincide, the clearing leaves nothing to alias.)
   */
  lemma ViewedShape(c: Catalog, source: string, target: string, n: string)
    ensures target in Viewed(c, source, target).schemas
    ensures source != target ==> ((target, n) in Viewed(c, source, target).rels <==>
      (source, n) in c.rels && c.rels[(source, n)].tableType == BaseTable)
    ensures (target, n) in Viewed(c, source, target).rels ==>
      Viewed(c, source, target).rels[(target, n)] == ViewOf(source, n)
    ensures source == target ==> (target, n) !in Viewed(c, source, target).rels
  {
    var c1 := Cleared(c.(schemas := c.schemas + {target}), target);
    if source != target && (source, n) in c.rels && c.rels[(source, n)].tableType == BaseTable {
      assert (source, n) in c1.rels;
      assert n in BaseTables(c1, source);
    }
  }

  /** `create_schema_views` changes no schema but the target. */
  lemma ViewedElsewhere(c: Catalog, source: string, target: string, k: (string, string))
    requires k.0 != target
    ensures k in Viewed(c, source, target).rels <==> k in c.rels
    ensures k in c.rels ==> Viewed(c, source, target).rels[k] == c.rels[k]
  {
  }

  /** Dropping a relation and creating one of the same name is the same as replacing it. */
  lemma DropThenSet(c: Catalog, schema: string, name: string, r: Relation)
    ensures Dropped(c, schema, name).(rels := Dropped(c, schema, name).rels[(schema, name) := r])
      == c.(rels := c.rels[(schema, name) := r])
  {
    var m1 := (c.rels - {(schema, name)})[(schema, name) := r];
    var m2 := c.rels[(schema, name) := r];
    assert m1.Keys == m2.Keys;
    assert forall k :: k in m1 ==> m1[k] == m2[k];
  }

  /** A catalog that agrees with `AddViews` key by key is `AddViews`. */
  lemma AddViewsPointwise(c: Catalog, d: Catalog, source: string, target: string, names: set<string>)
    requires ViewsSoFar(c, d, source, target, names)
    ensures d == AddViews(c, source, target, names)
  {
    var m := AddViews(c, source, target, names).rels;
    forall k | k in m ensures k in d.rels && d.rels[k] == m[k] {
      if k.0 == target && k.1 in names {
      } else {
        assert k in c.rels;
      }
    }
    assert d.rels.Keys == m.Keys;
  }

  /** The alias schemas, in order, each made a set of views over the canonical schema. */
  function AliasedFrom(c: Catalog, canonical: string, aliases: seq<string>): Catalog
    decreases |aliases|
  {
    if aliases == [] then c else AliasedFrom(Viewed(c, canonical, aliases[0]), canonical, aliases[1..])
  }

  lemma NoRepeatsTail(xs: seq<string>)
    requires NoRepeats(xs) && xs != []
    ensures xs[0] !in xs[1..] && NoRepeats(xs[1..])
  {
    forall j | 0 <= j < |xs[1..]| ensures xs[1..][j] != xs[0] {
      assert xs[1..][j] == xs[j + 1];
    }
    forall j, l | 0 <= j < l < |xs[1..]| ensures xs[1..][j] != xs[1..][l] {
      assert xs[1..][j] == xs[j + 1] && xs[1..][l] == xs[l + 1];
    }
  }

  /** Aliasing changes only the alias schemas; in particular the canonical schema is untouched. */
  lemma {:induction false} AliasedElsewhere(c: Catalog, canonical: string, aliases: seq<string>, k: (string, string))
    requires k.0 !in aliases
    ensures k in AliasedFrom(c, canonical, aliases).rels <==> k in c.rels
    ensures k in c.rels ==> AliasedFrom(c, canonical, aliases).rels[k] == c.rels[k]
    decreases |aliases|
  {
    if aliases != [] {
      assert k.0 != aliases[0] && k.0 !in aliases[1..];
      ViewedElsewhere(c, canonical, aliases[0], k);
      AliasedElsewhere(Viewed(c, canonical, aliases[0]), canonical, aliases[1..], k);
    }
  }

  /**
   * Each alias schema ends up holding one view per base table of the
   * canonical schema, and nothing else.
   */
  lemma {:induction false} AliasedViews(c: Catalog, canonical: string, aliases: seq<string>, a: string, n: string)
    requires canonical !in aliases && NoRepeats(aliases) && a in aliases
    ensures (a, n) in AliasedFrom(c, canonical, aliases).rels <==> (canonical, n) in c.rels && c.rels[(canonical, n)].tableType == BaseTable
    ensures (a, n) in AliasedFrom(c, canonical, aliases).rels ==> AliasedFrom(c, canonical, aliases).rels[(a, n)] == ViewOf(canonical, n)
    decreases |aliases|
  {
    var a0 := aliases[0];
    var c1 := Viewed(c, canonical, a0);
    NoRepeatsTail(aliases);
    assert a0 != canonical && canonical !in aliases[1..];
    if a == a0 {
      ViewedShape(c, canonical, a0, n);
      AliasedElsewhere(c1, canonical, aliases[1..], (a, n));
    } else {
      assert a in aliases[1..];
      ViewedElsewhere(c, canonical, a0, (canonical, n));
      AliasedViews(c1, canonical, aliases[1..], a, n);
    }
  }

  /** Every folder group has at least one schema: the canonical one. */
  predicate NonEmptyGroups(groups: Entries<seq<string>>)
  {
    forall i :: 0 <= i < |groups| ==> |groups[i].1| > 0
  }

  /**
   * The loop of `main` over the folder groups: load the folder into its first
   * schema, then alias every later schema to it. A missing folder raises, and
   * the groups after it are not reached. The listings map each existing
   * folder to the names it contains.
   */
  function Ingested(c: Catalog, groups: Entries<seq<string>>, listings: map<string, seq<string>>, lowercase: bool): (Catalog, Option<string>)
    requires NonEmptyGroups(groups)
    decreases |groups|
  {
    if groups == [] then (c, None)
    else
      var folder := groups[0].0;
      var schemas := groups[0].1;
      if folder !in listings then (c, Some(folder))
      else
        var loaded := Loaded(c, folder, listings[folder], schemas[0], lowercase);
        Ingested(AliasedFrom(loaded, schemas[0], schemas[1..]), groups[1..], listings, lowercase)
  }

  /** The first folder of the groups that does not exist, if any. */
  function FirstMissingFolder(groups: Entries<seq<string>>, listings: map<string, seq<string>>): Option<string>
  {
    if groups == [] then None
    else if groups[0].0 !in listings then Some(groups[0].0)
    else FirstMissingFolder(groups[1..], listings)
  }

  /** The ingester fails exactly at the first missing folder. */
  lemma {:induction false} IngestedFailsAtFirstMissing(c: Catalog, groups: Entries<seq<string>>, listings: map<string, seq<string>>, lowercase: bool)
    requires NonEmptyGroups(groups)
    ensures Ingested(c, groups, listings, lowercase).1 == FirstMissingFolder(groups, listings)
    decreases |groups|
  {
    if groups != [] && groups[0].0 in listings {
      var loaded := Loaded(c, groups[0].0, listings[groups[0].0], groups[0].1[0], lowercase);
      IngestedFailsAtFirstMissing(AliasedFrom(loaded, groups[0].1[0], groups[0].1[1..]), groups[1..], listings, lowercase);
    }
  }

  /** The first missing folder is a folder of the groups that does not exist, and every folder before it does. */
  lemma {:induction false} FirstMissingFolderIsFirst(groups: Entries<seq<string>>, listings: map<string, seq<string>>)
    ensures FirstMissingFolder(groups, listings).None? <==> forall i :: 0 <= i < |groups| ==> groups[i].0 in listings
    ensures FirstMissingFolder(groups, listings).Some? ==> exists i :: (0 <= i < |groups|
      && groups[i].0 == FirstMissingFolder(groups, listings).value && groups[i].0 !in listings
      && forall j :: 0 <= j < i ==> groups[j].0 in listings)
    decreases |groups|
  {
    if groups != [] && groups[0].0 in listings {
      var t := groups[1..];
      FirstMissingFolderIsFirst(t, listings);
      assert FirstMissingFolder(groups, listings) == FirstMissingFolder(t, listings);
      if FirstMissingFolder(t, listings).Some? {
        var i :| 0 <= i < |t| && t[i].0 == FirstMissingFolder(t, listings).value
          && t[i].0 !in listings && forall j :: 0 <= j < i ==> t[j].0 in listings;
        assert groups[i + 1] == t[i];
        forall j | 0 <= j < i + 1 ensures groups[j].0 in listings {
          if j > 0 {
            assert groups[j] == t[j - 1];
          }
        }
      } else {
        forall i | 0 <= i < |groups| ensures groups[i].0 in listings {
          if i > 0 {
            assert groups[i] == t[i - 1];
          }
        }
      }
    } else if groups != [] {
      assert FirstMissingFolder(groups, listings) == Some(groups[0].0);
    }
  }

  /** `before` agrees with `c` except for the views over `done`, which it holds. */
  ghost predicate ViewsSoFar(c: Catalog, before: Catalog, source: string, target: string, done: set<string>)
  {
    before.schemas == c.schemas
    && (forall k: (string, string) :: !(k.0 == target && k.1 in done) ==>
          (k in before.rels <==> k in c.rels) && (k in c.rels ==> before.rels[k] == c.rels[k]))
    && (forall n :: n in done ==> (target, n) in before.rels && before.rels[(target, n)] == ViewOf(source, n))
  }

  /** Dropping a name and creating its view extends the views created so far by one. */
  lemma ViewsSoFarStep(c: Catalog, before: Catalog, source: string, target: string, done: set<string>, name: string)
    requires ViewsSoFar(c, before, source, target, done)
    ensures ViewsSoFar(c, Dropped(before, target, name).(rels := Dropped(before, target, name).rels[(target, name) := ViewOf(source, name)]),
      source, target, done + {name})
  {
    var d := Dropped(before, target, name);
    var after := d.(rels := d.rels[(target, name) := ViewOf(source, name)]);
    forall k: (string, string) | !(k.0 == target && k.1 in done + {name})
      ensures (k in after.rels <==> k in c.rels) && (k in c.rels ==> after.rels[k] == c.rels[k])
    {
      assert k != (target, name);
    }
    forall n | n in done + {name} ensures (target, n) in after.rels && after.rels[(target, n)] == ViewOf(source, n) {
      if n != name {
        assert (target, n) != (target, name);
      }
    }
  }

  /** Moving one element from the pending set to the done set keeps them apart and shrinks the pending set. */
  lemma TakeOne<T>(all: set<T>, pending: set<T>, done: set<T>, x: T)
    requires pending <= all && done == all - pending && x in pending
    ensures pending - {x} <= all && done + {x} == all - (pending - {x}) && |pending - {x}| < |pending|
  {
  }

  /** The database connection, whose catalog the ingester changes in place. */
  class Database {
    var catalog: Catalog

    constructor (c: Catalog)
      ensures catalog == c
    {
      catalog := c;
    }

    /** `drop_relation`: returns the DDL issued, if any. */
    method DropRelation(schema: string, name: string) returns (ddl: Option<string>)
      modifies this
      ensures ddl == DropStatement(old(catalog), schema, name)
      ensures catalog == Dropped(old(catalog), schema, name)
    {
      ddl := DropStatement(catalog, schema, name);
      catalog := catalog.(rels := catalog.rels - {(schema, name)});
    }

    /** `load_folder`: a missing folder raises before the schema is created. */
    method LoadFolder(folder: string, listing: Option<seq<string>>, schema: string, lowercase: bool)
      returns (missing: Option<string>)
      modifies this
      ensures listing.None? ==> missing == Some(folder) && catalog == old(catalog)
      ensures listing.Some? ==> missing.None? && catalog == Loaded(old(catalog), folder, listing.value, schema, lowercase)
    {
      if listing.None? {
        return Some(folder);
      }
      missing := None;
      catalog := catalog.(schemas := catalog.schemas + {schema});
      var files := DiscoverFiles(listing.value);
      ghost var loads := Loads(folder, files, lowercase);
      ghost var start := catalog;
      for i := 0 to |files|
        invariant LoadedFrom(catalog, schema, loads[i..]) == LoadedFrom(start, schema, loads)
      {
        var path := folder + "/" + files[i];
        var table := TableName(path, lowercase);
        ghost var before := catalog;
        var _ := DropRelation(schema, table);
        catalog := catalog.(rels := catalog.rels[(schema, table) := Relation(BaseTable, path)]);
        DropThenSet(before, schema, table, Relation(BaseTable, path));
        assert loads[i] == (table, path);
        LoadedFromStep(before, schema, loads, i);
      }
      assert loads[|files|..] == [];
    }

    /** The first loop of `create_schema_views`: every relation of `schema` dropped. */
    method ClearSchema(schema: string)
      modifies this
      ensures catalog == Cleared(old(catalog), schema)
    {
      var existing := set k | k in catalog.rels && k.0 == schema :: k.1;
      ghost var c0 := catalog;
      while existing != {}
        invariant catalog.schemas == c0.schemas
        invariant catalog.rels == map k | k in c0.rels && (k.0 != schema || k.1 in existing) :: c0.rels[k]
        decreases |existing|
      {
        var name :| name in existing;
        var _ := DropRelation(schema, name);
        existing := existing - {name};
      }
    }

    /** The second loop of `create_schema_views`: a view over each base table of `source`. */
    method AliasBaseTables(source: string, target: string)
      modifies this
      ensures ViewsSoFar(old(catalog), catalog, source, target, BaseTables(old(catalog), source))
    {
      var tables := BaseTables(catalog, source);
      ghost var all := tables;
      ghost var c0 := catalog;
      ghost var done: set<string> := {};
      while tables != {}
        invariant tables <= all && done == all - tables
        invariant ViewsSoFar(c0, catalog, source, target, done)
        decreases |tables|
      {
        var name :| name in tables;
        ghost var before := catalog;
        var _ := DropRelation(target, name);
        catalog := catalog.(rels := catalog.rels[(target, name) := ViewOf(source, name)]);
        ViewsSoFarStep(c0, before, source, target, done, name);
        TakeOne(all, tables, done, name);
        tables := tables - {name};
        done := done + {name};
      }
    }

    /** `create_schema_views`. */
    method CreateSchemaViews(source: string, target: string)
      modifies this
      ensures catalog == Viewed(old(catalog), source, target)
    {
      catalog := catalog.(schemas := catalog.schemas + {target});
      ClearSchema(target);
      ghost var c1 := catalog;
      AliasBaseTables(source, target);
      AddViewsPointwise(c1, catalog, source, target, BaseTables(c1, source));
    }

    /** The alias loop of `main`: views over the canonical schema in each later schema. */
    method AliasSchemas(canonical: string, aliases: seq<string>)
      modifies this
      ensures catalog == AliasedFrom(old(catalog), canonical, aliases)
    {
      ghost var start := catalog;
      for i := 0 to |aliases|
        invariant AliasedFrom(catalog, canonical, aliases[i..]) == AliasedFrom(start, canonical, aliases)
      {
        assert aliases[i..][0] == aliases[i] && aliases[i..][1..] == aliases[i + 1..];
        CreateSchemaViews(canonical, aliases[i]);
      }
      assert aliases[|aliases|..] == [];
    }

    /** The folder loop of `main`; returns the folder that was missing, if any. */
    method IngestGroups(groups: Entries<seq<string>>, listings: map<string, seq<string>>, lowercase: bool)
      returns (missing: Option<string>)
      requires NonEmptyGroups(groups)
      modifies this
      ensures (catalog, missing) == Ingested(old(catalog), groups, listings, lowercase)
    {
      ghost var start := catalog;
      for i := 0 to |groups|
        invariant Ingested(catalog, groups[i..], listings, lowercase) == Ingested(start, groups, listings, lowercase)
      {
        assert groups[i..][0] == groups[i] && groups[i..][1..] == groups[i + 1..];
        var folder := groups[i].0;
        var schemas := groups[i].1;
        var listing := if folder in listings then Some(listings[folder]) else None;
        missing := LoadFolder(folder, listing, schemas[0], lowercase);
        if missing.Some? {
          return;
        }
        AliasSchemas(schemas[0], schemas[1..]);
      }
      assert groups[|groups|..] == [];
      missing := None;
    }

    /** `main`: the mapping, the folder groups, then the loads and aliases. */
    method RunIngest(args: IngestArgs, listings: map<string, seq<string>>) returns (missing: Option<string>)
      modifies this
      ensures (catalog, missing) ==
        Ingested(old(catalog), Grouped(Mapping(Dirs(args), SchemaOptions(args))), listings, !args.keepCase)
    {
      var mapping := BuildMapping(args);
      var groups := GroupFolders(mapping);
      missing := IngestGroups(groups, listings, !args.keepCase);
    }
  }
}
