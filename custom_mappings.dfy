/**
 * The custom-mapping loader of scripts/load_custom_mappings_to_etl.py: the
 * normalisation of CSV cells, the header fix-up, `read_rows` (which skips
 * rows without a source concept id, fills in defaults, keeps one concept per
 * id and collects relationships in a set) and the error and no-insert paths
 * of `main`.
 *
 * A CSV file is given already split into a header and records, as
 * `csv.DictReader` sees it; the inserts are the rows handed to the database.
 */
module CustomMappings {
  import opened Wrappers
  import opened Text

  // ---------------------------------------------------------------------------
  // Cells
  // ---------------------------------------------------------------------------

  /** A cell that is missing, or holds only whitespace. */
  predicate Blank(s: Option<string>)
  {
    s.None? || IsBlank(s.value)
  }

  /** `_norm`: `None` stays `None`; otherwise the stripped text, or `None` when that is empty. */
  function Norm(s: Option<string>): (r: Option<string>)
    ensures s.None? ==> r.None?
    ensures r.Some? ==> r.value == Strip(s.value) && r.value != []
  {
    if s.None? then None
    else
      var t := Strip(s.value);
      if t != "" then Some(t) else None
  }

  /** `_norm` gives `None` exactly for a missing or all-whitespace cell. */
  lemma NormBlank(s: Option<string>)
    ensures Norm(s).None? <==> Blank(s)
  {
    if s.Some? {
      StripEmptyIffBlank(s.value);
    }
  }

  /** Normalising twice is normalising once. */
  lemma NormIdempotent(s: Option<string>)
    ensures Norm(Norm(s)) == Norm(s)
  {
    if Norm(s).Some? {
      StripIdempotent(s.value);
    }
  }

  /** `_norm(x) or default`. */
  function OrDefault(s: Option<string>, default: string): string
  {
    if s.Some? && s.value != "" then s.value else default
  }

  /** The header names after stripping and the rename of the known typo. */
  function Renamed(name: string): (r: string)
  {
    if name == "reverese_relationship_id" then "reverse_relationship_id" else name
  }

  function FixHeader(names: seq<string>): (r: seq<string>)
    ensures |r| == |names|
    ensures forall i :: 0 <= i < |r| ==> r[i] == Renamed(Strip(names[i]))
  {
    seq(|names|, i requires 0 <= i < |names| => Renamed(Strip(names[i])))
  }

  /** No header name keeps the typo, and none has surrounding whitespace. */
  lemma FixHeaderClean(names: seq<string>, i: nat)
    requires i < |names|
    ensures FixHeader(names)[i] != "reverese_relationship_id"
    ensures Strip(FixHeader(names)[i]) == FixHeader(names)[i]
  {
    var s := Strip(names[i]);
    assert FixHeader(names)[i] == Renamed(s);
    if s == "reverese_relationship_id" {
      var r := "reverse_relationship_id";
      assert |r| != |s|;
      assert !IsSpace(r[0]) && !IsSpace(r[|r| - 1]);
      StripTrimmed(r);
    } else {
      StripIdempotent(names[i]);
    }
  }

  /**
   * `row.get(key)` of a `csv.DictReader` row: the value under the last column
   * of that name, or `None` when that column lies past the end of a short
   * record (or there is no such column).
   */
  function Field(names: seq<string>, values: seq<string>, key: string): Option<string>
  {
    if names == [] then None
    else
      var j := |names| - 1;
      if names[j] == key then (if j < |values| then Some(values[j]) else None)
      else Field(names[..j], values, key)
  }

  /** A value found under `key` sits in a column named `key`; a missing column gives nothing. */
  lemma {:induction false} FieldFound(names: seq<string>, values: seq<string>, key: string)
    ensures Field(names, values, key).Some? ==>
      exists j :: 0 <= j < |names| && j < |values| && names[j] == key && Field(names, values, key).value == values[j]
    ensures key !in names ==> Field(names, values, key).None?
    decreases |names|
  {
    if names != [] {
      var j := |names| - 1;
      if names[j] != key {
        FieldFound(names[..j], values, key);
        if Field(names, values, key).Some? {
          var k :| 0 <= k < |names[..j]| && k < |values| && names[..j][k] == key && Field(names, values, key).value == values[k];
          assert names[k] == key;
        }
        if key !in names {
          assert key !in names[..j];
        }
      }
    }
  }

  /** A normalised cell. */
  function Cell(names: seq<string>, values: seq<string>, key: string): Option<string>
  {
    Norm(Field(names, values, key))
  }

  // ---------------------------------------------------------------------------
  // int()
  // ---------------------------------------------------------------------------

  predicate IsDigit(c: char)
  {
    '0' <= c <= '9'
  }

  predicate AllDigits(s: string)
  {
    |s| > 0 && forall i :: 0 <= i < |s| ==> IsDigit(s[i])
  }

  function DigitsValue(s: string): nat
    requires forall i :: 0 <= i < |s| ==> IsDigit(s[i])
  {
    if s == [] then 0
    else
      assert IsDigit(s[|s| - 1]);
      10 * DigitsValue(s[..|s| - 1]) + (s[|s| - 1] as int - '0' as int)
  }

  /** `int(s)` on a stripped string: an optional sign, then decimal digits. */
  function ParseInt(s: string): (r: Option<int>)
  {
    if AllDigits(s) then Some(DigitsValue(s))
    else if |s| > 1 && (s[0] == '-' || s[0] == '+') && AllDigits(s[1..]) then
      var v: int := DigitsValue(s[1..]);
      Some(if s[0] == '-' then -v else v)
    else None
  }

  /** The decimal digits of `n`. */
  function Show(n: nat): (r: string)
    ensures AllDigits(r)
  {
    if n < 10 then [('0' as int + n) as char]
    else Show(n / 10) + [('0' as int + n % 10) as char]
  }

  lemma {:induction false} DigitsValueShow(n: nat)
    ensures DigitsValue(Show(n)) == n
  {
    if n >= 10 {
      DigitsValueShow(n / 10);
      var s := Show(n);
      assert s[..|s| - 1] == Show(n / 10);
    }
  }

  /** `str(n)` of an integer. */
  function ShowInt(n: int): string
  {
    if n < 0 then "-" + Show(-n) else Show(n)
  }

  /** `int(str(n)) == n`. */
  lemma ParseIntShow(n: int)
    ensures ParseInt(ShowInt(n)) == Some(n)
  {
    if n < 0 {
      DigitsValueShow(-n);
      var s := ShowInt(n);
      assert s[1..] == Show(-n);
      assert !AllDigits(s) by { assert !IsDigit(s[0]); }
    } else {
      DigitsValueShow(n);
    }
  }

  /** The message of the `ValueError` that `int()` raises. */
  function IntError(s: string): string
  {
    "invalid literal for int() with base 10: '" + s + "'"
  }

  // ---------------------------------------------------------------------------
  // Rows
  // ---------------------------------------------------------------------------

  datatype ConceptRow = ConceptRow(
    conceptId: int, conceptName: string, domainId: string, vocabularyId: string,
    conceptClassId: string, standardConcept: Option<string>, conceptCode: string,
    validStartDate: string, validEndDate: string, invalidReason: Option<string>)

  datatype ConceptRelRow = ConceptRelRow(
    conceptId1: int, conceptId2: int, relationshipId: string,
    validStartDate: string, validEndDate: string, invalidReason: Option<string>)

  /** The concept a row describes: blank text fields become `""`, blank dates the open validity range. */
  function ConceptOf(id: int, names: seq<string>, values: seq<string>): ConceptRow
  {
    ConceptRow(
      id,
      OrDefault(Cell(names, values, "concept_name"), ""),
      OrDefault(Cell(names, values, "source_domain_id"), ""),
      OrDefault(Cell(names, values, "source_vocabulary_id"), ""),
      OrDefault(Cell(names, values, "source_concept_class_id"), ""),
      Cell(names, values, "standard_concept"),
      OrDefault(Cell(names, values, "concept_code"), ""),
      OrDefault(Cell(names, values, "valid_start_date"), "1970-01-01"),
      OrDefault(Cell(names, values, "valid_end_date"), "2099-12-31"),
      Cell(names, values, "invalid_reason"))
  }

  /** A blank cell read with a default gives the default; any other cell its stripped text. */
  lemma CellDefault(names: seq<string>, values: seq<string>, key: string, default: string)
    ensures OrDefault(Cell(names, values, key), default) ==
      if Blank(Field(names, values, key)) then default else Strip(Field(names, values, key).value)
  {
    NormBlank(Field(names, values, key));
  }

  /** A cell read without a default is `None` exactly when it is blank. */
  lemma CellNone(names: seq<string>, values: seq<string>, key: string)
    ensures Cell(names, values, key).None? <==> Blank(Field(names, values, key))
  {
    NormBlank(Field(names, values, key));
  }

  /** The text fields of a concept: stripped, and `""` when blank. */
  lemma ConceptOfFields(id: int, names: seq<string>, values: seq<string>)
    ensures ConceptOf(id, names, values).conceptId == id
    ensures ConceptOf(id, names, values).conceptName == if Blank(Field(names, values, "concept_name")) then "" else Strip(Field(names, values, "concept_name").value)
    ensures ConceptOf(id, names, values).domainId == if Blank(Field(names, values, "source_domain_id")) then "" else Strip(Field(names, values, "source_domain_id").value)
    ensures ConceptOf(id, names, values).vocabularyId == if Blank(Field(names, values, "source_vocabulary_id")) then "" else Strip(Field(names, values, "source_vocabulary_id").value)
    ensures ConceptOf(id, names, values).conceptClassId == if Blank(Field(names, values, "source_concept_class_id")) then "" else Strip(Field(names, values, "source_concept_class_id").value)
    ensures ConceptOf(id, names, values).conceptCode == if Blank(Field(names, values, "concept_code")) then "" else Strip(Field(names, values, "concept_code").value)
  {
    CellDefault(names, values, "concept_name", "");
    CellDefault(names, values, "source_domain_id", "");
    CellDefault(names, values, "source_vocabulary_id", "");
    CellDefault(names, values, "source_concept_class_id", "");
    CellDefault(names, values, "concept_code", "");
  }

  /** The validity of a concept: blank dates give the open range, and blank optional fields `None`. */
  lemma ConceptOfValidity(id: int, names: seq<string>, values: seq<string>)
    ensures ConceptOf(id, names, values).validStartDate == if Blank(Field(names, values, "valid_start_date")) then "1970-01-01" else Strip(Field(names, values, "valid_start_date").value)
    ensures ConceptOf(id, names, values).validEndDate == if Blank(Field(names, values, "valid_end_date")) then "2099-12-31" else Strip(Field(names, values, "valid_end_date").value)
    ensures ConceptOf(id, names, values).standardConcept.None? <==> Blank(Field(names, values, "standard_concept"))
    ensures ConceptOf(id, names, values).invalidReason.None? <==> Blank(Field(names, values, "invalid_reason"))
  {
    CellDefault(names, values, "valid_start_date", "1970-01-01");
    CellDefault(names, values, "valid_end_date", "2099-12-31");
    CellNone(names, values, "standard_concept");
    CellNone(names, values, "invalid_reason");
  }

  /** The relationship a row describes, to `target`. */
  function RelOf(id: int, target: int, relationship: string, names: seq<string>, values: seq<string>): ConceptRelRow
  {
    ConceptRelRow(
      id, target, relationship,
      OrDefault(Cell(names, values, "relationship_valid_start_date"), "1970-01-01"),
      OrDefault(Cell(names, values, "relationship_end_date"), "2099-12-31"),
      Cell(names, values, "invalid_reason_cr"))
  }

  /** A relationship links `id` to `target`; blank dates give the open range and a blank reason `None`. */
  lemma RelOfFields(id: int, target: int, relationship: string, names: seq<string>, values: seq<string>)
    ensures var r := RelOf(id, target, relationship, names, values);
      r.conceptId1 == id && r.conceptId2 == target && r.relationshipId == relationship
    ensures RelOf(id, target, relationship, names, values).validStartDate ==
      if Blank(Field(names, values, "relationship_valid_start_date")) then "1970-01-01"
      else Strip(Field(names, values, "relationship_valid_start_date").value)
    ensures RelOf(id, target, relationship, names, values).validEndDate ==
      if Blank(Field(names, values, "relationship_end_date")) then "2099-12-31"
      else Strip(Field(names, values, "relationship_end_date").value)
    ensures RelOf(id, target, relationship, names, values).invalidReason.None? <==> Blank(Field(names, values, "invalid_reason_cr"))
  {
    CellDefault(names, values, "relationship_valid_start_date", "1970-01-01");
    CellDefault(names, values, "relationship_end_date", "2099-12-31");
    CellNone(names, values, "invalid_reason_cr");
  }

  /** The ids of a list of concepts. */
  function Ids(cs: seq<ConceptRow>): (r: seq<int>)
    ensures |r| == |cs| && forall i :: 0 <= i < |cs| ==> r[i] == cs[i].conceptId
  {
    if cs == [] then [] else [cs[0].conceptId] + Ids(cs[1..])
  }

  predicate UniqueIds(cs: seq<ConceptRow>)
  {
    forall i, j :: 0 <= i < j < |cs| ==> cs[i].conceptId != cs[j].conceptId
  }

  /** The concept stored under `id`, if any. */
  function Find(cs: seq<ConceptRow>, id: int): (r: Option<ConceptRow>)
    ensures r.Some? ==> r.value in cs && r.value.conceptId == id
    ensures r.None? <==> id !in Ids(cs)
  {
    if cs == [] then None
    else if cs[0].conceptId == id then Some(cs[0])
    else Find(cs[1..], id)
  }

  /** `concepts[c.concept_id] = c` on an insertion-ordered dict. */
  function PutConcept(cs: seq<ConceptRow>, c: ConceptRow): (r: seq<ConceptRow>)
  {
    if cs == [] then [c]
    else if cs[0].conceptId == c.conceptId then [c] + cs[1..]
    else [cs[0]] + PutConcept(cs[1..], c)
  }

  /** After the store, `id` finds `c` when it is its id, and what it found before otherwise. */
  lemma {:induction false} PutConceptFind(cs: seq<ConceptRow>, c: ConceptRow, id: int)
    ensures Find(PutConcept(cs, c), id) == if id == c.conceptId then Some(c) else Find(cs, id)
  {
    if cs != [] && cs[0].conceptId != c.conceptId {
      PutConceptFind(cs[1..], c, id);
      assert ([cs[0]] + PutConcept(cs[1..], c))[1..] == PutConcept(cs[1..], c);
    } else if cs != [] {
      assert ([c] + cs[1..])[1..] == cs[1..];
    }
  }

  /** An id already stored keeps its place; a new one goes to the end. */
  lemma {:induction false} PutConceptIds(cs: seq<ConceptRow>, c: ConceptRow)
    ensures Ids(PutConcept(cs, c)) == if c.conceptId in Ids(cs) then Ids(cs) else Ids(cs) + [c.conceptId]
  {
    if cs != [] {
      if cs[0].conceptId == c.conceptId {
        assert ([c] + cs[1..])[1..] == cs[1..];
      } else {
        PutConceptIds(cs[1..], c);
        assert ([cs[0]] + PutConcept(cs[1..], c))[1..] == PutConcept(cs[1..], c);
        assert Ids(cs) == [cs[0].conceptId] + Ids(cs[1..]);
        assert c.conceptId in Ids(cs) <==> c.conceptId in Ids(cs[1..]);
        ConcatAssoc([cs[0].conceptId], Ids(cs[1..]), [c.conceptId]);
      }
    }
  }

  /** Storing keeps the ids unique. */
  lemma UniqueIdsPut(cs: seq<ConceptRow>, c: ConceptRow)
    requires UniqueIds(cs)
    ensures UniqueIds(PutConcept(cs, c))
  {
    var r := PutConcept(cs, c);
    PutConceptIds(cs, c);
    forall i, j | 0 <= i < j < |r| ensures r[i].conceptId != r[j].conceptId {
      assert Ids(r)[i] == r[i].conceptId && Ids(r)[j] == r[j].conceptId;
      if j < |cs| {
        assert Ids(cs)[i] == cs[i].conceptId && Ids(cs)[j] == cs[j].conceptId;
      } else {
        assert Ids(r)[j] == c.conceptId && c.conceptId !in Ids(cs);
        assert Ids(cs)[i] == Ids(r)[i];
      }
    }
  }

  /** What `read_rows` has collected so far: the concepts by id, in order, and the relationships. */
  datatype Collected = Collected(concepts: seq<ConceptRow>, rels: set<ConceptRelRow>)

  /** One record of the loop of `read_rows`. */
  function RowStep(acc: Collected, names: seq<string>, values: seq<string>): Result<Collected>
  {
    if values == [] then Ok(acc)
    else
      var sid := Cell(names, values, "source_concept_id");
      if sid.None? then Ok(acc)
      else if ParseInt(sid.value).None? then Err(IntError(sid.value))
      else
        var id := ParseInt(sid.value).value;
        var cs := PutConcept(acc.concepts, ConceptOf(id, names, values));
        var target := Cell(names, values, "target_concept_id");
        var rel := Cell(names, values, "relationship_id");
        if target.Some? && rel.Some? then
          if ParseInt(target.value).None? then Err(IntError(target.value))
          else Ok(Collected(cs, acc.rels + {RelOf(id, ParseInt(target.value).value, rel.value, names, values)}))
        else Ok(Collected(cs, acc.rels))
  }

  /** The loop of `read_rows` from `acc` on; the first bad integer raises. */
  function RowsFrom(acc: Collected, names: seq<string>, records: seq<seq<string>>): Result<Collected>
    decreases |records|
  {
    if records == [] then Ok(acc)
    else
      match RowStep(acc, names, records[0])
      case Err(e) => Err(e)
      case Ok(next) => RowsFrom(next, names, records[1..])
  }

  /** A CSV file as `csv.DictReader` reads it: `None` when there is no header line. */
  datatype CsvFile = CsvFile(header: Option<seq<string>>, records: seq<seq<string>>)

  /** `read_rows`: the concepts (in first-seen id order) and the set of relationships. */
  function ReadRows(f: CsvFile): Result<Collected>
  {
    if f.header.None? then Ok(Collected([], {}))
    else RowsFrom(Collected([], {}), FixHeader(f.header.value), f.records)
  }

  /** `read_rows` as a loop, overwriting concepts by id and adding relationships. */
  method ReadRowsLoop(f: CsvFile) returns (result: Result<Collected>)
    ensures result == ReadRows(f)
  {
    if f.header.None? {
      return Ok(Collected([], {}));
    }
    var names := FixHeader(f.header.value);
    var concepts: seq<ConceptRow> := [];
    var relationships: set<ConceptRelRow> := {};
    for i := 0 to |f.records|
      invariant RowsFrom(Collected(concepts, relationships), names, f.records[i..]) == ReadRows(f)
    {
      var values := f.records[i];
      assert f.records[i..][0] == values && f.records[i..][1..] == f.records[i + 1..];
      if values == [] {
        continue;
      }
      var sid := Cell(names, values, "source_concept_id");
      if sid.None? {
        continue;
      }
      var parsed := ParseInt(sid.value);
      if parsed.None? {
        return Err(IntError(sid.value));
      }
      var id := parsed.value;
      concepts := PutConcept(concepts, ConceptOf(id, names, values));
      var target := Cell(names, values, "target_concept_id");
      var rel := Cell(names, values, "relationship_id");
      if target.Some? && rel.Some? {
        var t := ParseInt(target.value);
        if t.None? {
          return Err(IntError(target.value));
        }
        relationships := relationships + {RelOf(id, t.value, rel.value, names, values)};
      }
    }
    assert f.records[|f.records|..] == [];
    result := Ok(Collected(concepts, relationships));
  }

  // ---------------------------------------------------------------------------
  // What read_rows collects
  // ---------------------------------------------------------------------------

  /** The source concept id of a record, when it has one that parses. */
  function RowId(names: seq<string>, values: seq<string>): Option<int>
  {
    if values == [] then None
    else
      var sid := Cell(names, values, "source_concept_id");
      if sid.None? then None else ParseInt(sid.value)
  }

  /** The concept the last record with `id` describes, if any. */
  function LastConcept(names: seq<string>, records: seq<seq<string>>, id: int): Option<ConceptRow>
    decreases |records|
  {
    if records == [] then None
    else
      var later := LastConcept(names, records[1..], id);
      if later.Some? then later
      else if RowId(names, records[0]) == Some(id) then Some(ConceptOf(id, names, records[0]))
      else None
  }

  /** The ids of the records that have one, in record order. */
  function RowIds(names: seq<string>, records: seq<seq<string>>): seq<int>
    decreases |records|
  {
    if records == [] then []
    else
      var rest := RowIds(names, records[1..]);
      if RowId(names, records[0]).Some? then [RowId(names, records[0]).value] + rest else rest
  }

  /** The relationship a record contributes, if any. */
  function RowRel(names: seq<string>, values: seq<string>): Option<ConceptRelRow>
  {
    var id := RowId(names, values);
    var target := Cell(names, values, "target_concept_id");
    var rel := Cell(names, values, "relationship_id");
    if id.Some? && target.Some? && rel.Some? && ParseInt(target.value).Some? then
      Some(RelOf(id.value, ParseInt(target.value).value, rel.value, names, values))
    else None
  }

  /** The values present in a list of options. */
  function Present<T>(xs: seq<Option<T>>): set<T>
  {
    if xs == [] then {} else (if xs[0].Some? then {xs[0].value} else {}) + Present(xs[1..])
  }

  lemma {:induction false} PresentMembers<T>(xs: seq<Option<T>>, x: T)
    ensures x in Present(xs) <==> exists i :: 0 <= i < |xs| && xs[i] == Some(x)
  {
    if xs != [] {
      PresentMembers(xs[1..], x);
      if exists i :: 0 <= i < |xs[1..]| && xs[1..][i] == Some(x) {
        var i :| 0 <= i < |xs[1..]| && xs[1..][i] == Some(x);
        assert xs[i + 1] == Some(x);
      }
      if exists i :: 0 <= i < |xs| && xs[i] == Some(x) {
        var i :| 0 <= i < |xs| && xs[i] == Some(x);
        if i > 0 {
          assert xs[1..][i - 1] == Some(x);
        }
      }
    }
  }

  /** The relationship of each record, in record order. */
  function RowRels(names: seq<string>, records: seq<seq<string>>): (r: seq<Option<ConceptRelRow>>)
    ensures |r| == |records| && forall i :: 0 <= i < |records| ==> r[i] == RowRel(names, records[i])
  {
    seq(|records|, i requires 0 <= i < |records| => RowRel(names, records[i]))
  }

  /** The relationships of the records, as a set. */
  function RelSet(names: seq<string>, records: seq<seq<string>>): set<ConceptRelRow>
  {
    Present(RowRels(names, records))
  }

  /** A relationship is in the set exactly when some record describes it. */
  lemma RelSetMembers(names: seq<string>, records: seq<seq<string>>, r: ConceptRelRow)
    ensures r in RelSet(names, records) <==> exists i :: 0 <= i < |records| && RowRel(names, records[i]) == Some(r)
  {
    PresentMembers(RowRels(names, records), r);
  }

  /** What one accepted record adds: its concept (stored by id) and its relationship. */
  lemma RowStepShape(acc: Collected, names: seq<string>, values: seq<string>)
    requires RowStep(acc, names, values).Ok?
    ensures RowStep(acc, names, values).value.concepts ==
      if RowId(names, values).Some? then PutConcept(acc.concepts, ConceptOf(RowId(names, values).value, names, values)) else acc.concepts
    ensures RowStep(acc, names, values).value.rels ==
      acc.rels + if RowRel(names, values).Some? then {RowRel(names, values).value} else {}
  {
    RowStepConcepts(acc, names, values);
    RowStepRels(acc, names, values);
  }

  /** The concepts after one accepted record. */
  lemma RowStepConcepts(acc: Collected, names: seq<string>, values: seq<string>)
    requires RowStep(acc, names, values).Ok?
    ensures RowStep(acc, names, values).value.concepts ==
      if RowId(names, values).Some? then PutConcept(acc.concepts, ConceptOf(RowId(names, values).value, names, values)) else acc.concepts
  {
    if values != [] {
      var sid := Cell(names, values, "source_concept_id");
      if sid.Some? {
        var id := ParseInt(sid.value).value;
        var cs := PutConcept(acc.concepts, ConceptOf(id, names, values));
        assert RowId(names, values) == Some(id);
        assert RowStep(acc, names, values).value.concepts == cs;
      }
    }
  }

  /** The relationships after one accepted record. */
  lemma RowStepRels(acc: Collected, names: seq<string>, values: seq<string>)
    requires RowStep(acc, names, values).Ok?
    ensures RowStep(acc, names, values).value.rels ==
      acc.rels + if RowRel(names, values).Some? then {RowRel(names, values).value} else {}
  {
  }

  /** The first record of a successful run is accepted, and the rest run on from there. */
  lemma RowsFromFirst(acc: Collected, names: seq<string>, records: seq<seq<string>>)
    requires records != [] && RowsFrom(acc, names, records).Ok?
    ensures RowStep(acc, names, records[0]).Ok?
    ensures RowsFrom(acc, names, records) == RowsFrom(RowStep(acc, names, records[0]).value, names, records[1..])
  {
  }

  /** A successful `read_rows` keeps one concept per id, in the order the ids first appear. */
  lemma {:induction false} RowsFromIds(acc: Collected, names: seq<string>, records: seq<seq<string>>)
    requires UniqueIds(acc.concepts)
    requires RowsFrom(acc, names, records).Ok?
    ensures UniqueIds(RowsFrom(acc, names, records).value.concepts)
    ensures Ids(RowsFrom(acc, names, records).value.concepts) == Distinct(RowIds(names, records), Ids(acc.concepts))
    decreases |records|
  {
    if records != [] {
      RowsFromFirst(acc, names, records);
      RowStepShape(acc, names, records[0]);
      var id := RowId(names, records[0]);
      if id.Some? {
        UniqueIdsPut(acc.concepts, ConceptOf(id.value, names, records[0]));
        PutConceptIds(acc.concepts, ConceptOf(id.value, names, records[0]));
      }
      RowsFromIds(RowStep(acc, names, records[0]).value, names, records[1..]);
    }
  }

  /** Each concept of a successful `read_rows` is the one the last record with its id describes. */
  lemma {:induction false} RowsFromLast(acc: Collected, names: seq<string>, records: seq<seq<string>>, id: int)
    requires RowsFrom(acc, names, records).Ok?
    ensures Find(RowsFrom(acc, names, records).value.concepts, id) ==
      if LastConcept(names, records, id).Some? then LastConcept(names, records, id) else Find(acc.concepts, id)
    decreases |records|
  {
    if records != [] {
      RowsFromFirst(acc, names, records);
      RowStepShape(acc, names, records[0]);
      var rid := RowId(names, records[0]);
      if rid.Some? {
        PutConceptFind(acc.concepts, ConceptOf(rid.value, names, records[0]), id);
      }
      RowsFromLast(RowStep(acc, names, records[0]).value, names, records[1..], id);
    }
  }

  /** A successful `read_rows` collects exactly the relationships its records describe. */
  lemma {:induction false} RowsFromRels(acc: Collected, names: seq<string>, records: seq<seq<string>>)
    requires RowsFrom(acc, names, records).Ok?
    ensures RowsFrom(acc, names, records).value.rels == acc.rels + RelSet(names, records)
    decreases |records|
  {
    if records != [] {
      RowsFromFirst(acc, names, records);
      RowStepShape(acc, names, records[0]);
      RowsFromRels(RowStep(acc, names, records[0]).value, names, records[1..]);
      assert RowRels(names, records)[1..] == RowRels(names, records[1..]);
    }
  }

  /** A record without a source concept id contributes nothing. */
  lemma RowWithoutIdSkipped(acc: Collected, names: seq<string>, values: seq<string>, rest: seq<seq<string>>)
    requires Blank(Field(names, values, "source_concept_id"))
    ensures RowsFrom(acc, names, [values] + rest) == RowsFrom(acc, names, rest)
  {
    NormBlank(Field(names, values, "source_concept_id"));
    assert ([values] + rest)[0] == values && ([values] + rest)[1..] == rest;
  }

  // ---------------------------------------------------------------------------
  // main
  // ---------------------------------------------------------------------------

  /** The glob `gcpt_*.csv`. */
  predicate IsMappingFile(name: string)
  {
    |name| >= 9 && StartsWith(name, "gcpt_") && EndsWith(name, ".csv")
  }

  function MappingFiles(names: seq<string>): (r: seq<string>)
    ensures forall x :: x in r <==> x in names && IsMappingFile(x)
  {
    if names == [] then []
    else
      var rest := MappingFiles(names[1..]);
      assert names == [names[0]] + names[1..];
      if IsMappingFile(names[0]) then [names[0]] + rest else rest
  }

  /** The rows gathered from all files: concepts concatenated (not merged across files), relationships pooled. */
  datatype Gathered = Gathered(concepts: seq<ConceptRow>, rels: multiset<ConceptRelRow>)

  /** The loop of `main` over the mapping files, in the order given; the first bad file raises. */
  function GatherFrom(acc: Gathered, files: seq<CsvFile>): Result<Gathered>
    decreases |files|
  {
    if files == [] then Ok(acc)
    else
      match ReadRows(files[0])
      case Err(e) => Err(e)
      case Ok(c) => GatherFrom(Gathered(acc.concepts + c.concepts, acc.rels + multiset(c.rels)), files[1..])
  }

  /** The contents of the mapping files, sorted by name. */
  function MappingContents(names: seq<string>, contents: map<string, CsvFile>): seq<CsvFile>
    requires forall n :: n in names ==> n in contents
  {
    var files := Sort(MappingFiles(names));
    assert forall k :: 0 <= k < |files| ==> files[k] in multiset(files);
    seq(|files|, k requires 0 <= k < |files| => contents[files[k]])
  }

  /**
   * `main`: a missing database or mapping folder raises (the database is
   * checked first); with no rows at all nothing is inserted (`None`);
   * otherwise the gathered rows are inserted. The folder is `None` when it
   * does not exist, else the names it contains.
   */
  function LoadMappings(dbPath: string, dbExists: bool, mappingDir: string, dir: Option<seq<string>>, contents: map<string, CsvFile>): (r: Result<Option<Gathered>>)
    requires dir.Some? ==> forall n :: n in dir.value ==> n in contents
    ensures !dbExists ==> r == Err(dbPath)
    ensures dbExists && dir.None? ==> r == Err(mappingDir)
    ensures dbExists && dir.Some? ==>
      var g := GatherFrom(Gathered([], multiset{}), MappingContents(dir.value, contents));
      (r.Ok? <==> g.Ok?) && (r.Err? ==> r.error == g.error)
      && (r.Ok? && r.value.Some? ==> r.value.value == g.value && (g.value.concepts != [] || g.value.rels != multiset{}))
  {
    if !dbExists then Err(dbPath)
    else if dir.None? then Err(mappingDir)
    else
      match GatherFrom(Gathered([], multiset{}), MappingContents(dir.value, contents))
      case Err(e) => Err(e)
      case Ok(g) => if g.concepts == [] && g.rels == multiset{} then Ok(None) else Ok(Some(g))
  }

  /** The loop of `main`, extending the two lists file by file. */
  method GatherRows(files: seq<CsvFile>) returns (result: Result<Gathered>)
    ensures result == GatherFrom(Gathered([], multiset{}), files)
  {
    var conceptRows: seq<ConceptRow> := [];
    var relRows: multiset<ConceptRelRow> := multiset{};
    for i := 0 to |files|
      invariant GatherFrom(Gathered(conceptRows, relRows), files[i..]) == GatherFrom(Gathered([], multiset{}), files)
    {
      assert files[i..][0] == files[i] && files[i..][1..] == files[i + 1..];
      var rows := ReadRowsLoop(files[i]);
      if rows.Err? {
        return Err(rows.error);
      }
      conceptRows := conceptRows + rows.value.concepts;
      relRows := relRows + multiset(rows.value.rels);
    }
    assert files[|files|..] == [];
    result := Ok(Gathered(conceptRows, relRows));
  }

  /** The loop succeeds exactly when every file reads; otherwise it raises the error of the first file that does not. */
  lemma {:induction false} GatherOk(acc: Gathered, files: seq<CsvFile>)
    ensures GatherFrom(acc, files).Ok? <==> forall i :: 0 <= i < |files| ==> ReadRows(files[i]).Ok?
    ensures GatherFrom(acc, files).Err? ==>
      exists i :: 0 <= i < |files| && ReadRows(files[i]).Err? && ReadRows(files[i]).error == GatherFrom(acc, files).error
        && forall j :: 0 <= j < i ==> ReadRows(files[j]).Ok?
    decreases |files|
  {
    if files != [] && ReadRows(files[0]).Ok? {
      var c := ReadRows(files[0]).value;
      var a1 := Gathered(acc.concepts + c.concepts, acc.rels + multiset(c.rels));
      GatherOk(a1, files[1..]);
      forall i | 1 <= i < |files| ensures files[i] == files[1..][i - 1] { }
      var r := GatherFrom(a1, files[1..]);
      if r.Err? {
        var i :| 0 <= i < |files[1..]| && ReadRows(files[1..][i]).Err? && ReadRows(files[1..][i]).error == r.error
          && forall j :: 0 <= j < i ==> ReadRows(files[1..][j]).Ok?;
        assert ReadRows(files[i + 1]).Err? && ReadRows(files[i + 1]).error == r.error;
      }
    }
  }

  /**
   * `main` inserts nothing and returns 0 exactly when the database and the
   * folder exist and every mapping file reads back with no concept and no
   * relationship.
   */
  lemma LoadMappingsNothing(dbPath: string, dbExists: bool, mappingDir: string, dir: Option<seq<string>>, contents: map<string, CsvFile>)
    requires dir.Some? ==> forall n :: n in dir.value ==> n in contents
    ensures LoadMappings(dbPath, dbExists, mappingDir, dir, contents) == Ok(None) <==>
      dbExists && dir.Some? &&
      var files := MappingContents(dir.value, contents);
      forall i :: 0 <= i < |files| ==>
        ReadRows(files[i]).Ok? && ReadRows(files[i]).value.concepts == [] && ReadRows(files[i]).value.rels == {}
  {
    if dbExists && dir.Some? {
      var files := MappingContents(dir.value, contents);
      GatherOk(Gathered([], multiset{}), files);
      if GatherFrom(Gathered([], multiset{}), files).Ok? {
        GatherEmpty(files);
      }
    }
  }

  /** Gathering two runs of files is gathering the first, then the second: nothing is merged across files. */
  lemma {:induction false} GatherAppend(acc: Gathered, f1: seq<CsvFile>, f2: seq<CsvFile>)
    requires GatherFrom(acc, f1).Ok?
    ensures GatherFrom(acc, f1 + f2) == GatherFrom(GatherFrom(acc, f1).value, f2)
    decreases |f1|
  {
    if f1 == [] {
      assert f1 + f2 == f2;
    } else {
      assert (f1 + f2)[0] == f1[0] && (f1 + f2)[1..] == f1[1..] + f2;
      var c := ReadRows(f1[0]).value;
      GatherAppend(Gathered(acc.concepts + c.concepts, acc.rels + multiset(c.rels)), f1[1..], f2);
    }
  }

  /** Nothing is inserted exactly when every file reads back with no concept and no relationship. */
  lemma {:induction false} GatherEmpty(files: seq<CsvFile>)
    requires GatherFrom(Gathered([], multiset{}), files).Ok?
    ensures var g := GatherFrom(Gathered([], multiset{}), files).value;
      (g.concepts == [] && g.rels == multiset{}) <==>
      forall i :: 0 <= i < |files| ==> ReadRows(files[i]).Ok? && ReadRows(files[i]).value.concepts == [] && ReadRows(files[i]).value.rels == {}
    decreases |files|
  {
    if files != [] {
      var c := ReadRows(files[0]).value;
      var e1 := Gathered([] + c.concepts, multiset{} + multiset(c.rels));
      assert GatherFrom(Gathered([], multiset{}), files) == GatherFrom(e1, files[1..]);
      GatherShift(e1, files[1..]);
      GatherEmpty(files[1..]);
      assert forall i :: 1 <= i < |files| ==> files[i] == files[1..][i - 1];
      if c.rels != {} {
        var x :| x in c.rels;
        assert x in multiset(c.rels);
      } else {
        assert multiset(c.rels) == multiset{};
      }
      assert e1.concepts == c.concepts && e1.rels == multiset(c.rels);
    }
  }

  /** Gathering on top of rows already gathered adds them in front. */
  lemma {:induction false} GatherShift(acc: Gathered, files: seq<CsvFile>)
    ensures GatherFrom(acc, files).Ok? <==> GatherFrom(Gathered([], multiset{}), files).Ok?
    ensures GatherFrom(Gathered([], multiset{}), files).Ok? ==> (GatherFrom(acc, files).value ==
      Gathered(acc.concepts + GatherFrom(Gathered([], multiset{}), files).value.concepts,
               acc.rels + GatherFrom(Gathered([], multiset{}), files).value.rels))
    decreases |files|
  {
    if files == [] {
      assert acc.concepts + [] == acc.concepts;
    } else if ReadRows(files[0]).Ok? {
      var c := ReadRows(files[0]).value;
      var a1 := Gathered(acc.concepts + c.concepts, acc.rels + multiset(c.rels));
      var e1 := Gathered([] + c.concepts, multiset{} + multiset(c.rels));
      GatherShift(a1, files[1..]);
      GatherShift(e1, files[1..]);
      var rest := GatherFrom(Gathered([], multiset{}), files[1..]);
      if rest.Ok? {
        assert acc.concepts + c.concepts + rest.value.concepts == acc.concepts + (c.concepts + rest.value.concepts);
        assert [] + c.concepts == c.concepts;
      }
    }
  }
}
