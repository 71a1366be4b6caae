/**
 * `_split_struct_fields` of scripts/duckdb_run_script.py: split the payload of
 * a `STRUCT(...)` at the commas that sit outside every parenthesis, then strip
 * the pieces and drop the blank ones.
 */
module StructSplit {
  import opened Text

  /**
   * The pieces the loop appends from index `i` on, while the current piece
   * started at `start` and the running depth is `depth`.
   */
  function FieldsFrom(p: string, i: nat, start: nat, depth: int): (r: seq<string>)
    requires start <= i <= |p|
    ensures |r| >= 1
    decreases |p| - i
  {
    if i == |p| then [p[start..]]
    else if p[i] == ',' && depth == 0 then [p[start..i]] + FieldsFrom(p, i + 1, i + 1, depth)
    else if p[i] == '(' then FieldsFrom(p, i + 1, start, depth + 1)
    else if p[i] == ')' then FieldsFrom(p, i + 1, start, depth - 1)
    else FieldsFrom(p, i + 1, start, depth)
  }

  /** The `fields` list when the loop is over, before stripping. */
  function RawFields(p: string): seq<string>
  {
    FieldsFrom(p, 0, 0, 0)
  }

  /** `[f.strip() for f in fields if f.strip()]`. */
  function StrippedNonBlank(fs: seq<string>): (r: seq<string>)
    ensures forall f :: f in r ==> f != [] && Strip(f) == f
    ensures |r| <= |fs|
  {
    if fs == [] then []
    else
      var f := Strip(fs[0]);
      var rest := StrippedNonBlank(fs[1..]);
      if f != [] then
        StripIdempotent(fs[0]);
        [f] + rest
      else rest
  }

  /** `_split_struct_fields(payload)`. */
  function StructFields(p: string): seq<string>
  {
    StrippedNonBlank(RawFields(p))
  }

  /** The loop of `_split_struct_fields` over the characters of the payload. */
  method SplitStructFields(payload: string) returns (result: seq<string>)
    ensures result == StructFields(payload)
  {
    var fields: seq<string> := [];
    var depth := 0;
    var start := 0;
    for i := 0 to |payload|
      invariant start <= i
      invariant fields + FieldsFrom(payload, i, start, depth) == RawFields(payload)
    {
      var ch := payload[i];
      if ch == ',' && depth == 0 {
        fields := fields + [payload[start..i]];
        start := i + 1;
      } else if ch == '(' {
        depth := depth + 1;
      } else if ch == ')' {
        depth := depth - 1;
      }
    }
    fields := fields + [payload[start..]];
    result := StrippedNonBlank(fields);
  }

  // ---------------------------------------------------------------------------
  // Reference definition: cut at the top-level commas
  // ---------------------------------------------------------------------------

  /** What one character does to the parenthesis depth. */
  function Delta(c: char): int
  {
    if c == '(' then 1 else if c == ')' then -1 else 0
  }

  /** The parenthesis depth in front of index `i`, character by character. */
  function DepthAt(p: string, i: nat): int
    requires i <= |p|
  {
    if i == 0 then 0 else DepthAt(p, i - 1) + Delta(p[i - 1])
  }

  /** The depth in front of `i` is the count of `(` minus the count of `)` in `p[..i]`. */
  lemma {:induction false} DepthAtCounts(p: string, i: nat)
    requires i <= |p|
    ensures DepthAt(p, i) == Count(p[..i], '(') - Count(p[..i], ')')
  {
    if i > 0 {
      DepthAtCounts(p, i - 1);
      assert p[..i] == p[..i - 1] + [p[i - 1]];
    }
  }

  /** A comma outside every parenthesis. */
  predicate TopComma(p: string, i: nat)
    requires i < |p|
  {
    p[i] == ',' && DepthAt(p, i) == 0
  }

  /** The top-level commas at or after `i`, in increasing order. */
  function TopCommasFrom(p: string, i: nat): (cs: seq<nat>)
    requires i <= |p|
    ensures forall k :: 0 <= k < |cs| ==> i <= cs[k] < |p| && TopComma(p, cs[k])
    ensures forall k, m :: 0 <= k < m < |cs| ==> cs[k] < cs[m]
    decreases |p| - i
  {
    if i == |p| then []
    else if TopComma(p, i) then [i] + TopCommasFrom(p, i + 1)
    else TopCommasFrom(p, i + 1)
  }

  /** Every top-level comma at or after `i` is listed. */
  lemma {:induction false} TopCommasComplete(p: string, i: nat)
    requires i <= |p|
    ensures forall j :: i <= j < |p| && TopComma(p, j) ==> j in TopCommasFrom(p, i)
    decreases |p| - i
  {
    if i < |p| {
      TopCommasComplete(p, i + 1);
    }
  }

  /** `p[start..]` cut at the increasing positions `cs`, the cut characters dropped. */
  function CutAt(p: string, cs: seq<nat>, start: nat): (r: seq<string>)
    requires start <= |p|
    requires forall k :: 0 <= k < |cs| ==> start <= cs[k] < |p|
    requires forall k, m :: 0 <= k < m < |cs| ==> cs[k] < cs[m]
    ensures |r| == |cs| + 1
  {
    if cs == [] then [p[start..]]
    else [p[start..cs[0]]] + CutAt(p, cs[1..], cs[0] + 1)
  }

  lemma CutAtCons(p: string, i: nat, cs: seq<nat>, start: nat)
    requires start <= i < |p|
    requires forall k :: 0 <= k < |cs| ==> i < cs[k] < |p|
    requires forall k, m :: 0 <= k < m < |cs| ==> cs[k] < cs[m]
    ensures CutAt(p, [i] + cs, start) == [p[start..i]] + CutAt(p, cs, i + 1)
  {
    assert ([i] + cs)[0] == i && ([i] + cs)[1..] == cs;
  }

  /** One character of the loop that is not a top-level comma only moves the depth. */
  lemma FieldsFromStep(p: string, i: nat, start: nat, depth: int)
    requires start <= i < |p| && !(p[i] == ',' && depth == 0)
    ensures FieldsFrom(p, i, start, depth) == FieldsFrom(p, i + 1, start, depth + Delta(p[i]))
  {
  }

  lemma {:induction false} FieldsFromCut(p: string, i: nat, start: nat)
    requires start <= i <= |p|
    ensures FieldsFrom(p, i, start, DepthAt(p, i)) == CutAt(p, TopCommasFrom(p, i), start)
    decreases |p| - i
  {
    if i < |p| {
      var d := DepthAt(p, i);
      assert DepthAt(p, i + 1) == d + Delta(p[i]);
      var cs := TopCommasFrom(p, i + 1);
      if TopComma(p, i) {
        FieldsFromCut(p, i + 1, i + 1);
        assert TopCommasFrom(p, i) == [i] + cs;
        CutAtCons(p, i, cs, start);
        assert FieldsFrom(p, i, start, d) == [p[start..i]] + FieldsFrom(p, i + 1, i + 1, d);
      } else {
        FieldsFromCut(p, i + 1, start);
        assert TopCommasFrom(p, i) == cs;
        FieldsFromStep(p, i, start, d);
      }
    }
  }

  /**
   * The raw fields are exactly the payload cut at its top-level commas: a
   * comma inside parentheses never splits.
   */
  lemma RawFieldsAreTopLevelCut(p: string)
    ensures RawFields(p) == CutAt(p, TopCommasFrom(p, 0), 0)
    ensures |RawFields(p)| == |TopCommasFrom(p, 0)| + 1
  {
    assert p[..0] == [];
    FieldsFromCut(p, 0, 0);
  }

  lemma {:induction false} FieldsFromJoin(p: string, i: nat, start: nat, depth: int)
    requires start <= i <= |p|
    ensures Join(FieldsFrom(p, i, start, depth), ",") == p[start..]
    decreases |p| - i
  {
    if i < |p| {
      if p[i] == ',' && depth == 0 {
        var rest := FieldsFrom(p, i + 1, i + 1, depth);
        FieldsFromJoin(p, i + 1, i + 1, depth);
        JoinCons(p[start..i], rest, ",");
        assert p[start..] == p[start..i] + "," + p[i + 1..];
      } else {
        FieldsFromStep(p, i, start, depth);
        FieldsFromJoin(p, i + 1, start, depth + Delta(p[i]));
      }
    }
  }

  /** Joining the raw fields with `,` gives the payload back: nothing is lost but the cuts. */
  lemma RawFieldsJoin(p: string)
    ensures Join(RawFields(p), ",") == p
  {
    FieldsFromJoin(p, 0, 0, 0);
  }

  /** With no top-level comma the result is the stripped payload, or nothing when it is blank. */
  lemma NoTopCommaOneField(p: string)
    requires forall i :: 0 <= i < |p| ==> !TopComma(p, i)
    ensures StructFields(p) == if Strip(p) != [] then [Strip(p)] else []
  {
    RawFieldsAreTopLevelCut(p);
    var cs := TopCommasFrom(p, 0);
    assert cs == [];
    assert RawFields(p) == [p];
  }
}
