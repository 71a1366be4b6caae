/**
 * The regular expressions of `normalize_struct_json` and `normalize_query`
 * (scripts/duckdb_run_script.py) as explicit matchers, and `re.sub` as a
 * left-to-right scanner over them.
 *
 * Each matcher decides whether its pattern matches at one index and where the
 * match ends. The greedy `\s*` and `[^']*` parts are followed by a character
 * they cannot consume, so the longest run is the only one that can succeed
 * and no backtracking is needed; the lazy `(.*?)` of the struct pattern is
 * the first closing candidate. Character classes are ASCII (`IsSpace`,
 * `IsWordChar`, `LowerChar`).
 */
module Rewrite {
  import opened Wrappers
  import opened Text
  import opened StructSplit

  // ---------------------------------------------------------------------------
  // Scanning helpers
  // ---------------------------------------------------------------------------

  /** The end of the `\s*` run that starts at `i`. */
  function SkipSpace(s: string, i: nat): (j: nat)
    requires i <= |s|
    ensures i <= j <= |s|
    ensures forall k :: i <= k < j ==> IsSpace(s[k])
    ensures j == |s| || !IsSpace(s[j])
    decreases |s| - i
  {
    if i < |s| && IsSpace(s[i]) then SkipSpace(s, i + 1) else i
  }

  /** The first index at or after `i` that holds `c`. */
  function FindFrom(s: string, i: nat, c: char): (r: Option<nat>)
    requires i <= |s|
    ensures r.Some? ==> i <= r.value < |s| && s[r.value] == c && forall k :: i <= k < r.value ==> s[k] != c
    ensures r.None? ==> forall k :: i <= k < |s| ==> s[k] != c
    decreases |s| - i
  {
    if i == |s| then None
    else if s[i] == c then Some(i)
    else FindFrom(s, i + 1, c)
  }

  // ---------------------------------------------------------------------------
  // TO_JSON_STRING\s*\(\s*STRUCT\((.*?)\)\s*\)   (IGNORECASE | DOTALL)
  // ---------------------------------------------------------------------------

  /** `\)\s*\)` matches at `e`. */
  predicate ClosesAt(s: string, e: nat)
  {
    e < |s| && s[e] == ')' && SkipSpace(s, e + 1) < |s| && s[SkipSpace(s, e + 1)] == ')'
  }

  /** The lazy payload end: the first index at or after `e` where `\)\s*\)` matches. */
  function CloseFrom(s: string, e: nat): (r: Option<nat>)
    requires e <= |s|
    ensures r.Some? ==> e <= r.value < |s| && ClosesAt(s, r.value)
    ensures r.Some? ==> forall k :: e <= k < r.value ==> !ClosesAt(s, k)
    ensures r.None? ==> forall k :: e <= k < |s| ==> !ClosesAt(s, k)
    decreases |s| - e
  {
    if e == |s| then None
    else if ClosesAt(s, e) then Some(e)
    else CloseFrom(s, e + 1)
  }

  /** Where a struct match has its payload and where it ends. */
  datatype StructHit = StructHit(payloadStart: nat, payloadEnd: nat, end: nat)

  /** The struct pattern at `i`. */
  function StructAt(s: string, i: nat): (r: Option<StructHit>)
    requires i <= |s|
    ensures r.Some? ==> i < r.value.payloadStart <= r.value.payloadEnd < r.value.end <= |s|
    ensures r.Some? ==> CiLitAt(s, i, "TO_JSON_STRING") && ClosesAt(s, r.value.payloadEnd)
  {
    if !CiLitAt(s, i, "TO_JSON_STRING") then None
    else
      var j1 := SkipSpace(s, i + 14);
      if !(j1 < |s| && s[j1] == '(') then None
      else
        var j2 := SkipSpace(s, j1 + 1);
        if !CiLitAt(s, j2, "STRUCT(") then None
        else
          match CloseFrom(s, j2 + 7)
          case None => None
          case Some(pe) => Some(StructHit(j2 + 7, pe, SkipSpace(s, pe + 1) + 1))
  }

  // ---------------------------------------------------------------------------
  // re.split(r"\s+AS\s+", field, flags=re.IGNORECASE)
  // ---------------------------------------------------------------------------

  /** The end of a `\s+AS\s+` match at `i`. */
  function AsAt(s: string, i: nat): (r: Option<nat>)
    requires i <= |s|
    ensures r.Some? ==> i < r.value <= |s|
  {
    if i < |s| && IsSpace(s[i]) then
      var j := SkipSpace(s, i);
      if CiLitAt(s, j, "AS") && j + 2 < |s| && IsSpace(s[j + 2]) then Some(SkipSpace(s, j + 2)) else None
    else None
  }

  /** The chunks `re.split` produces from index `i` on, the current chunk starting at `start`. */
  function AsChunksFrom(s: string, i: nat, start: nat): (r: seq<string>)
    requires start <= i <= |s|
    ensures |r| >= 1
    decreases |s| - i
  {
    if i == |s| then [s[start..]]
    else
      match AsAt(s, i)
      case Some(e) => [s[start..i]] + AsChunksFrom(s, e, e)
      case None => AsChunksFrom(s, i + 1, start)
  }

  function AsChunks(s: string): seq<string>
  {
    AsChunksFrom(s, 0, 0)
  }

  /** One field of `_repl`: `alias := expr` when it splits into exactly two chunks, else the field stripped. */
  function FieldPart(f: string): string
  {
    var cs := AsChunks(f);
    if |cs| == 2 then Strip(cs[1]) + " := " + Strip(cs[0]) else Strip(f)
  }

  function FieldParts(fs: seq<string>): (r: seq<string>)
    ensures |r| == |fs|
    ensures forall k :: 0 <= k < |fs| ==> r[k] == FieldPart(fs[k])
  {
    if fs == [] then [] else [FieldPart(fs[0])] + FieldParts(fs[1..])
  }

  /** `_repl` on the captured payload. */
  function StructReplacement(payload: string): string
  {
    "to_json(struct_pack(" + Join(FieldParts(StructFields(payload)), ", ") + "))"
  }

  // ---------------------------------------------------------------------------
  // \bWORD\b, \bDATETIME\b(?!\s*\(), r'([^']*)', PARSE_DATE(...)
  // ---------------------------------------------------------------------------

  /** `\bw\b` at `i`, for a word `w` that starts and ends with a word character. */
  predicate WholeWordAt(s: string, i: nat, w: string)
  {
    && LitAt(s, i, w)
    && (i == 0 || !IsWordChar(s[i - 1]))
    && (i + |w| == |s| || !IsWordChar(s[i + |w|]))
  }

  /** `(?!\s*\()` at `j`: the next non-blank character is not `(`. */
  predicate NotCallAt(s: string, j: nat)
    requires j <= |s|
  {
    var k := SkipSpace(s, j);
    !(k < |s| && s[k] == '(')
  }

  /** The end of `r'([^']*)'` at `i`: a lowercase `r`, a quote, and the next quote. */
  function RawStringAt(s: string, i: nat): (r: Option<nat>)
    requires i <= |s|
    ensures r.Some? ==> i + 3 <= r.value <= |s|
  {
    if i + 1 < |s| && s[i] == 'r' && s[i + 1] == '\'' then
      match FindFrom(s, i + 2, '\'')
      case Some(j) => Some(j + 1)
      case None => None
    else None
  }

  /** Where a `PARSE_DATE` match keeps its second literal, and where it ends. */
  datatype DateHit = DateHit(litStart: nat, litEnd: nat, end: nat)

  /** `PARSE_DATE\s*\(\s*'[^']*'\s*,\s*'([^']+)'\s*\)` at `i`, ignoring case. */
  function ParseDateAt(s: string, i: nat): (r: Option<DateHit>)
    requires i <= |s|
    ensures r.Some? ==> i < r.value.litStart < r.value.litEnd < r.value.end <= |s|
    ensures r.Some? ==> forall k :: r.value.litStart <= k < r.value.litEnd ==> s[k] != '\''
  {
    if !CiLitAt(s, i, "PARSE_DATE") then None
    else
      var j1 := SkipSpace(s, i + 10);
      if !(j1 < |s| && s[j1] == '(') then None
      else
        var j2 := SkipSpace(s, j1 + 1);
        if !(j2 < |s| && s[j2] == '\'') then None
        else
          match FindFrom(s, j2 + 1, '\'')
          case None => None
          case Some(q1) =>
            var j3 := SkipSpace(s, q1 + 1);
            if !(j3 < |s| && s[j3] == ',') then None
            else
              var j4 := SkipSpace(s, j3 + 1);
              if !(j4 < |s| && s[j4] == '\'') then None
              else
                match FindFrom(s, j4 + 1, '\'')
                case None => None
                case Some(q2) =>
                  if q2 == j4 + 1 then None
                  else
                    var j5 := SkipSpace(s, q2 + 1);
                    if !(j5 < |s| && s[j5] == ')') then None
                    else Some(DateHit(j4 + 1, q2, j5 + 1))
  }

  // ---------------------------------------------------------------------------
  // re.sub
  // ---------------------------------------------------------------------------

  /** The patterns `normalize_query` substitutes with `re.sub`. */
  datatype Rule =
    | StructJson
    | Word(w: string, rep: string, notCall: bool)
    | RawString
    | ParseDate

  /** The end of a match of `rule` at `i`, if it matches there. */
  function MatchAt(rule: Rule, s: string, i: nat): (r: Option<nat>)
    requires i <= |s|
    ensures r.Some? ==> i < r.value <= |s|
  {
    match rule
    case StructJson => if StructAt(s, i).Some? then Some(StructAt(s, i).value.end) else None
    case Word(w, _, notCall) =>
      if w != [] && WholeWordAt(s, i, w) && (!notCall || NotCallAt(s, i + |w|)) then Some(i + |w|) else None
    case RawString => RawStringAt(s, i)
    case ParseDate => if ParseDateAt(s, i).Some? then Some(ParseDateAt(s, i).value.end) else None
  }

  /** What `re.sub` finds at one index: where the match ends and the text that replaces it. */
  datatype Hit = Hit(end: nat, text: string)

  /** A match of `rule` at `i` and its replacement. */
  function HitAt(rule: Rule, s: string, i: nat): (r: Option<Hit>)
    requires i <= |s|
    ensures r.Some? <==> MatchAt(rule, s, i).Some?
    ensures r.Some? ==> r.value.end == MatchAt(rule, s, i).value
  {
    if MatchAt(rule, s, i).None? then None
    else
      var e := MatchAt(rule, s, i).value;
      match rule
      case StructJson =>
        var h := StructAt(s, i).value;
        Some(Hit(e, StructReplacement(s[h.payloadStart..h.payloadEnd])))
      case Word(_, rep, _) => Some(Hit(e, rep))
      case RawString => Some(Hit(e, "'" + s[i + 2..e - 1] + "'"))
      case ParseDate =>
        var h := ParseDateAt(s, i).value;
        Some(Hit(e, "DATE '" + s[h.litStart..h.litEnd] + "'"))
  }

  /** The hits of `rule` at every index of `s`. */
  function Hits(rule: Rule, s: string): (hs: seq<Option<Hit>>)
    ensures HitTable(hs, |s|)
    ensures forall k :: 0 <= k < |s| ==> hs[k] == HitAt(rule, s, k)
  {
    seq(|s|, k requires 0 <= k < |s| => HitAt(rule, s, k))
  }

  /** Every hit ends after its index and inside the text. */
  predicate HitTable(hs: seq<Option<Hit>>, n: nat)
  {
    |hs| == n && forall k :: 0 <= k < n && hs[k].Some? ==> k < hs[k].value.end <= n
  }

  /**
   * `re.sub` from index `i` on: at a hit, emit its replacement and resume
   * after the match; elsewhere copy one character of the original text.
   */
  function Scanned(s: string, hs: seq<Option<Hit>>, i: nat): string
    requires HitTable(hs, |s|) && i <= |s|
    decreases |s| - i
  {
    if i == |s| then []
    else
      match hs[i]
      case Some(h) => h.text + Scanned(s, hs, h.end)
      case None => [s[i]] + Scanned(s, hs, i + 1)
  }

  /** `re.sub(pattern, repl, s)`. */
  function Sub(rule: Rule, s: string): string
  {
    Scanned(s, Hits(rule, s), 0)
  }

  // ---------------------------------------------------------------------------
  // Properties of the scanner
  // ---------------------------------------------------------------------------

  /** Text where the pattern does not match is copied unchanged. */
  lemma {:induction false} ScannedSkip(s: string, hs: seq<Option<Hit>>, i: nat, j: nat)
    requires HitTable(hs, |s|) && i <= j <= |s|
    requires forall k :: i <= k < j ==> hs[k].None?
    ensures Scanned(s, hs, i) == s[i..j] + Scanned(s, hs, j)
    decreases j - i
  {
    if i < j {
      ScannedSkip(s, hs, i + 1, j);
      assert Scanned(s, hs, i) == [s[i]] + Scanned(s, hs, i + 1);
      assert s[i..j] == [s[i]] + s[i + 1..j];
      assert [s[i]] + (s[i + 1..j] + Scanned(s, hs, j)) == ([s[i]] + s[i + 1..j]) + Scanned(s, hs, j);
    } else {
      assert s[i..j] == [];
    }
  }

  /** A character absent from the text and from every replacement is absent from the result. */
  lemma {:induction false} ScannedKeepsOut(s: string, hs: seq<Option<Hit>>, i: nat, c: char)
    requires HitTable(hs, |s|) && i <= |s|
    requires forall k :: i <= k < |s| ==> s[k] != c
    requires forall k :: i <= k < |s| && hs[k].Some? ==> c !in hs[k].value.text
    ensures c !in Scanned(s, hs, i)
    decreases |s| - i
  {
    if i < |s| {
      match hs[i]
      case Some(h) => ScannedKeepsOut(s, hs, h.end, c);
      case None => ScannedKeepsOut(s, hs, i + 1, c);
    }
  }

  /** Between `i` and `j` the pattern does not match. */
  predicate NoMatchIn(rule: Rule, s: string, i: nat, j: nat)
    requires i <= j <= |s|
  {
    forall k :: i <= k < j ==> MatchAt(rule, s, k).None?
  }

  /** `re.sub` copies the stretch before the first match unchanged. */
  lemma SubSkip(rule: Rule, s: string, i: nat, j: nat)
    requires i <= j <= |s| && NoMatchIn(rule, s, i, j)
    ensures Scanned(s, Hits(rule, s), i) == s[i..j] + Scanned(s, Hits(rule, s), j)
  {
    ScannedSkip(s, Hits(rule, s), i, j);
  }

  /** With no match anywhere, `re.sub` returns its input. */
  lemma SubNoMatch(rule: Rule, s: string)
    requires NoMatchIn(rule, s, 0, |s|)
    ensures Sub(rule, s) == s
  {
    SubSkip(rule, s, 0, |s|);
  }

  /** The characters a replacement may add besides those of the text. */
  function RuleChars(rule: Rule): string
  {
    match rule
    case StructJson => "to_json(struct_pack(:=, ))"
    case Word(_, rep, _) => rep
    case RawString => "'"
    case ParseDate => "DATE '"
  }

  /** Every character of a non-struct replacement comes from the text or from `RuleChars`. */
  lemma HitChars(rule: Rule, s: string, i: nat, c: char)
    requires !rule.StructJson? && i <= |s| && HitAt(rule, s, i).Some?
    requires forall k :: 0 <= k < |s| ==> s[k] != c
    requires c !in RuleChars(rule)
    ensures c !in HitAt(rule, s, i).value.text
  {
    var e := MatchAt(rule, s, i).value;
    if rule.RawString? {
      assert c !in s[i + 2..e - 1];
    } else if rule.ParseDate? {
      var h := ParseDateAt(s, i).value;
      assert c !in s[h.litStart..h.litEnd];
    }
  }

  /** A character absent from the text and from what the rule adds is absent from the result. */
  lemma SubKeepsOut(rule: Rule, s: string, c: char)
    requires !rule.StructJson?
    requires c !in s && c !in RuleChars(rule)
    ensures c !in Sub(rule, s)
  {
    assert forall k :: 0 <= k < |s| ==> s[k] != c;
    var hs := Hits(rule, s);
    forall k | 0 <= k < |s| && hs[k].Some? ensures c !in hs[k].value.text {
      HitChars(rule, s, k, c);
    }
    ScannedKeepsOut(s, hs, 0, c);
  }

  /** A scan with a single hit splices its text between the untouched stretches on either side. */
  lemma ScannedOneHit(s: string, hs: seq<Option<Hit>>, i: nat, h: Hit)
    requires HitTable(hs, |s|) && i < |s| && hs[i] == Some(h)
    requires forall k :: 0 <= k < i ==> hs[k].None?
    requires forall k :: h.end <= k < |s| ==> hs[k].None?
    ensures Scanned(s, hs, 0) == s[..i] + h.text + s[h.end..]
  {
    ScannedSkip(s, hs, 0, i);
    assert Scanned(s, hs, i) == h.text + Scanned(s, hs, h.end);
    ScannedSkip(s, hs, h.end, |s|);
    assert Scanned(s, hs, |s|) == [];
    assert s[0..i] == s[..i] && s[h.end..|s|] + [] == s[h.end..];
  }

  /** With exactly one match, `re.sub` splices its replacement between the untouched text on either side. */
  lemma SubOneMatch(rule: Rule, s: string, i: nat)
    requires i < |s| && MatchAt(rule, s, i).Some?
    requires NoMatchIn(rule, s, 0, i) && NoMatchIn(rule, s, MatchAt(rule, s, i).value, |s|)
    ensures Sub(rule, s) == s[..i] + HitAt(rule, s, i).value.text + s[MatchAt(rule, s, i).value..]
  {
    var hs := Hits(rule, s);
    ScannedOneHit(s, hs, i, HitAt(rule, s, i).value);
  }

  // ---------------------------------------------------------------------------
  // The word rules
  // ---------------------------------------------------------------------------

  /** A word that does not occur (in exactly this case) leaves the text unchanged. */
  lemma WordAbsent(w: string, rep: string, notCall: bool, s: string)
    requires !Occurs(w, s)
    ensures Sub(Word(w, rep, notCall), s) == s
  {
    forall k | 0 <= k < |s| ensures MatchAt(Word(w, rep, notCall), s, k).None? {
      assert !OccursAt(w, s, k);
    }
    SubNoMatch(Word(w, rep, notCall), s);
  }

  /**
   * A word that occurs once is replaced exactly when it stands alone
   * (no word character on either side) and, for `DATETIME`, is not called;
   * otherwise the text is unchanged.
   */
  lemma WordOnce(w: string, rep: string, notCall: bool, s: string, i: nat)
    requires w != [] && OccursAt(w, s, i)
    requires forall k: nat :: k != i ==> !OccursAt(w, s, k)
    ensures Sub(Word(w, rep, notCall), s)
         == if WholeWordAt(s, i, w) && (!notCall || NotCallAt(s, i + |w|)) then s[..i] + rep + s[i + |w|..] else s
  {
    var rule := Word(w, rep, notCall);
    WordElsewhere(w, rep, notCall, s, i);
    if MatchAt(rule, s, i).Some? {
      assert NoMatchIn(rule, s, 0, i) && NoMatchIn(rule, s, i + |w|, |s|);
      SubOneMatch(rule, s, i);
    } else {
      assert NoMatchIn(rule, s, 0, |s|);
      SubNoMatch(rule, s);
    }
  }

  /** A word rule matches nowhere the word does not occur. */
  lemma WordElsewhere(w: string, rep: string, notCall: bool, s: string, i: nat)
    requires forall k: nat :: k != i ==> !OccursAt(w, s, k)
    ensures forall k :: 0 <= k <= |s| && k != i ==> MatchAt(Word(w, rep, notCall), s, k).None?
  {
    forall k | 0 <= k <= |s| && k != i ensures MatchAt(Word(w, rep, notCall), s, k).None? {
      assert !OccursAt(w, s, k);
    }
  }

  // ---------------------------------------------------------------------------
  // The raw-string rule
  // ---------------------------------------------------------------------------

  /** `r'...'` loses its `r` whatever stands before it, so `'bar' AND y='z'` becomes `'ba' AND y='z'`. */
  lemma RawStringDropsR(a: string, m: string, b: string)
    requires '\'' !in m && !Occurs("r'", a) && !Occurs("r'", b)
    ensures Sub(RawString, a + "r'" + m + "'" + b) == a + "'" + m + "'" + b
  {
    var s := a + "r'" + m + "'" + b;
    var i := |a|;
    var q := i + 2 + |m|;
    assert s == a + ("r'" + m + "'" + b);
    RawNoneBefore(a, "r'" + m + "'" + b);
    assert s == (a + "r'" + m + "'") + b;
    RawNoneAfter(a + "r'" + m + "'", b);
    forall k | i + 2 <= k < q ensures s[k] != '\'' {
      assert s[k] == m[k - i - 2];
    }
    RawStringOnly(s, i, q);
    assert s[..i] == a;
    assert s[i + 1..] == "'" + m + "'" + b;
  }

  /** A text with a single `r'...'` loses just that `r`. */
  lemma RawStringOnly(s: string, i: nat, q: nat)
    requires i + 2 <= q < |s| && s[i] == 'r' && s[i + 1] == '\'' && s[q] == '\''
    requires forall k :: i + 2 <= k < q ==> s[k] != '\''
    requires NoMatchIn(RawString, s, 0, i) && NoMatchIn(RawString, s, q + 1, |s|)
    ensures Sub(RawString, s) == s[..i] + s[i + 1..]
  {
    FindFromFirst(s, i + 2, q, '\'');
    assert MatchAt(RawString, s, i) == Some(q + 1);
    SubOneMatch(RawString, s, i);
    var t := "'" + s[i + 2..q] + "'";
    assert HitAt(RawString, s, i).value.text == t;
    SliceAround(s, i + 1, q);
    ConcatAssoc(s[..i], t, s[q + 1..]);
  }

  /** A suffix split at its first element and at a later index `q`. */
  lemma SliceAround<T>(s: seq<T>, p: nat, q: nat)
    requires p < q < |s|
    ensures s[p..] == [s[p]] + s[p + 1..q] + [s[q]] + s[q + 1..]
  {
  }

  /** The first `c` from `i` on is at `j`. */
  lemma FindFromFirst(s: string, i: nat, j: nat, c: char)
    requires i <= j < |s| && s[j] == c
    requires forall k :: i <= k < j ==> s[k] != c
    ensures FindFrom(s, i, c) == Some(j)
  {
  }

  /** No `r'` opens inside a text free of `r'` that is followed by something other than a quote. */
  lemma RawNoneBefore(a: string, t: string)
    requires !Occurs("r'", a) && t != [] && t[0] != '\''
    ensures NoMatchIn(RawString, a + t, 0, |a|)
  {
    var s := a + t;
    forall k | 0 <= k < |a| ensures RawStringAt(s, k).None? {
      if k + 1 < |a| {
        assert !OccursAt("r'", a, k);
        assert s[k] == a[k] && s[k + 1] == a[k + 1];
        assert a[k..k + 2] == [a[k], a[k + 1]];
      } else {
        assert s[k + 1] == t[0];
      }
    }
  }

  /** No `r'` opens inside a tail free of `r'`. */
  lemma RawNoneAfter(t: string, b: string)
    requires !Occurs("r'", b)
    ensures NoMatchIn(RawString, t + b, |t|, |t + b|)
  {
    var s := t + b;
    forall k | |t| <= k < |s| ensures RawStringAt(s, k).None? {
      if k + 1 < |s| && s[k] == 'r' && s[k + 1] == '\'' {
        var j := k - |t|;
        assert b[j..j + 2] == [s[k], s[k + 1]];
        assert OccursAt("r'", b, j);
      }
    }
  }

  // ---------------------------------------------------------------------------
  // The PARSE_DATE rule
  // ---------------------------------------------------------------------------

  /** A match at the very start: its replacement, then the scan from where it ends. */
  lemma SubLeadingMatch(rule: Rule, s: string)
    requires 0 < |s| && MatchAt(rule, s, 0).Some?
    ensures Sub(rule, s) == HitAt(rule, s, 0).value.text + Scanned(s, Hits(rule, s), MatchAt(rule, s, 0).value)
  {
    var hs := Hits(rule, s);
    assert hs[0] == HitAt(rule, s, 0);
  }

  /** The `PARSE_DATE` matcher on a text laid out as `PARSE_DATE('...', '...')`, quotes at `q1` and `q2`. */
  lemma ParseDateAtLayout(s: string, q1: nat, q2: nat)
    requires 12 <= q1 && q1 + 4 < q2 && q2 + 2 <= |s|
    requires CiLitAt(s, 0, "PARSE_DATE") && s[10] == '(' && s[11] == '\''
    requires forall k :: 12 <= k < q1 ==> s[k] != '\''
    requires s[q1] == '\'' && s[q1 + 1] == ',' && s[q1 + 2] == ' ' && s[q1 + 3] == '\''
    requires forall k :: q1 + 4 <= k < q2 ==> s[k] != '\''
    requires s[q2] == '\'' && s[q2 + 1] == ')'
    ensures ParseDateAt(s, 0) == Some(DateHit(q1 + 4, q2, q2 + 2))
  {
    assert SkipSpace(s, 10) == 10;
    assert SkipSpace(s, 11) == 11;
    FindFromFirst(s, 12, q1, '\'');
    assert SkipSpace(s, q1 + 1) == q1 + 1;
    assert SkipSpace(s, q1 + 3) == q1 + 3;
    assert SkipSpace(s, q1 + 2) == q1 + 3;
    FindFromFirst(s, q1 + 4, q2, '\'');
    assert SkipSpace(s, q2 + 1) == q2 + 1;
  }

  /** `PARSE_DATE('fmt', 'lit')`, in any case, folds to the date literal `DATE 'lit'`. */
  lemma ParseDateFolds(fn: string, fmt: string, lit: string)
    requires |fn| == 10 && CiLitAt(fn, 0, "PARSE_DATE")
    requires '\'' !in fmt && '\'' !in lit && lit != []
    ensures Sub(ParseDate, fn + "('" + fmt + "', '" + lit + "')") == "DATE '" + lit + "'"
  {
    var s := fn + "('" + fmt + "', '" + lit + "')";
    var q1 := 12 + |fmt|;
    var q2 := q1 + 4 + |lit|;
    DateCallLayout(fn, fmt, lit);
    ParseDateAtLayout(s, q1, q2);
    SubLeadingMatch(ParseDate, s);
  }

  /** Where the pieces of `fn('fmt', 'lit')` sit. */
  lemma DateCallLayout(fn: string, fmt: string, lit: string)
    requires |fn| == 10 && CiLitAt(fn, 0, "PARSE_DATE")
    requires '\'' !in fmt && '\'' !in lit
    ensures var s := fn + "('" + fmt + "', '" + lit + "')";
      var q1 := 12 + |fmt|;
      var q2 := q1 + 4 + |lit|;
      && |s| == q2 + 2 && CiLitAt(s, 0, "PARSE_DATE") && s[10] == '(' && s[11] == '\''
      && (forall k :: 12 <= k < q1 ==> s[k] != '\'')
      && s[q1] == '\'' && s[q1 + 1] == ',' && s[q1 + 2] == ' ' && s[q1 + 3] == '\''
      && (forall k :: q1 + 4 <= k < q2 ==> s[k] != '\'')
      && s[q2] == '\'' && s[q2 + 1] == ')' && s[q1 + 4..q2] == lit
  {
    var s := fn + "('" + fmt + "', '" + lit + "')";
    var q1 := 12 + |fmt|;
    var q2 := q1 + 4 + |lit|;
    assert CiLitAt(s, 0, "PARSE_DATE") by {
      forall k | 0 <= k < 10 ensures s[k] == fn[k] { }
    }
    forall k | 12 <= k < q1 ensures s[k] != '\'' {
      assert s[k] == fmt[k - 12];
    }
    forall k | q1 + 4 <= k < q2 ensures s[k] != '\'' {
      assert s[k] == lit[k - q1 - 4];
    }
    assert s[q1 + 4..q2] == lit;
  }

  // ---------------------------------------------------------------------------
  // The struct rule
  // ---------------------------------------------------------------------------

  const StructOpen := "TO_JSON_STRING(STRUCT("

  /** The struct matcher on a text that opens with `TO_JSON_STRING(STRUCT(` and first closes at `pe`. */
  lemma StructAtLayout(s: string, pe: nat)
    requires 22 <= pe && pe + 2 <= |s| && s[..22] == StructOpen
    requires forall k :: 22 <= k < pe ==> s[k] != ')'
    requires s[pe] == ')' && s[pe + 1] == ')'
    ensures StructAt(s, 0) == Some(StructHit(22, pe, pe + 2))
    ensures Sub(StructJson, s) == StructReplacement(s[22..pe]) + Scanned(s, Hits(StructJson, s), pe + 2)
  {
    StructOpenAt(s);
    CloseFromFirst(s, 22, pe);
    assert StructAt(s, 0) == Some(StructHit(22, pe, pe + 2));
    SubLeadingMatch(StructJson, s);
  }

  /** A text that opens with `TO_JSON_STRING(STRUCT(` matches the opening of the pattern, with no space to skip. */
  lemma StructOpenAt(s: string)
    requires 22 <= |s| && s[..22] == StructOpen
    ensures CiLitAt(s, 0, "TO_JSON_STRING") && CiLitAt(s, 15, "STRUCT(")
    ensures SkipSpace(s, 14) == 14 && s[14] == '(' && SkipSpace(s, 15) == 15
  {
    forall k | 0 <= k < 22 ensures s[k] == StructOpen[k] {
      assert s[..22][k] == s[k];
    }
    assert CiLitAt(s, 0, "TO_JSON_STRING");
    assert CiLitAt(s, 15, "STRUCT(");
  }

  /** With no `)` before the first `))`, the lazy payload ends there. */
  lemma CloseFromFirst(s: string, e: nat, pe: nat)
    requires e <= pe && pe + 2 <= |s|
    requires forall k :: e <= k < pe ==> s[k] != ')'
    requires s[pe] == ')' && s[pe + 1] == ')'
    ensures CloseFrom(s, e) == Some(pe) && SkipSpace(s, pe + 1) == pe + 1
  {
    assert SkipSpace(s, pe + 1) == pe + 1;
    assert ClosesAt(s, pe);
  }

  /** Where the pieces of `TO_JSON_STRING(STRUCT(p))rest` sit. */
  lemma StructOpenLayout(p: string, rest: string)
    requires ')' !in p
    ensures var s := StructOpen + p + "))" + rest;
      && |s| == 24 + |p| + |rest| && s[..22] == StructOpen && s[22..22 + |p|] == p
      && (forall k :: 22 <= k < 22 + |p| ==> s[k] != ')')
      && s[22 + |p|] == ')' && s[23 + |p|] == ')'
  {
    var s := StructOpen + p + "))" + rest;
    assert |StructOpen| == 22;
    forall k | 22 <= k < 22 + |p| ensures s[k] != ')' {
      assert s[k] == p[k - 22];
    }
  }

  /**
   * The payload is lazy: it ends at the first `))`, however many `(` it has
   * opened, and the scan resumes right after that `))`.
   */
  lemma StructFirstClose(p: string, rest: string, s: string)
    requires ')' !in p && s == StructOpen + p + "))" + rest
    ensures Sub(StructJson, s) == StructReplacement(p) + Scanned(s, Hits(StructJson, s), 24 + |p|)
  {
    StructOpenLayout(p, rest);
    StructAtLayout(s, 22 + |p|);
  }

  /** A character-for-character step of `re.split`: no whitespace, no split. */
  lemma {:induction false} AsChunksSkip(s: string, i: nat, j: nat, start: nat)
    requires start <= i <= j <= |s|
    requires forall k :: i <= k < j ==> !IsSpace(s[k])
    ensures AsChunksFrom(s, i, start) == AsChunksFrom(s, j, start)
    decreases j - i
  {
    if i < j {
      assert AsAt(s, i).None?;
      AsChunksSkip(s, i + 1, j, start);
    }
  }

  /** `expr AS alias` splits into the expression and the alias. */
  lemma AsChunksAlias(e: string, a: string)
    requires e != [] && a != []
    requires forall k :: 0 <= k < |e| ==> !IsSpace(e[k])
    requires forall k :: 0 <= k < |a| ==> !IsSpace(a[k])
    ensures AsChunks(e + " AS " + a) == [e, a]
  {
    var s := e + " AS " + a;
    var n := |e|;
    AsChunksSkip(s, 0, n, 0);
    assert s[n] == ' ' && s[n + 1] == 'A' && s[n + 2] == 'S' && s[n + 3] == ' ' && s[n + 4] == a[0];
    assert SkipSpace(s, n + 1) == n + 1;
    assert SkipSpace(s, n) == n + 1;
    assert SkipSpace(s, n + 4) == n + 4;
    assert SkipSpace(s, n + 3) == n + 4;
    assert AsAt(s, n) == Some(n + 4);
    AsChunksSkip(s, n + 4, |s|, n + 4);
    assert s[..n] == e;
    assert s[n + 4..] == a;
  }

  /** A single `expr AS alias` field with no comma is kept whole by the field split. */
  lemma AliasOneField(e: string, a: string)
    requires e != [] && a != [] && ',' !in e && ',' !in a
    requires !IsSpace(e[0]) && !IsSpace(a[|a| - 1])
    ensures StructFields(e + " AS " + a) == [e + " AS " + a]
  {
    var f := e + " AS " + a;
    forall i | 0 <= i < |f| ensures f[i] != ',' {
      if i < |e| {
        assert f[i] == e[i];
      } else if i >= |e| + 4 {
        assert f[i] == a[i - |e| - 4];
      }
    }
    NoTopCommaOneField(f);
    assert f[0] == e[0] && f[|f| - 1] == a[|a| - 1];
    StripTrimmed(f);
  }

  /** `TO_JSON_STRING(STRUCT(expr AS alias))` becomes `to_json(struct_pack(alias := expr))`. */
  lemma StructSingleAlias(e: string, a: string)
    requires e != [] && a != [] && ',' !in e && ',' !in a
    requires forall k :: 0 <= k < |e| ==> !IsSpace(e[k])
    requires forall k :: 0 <= k < |a| ==> !IsSpace(a[k])
    ensures StructReplacement(e + " AS " + a) == "to_json(struct_pack(" + a + " := " + e + "))"
  {
    var f := e + " AS " + a;
    AliasOneField(e, a);
    StripTrimmed(e);
    StripTrimmed(a);
    AsChunksAlias(e, a);
    assert FieldPart(f) == a + " := " + e;
    assert FieldParts([f]) == [a + " := " + e];
  }
}
