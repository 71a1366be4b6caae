/**
 * `split_queries` of scripts/duckdb_run_script.py: a line-based splitter that
 * cuts a SQL script into statements.
 *
 * Lines whose stripped text starts with `--` are skipped. Every other line is
 * buffered, and a running parenthesis depth (never reset, never clamped) is
 * updated with it. A buffered line that holds a `;` while the depth is at most
 * zero closes the statement: the buffer is joined with `\n`, everything from
 * its first `;` on is dropped, and the rest is kept unless it is blank. A
 * buffer left over at the end is kept whole. Blank statements are dropped.
 */
module Segmenter {
  import opened Text

  /** A line that `split_queries` skips: its stripped form starts with `--`. */
  predicate IsComment(line: string)
  {
    StartsWith(Strip(line), "--")
  }

  /** `line.count("(") - line.count(")")`. */
  function Balance(line: string): int
  {
    Count(line, '(') - Count(line, ')')
  }

  /** The loop variables of `split_queries`: `queries`, `current` and `depth`. */
  datatype State = State(queries: seq<string>, current: seq<string>, depth: int)

  /** The body of the loop of `split_queries`, for one line. */
  function Step(st: State, line: string): State
  {
    if IsComment(line) then st
    else
      var cur := st.current + [line];
      var d := st.depth + Balance(line);
      if ';' in line && d <= 0 then
        var before := Before(Join(cur, "\n"), ';');
        State(if Strip(before) != [] then st.queries + [before] else st.queries, [], d)
      else State(st.queries, cur, d)
  }

  /** The loop state after the given lines. */
  function Scan(lines: seq<string>): State
  {
    if lines == [] then State([], [], 0)
    else Step(Scan(lines[..|lines| - 1]), lines[|lines| - 1])
  }

  /** The final list comprehension: drop blank statements. */
  function NonBlank(qs: seq<string>): (r: seq<string>)
    ensures |r| <= |qs|
  {
    if qs == [] then []
    else if Strip(qs[0]) != [] then [qs[0]] + NonBlank(qs[1..])
    else NonBlank(qs[1..])
  }

  /** After the loop: flush a non-empty buffer, then drop blank statements. */
  function Finish(st: State): seq<string>
  {
    NonBlank(if st.current != [] then st.queries + [Join(st.current, "\n")] else st.queries)
  }

  /** `split_queries(raw_sql)`. */
  function Statements(raw: string): seq<string>
  {
    Finish(Scan(SplitLines(raw)))
  }

  /** `split_queries`, loop for loop. */
  method SplitQueries(raw: string) returns (qs: seq<string>)
    ensures qs == Statements(raw)
  {
    var lines := SplitLines(raw);
    var queries: seq<string> := [];
    var current: seq<string> := [];
    var depth := 0;
    for k := 0 to |lines|
      invariant State(queries, current, depth) == Scan(lines[..k])
    {
      ScanPrefix(lines, k);
      var line := lines[k];
      ghost var prev := State(queries, current, depth);
      StepCases(prev, line);
      var stripped := Strip(line);
      if !StartsWith(stripped, "--") {
        current := current + [line];
        depth := depth + Count(line, '(') - Count(line, ')');
        if ';' in line && depth <= 0 {
          var statement := Join(current, "\n");
          var before := Before(statement, ';');
          if Strip(before) != [] {
            queries := queries + [before];
          }
          current := [];
        }
      }
    }
    assert lines[..|lines|] == lines;
    if current != [] {
      queries := queries + [Join(current, "\n")];
    }
    qs := NonBlank(queries);
  }

  lemma ScanLast(lines: seq<string>)
    requires lines != []
    ensures Scan(lines) == Step(Scan(lines[..|lines| - 1]), lines[|lines| - 1])
  {
  }

  lemma ScanPrefix(lines: seq<string>, k: nat)
    requires k < |lines|
    ensures Scan(lines[..k + 1]) == Step(Scan(lines[..k]), lines[k])
  {
    assert lines[..k + 1][..k] == lines[..k];
  }

  // ---------------------------------------------------------------------------
  // Reference definitions
  // ---------------------------------------------------------------------------

  /** The lines `split_queries` keeps, in order. */
  function Kept(lines: seq<string>): (r: seq<string>)
    ensures |r| <= |lines|
  {
    if lines == [] then []
    else
      var last := lines[|lines| - 1];
      Kept(lines[..|lines| - 1]) + (if IsComment(last) then [] else [last])
  }

  /** The sum of `Balance` over a list of lines. */
  function TotalBalance(lines: seq<string>): int
  {
    if lines == [] then 0 else TotalBalance(lines[..|lines| - 1]) + Balance(lines[|lines| - 1])
  }

  /** No line of `q` is a comment line. */
  predicate NoCommentLine(q: string)
  {
    forall l :: l in SplitLines(q) ==> !IsComment(l)
  }

  // ---------------------------------------------------------------------------
  // Depth, buffer and closing rule
  // ---------------------------------------------------------------------------

  /**
   * The depth is the count of `(` minus `)` over every kept line so far: it is
   * never reset when a statement closes. The buffer is always the latest kept
   * lines, and all earlier statements have no `;`.
   */
  lemma {:induction false} ScanInvariant(lines: seq<string>)
    ensures Scan(lines).depth == TotalBalance(Kept(lines))
    ensures EndsWithLines(Kept(lines), Scan(lines).current)
    ensures forall q :: q in Scan(lines).queries ==> ';' !in q && Strip(q) != []
  {
    if lines != [] {
      var init := lines[..|lines| - 1];
      var last := lines[|lines| - 1];
      ScanInvariant(init);
      var st := Scan(init);
      ScanLast(lines);
      StepFacts(st, last);
      if IsComment(last) {
        assert Kept(lines) == Kept(init);
      } else {
        KeptLast(lines);
        EndsWithLinesAppend(Kept(init), st.current, last);
      }
    }
  }

  /** `Step` by cases, as the loop body reads. */
  lemma StepCases(st: State, line: string)
    ensures IsComment(line) ==> Step(st, line) == st
    ensures !IsComment(line) && !(';' in line && st.depth + Count(line, '(') - Count(line, ')') <= 0) ==>
      Step(st, line) == State(st.queries, st.current + [line], st.depth + Count(line, '(') - Count(line, ')'))
    ensures !IsComment(line) && ';' in line && st.depth + Count(line, '(') - Count(line, ')') <= 0 ==>
      var before := Before(Join(st.current + [line], "\n"), ';');
      Step(st, line) == State(if Strip(before) != [] then st.queries + [before] else st.queries, [],
                              st.depth + Count(line, '(') - Count(line, ')'))
  {
  }

  lemma StepFacts(st: State, line: string)
    ensures IsComment(line) ==> Step(st, line) == st
    ensures !IsComment(line) ==> Step(st, line).depth == st.depth + Balance(line)
    ensures !IsComment(line) ==> Step(st, line).current in {[], st.current + [line]}
    ensures forall q :: q in Step(st, line).queries ==> q in st.queries || (';' !in q && Strip(q) != [])
  {
  }

  lemma KeptLast(lines: seq<string>)
    requires lines != [] && !IsComment(lines[|lines| - 1])
    ensures Kept(lines) == Kept(lines[..|lines| - 1]) + [lines[|lines| - 1]]
    ensures TotalBalance(Kept(lines)) == TotalBalance(Kept(lines[..|lines| - 1])) + Balance(lines[|lines| - 1])
  {
    var k := Kept(lines);
    assert k[..|k| - 1] == Kept(lines[..|lines| - 1]);
  }

  lemma EndsWithLinesAppend(xs: seq<string>, ys: seq<string>, l: string)
    requires EndsWithLines(xs, ys)
    ensures EndsWithLines(xs + [l], ys + [l])
  {
    assert (xs + [l])[|xs| - |ys|..] == xs[|xs| - |ys|..] + [l];
  }

  /** `xs` ends with the lines `ys`. */
  predicate EndsWithLines(xs: seq<string>, ys: seq<string>)
  {
    |ys| <= |xs| && xs[|xs| - |ys|..] == ys
  }

  /**
   * A kept line closes the statement exactly when it holds a `;` and the depth
   * over all kept lines so far is at most zero; otherwise it joins the buffer.
   */
  lemma ClosingRule(lines: seq<string>, line: string)
    requires !IsComment(line)
    ensures Scan(lines + [line]).current == [] <==> ';' in line && TotalBalance(Kept(lines + [line])) <= 0
    ensures Scan(lines + [line]).current != [] ==> Scan(lines + [line]).current == Scan(lines).current + [line]
  {
    var ls := lines + [line];
    assert ls[..|ls| - 1] == lines;
    ScanInvariant(ls);
  }

  /**
   * A closing line emits the buffer, that line included, joined by `\n` and
   * cut before its first `;` (nothing when that is blank).
   */
  lemma ClosedStatement(lines: seq<string>, line: string)
    requires !IsComment(line) && ';' in line && TotalBalance(Kept(lines + [line])) <= 0
    ensures var emitted := Before(Join(Scan(lines).current + [line], "\n"), ';');
      StartsWith(Join(Scan(lines).current + [line], "\n"), emitted) && ';' !in emitted
      && Scan(lines + [line]).queries == Scan(lines).queries + (if Strip(emitted) != [] then [emitted] else [])
  {
    var ls := lines + [line];
    assert ls[..|ls| - 1] == lines && ls[|ls| - 1] == line;
    KeptLast(ls);
    ScanDepth(lines);
    ScanLast(ls);
    StepCloses(Scan(lines), line);
  }

  /** The depth the loop keeps is the balance of the lines it kept. */
  lemma ScanDepth(lines: seq<string>)
    ensures Scan(lines).depth == TotalBalance(Kept(lines))
  {
    ScanInvariant(lines);
  }

  /** A line with `;` that brings the depth to zero or below closes the buffer. */
  lemma StepCloses(st: State, line: string)
    requires !IsComment(line) && ';' in line && st.depth + Balance(line) <= 0
    ensures var emitted := Before(Join(st.current + [line], "\n"), ';');
      Step(st, line).queries == st.queries + (if Strip(emitted) != [] then [emitted] else [])
  {
  }

  /** A comment line changes nothing: not the buffer, not the depth. */
  lemma CommentSkipped(lines: seq<string>, line: string)
    requires IsComment(line)
    ensures Scan(lines + [line]) == Scan(lines)
  {
    var ls := lines + [line];
    assert ls[..|ls| - 1] == lines;
  }

  /**
   * The result is the statements closed by `;` in order, then the leftover
   * buffer joined by `\n` when it is not blank; every statement is non-blank.
   */
  lemma StatementsShape(raw: string)
    ensures var st := Scan(SplitLines(raw));
      var tail := if st.current != [] && Strip(Join(st.current, "\n")) != [] then [Join(st.current, "\n")] else [];
      Statements(raw) == st.queries + tail
    ensures forall q :: q in Statements(raw) ==> Strip(q) != []
  {
    var st := Scan(SplitLines(raw));
    ScanInvariant(SplitLines(raw));
    NonBlankKeeps(st.queries);
    if st.current != [] {
      NonBlankAppend(st.queries, Join(st.current, "\n"));
    }
  }

  /** The final filter keeps exactly the non-blank statements. */
  lemma {:induction false} NonBlankExact(qs: seq<string>)
    ensures forall q :: q in NonBlank(qs) <==> q in qs && Strip(q) != []
  {
    if qs != [] {
      NonBlankExact(qs[1..]);
      assert qs == [qs[0]] + qs[1..];
    }
  }

  lemma {:induction false} NonBlankKeeps(qs: seq<string>)
    requires forall q :: q in qs ==> Strip(q) != []
    ensures NonBlank(qs) == qs
  {
    if qs != [] {
      NonBlankKeeps(qs[1..]);
    }
  }

  lemma {:induction false} NonBlankAppend(qs: seq<string>, q: string)
    ensures NonBlank(qs + [q]) == NonBlank(qs) + (if Strip(q) != [] then [q] else [])
  {
    if qs == [] {
      assert [q][1..] == [];
      assert NonBlank([q]) == (if Strip(q) != [] then [q] else []) + NonBlank([]);
    } else {
      var xs := qs + [q];
      assert xs[0] == qs[0] && xs[1..] == qs[1..] + [q];
      NonBlankAppend(qs[1..], q);
    }
  }

  /** Every statement but the last was cut at a `;` and holds none. */
  lemma StatementsBeforeSemicolon(raw: string)
    ensures var qs := Statements(raw);
      forall k :: 0 <= k < |qs| - 1 ==> ';' !in qs[k]
  {
    StatementsShape(raw);
    ScanInvariant(SplitLines(raw));
    var st := Scan(SplitLines(raw));
    var qs := Statements(raw);
    forall k | 0 <= k < |qs| - 1 ensures ';' !in qs[k] {
      assert qs[k] == st.queries[k];
      assert st.queries[k] in st.queries;
    }
  }

  /** Text with no `;` at all is one statement: its kept lines, joined (or nothing when blank). */
  lemma NoSemicolonOneStatement(raw: string)
    requires ';' !in raw
    ensures var k := Join(Kept(SplitLines(raw)), "\n");
      Statements(raw) == if Strip(k) != [] then [k] else []
  {
    var lines := SplitLines(raw);
    SplitLinesChars(raw);
    NoSemicolonScan(raw, lines);
    StatementsShape(raw);
  }

  lemma {:induction false} NoSemicolonScan(raw: string, lines: seq<string>)
    requires forall l :: l in lines ==> ';' !in l
    ensures Scan(lines) == State([], Kept(lines), TotalBalance(Kept(lines)))
  {
    if lines != [] {
      var init := lines[..|lines| - 1];
      assert forall l :: l in init ==> l in lines;
      assert lines[|lines| - 1] in lines;
      NoSemicolonScan(raw, init);
      ScanInvariant(lines);
    }
  }

  // ---------------------------------------------------------------------------
  // No comment line survives
  // ---------------------------------------------------------------------------

  lemma {:induction false} LeadingSpacesAppend(p: string, t: string)
    requires LeadingSpaces(p) < |p|
    ensures LeadingSpaces(p + t) == LeadingSpaces(p)
  {
    var s := p + t;
    assert s[0] == p[0];
    if IsSpace(p[0]) {
      assert s[1..] == p[1..] + t;
      LeadingSpacesAppend(p[1..], t);
    }
  }

  /** Only leading whitespace matters for `--`: the trailing strip cannot reach it. */
  lemma CommentByLStrip(s: string)
    ensures IsComment(s) <==> StartsWith(LStrip(s), "--")
  {
    var l := LStrip(s);
    var e := TrailingStart(l);
    assert Strip(s) == l[..e];
    if StartsWith(l, "--") {
      assert !IsSpace(l[1]);
      TrailingBlank(l);
      assert l[..e][..2] == l[..2];
    }
  }

  /** A prefix of a line that is not a comment is not a comment either. */
  lemma PrefixNotComment(line: string, p: string)
    requires StartsWith(line, p) && !IsComment(line)
    ensures !IsComment(p)
  {
    CommentByLStrip(p);
    if IsComment(p) {
      PrefixDashes(line, p);
      CommentByLStrip(line);
    }
  }

  lemma PrefixDashes(line: string, p: string)
    requires StartsWith(line, p) && StartsWith(LStrip(p), "--")
    ensures StartsWith(LStrip(line), "--")
  {
    var rest := line[|p|..];
    assert line == p + rest;
    LeadingSpacesAppend(p, rest);
    var n := LeadingSpaces(p);
    assert line[n..][..2] == p[n..][..2];
  }

  lemma SplitLinesNoBreak(p: string)
    requires '\n' !in p
    ensures SplitLines(p) == if p == [] then [] else [p]
  {
  }

  lemma SplitLinesSep(a: string, b: string)
    requires '\n' !in a
    ensures SplitLines(a + "\n" + b) == [a] + SplitLines(b)
  {
    var s := a + "\n" + b;
    assert s[|a|] == '\n';
    var i := IndexOf(s, '\n');
    assert s[..|a|] == a;
    assert s[|a| + 1..] == b;
  }

  /** Every line of a prefix of lines joined by `\n` is a prefix of one of those lines. */
  lemma {:induction false} PrefixOfJoinedLines(ls: seq<string>, p: string)
    requires forall l :: l in ls ==> '\n' !in l && !IsComment(l)
    requires StartsWith(Join(ls, "\n"), p)
    ensures NoCommentLine(p)
  {
    if |ls| == 0 {
      assert p == [];
    } else if |p| <= |ls[0]| {
      JoinFirstIsPrefix(ls, "\n");
      assert ls[0] in ls;
      assert StartsWith(ls[0], p);
      assert '\n' !in p by {
        forall j | 0 <= j < |p| ensures p[j] != '\n' {
          assert p[j] == ls[0][j];
        }
      }
      SplitLinesNoBreak(p);
      PrefixNotComment(ls[0], p);
    } else {
      assert ls[0] in ls;
      assert |ls| > 1;
      var rest := Join(ls[1..], "\n");
      assert Join(ls, "\n") == ls[0] + "\n" + rest;
      var p' := p[|ls[0]| + 1..];
      assert p == ls[0] + "\n" + p';
      assert StartsWith(rest, p');
      forall l | l in ls[1..] ensures '\n' !in l && !IsComment(l) {
        assert l in ls;
      }
      PrefixOfJoinedLines(ls[1..], p');
      SplitLinesSep(ls[0], p');
    }
  }

  /** The buffer holds only kept lines, and every statement so far has no comment line. */
  lemma {:induction false} ScanNoComment(lines: seq<string>)
    requires forall l :: l in lines ==> '\n' !in l
    ensures forall l :: l in Scan(lines).current ==> '\n' !in l && !IsComment(l)
    ensures forall q :: q in Scan(lines).queries ==> NoCommentLine(q)
  {
    if lines != [] {
      var init := lines[..|lines| - 1];
      var last := lines[|lines| - 1];
      assert forall l :: l in init ==> l in lines;
      assert last in lines;
      ScanNoComment(init);
      ScanLast(lines);
      var st := Scan(init);
      StepFacts(st, last);
      if !IsComment(last) {
        var cur := st.current + [last];
        var before := Before(Join(cur, "\n"), ';');
        PrefixOfJoinedLines(cur, before);
      }
    }
  }

  /** No statement returned by `split_queries` holds a line whose stripped form starts with `--`. */
  lemma StatementsNoComment(raw: string)
    ensures forall q :: q in Statements(raw) ==> NoCommentLine(q)
  {
    var lines := SplitLines(raw);
    var st := Scan(lines);
    ScanNoComment(lines);
    if st.current != [] {
      JoinPrefixSelf(Join(st.current, "\n"));
      PrefixOfJoinedLines(st.current, Join(st.current, "\n"));
    }
    StatementsShape(raw);
  }

  lemma JoinPrefixSelf(s: string)
    ensures StartsWith(s, s)
  {
  }
}
