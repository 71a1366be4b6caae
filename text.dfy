/**
 * The string operations of Python's `str` that the scripts rely on, restricted
 * to ASCII: whitespace is what `str.isspace` and the regex class `\s` accept
 * below U+0080, word characters are `[A-Za-z0-9_]`, case folding touches
 * `A`-`Z` only, and lines are split on `\n`.
 */
module Text {
  import opened Wrappers

  // ---------------------------------------------------------------------------
  // Character classes
  // ---------------------------------------------------------------------------

  /** `str.isspace()` / regex `\s` on ASCII: \t \n \v \f \r, the separators \x1c-\x1f and space. */
  predicate IsSpace(c: char)
  {
    c == ' ' || ('\t' <= c <= '\r') || ('\U{1C}' <= c <= '\U{1F}')
  }

  /** Regex `\w` on ASCII. */
  predicate IsWordChar(c: char)
  {
    ('a' <= c <= 'z') || ('A' <= c <= 'Z') || ('0' <= c <= '9') || c == '_'
  }

  function LowerChar(c: char): char
  {
    if 'A' <= c <= 'Z' then (c as int + 32) as char else c
  }

  /** `str.lower()` on ASCII letters. */
  function Lower(s: string): (r: string)
    ensures |r| == |s|
    ensures forall i :: 0 <= i < |s| ==> r[i] == LowerChar(s[i])
  {
    if s == [] then [] else [LowerChar(s[0])] + Lower(s[1..])
  }

  /** `str.upper()` on ASCII letters. */
  function UpperChar(c: char): char
  {
    if 'a' <= c <= 'z' then (c as int - 32) as char else c
  }

  function Upper(s: string): (r: string)
    ensures |r| == |s|
    ensures forall i :: 0 <= i < |s| ==> r[i] == UpperChar(s[i])
  {
    if s == [] then [] else [UpperChar(s[0])] + Upper(s[1..])
  }

  // ---------------------------------------------------------------------------
  // Prefixes, suffixes, occurrences
  // ---------------------------------------------------------------------------

  predicate StartsWith(s: string, p: string)
  {
    |p| <= |s| && s[..|p|] == p
  }

  predicate EndsWith(s: string, p: string)
  {
    |p| <= |s| && s[|s| - |p|..] == p
  }

  /** `p` occurs in `s` at index `k`. */
  predicate OccursAt(p: string, s: string, k: nat)
  {
    k + |p| <= |s| && s[k..k + |p|] == p
  }

  /** Python's `p in s` for strings. */
  ghost predicate Occurs(p: string, s: string)
  {
    exists k: nat :: OccursAt(p, s, k)
  }

  /** Case-insensitive (ASCII) literal match of `p` at index `i` of `s`, as under `re.IGNORECASE`. */
  predicate CiLitAt(s: string, i: nat, p: string)
  {
    i + |p| <= |s| && forall k :: 0 <= k < |p| ==> LowerChar(s[i + k]) == LowerChar(p[k])
  }

  /** Exact literal match of `p` at index `i` of `s`. */
  predicate LitAt(s: string, i: nat, p: string)
  {
    i + |p| <= |s| && s[i..i + |p|] == p
  }

  /** `str.count(c)` for a one-character needle. */
  function Count(s: string, c: char): nat
  {
    multiset(s)[c]
  }

  // ---------------------------------------------------------------------------
  // strip
  // ---------------------------------------------------------------------------

  predicate IsBlank(s: string)
  {
    forall i :: 0 <= i < |s| ==> IsSpace(s[i])
  }

  /** The number of whitespace characters `s` starts with. */
  function LeadingSpaces(s: string): (n: nat)
    ensures n <= |s|
    ensures n < |s| ==> !IsSpace(s[n])
  {
    if s != [] && IsSpace(s[0]) then 1 + LeadingSpaces(s[1..]) else 0
  }

  /** Where the whitespace `s` ends with begins. */
  function TrailingStart(s: string): (n: nat)
    ensures n <= |s|
    ensures n > 0 ==> !IsSpace(s[n - 1])
  {
    if s != [] && IsSpace(s[|s| - 1]) then TrailingStart(s[..|s| - 1]) else |s|
  }

  lemma {:induction false} LeadingSpacesBlank(s: string)
    ensures IsBlank(s[..LeadingSpaces(s)])
  {
    if s != [] && IsSpace(s[0]) {
      var t := s[1..];
      LeadingSpacesBlank(t);
      var n := LeadingSpaces(s);
      forall i | 0 <= i < n ensures IsSpace(s[..n][i]) {
        if i > 0 {
          assert s[..n][i] == t[..n - 1][i - 1];
        }
      }
    }
  }

  lemma {:induction false} TrailingBlank(s: string)
    ensures IsBlank(s[TrailingStart(s)..])
  {
    if s != [] && IsSpace(s[|s| - 1]) {
      var init := s[..|s| - 1];
      TrailingBlank(init);
      assert s[TrailingStart(s)..] == init[TrailingStart(init)..] + [s[|s| - 1]];
    }
  }

  /** `str.lstrip()`. */
  function LStrip(s: string): (r: string)
    ensures r == [] || !IsSpace(r[0])
  {
    s[LeadingSpaces(s)..]
  }

  /** `str.rstrip()`. */
  function RStrip(s: string): (r: string)
    ensures r == [] || !IsSpace(r[|r| - 1])
  {
    s[..TrailingStart(s)]
  }

  /** `str.strip()`: `s` minus its leading and trailing whitespace. */
  function Strip(s: string): (r: string)
    ensures |r| <= |s|
    ensures r == [] || (!IsSpace(r[0]) && !IsSpace(r[|r| - 1]))
  {
    RStrip(LStrip(s))
  }

  /** `strip` cuts only whitespace, and only at the two ends. */
  lemma StripSlice(s: string)
    ensures exists a: nat, b: nat :: a <= b <= |s| && Strip(s) == s[a..b] && IsBlank(s[..a]) && IsBlank(s[b..])
  {
    var a := LeadingSpaces(s);
    var l := s[a..];
    var e := TrailingStart(l);
    LeadingSpacesBlank(s);
    TrailingBlank(l);
    assert Strip(s) == s[a..a + e];
    assert s[a + e..] == l[e..];
  }

  /** A string strips to nothing exactly when it is all whitespace. */
  lemma StripEmptyIffBlank(s: string)
    ensures Strip(s) == [] <==> IsBlank(s)
  {
    var a := LeadingSpaces(s);
    var l := s[a..];
    if Strip(s) == [] {
      LeadingSpacesBlank(s);
      TrailingBlank(l);
      assert TrailingStart(l) == 0;
      assert l == l[0..];
      assert s == s[..a] + l;
    } else {
      assert l != [];
      assert !IsSpace(s[a]);
    }
  }

  /** Stripping twice is stripping once. */
  lemma StripIdempotent(s: string)
    ensures Strip(Strip(s)) == Strip(s)
  {
    var r := Strip(s);
    if r != [] {
      StripTrimmed(r);
    }
  }

  /** A string that neither starts nor ends with whitespace strips to itself. */
  lemma StripTrimmed(s: string)
    requires s != [] && !IsSpace(s[0]) && !IsSpace(s[|s| - 1])
    ensures Strip(s) == s
  {
    assert LeadingSpaces(s) == 0;
    assert LStrip(s) == s;
    assert TrailingStart(s) == |s|;
  }

  lemma {:induction false} LeadingSpacesBlankPrefix(pre: string, x: string)
    requires IsBlank(pre)
    ensures LeadingSpaces(pre + x) == |pre| + LeadingSpaces(x)
  {
    if pre != [] {
      var s := pre + x;
      assert s[0] == pre[0];
      assert s[1..] == pre[1..] + x;
      LeadingSpacesBlankPrefix(pre[1..], x);
    } else {
      assert pre + x == x;
    }
  }

  lemma LStripBlankPrefix(pre: string, x: string)
    requires IsBlank(pre)
    ensures LStrip(pre + x) == LStrip(x)
  {
    LeadingSpacesBlankPrefix(pre, x);
    assert (pre + x)[|pre| + LeadingSpaces(x)..] == x[LeadingSpaces(x)..];
  }

  lemma {:induction false} TrailingStartBlankSuffix(x: string, post: string)
    requires IsBlank(post)
    ensures TrailingStart(x + post) == TrailingStart(x)
  {
    if post != [] {
      var n := |post| - 1;
      var s := x + post;
      assert s[..|s| - 1] == x + post[..n];
      assert s[|s| - 1] == post[n];
      TrailingStartBlankSuffix(x, post[..n]);
    } else {
      assert x + post == x;
    }
  }

  lemma RStripBlankSuffix(x: string, post: string)
    requires IsBlank(post)
    ensures RStrip(x + post) == RStrip(x)
  {
    TrailingStartBlankSuffix(x, post);
    assert (x + post)[..TrailingStart(x)] == x[..TrailingStart(x)];
  }

  /** Whitespace around a word that neither starts nor ends with whitespace is exactly what `strip` removes. */
  lemma StripPadded(pre: string, w: string, post: string)
    requires IsBlank(pre) && IsBlank(post)
    requires w != [] && !IsSpace(w[0]) && !IsSpace(w[|w| - 1])
    ensures Strip(pre + w + post) == w
  {
    assert pre + w + post == pre + (w + post);
    LStripBlankPrefix(pre, w + post);
    assert LeadingSpaces(w + post) == 0;
    assert LStrip(w + post) == w + post;
    RStripBlankSuffix(w, post);
    assert TrailingStart(w) == |w|;
  }

  // ---------------------------------------------------------------------------
  // partition, join, splitlines
  // ---------------------------------------------------------------------------

  /** `s.partition(c)[0]`: the text before the first `c`, or all of `s` when `c` is absent. */
  function Before(s: string, c: char): (r: string)
    ensures StartsWith(s, r)
    ensures c !in r
    ensures |r| < |s| <==> c in s
    ensures |r| < |s| ==> s[|r|] == c
  {
    if s == [] then []
    else if s[0] == c then []
    else [s[0]] + Before(s[1..], c)
  }

  /** `sep.join(parts)`. */
  function Join(parts: seq<string>, sep: string): string
  {
    if |parts| == 0 then []
    else if |parts| == 1 then parts[0]
    else parts[0] + sep + Join(parts[1..], sep)
  }

  lemma JoinAppend(parts: seq<string>, p: string, sep: string)
    requires parts != []
    ensures Join(parts + [p], sep) == Join(parts, sep) + sep + p
  {
    if |parts| == 1 {
      assert parts + [p] == [parts[0], p];
    } else {
      assert (parts + [p])[1..] == parts[1..] + [p];
      JoinAppend(parts[1..], p, sep);
    }
  }

  lemma JoinCons(p: string, parts: seq<string>, sep: string)
    requires parts != []
    ensures Join([p] + parts, sep) == p + sep + Join(parts, sep)
  {
    assert ([p] + parts)[1..] == parts;
  }

  /** Prefixing the first part prefixes the joined text. */
  lemma JoinPrefixHead(a: string, parts: seq<string>, sep: string)
    requires parts != []
    ensures Join([a + parts[0]] + parts[1..], sep) == a + Join(parts, sep)
  {
    var ps := [a + parts[0]] + parts[1..];
    if |parts| > 1 {
      assert ps[1..] == parts[1..];
    }
  }

  function IndexOf(s: string, c: char): (i: nat)
    requires c in s
    ensures i < |s| && s[i] == c && c !in s[..i]
  {
    if s[0] == c then 0 else 1 + IndexOf(s[1..], c)
  }

  /** The first `c` is the one with no `c` before it. */
  lemma IndexOfUnique(s: string, c: char, j: nat)
    requires j < |s| && s[j] == c && c !in s[..j]
    ensures IndexOf(s, c) == j
  {
  }

  /** `str.splitlines()` for text whose only line break is `\n`. */
  function SplitLines(s: string): (lines: seq<string>)
    ensures forall k :: 0 <= k < |lines| ==> '\n' !in lines[k]
    ensures lines == [] <==> s == []
    decreases |s|
  {
    if s == [] then []
    else if '\n' in s then
      var i := IndexOf(s, '\n');
      [s[..i]] + SplitLines(s[i + 1..])
    else [s]
  }

  /** Joining the lines with `\n` gives the text back, less a final line break. */
  lemma {:induction false} SplitLinesRoundTrip(s: string)
    ensures Join(SplitLines(s), "\n") + (if s != [] && s[|s| - 1] == '\n' then "\n" else "") == s
    decreases |s|
  {
    if s == [] {
    } else if '\n' !in s {
      assert s[|s| - 1] in s;
    } else {
      var i := IndexOf(s, '\n');
      var rest := s[i + 1..];
      var lines := SplitLines(rest);
      assert s == s[..i] + "\n" + rest;
      assert SplitLines(s) == [s[..i]] + lines;
      if rest == [] {
        assert s[|s| - 1] == '\n';
      } else {
        SplitLinesRoundTrip(rest);
        var suffix := if rest[|rest| - 1] == '\n' then "\n" else "";
        assert s[|s| - 1] == rest[|rest| - 1];
        JoinCons(s[..i], lines, "\n");
        ConcatAssoc(s[..i] + "\n", Join(lines, "\n"), suffix);
      }
    }
  }

  /** Concatenation is associative. */
  lemma ConcatAssoc<T>(a: seq<T>, b: seq<T>, c: seq<T>)
    ensures (a + b) + c == a + (b + c)
  {
  }

  /** Every character of every line comes from the text. */
  lemma {:induction false} SplitLinesChars(s: string)
    ensures forall l, c :: l in SplitLines(s) && c in l ==> c in s
    decreases |s|
  {
    if s != [] && '\n' in s {
      var i := IndexOf(s, '\n');
      var rest := SplitLines(s[i + 1..]);
      SplitLinesChars(s[i + 1..]);
      assert SplitLines(s) == [s[..i]] + rest;
      forall l, c | l in SplitLines(s) && c in l ensures c in s {
        if l == s[..i] {
          SliceMember(s, 0, i, c);
        } else {
          assert l in rest;
          SliceMember(s, i + 1, |s|, c);
        }
      }
    }
  }

  /** What a slice holds, the whole holds. */
  lemma SliceMember<T>(s: seq<T>, a: int, b: int, x: T)
    requires 0 <= a <= b <= |s| && x in s[a..b]
    ensures x in s
  {
    var j :| 0 <= j < b - a && s[a..b][j] == x;
    assert s[a + j] == x;
  }

  // ---------------------------------------------------------------------------
  // str.replace
  // ---------------------------------------------------------------------------

  /** `"".replace("", rep)`-style insertion of `rep` before every character and at the end. */
  function InterleaveEmpty(s: string, rep: string): string
  {
    if s == [] then rep else rep + [s[0]] + InterleaveEmpty(s[1..], rep)
  }

  /** `s.replace(pat, rep)`: every leftmost non-overlapping occurrence of `pat`, scanned left to right. */
  function ReplaceAll(s: string, pat: string, rep: string): string
    decreases |s|
  {
    if |pat| == 0 then InterleaveEmpty(s, rep)
    else if s == [] then []
    else if StartsWith(s, pat) then rep + ReplaceAll(s[|pat|..], pat, rep)
    else [s[0]] + ReplaceAll(s[1..], pat, rep)
  }

  /** `s.replace(c, "")` for one character leaves no `c`. */
  lemma {:induction false} ReplaceRemovesChar(s: string, c: char)
    ensures c !in ReplaceAll(s, [c], [])
    decreases |s|
  {
    if s != [] {
      if StartsWith(s, [c]) {
        ReplaceRemovesChar(s[1..], c);
      } else {
        assert s[0] != c;
        ReplaceRemovesChar(s[1..], c);
      }
    }
  }

  /**
   * The text between the occurrences that `s.replace(pat, ...)` rewrites:
   * `s` is these pieces joined by `pat`.
   */
  function Pieces(s: string, pat: string): (ps: seq<string>)
    requires |pat| > 0
    ensures |ps| >= 1
    decreases |s|
  {
    if s == [] then [[]]
    else if StartsWith(s, pat) then [[]] + Pieces(s[|pat|..], pat)
    else
      var ps := Pieces(s[1..], pat);
      [[s[0]] + ps[0]] + ps[1..]
  }

  /** `replace` joins the pieces by `rep`. */
  lemma {:induction false} PiecesReplace(s: string, pat: string, rep: string)
    requires |pat| > 0
    ensures ReplaceAll(s, pat, rep) == Join(Pieces(s, pat), rep)
    decreases |s|
  {
    if s != [] {
      if StartsWith(s, pat) {
        var rest := s[|pat|..];
        PiecesReplace(rest, pat, rep);
        assert Pieces(s, pat) == [[]] + Pieces(rest, pat);
        JoinCons([], Pieces(rest, pat), rep);
        assert [] + rep == rep;
      } else {
        var ps := Pieces(s[1..], pat);
        PiecesReplace(s[1..], pat, rep);
        assert Pieces(s, pat) == [[s[0]] + ps[0]] + ps[1..];
        JoinPrefixHead([s[0]], ps, rep);
      }
    }
  }

  /** Replacing `pat` by itself changes nothing. */
  lemma {:induction false} ReplaceSelf(s: string, pat: string)
    requires |pat| > 0
    ensures ReplaceAll(s, pat, pat) == s
    decreases |s|
  {
    if s != [] {
      if StartsWith(s, pat) {
        ReplaceSelf(s[|pat|..], pat);
        assert s == pat + s[|pat|..];
      } else {
        ReplaceSelf(s[1..], pat);
        assert s == [s[0]] + s[1..];
      }
    }
  }

  /** The pieces joined by `pat` give back `s`, and `replace` joins the same pieces by `rep`. */
  lemma PiecesJoin(s: string, pat: string, rep: string)
    requires |pat| > 0
    ensures Join(Pieces(s, pat), pat) == s
    ensures ReplaceAll(s, pat, rep) == Join(Pieces(s, pat), rep)
  {
    PiecesReplace(s, pat, pat);
    ReplaceSelf(s, pat);
    PiecesReplace(s, pat, rep);
  }

  lemma JoinFirstIsPrefix(ps: seq<string>, sep: string)
    requires ps != []
    ensures StartsWith(Join(ps, sep), ps[0])
  {
  }

  /** No piece contains `pat`: `replace` leaves no occurrence inside the text it copies. */
  lemma {:induction false} PiecesFreeOfOld(s: string, pat: string)
    requires |pat| > 0
    ensures forall k :: 0 <= k < |Pieces(s, pat)| ==> !Occurs(pat, Pieces(s, pat)[k])
    decreases |s|
  {
    var ps := Pieces(s, pat);
    if s == [] {
      assert ps == [[]];
      assert forall k: nat :: !OccursAt(pat, [], k);
    } else if StartsWith(s, pat) {
      var rest := Pieces(s[|pat|..], pat);
      PiecesFreeOfOld(s[|pat|..], pat);
      assert ps == [[]] + rest;
      assert forall k: nat :: !OccursAt(pat, [], k);
      forall k | 0 < k < |ps| ensures !Occurs(pat, ps[k]) {
        assert ps[k] == rest[k - 1];
      }
    } else {
      var rest := Pieces(s[1..], pat);
      PiecesFreeOfOld(s[1..], pat);
      var first := [s[0]] + rest[0];
      assert ps == [first] + rest[1..];
      FirstPieceFree(s, pat, rest);
      forall k | 0 < k < |ps| ensures !Occurs(pat, ps[k]) {
        assert ps[k] == rest[k];
      }
    }
  }

  /** The first piece, when `s` does not start with `pat`: it extends a piece of `s[1..]` that is free of `pat`. */
  lemma FirstPieceFree(s: string, pat: string, rest: seq<string>)
    requires |pat| > 0 && s != [] && !StartsWith(s, pat)
    requires rest == Pieces(s[1..], pat) && !Occurs(pat, rest[0])
    ensures !Occurs(pat, [s[0]] + rest[0])
  {
    PiecesReplace(s[1..], pat, pat);
    ReplaceSelf(s[1..], pat);
    JoinFirstIsPrefix(rest, pat);
    ConsFree(s, rest[0], pat);
  }

  /** A string `c + t` that starts `s` holds `pat` only at 0 or where `t` holds it. */
  lemma ConsFree(s: string, t: string, pat: string)
    requires s != [] && StartsWith(s[1..], t) && !StartsWith(s, pat) && !Occurs(pat, t)
    ensures !Occurs(pat, [s[0]] + t)
  {
    var first := [s[0]] + t;
    forall k: nat | OccursAt(pat, first, k)
      ensures false
    {
      if k > 0 {
        assert first[k..k + |pat|] == t[k - 1..k - 1 + |pat|];
        assert OccursAt(pat, t, k - 1);
      }
    }
  }

  /** Without an occurrence of `pat`, `replace` changes nothing. */
  lemma {:induction false} ReplaceAbsent(s: string, pat: string, rep: string)
    requires |pat| > 0 && !Occurs(pat, s)
    ensures ReplaceAll(s, pat, rep) == s
    decreases |s|
  {
    if s != [] {
      assert !OccursAt(pat, s, 0);
      forall k: nat | OccursAt(pat, s[1..], k) ensures OccursAt(pat, s, k + 1) {
        assert s[1..][k..k + |pat|] == s[k + 1..k + 1 + |pat|];
      }
      ReplaceAbsent(s[1..], pat, rep);
    }
  }

  /** A string that is exactly `pat` becomes exactly `rep`. */
  lemma ReplaceWhole(pat: string, rep: string)
    requires |pat| > 0
    ensures ReplaceAll(pat, pat, rep) == rep
  {
    assert pat[|pat|..] == [];
  }

  /** `replace` works on each side of a seam that no occurrence of `pat` straddles. */
  lemma {:induction false} ReplaceSplit(a: string, s: string, pat: string, rep: string)
    requires |pat| > 0
    requires forall k :: 0 <= k < |a| < k + |pat| ==> !OccursAt(pat, a + s, k)
    ensures ReplaceAll(a + s, pat, rep) == ReplaceAll(a, pat, rep) + ReplaceAll(s, pat, rep)
    decreases |a|
  {
    if a == [] {
      assert a + s == s;
    } else {
      // Both scans take the same step at the front: `pat` when it starts `a`, else one character.
      var d := if StartsWith(a + s, pat) then |pat| else 1;
      if StartsWith(a + s, pat) {
        assert OccursAt(pat, a + s, 0);
      }
      assert |pat| <= |a| ==> a[..|pat|] == (a + s)[..|pat|];
      NoStraddleShift(a, s, pat, d);
      assert (a + s)[d..] == a[d..] + s;
      ReplaceSplit(a[d..], s, pat, rep);
    }
  }

  /** Dropping `d` characters from the front keeps the seam free of straddling occurrences. */
  lemma NoStraddleShift(a: string, s: string, pat: string, d: nat)
    requires 0 < d <= |a|
    requires forall k :: 0 <= k < |a| < k + |pat| ==> !OccursAt(pat, a + s, k)
    ensures forall k :: 0 <= k < |a| - d < k + |pat| ==> !OccursAt(pat, a[d..] + s, k)
  {
    forall k | 0 <= k < |a| - d < k + |pat| ensures !OccursAt(pat, a[d..] + s, k) {
      assert !OccursAt(pat, a + s, k + d);
      if k + |pat| <= |a[d..] + s| {
        assert (a[d..] + s)[k..k + |pat|] == (a + s)[k + d..k + d + |pat|];
      }
    }
  }

  /**
   * No occurrence of `p` that starts in `x` reaches into `q + y` when no
   * proper suffix of `p` begins with the first two characters of `q`.
   */
  lemma NoStraddle(x: string, q: string, y: string, p: string)
    requires |q| >= 2
    requires forall j :: 0 < j < |p| ==> p[j] != q[0] || (j + 1 < |p| && p[j + 1] != q[1])
    ensures forall k :: 0 <= k < |x| < k + |p| ==> !OccursAt(p, x + (q + y), k)
  {
    var t := x + (q + y);
    forall k | 0 <= k < |x| < k + |p| ensures !OccursAt(p, t, k) {
      if k + |p| <= |t| {
        var j := |x| - k;
        var w := t[k..k + |p|];
        assert w[j] == t[|x|] == q[0];
        if p[j] == q[0] {
          assert j + 1 < |p| && p[j + 1] != q[1];
          assert w[j + 1] == t[|x| + 1] == q[1];
        }
        assert w[j] != p[j] || w[j + 1] != p[j + 1];
      }
    }
  }

  /** Every character of the result comes from `s` or from `rep`. */
  lemma {:induction false} ReplaceChars(s: string, pat: string, rep: string)
    requires |pat| > 0
    ensures forall c :: c in ReplaceAll(s, pat, rep) ==> c in s || c in rep
    decreases |s|
  {
    if s != [] {
      if StartsWith(s, pat) {
        ReplaceChars(s[|pat|..], pat, rep);
      } else {
        ReplaceChars(s[1..], pat, rep);
      }
    }
  }

  // ---------------------------------------------------------------------------
  // Quoting: '...' literals and "..." identifiers
  // ---------------------------------------------------------------------------

  /** Every `q` in `s` doubled (`s.replace(q, q + q)`). */
  function Double(s: string, q: char): string
  {
    if s == [] then []
    else if s[0] == q then [q, q] + Double(s[1..], q)
    else [s[0]] + Double(s[1..], q)
  }

  /** Doubling adds one character per quote. */
  lemma {:induction false} DoubleLength(s: string, q: char)
    ensures |Double(s, q)| == |s| + Count(s, q)
  {
    if s != [] {
      DoubleLength(s[1..], q);
      assert s == [s[0]] + s[1..];
      assert multiset(s) == multiset{s[0]} + multiset(s[1..]);
    }
  }

  /** `q + s.replace(q, q + q) + q`: the SQL quoting of a string literal (`'`) or identifier (`"`). */
  function Quote(s: string, q: char): string
  {
    [q] + Double(s, q) + [q]
  }

  /** Reads a doubled body back; `None` when a lone `q` appears. */
  function Undouble(t: string, q: char): Option<string>
  {
    if t == [] then Some([])
    else if t[0] != q then
      match Undouble(t[1..], q)
      case Some(r) => Some([t[0]] + r)
      case None => None
    else if |t| >= 2 && t[1] == q then
      match Undouble(t[2..], q)
      case Some(r) => Some([q] + r)
      case None => None
    else None
  }

  /** The SQL reader of a quoted token: strip the outer quotes and collapse each doubled quote. */
  function Unquote(t: string, q: char): Option<string>
  {
    if |t| >= 2 && t[0] == q && t[|t| - 1] == q then Undouble(t[1..|t| - 1], q) else None
  }

  lemma {:induction false} UndoubleDouble(s: string, q: char)
    ensures Undouble(Double(s, q), q) == Some(s)
  {
    if s != [] {
      var d := Double(s, q);
      var r := Double(s[1..], q);
      UndoubleDouble(s[1..], q);
      if s[0] == q {
        assert d == [q, q] + r;
        assert d[0] == q && d[1] == q && d[2..] == r;
      } else {
        assert d == [s[0]] + r;
        assert d[0] != q && d[1..] == r;
      }
      assert s == [s[0]] + s[1..];
    }
  }

  /** Quoting adds two quotes plus one per embedded quote, and reading the token back recovers `s`. */
  lemma QuoteRoundTrip(s: string, q: char)
    ensures |Quote(s, q)| == |s| + 2 + Count(s, q)
    ensures Unquote(Quote(s, q), q) == Some(s)
  {
    var t := Quote(s, q);
    DoubleLength(s, q);
    assert t[1..|t| - 1] == Double(s, q);
    UndoubleDouble(s, q);
  }

  // ---------------------------------------------------------------------------
  // Ordering: Python compares strings by code point, a prefix first
  // ---------------------------------------------------------------------------

  predicate LexLe(a: string, b: string)
  {
    a == [] || (b != [] && (a[0] < b[0] || (a[0] == b[0] && LexLe(a[1..], b[1..]))))
  }

  lemma {:induction false} LexLeTotal(a: string, b: string)
    ensures LexLe(a, b) || LexLe(b, a)
  {
    if a != [] && b != [] && a[0] == b[0] {
      LexLeTotal(a[1..], b[1..]);
    }
  }

  lemma {:induction false} LexLeTrans(a: string, b: string, c: string)
    requires LexLe(a, b) && LexLe(b, c)
    ensures LexLe(a, c)
  {
    if a != [] && b != [] && c != [] && a[0] == b[0] && b[0] == c[0] {
      LexLeTrans(a[1..], b[1..], c[1..]);
    }
  }

  predicate Sorted(xs: seq<string>)
  {
    forall i, j :: 0 <= i < j < |xs| ==> LexLe(xs[i], xs[j])
  }

  function Insert(x: string, xs: seq<string>): (r: seq<string>)
    requires Sorted(xs)
    ensures Sorted(r) && multiset(r) == multiset(xs) + multiset{x}
  {
    if xs == [] then [x]
    else if LexLe(x, xs[0]) then
      forall j | 0 <= j < |xs| ensures LexLe(x, xs[j]) { if j > 0 { LexLeTrans(x, xs[0], xs[j]); } }
      SortedCons(x, xs);
      [x] + xs
    else
      var rest := Insert(x, xs[1..]);
      InsertBehind(x, xs, rest);
      [xs[0]] + rest
  }

  lemma SortedCons(y: string, ys: seq<string>)
    requires Sorted(ys) && forall j :: 0 <= j < |ys| ==> LexLe(y, ys[j])
    ensures Sorted([y] + ys)
  {
  }

  lemma InsertBehind(x: string, xs: seq<string>, rest: seq<string>)
    requires Sorted(xs) && xs != [] && !LexLe(x, xs[0])
    requires Sorted(rest) && multiset(rest) == multiset(xs[1..]) + multiset{x}
    ensures Sorted([xs[0]] + rest) && multiset([xs[0]] + rest) == multiset(xs) + multiset{x}
  {
    LexLeTotal(x, xs[0]);
    assert xs == [xs[0]] + xs[1..];
    forall j | 0 <= j < |rest| ensures LexLe(xs[0], rest[j]) {
      assert rest[j] in multiset(rest);
      if rest[j] != x {
        assert rest[j] in multiset(xs[1..]);
        var i :| 0 <= i < |xs[1..]| && xs[1..][i] == rest[j];
        assert xs[i + 1] == rest[j];
      }
    }
    SortedCons(xs[0], rest);
  }

  /** `sorted(xs)`: ascending by code point, the same strings with the same multiplicities. */
  function Sort(xs: seq<string>): (r: seq<string>)
    ensures Sorted(r) && multiset(r) == multiset(xs)
  {
    if xs == [] then []
    else
      assert xs == [xs[0]] + xs[1..];
      Insert(xs[0], Sort(xs[1..]))
  }

  // ---------------------------------------------------------------------------
  // First appearances: what a dict's keys or a dedup loop keep
  // ---------------------------------------------------------------------------

  /** `seen`, then the elements of `xs` not seen before, each once, in the order they first appear. */
  function Distinct<T(==)>(xs: seq<T>, seen: seq<T>): seq<T>
    decreases |xs|
  {
    if xs == [] then seen
    else if xs[0] in seen then Distinct(xs[1..], seen)
    else Distinct(xs[1..], seen + [xs[0]])
  }

  /** What was already seen stays in front, in its order. */
  lemma {:induction false} DistinctPrefix<T>(xs: seq<T>, seen: seq<T>)
    ensures |seen| <= |Distinct(xs, seen)|
    ensures Distinct(xs, seen)[..|seen|] == seen
    decreases |xs|
  {
    if xs != [] {
      var next := if xs[0] in seen then seen else seen + [xs[0]];
      DistinctPrefix(xs[1..], next);
      assert next[..|seen|] == seen;
    }
  }

  /** `xs` is `ys` with some elements left out and the rest kept in order. */
  predicate Subsequence<T(==)>(xs: seq<T>, ys: seq<T>)
    decreases |ys|
  {
    xs == [] || (ys != [] && ((xs[0] == ys[0] && Subsequence(xs[1..], ys[1..])) || Subsequence(xs, ys[1..])))
  }

  // ---------------------------------------------------------------------------
  // Path names
  // ---------------------------------------------------------------------------

  /** One component of a path as `PurePath` keeps it: `.` names nothing. */
  function Component(c: string): string
  {
    if c == "." then "" else c
  }

  /**
   * `PurePath(path).name`: the last component of a `/`-separated path once
   * empty and `.` components are dropped, or `""` when none is left.
   */
  function BaseName(path: string): (name: string)
    ensures '/' !in name && name != "."
    decreases |path|
  {
    if '/' in path then
      var i := IndexOf(path, '/');
      var rest := BaseName(path[i + 1..]);
      if rest != "" then rest else Component(path[..i])
    else Component(path)
  }

  /** A plain file name is its own last component. */
  lemma BaseNamePlain(name: string)
    requires '/' !in name && name != "."
    ensures BaseName(name) == name
  {
  }

  /** A trailing `/` or `/.` names no further component: `PurePath` drops both. */
  lemma {:induction false} BaseNameTrailing(path: string)
    ensures BaseName(path + "/") == BaseName(path)
    ensures BaseName(path + "/.") == BaseName(path)
    decreases |path|
  {
    var i := if '/' in path then IndexOf(path, '/') else |path|;
    assert (path + "/")[..i] == path[..i] && (path + "/.")[..i] == path[..i];
    IndexOfUnique(path + "/", '/', i);
    IndexOfUnique(path + "/.", '/', i);
    if '/' in path {
      assert (path + "/")[i + 1..] == path[i + 1..] + "/";
      assert (path + "/.")[i + 1..] == path[i + 1..] + "/.";
      BaseNameTrailing(path[i + 1..]);
    } else {
      assert (path + "/")[i + 1..] == "" && (path + "/.")[i + 1..] == ".";
      assert path[..i] == path;
    }
  }

  /** Index of the last `c` in `s` (`str.rfind`), or -1. */
  function RFind(s: string, c: char): (i: int)
    ensures -1 <= i < |s|
    ensures i >= 0 ==> s[i] == c
    ensures forall j :: i < j < |s| ==> s[j] != c
  {
    if s == [] then -1
    else if s[|s| - 1] == c then |s| - 1
    else RFind(s[..|s| - 1], c)
  }

  /** `PurePath(path).stem`: the final component less its last suffix (a leading or trailing dot is no suffix). */
  function Stem(path: string): (r: string)
  {
    var name := BaseName(path);
    var i := RFind(name, '.');
    if 0 < i < |name| - 1 then name[..i] else name
  }

  /** The stem of a path does not change when a trailing `/` or `/.` is added. */
  lemma StemTrailing(path: string)
    ensures Stem(path + "/") == Stem(path) && Stem(path + "/.") == Stem(path)
  {
    BaseNameTrailing(path);
  }
}
