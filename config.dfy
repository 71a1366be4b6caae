/**
 * Configuration values of scripts/duckdb_run_script.py: JSON documents, the
 * recursive `merge_config` and the textual `substitute_variables`.
 *
 * A Python dict is an ordered association list with distinct keys: it keeps
 * insertion order, and `d[k] = v` overwrites an existing key in place.
 */
module Config {
  import opened Wrappers
  import opened Text

  /** A decoded JSON value (numbers are integers in this model). */
  datatype Value =
    | Null
    | Bool(b: bool)
    | Num(n: int)
    | Str(s: string)
    | List(items: seq<Value>)
    | Dict(entries: seq<(string, Value)>)

  /** The items of a dict, in insertion order. */
  type Entries<V> = seq<(string, V)>

  function Keys<V>(es: Entries<V>): seq<string>
  {
    if es == [] then [] else [es[0].0] + Keys(es[1..])
  }

  /** Python dicts never hold a key twice. */
  predicate UniqueKeys<V>(es: Entries<V>)
  {
    forall i, j :: 0 <= i < j < |es| ==> es[i].0 != es[j].0
  }

  /** `d.get(k)`. */
  function Get<V>(es: Entries<V>, k: string): (r: Option<V>)
    ensures r.Some? <==> k in Keys(es)
  {
    if es == [] then None
    else if es[0].0 == k then Some(es[0].1)
    else Get(es[1..], k)
  }

  /** What `get` finds is an entry of the dict. */
  lemma {:induction false} GetIn<V>(es: Entries<V>, k: string)
    ensures Get(es, k).Some? ==> (k, Get(es, k).value) in es
  {
    if es != [] && es[0].0 != k {
      GetIn(es[1..], k);
    }
  }

  /** `d[k] = v`: an existing key keeps its position, a new key goes last. */
  function Put<V>(es: Entries<V>, k: string, v: V): (r: Entries<V>)
    ensures Get(r, k) == Some(v)
    ensures forall k' :: k' != k ==> Get(r, k') == Get(es, k')
    ensures Keys(r) == if k in Keys(es) then Keys(es) else Keys(es) + [k]
  {
    if es == [] then [(k, v)]
    else if es[0].0 == k then [(k, v)] + es[1..]
    else [es[0]] + Put(es[1..], k, v)
  }

  lemma {:induction false} KeysIndex<V>(es: Entries<V>)
    ensures |Keys(es)| == |es|
    ensures forall i :: 0 <= i < |es| ==> Keys(es)[i] == es[i].0
  {
    if es != [] {
      KeysIndex(es[1..]);
    }
  }

  /** In a dict without repeated keys, each entry is what its key looks up. */
  lemma {:induction false} GetAt<V>(es: Entries<V>, i: nat)
    requires UniqueKeys(es) && i < |es|
    ensures Get(es, es[i].0) == Some(es[i].1)
  {
    if i > 0 {
      assert es[0].0 != es[i].0;
      assert es[1..][i - 1] == es[i];
      GetAt(es[1..], i - 1);
    }
  }

  lemma UniqueKeysPut<V>(es: Entries<V>, k: string, v: V)
    requires UniqueKeys(es)
    ensures UniqueKeys(Put(es, k, v))
  {
    var r := Put(es, k, v);
    KeysIndex(es);
    KeysIndex(r);
  }

  // ---------------------------------------------------------------------------
  // merge_config
  // ---------------------------------------------------------------------------

  /**
   * `merge_config(base, override)`: a copy of `base` into which every
   * override item is written in order; where both sides hold a dict for the
   * same key, the two dicts are merged recursively instead.
   */
  function MergeConfig(base: Entries<Value>, over: Entries<Value>): Entries<Value>
    decreases Dict(over)
  {
    MergeFrom(base, base, over, 0)
  }

  /** The loop of `merge_config` once override items `[0, i)` are written into `merged`. */
  function MergeFrom(merged: Entries<Value>, base: Entries<Value>, over: Entries<Value>, i: nat): Entries<Value>
    requires i <= |over|
    decreases Dict(over), |over| - i
  {
    if i == |over| then merged
    else
      var k := over[i].0;
      var v := over[i].1;
      var bv := Get(base, k);
      var nv :=
        if v.Dict? && bv.Some? && bv.value.Dict? then
          assert over[i] in over;
          Dict(MergeConfig(bv.value.entries, v.entries))
        else v;
      MergeFrom(Put(merged, k, nv), base, over, i + 1)
  }

  /** What `merge_config` leaves under key `k`, for the loop from override item `i` on. */
  lemma {:induction false} MergeFromGet(merged: Entries<Value>, base: Entries<Value>, over: Entries<Value>, i: nat, k: string)
    requires UniqueKeys(over) && i <= |over|
    ensures Get(over[i..], k).None? ==> Get(MergeFrom(merged, base, over, i), k) == Get(merged, k)
    ensures Get(over[i..], k).Some? ==>
      var v := Get(over[i..], k).value;
      var b := Get(base, k);
      Get(MergeFrom(merged, base, over, i), k) ==
        if v.Dict? && b.Some? && b.value.Dict? then Some(Dict(MergeConfig(b.value.entries, v.entries))) else Some(v)
    decreases |over| - i
  {
    if i < |over| {
      var k0 := over[i].0;
      var v := over[i].1;
      var bv := Get(base, k0);
      var nv := if v.Dict? && bv.Some? && bv.value.Dict? then Dict(MergeConfig(bv.value.entries, v.entries)) else v;
      var rest := over[i + 1..];
      assert over[i..][0] == over[i] && over[i..][1..] == rest;
      assert Get(over[i..], k) == if k == k0 then Some(v) else Get(rest, k);
      MergeFromGet(Put(merged, k0, nv), base, over, i + 1, k);
      if k == k0 {
        KeysIndex(rest);
        forall j | 0 <= j < |rest| ensures Keys(rest)[j] != k {
          assert rest[j] == over[i + 1 + j];
        }
        assert k !in Keys(rest);
      }
    }
  }

  /**
   * `merge_config(base, override)` under each key: an override key replaces the
   * base value unless both values are dicts, which are merged recursively; a key
   * the override lacks keeps its base value; no other key appears.
   */
  lemma MergeConfigGet(base: Entries<Value>, over: Entries<Value>, k: string)
    requires UniqueKeys(over)
    ensures k !in Keys(over) ==> Get(MergeConfig(base, over), k) == Get(base, k)
    ensures k in Keys(over) ==>
      var v := Get(over, k).value;
      var b := Get(base, k);
      Get(MergeConfig(base, over), k) ==
        if v.Dict? && b.Some? && b.value.Dict? then Some(Dict(MergeConfig(b.value.entries, v.entries))) else Some(v)
  {
    assert over[0..] == over;
    MergeFromGet(base, base, over, 0, k);
  }

  lemma {:induction false} MergeFromUnique(merged: Entries<Value>, base: Entries<Value>, over: Entries<Value>, i: nat)
    requires UniqueKeys(merged) && i <= |over|
    ensures UniqueKeys(MergeFrom(merged, base, over, i))
    decreases |over| - i
  {
    if i < |over| {
      var k0 := over[i].0;
      var v := over[i].1;
      var bv := Get(base, k0);
      var nv := if v.Dict? && bv.Some? && bv.value.Dict? then Dict(MergeConfig(bv.value.entries, v.entries)) else v;
      UniqueKeysPut(merged, k0, nv);
      MergeFromUnique(Put(merged, k0, nv), base, over, i + 1);
    }
  }

  /** The merged dict is again a dict: no key twice. */
  lemma MergeConfigUnique(base: Entries<Value>, over: Entries<Value>)
    requires UniqueKeys(base)
    ensures UniqueKeys(MergeConfig(base, over))
  {
    MergeFromUnique(base, base, over, 0);
  }

  /** The loop of `merge_config` keeps the keys it has and appends each new override key where it first occurs. */
  lemma {:induction false} MergeFromKeys(merged: Entries<Value>, base: Entries<Value>, over: Entries<Value>, i: nat)
    requires i <= |over|
    ensures Keys(MergeFrom(merged, base, over, i)) == Distinct(Keys(over[i..]), Keys(merged))
    decreases |over| - i
  {
    if i < |over| {
      var k0 := over[i].0;
      var v := over[i].1;
      var bv := Get(base, k0);
      var nv := if v.Dict? && bv.Some? && bv.value.Dict? then Dict(MergeConfig(bv.value.entries, v.entries)) else v;
      assert over[i..][0] == over[i] && over[i..][1..] == over[i + 1..];
      MergeFromKeys(Put(merged, k0, nv), base, over, i + 1);
    }
  }

  /**
   * The key order of `merge_config(base, override)`: the base keys in their
   * order, then the override keys the base lacks, in override order.
   */
  lemma MergeConfigKeys(base: Entries<Value>, over: Entries<Value>)
    ensures Keys(MergeConfig(base, over)) == Distinct(Keys(over), Keys(base))
  {
    assert over[0..] == over;
    MergeFromKeys(base, base, over, 0);
  }

  /** The inner dicts of the deep-merge case checked for `merge_config`: {"b": 1, "c": 2} with {"c": 3}. */
  lemma MergeConfigInnerExample()
    ensures
      var inner := MergeConfig([("b", Num(1)), ("c", Num(2))], [("c", Num(3))]);
      && Get(inner, "b") == Some(Num(1))
      && Get(inner, "c") == Some(Num(3))
  {
    var ib: Entries<Value> := [("b", Num(1)), ("c", Num(2))];
    var io: Entries<Value> := [("c", Num(3))];
    assert Keys(io) == ["c"];
    assert Get(ib, "b") == Some(Num(1));
    assert Get(io, "c") == Some(Num(3));
    MergeConfigGet(ib, io, "b");
    MergeConfigGet(ib, io, "c");
  }

  /**
   * The deep-merge case checked for `merge_config`: merging
   * {"a": {"b": 1, "c": 2}, "x": 1} with {"a": {"c": 3}, "y": 2} keeps x,
   * adds y and merges the two dicts under a.
   */
  lemma MergeConfigDeepExample()
    ensures
      var merged := MergeConfig([("a", Dict([("b", Num(1)), ("c", Num(2))])), ("x", Num(1))],
                                [("a", Dict([("c", Num(3))])), ("y", Num(2))]);
      && Get(merged, "a") == Some(Dict(MergeConfig([("b", Num(1)), ("c", Num(2))], [("c", Num(3))])))
      && Get(merged, "x") == Some(Num(1))
      && Get(merged, "y") == Some(Num(2))
  {
    var base: Entries<Value> := [("a", Dict([("b", Num(1)), ("c", Num(2))])), ("x", Num(1))];
    var over: Entries<Value> := [("a", Dict([("c", Num(3))])), ("y", Num(2))];
    assert Keys(over) == ["a", "y"];
    assert UniqueKeys(over);
    assert Get(over, "a") == Some(Dict([("c", Num(3))]));
    assert Get(over, "y") == Some(Num(2));
    assert Get(base, "a") == Some(Dict([("b", Num(1)), ("c", Num(2))]));
    assert Get(base, "x") == Some(Num(1));
    MergeConfigGet(base, over, "a");
    MergeConfigGet(base, over, "x");
    MergeConfigGet(base, over, "y");
  }

  // ---------------------------------------------------------------------------
  // substitute_variables
  // ---------------------------------------------------------------------------

  /** `substitute_variables(text, variables)`: `text.replace(var, val)` for each pair, in dict order. */
  function Substituted(text: string, vars: Entries<string>): string
    decreases |vars|
  {
    if vars == [] then text else Substituted(ReplaceAll(text, vars[0].0, vars[0].1), vars[1..])
  }

  /** The loop of `substitute_variables`, reassigning `text` once per variable. */
  method SubstituteVariables(text: string, vars: Entries<string>) returns (r: string)
    ensures r == Substituted(text, vars)
  {
    r := text;
    for i := 0 to |vars|
      invariant Substituted(r, vars[i..]) == Substituted(text, vars)
    {
      assert vars[i..][1..] == vars[i + 1..];
      r := ReplaceAll(r, vars[i].0, vars[i].1);
    }
    assert vars[|vars|..] == [];
  }

  /** A two-entry dict: the first pair, then the second. */
  lemma SubstitutedPair(text: string, a: (string, string), b: (string, string))
    ensures Substituted(text, [a, b]) == ReplaceAll(ReplaceAll(text, a.0, a.1), b.0, b.1)
  {
    var t1 := ReplaceAll(text, a.0, a.1);
    assert [a, b][0] == a && [a, b][1..] == [b];
    assert Substituted(text, [a, b]) == Substituted(t1, [b]);
    assert [b][0] == b && [b][1..] == [];
    assert Substituted(t1, [b]) == Substituted(ReplaceAll(t1, b.0, b.1), []);
  }

  /** Applying a dict is applying its first part, then the rest: order matters, nothing is simultaneous. */
  lemma {:induction false} SubstitutedAppend(text: string, a: Entries<string>, b: Entries<string>)
    ensures Substituted(text, a + b) == Substituted(Substituted(text, a), b)
    decreases |a|
  {
    if a == [] {
      assert a + b == b;
    } else {
      assert (a + b)[0] == a[0];
      assert (a + b)[1..] == a[1..] + b;
      SubstitutedAppend(ReplaceAll(text, a[0].0, a[0].1), a[1..], b);
    }
  }

  /**
   * With one variable, the text is cut at every occurrence of the name and
   * glued back with the value; the pieces in between hold no occurrence, so
   * every occurrence present in the text is replaced.
   */
  lemma SubstituteOne(text: string, name: string, val: string)
    requires |name| > 0
    ensures var ps := Pieces(text, name);
      && text == Join(ps, name)
      && Substituted(text, [(name, val)]) == Join(ps, val)
      && forall k :: 0 <= k < |ps| ==> !Occurs(name, ps[k])
  {
    PiecesJoin(text, name, val);
    PiecesFreeOfOld(text, name);
  }

  /**
   * Replacement is not a guarantee that the name is gone: new occurrences can
   * form where a value meets the surrounding text ("aab" with "ab" -> "b"
   * gives "ab").
   */
  lemma SubstituteCanReform()
    ensures Substituted("aab", [("ab", "b")]) == "ab"
  {
    var s := "aab";
    assert !StartsWith(s, "ab");
    assert s[1..] == "ab";
    assert StartsWith(s[1..], "ab");
    assert s[1..][2..] == [];
  }

  /** Values are substituted in dict order: a value that names a later variable is expanded again, not vice versa. */
  lemma SubstitutionOrderMatters()
    ensures Substituted("@a", [("@a", "@b"), ("@b", "X")]) == "X"
    ensures Substituted("@a", [("@b", "X"), ("@a", "@b")]) == "@b"
  {
    ReplaceWhole("@a", "@b");
    ReplaceWhole("@b", "X");
    assert !Occurs("@b", "@a") by {
      forall k: nat ensures !OccursAt("@b", "@a", k) {
        if k == 0 {
          assert "@a"[0..2] == "@a";
        }
      }
    }
    ReplaceAbsent("@a", "@b", "X");
    assert [("@a", "@b"), ("@b", "X")][1..] == [("@b", "X")];
    assert [("@b", "X"), ("@a", "@b")][1..] == [("@a", "@b")];
  }
}
