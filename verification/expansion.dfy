/** What `resolve_list` computes once the names it refers to are known: the
    expansion of a list of raw values against a fixed map of resolved values.
    The resolver is proved to compute exactly this against the resolved map
    it ends with. */
module Expansion {
  import opened Results
  import opened Strs
  import opened RefGrammar

  /** Resolved values by name. */
  type Env = map<string, seq<string>>

  /** The per-list replacement dictionary of `resolve_list`: reference text to
      replacement text, in insertion order. */
  type ReplaceDic = seq<(string, string)>

  /** `resolved.get(n, ())`: an unknown name has no values. */
  function Val(env: Env, n: string): (r: seq<string>)
    ensures n !in env ==> r == []
  {
    if n in env then env[n] else []
  }

  /** `k in replaceDic` */
  predicate HasKey(d: ReplaceDic, k: string) {
    exists i :: 0 <= i < |d| && d[i].0 == k
  }

  /** Every key of the dictionary is the text of a reference. */
  ghost predicate KeysAreRefs(d: ReplaceDic) {
    forall i :: 0 <= i < |d| ==> exists n :: IsName(n) && d[i].0 == RefText(n)
  }

  /** No key is listed twice, as in any dict. */
  ghost predicate KeysDistinct(d: ReplaceDic) {
    forall i, j :: 0 <= i < j < |d| ==> d[i].0 != d[j].0
  }

  /** `replace_all_from_dict(s, **d)`: `str.replace` with each entry in
      insertion order, each one working on the result of the one before. A
      text holding no reference passes through a dictionary keyed by
      reference texts unchanged. */
  function ReplaceAll(s: string, d: ReplaceDic): (r: string)
    ensures KeysAreRefs(d) && !HasRef(s) ==> r == s
    decreases |d|
  {
    if |d| == 0 then s
    else
      NoRefStep(s, d);
      ReplaceAll(Replace(s, d[0].0, d[0].1), d[1..])
  }

  /** One step of `ReplaceAll` on a text without a reference: the first key
      does not occur, and the rest of the keys are reference texts too. */
  lemma NoRefStep(s: string, d: ReplaceDic)
    requires |d| > 0
    ensures KeysAreRefs(d) && !HasRef(s) ==> Replace(s, d[0].0, d[0].1) == s && KeysAreRefs(d[1..])
  {
    if KeysAreRefs(d) && !HasRef(s) {
      assert exists n :: IsName(n) && d[0].0 == RefText(n);
      var n :| IsName(n) && d[0].0 == RefText(n);
      assert !Occurs(s, RefText(n));
      ReplaceAbsent(s, d[0].0, d[0].1);
      forall i | 0 <= i < |d[1..]|
        ensures exists m :: IsName(m) && d[1..][i].0 == RefText(m)
      {
        assert d[1..][i] == d[i + 1];
      }
    }
  }

  /** The inner loop of `resolve_list` over the tokens `toks[j..]` of one
      value: the first time a reference text is seen it is mapped to the
      referenced values joined with one space. */
  function AddRefs(d: ReplaceDic, toks: seq<Token>, j: nat, env: Env): (r: ReplaceDic)
    requires j <= |toks|
    ensures |d| <= |r| && r[..|d|] == d
    ensures forall k :: j <= k < |toks| ==> HasKey(r, RefText(toks[k].name))
    ensures forall k :: |d| <= k < |r| ==> FromToken(r[k], toks, j, env)
    ensures KeysDistinct(d) ==> KeysDistinct(r)
    decreases |toks| - j
  {
    if j == |toks| then d
    else
      var key := RefText(toks[j].name);
      if HasKey(d, key) then AddRefs(d, toks, j + 1, env)
      else
        var d' := d + [(key, Join(" ", Val(env, toks[j].name)))];
        var r := AddRefs(d', toks, j + 1, env);
        AddRefsStep(d, d', toks, j, env, r);
        r
  }

  /** The entry `resolve_list` makes for one of the tokens `toks[j..]`. */
  ghost predicate FromToken(e: (string, string), toks: seq<Token>, j: nat, env: Env) {
    exists t :: j <= t < |toks| && e == (RefText(toks[t].name), Join(" ", Val(env, toks[t].name)))
  }

  /** The facts about `AddRefs` for a new key, from those about the rest of
      the tokens. */
  lemma AddRefsStep(d: ReplaceDic, d': ReplaceDic, toks: seq<Token>, j: nat, env: Env, r: ReplaceDic)
    requires j < |toks| && !HasKey(d, RefText(toks[j].name))
    requires d' == d + [(RefText(toks[j].name), Join(" ", Val(env, toks[j].name)))]
    requires |d'| <= |r| && r[..|d'|] == d'
    requires forall k :: j + 1 <= k < |toks| ==> HasKey(r, RefText(toks[k].name))
    requires forall k :: |d'| <= k < |r| ==> FromToken(r[k], toks, j + 1, env)
    requires KeysDistinct(d') ==> KeysDistinct(r)
    ensures |d| <= |r| && r[..|d|] == d
    ensures forall k :: j <= k < |toks| ==> HasKey(r, RefText(toks[k].name))
    ensures forall k :: |d| <= k < |r| ==> FromToken(r[k], toks, j, env)
    ensures KeysDistinct(d) ==> KeysDistinct(r)
  {
    var e := (RefText(toks[j].name), Join(" ", Val(env, toks[j].name)));
    assert r[|d|] == d'[|d|] == e;
    assert r[..|d|] == r[..|d'|][..|d|];
    assert HasKey(r, e.0);
    forall k | |d| <= k < |r|
      ensures FromToken(r[k], toks, j, env)
    {
      if k == |d| {
        assert r[k] == (RefText(toks[j].name), Join(" ", Val(env, toks[j].name)));
      } else {
        assert |d'| <= k < |r|;
        var t :| j + 1 <= t < |toks| && r[k] == (RefText(toks[t].name), Join(" ", Val(env, toks[t].name)));
      }
    }
    if KeysDistinct(d) {
      forall i | 0 <= i < |d|
        ensures d'[i].0 != e.0
      {
        assert d'[i] == d[i];
      }
    }
  }

  /** `resolve_list(values[i:])` against `env`, with replacement dictionary
      `d` carried over from the values before `i`. A whole reference splices
      the referenced values; any other value becomes one item. */
  function Expand(values: seq<string>, i: nat, env: Env, d: ReplaceDic): (r: seq<string>)
    requires i <= |values|
    ensures |r| == SumWidths(values, i, env)
    decreases |values| - i
  {
    if i == |values| then []
    else match WholeRef(values[i])
      case Some(n) => Val(env, n) + Expand(values, i + 1, env, d)
      case None =>
        var d' := AddRefs(d, Scan(values[i], 0), 0, env);
        [ReplaceAll(values[i], d')] + Expand(values, i + 1, env, d')
  }

  /** The names referenced by `values[i..]`. */
  function Refs(values: seq<string>, i: nat): (names: set<string>)
    requires i <= |values|
    ensures forall j :: i <= j < |values| ==> RefNames(values[j]) <= names
    ensures forall n :: n in names ==> exists j :: i <= j < |values| && n in RefNames(values[j])
    decreases |values| - i
  {
    if i == |values| then {} else RefNames(values[i]) + Refs(values, i + 1)
  }

  /** How many items a raw value contributes. */
  function Width(v: string, env: Env): nat {
    match WholeRef(v)
    case Some(n) => |Val(env, n)|
    case None => 1
  }

  function SumWidths(values: seq<string>, i: nat, env: Env): nat
    requires i <= |values|
    decreases |values| - i
  {
    if i == |values| then 0 else Width(values[i], env) + SumWidths(values, i + 1, env)
  }

  /** One more value adds its width. */
  lemma {:induction false} SumWidthsAppend(a: seq<string>, v: string, i: nat, env: Env)
    requires i <= |a|
    ensures SumWidths(a + [v], i, env) == SumWidths(a, i, env) + Width(v, env)
    decreases |a| - i
  {
    if i < |a| {
      assert (a + [v])[i] == a[i];
      SumWidthsAppend(a, v, i + 1, env);
    } else {
      assert (a + [v])[i] == v;
    }
  }

  // ---------------------------------------------------------------------
  // Properties of the expansion

  /** Two environments that agree on the referenced names give the same
      dictionary entries. */
  lemma {:induction false} AddRefsAgree(d: ReplaceDic, toks: seq<Token>, j: nat, env1: Env, env2: Env)
    requires j <= |toks|
    requires forall k :: j <= k < |toks| ==> Val(env1, toks[k].name) == Val(env2, toks[k].name)
    ensures AddRefs(d, toks, j, env1) == AddRefs(d, toks, j, env2)
    decreases |toks| - j
  {
    if j < |toks| {
      var key := RefText(toks[j].name);
      if HasKey(d, key) {
        AddRefsAgree(d, toks, j + 1, env1, env2);
      } else {
        AddRefsAgree(d + [(key, Join(" ", Val(env1, toks[j].name)))], toks, j + 1, env1, env2);
      }
    }
  }

  /** The expansion depends on the environment only through the names the
      values reference. */
  lemma {:induction false} ExpandAgree(values: seq<string>, i: nat, env1: Env, env2: Env, d: ReplaceDic)
    requires i <= |values|
    requires forall n :: n in Refs(values, i) ==> Val(env1, n) == Val(env2, n)
    ensures Expand(values, i, env1, d) == Expand(values, i, env2, d)
    decreases |values| - i
  {
    if i < |values| {
      var v := values[i];
      assert RefNames(v) <= Refs(values, i);
      assert Refs(values, i + 1) <= Refs(values, i);
      PieceAgree(v, env1, env2, d);
      ExpandAgree(values, i + 1, env1, env2, NextDic(v, env1, d));
    }
  }

  /** The dictionary after one more value. */
  function NextDic(v: string, env: Env, d: ReplaceDic): ReplaceDic {
    match WholeRef(v)
    case Some(_) => d
    case None => AddRefs(d, Scan(v, 0), 0, env)
  }

  lemma PieceAgree(v: string, env1: Env, env2: Env, d: ReplaceDic)
    requires forall n :: n in RefNames(v) ==> Val(env1, n) == Val(env2, n)
    ensures NextDic(v, env1, d) == NextDic(v, env2, d)
    ensures WholeRef(v).Some? ==> Val(env1, WholeRef(v).value) == Val(env2, WholeRef(v).value)
  {
    if WholeRef(v).None? {
      var toks := Scan(v, 0);
      forall k | 0 <= k < |toks|
        ensures Val(env1, toks[k].name) == Val(env2, toks[k].name)
      {
        assert toks[k].name in RefNames(v);
      }
      AddRefsAgree(d, toks, 0, env1, env2);
    }
  }

  /** A value without any reference passes through unchanged, as one item. */
  lemma ExpandPassThrough(v: string, env: Env, d: ReplaceDic)
    requires KeysAreRefs(d) && !HasRef(v)
    ensures Expand([v], 0, env, d) == [v]
  {
    if WholeRef(v).Some? {
      WholeRefHasRef(v);
    }
    assert Scan(v, 0) == [];
  }

  /** A value that is one whole reference contributes the referenced
      variable's values as separate items, not joined. */
  lemma ExpandSplice(v: string, n: string, env: Env, d: ReplaceDic)
    requires IsName(n) && (v == RefText(n) || v == RefText(n) + "\n")
    ensures Expand([v], 0, env, d) == Val(env, n)
  {
    var m := WholeRef(v).value;
    if v == RefText(n) {
      WholeRefOnlyRef(v, m, n, 0);
    } else {
      assert v[..|RefText(n)|] == RefText(n);
      WholeRefOnlyRef(v, m, n, 0);
    }
  }

  /** A reference text already in the dictionary is not resolved again: when
      every remaining token's text is a key, the dictionary stays as it is. */
  lemma {:induction false} AddRefsKnown(d: ReplaceDic, toks: seq<Token>, j: nat, env: Env)
    requires j <= |toks|
    requires forall k :: j <= k < |toks| ==> HasKey(d, RefText(toks[k].name))
    ensures AddRefs(d, toks, j, env) == d
    decreases |toks| - j
  {
    if j < |toks| {
      AddRefsKnown(d, toks, j + 1, env);
    }
  }

  /** A value whose embedded references all name `n` becomes one item in
      which every occurrence of `$(n)` is replaced by the values of `n` joined
      with one space (read through `split`/`join`). */
  lemma ExpandEmbeddedOneName(v: string, n: string, env: Env)
    requires WholeRef(v).None? && |Scan(v, 0)| > 0
    requires forall k :: 0 <= k < |Scan(v, 0)| ==> Scan(v, 0)[k].name == n
    ensures Expand([v], 0, env, []) == [Join(Join(" ", Val(env, n)), Split(v, RefText(n)))]
  {
    var d1 := [(RefText(n), Join(" ", Val(env, n)))];
    OneNameDic(Scan(v, 0), n, env);
    assert Expand([v], 0, env, []) == [ReplaceAll(v, d1)] + Expand([v], 1, env, d1);
    assert ReplaceAll(v, d1) == ReplaceAll(Replace(v, RefText(n), Join(" ", Val(env, n))), []);
  }

  /** Tokens that all name `n` give a one-entry dictionary. */
  lemma OneNameDic(toks: seq<Token>, n: string, env: Env)
    requires |toks| > 0 && forall k :: 0 <= k < |toks| ==> toks[k].name == n
    ensures AddRefs([], toks, 0, env) == [(RefText(n), Join(" ", Val(env, n)))]
  {
    var d1 := [(RefText(n), Join(" ", Val(env, n)))];
    var empty: ReplaceDic := [];
    assert !HasKey(empty, RefText(n));
    assert empty + [(RefText(toks[0].name), Join(" ", Val(env, toks[0].name)))] == d1;
    assert d1[0].0 == RefText(n);
    assert forall k :: 1 <= k < |toks| ==> HasKey(d1, RefText(toks[k].name));
    AddRefsKnown(d1, toks, 1, env);
  }

  /** A reference to a name that has no resolved values contributes nothing
      when spliced and is deleted when embedded. */
  lemma UnknownNameVanishes(v: string, n: string, env: Env)
    requires n !in env
    ensures IsName(n) && (v == RefText(n) || v == RefText(n) + "\n") ==> Expand([v], 0, env, []) == []
    ensures WholeRef(v).None? && |Scan(v, 0)| > 0 && (forall k :: 0 <= k < |Scan(v, 0)| ==> Scan(v, 0)[k].name == n)
      ==> Expand([v], 0, env, []) == [Join("", Split(v, RefText(n)))]
  {
    if IsName(n) && (v == RefText(n) || v == RefText(n) + "\n") {
      ExpandSplice(v, n, env, []);
    }
    if WholeRef(v).None? && |Scan(v, 0)| > 0 && (forall k :: 0 <= k < |Scan(v, 0)| ==> Scan(v, 0)[k].name == n) {
      ExpandEmbeddedOneName(v, n, env);
    }
  }

  /** Values without any reference pass through unchanged and in order, and
      reference no name. */
  lemma {:induction false} ExpandNoRefs(values: seq<string>, i: nat, env: Env, d: ReplaceDic)
    requires i <= |values| && KeysAreRefs(d)
    requires forall j :: i <= j < |values| ==> !HasRef(values[j])
    ensures Expand(values, i, env, d) == values[i..]
    ensures Refs(values, i) == {}
    decreases |values| - i
  {
    if i < |values| {
      var v := values[i];
      NoRefNoNames(v);
      if WholeRef(v).Some? {
        WholeRefHasRef(v);
      }
      assert Scan(v, 0) == [];
      assert AddRefs(d, Scan(v, 0), 0, env) == d;
      ExpandNoRefs(values, i + 1, env, d);
      assert values[i..] == [v] + values[i + 1..];
    }
  }
}
