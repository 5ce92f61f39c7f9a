/** What a successful resolution computes: every value it returns, and every
    entry it leaves in the cache, is the expansion of the raw values against
    the cache it ends with. */
module Soundness {
  import opened Dicts
  import opened Results
  import opened Strs
  import opened RefGrammar
  import opened ConfigVars
  import opened Expansion
  import opened Resolver

  /** A replacement entry made from the current cache for a settled name. */
  ghost predicate EntryOk(vars: Vars, e: (string, string), env: Env) {
    && |e.0| >= 3
    && IsName(KeyName(e.0))
    && e.0 == RefText(KeyName(e.0))
    && e.1 == Join(" ", Val(env, KeyName(e.0)))
    && Settled(vars, env, KeyName(e.0))
  }

  ghost predicate DicOk(vars: Vars, d: ReplaceDic, env: Env) {
    forall i :: 0 <= i < |d| ==> EntryOk(vars, d[i], env)
  }

  /** Every cached entry is the expansion of its raw values against the
      cache, and every name those values reference is settled. */
  ghost predicate Coherent(vars: Vars, env: Env) {
    forall x :: x in env ==>
      && x in vars
      && env[x] == Expand(vars[x].values, 0, env, [])
      && (forall m :: m in Refs(vars[x].values, 0) ==> Settled(vars, env, m))
  }

  lemma SettledStable(vars: Vars, a: Env, b: Env, n: string)
    requires Grows(vars, a, b) && Settled(vars, a, n)
    ensures Settled(vars, b, n) && Val(a, n) == Val(b, n)
  {
  }

  lemma DicOkStable(vars: Vars, d: ReplaceDic, a: Env, b: Env)
    requires Grows(vars, a, b) && DicOk(vars, d, a)
    ensures DicOk(vars, d, b)
  {
    forall i | 0 <= i < |d|
      ensures EntryOk(vars, d[i], b)
    {
      SettledStable(vars, a, b, KeyName(d[i].0));
    }
  }

  /** Adding the entry of a name that no cached entry depends on keeps the
      cache coherent. */
  lemma CoherentExtend(vars: Vars, env: Env, name: string, out: seq<string>)
    requires Coherent(vars, env)
    requires name in vars && name !in env
    requires out == Expand(vars[name].values, 0, env, [])
    requires forall m :: m in Refs(vars[name].values, 0) ==> Settled(vars, env, m)
    ensures Coherent(vars, env[name := out])
  {
    var env' := env[name := out];
    forall x | x in env'
      ensures x in vars
      ensures env'[x] == Expand(vars[x].values, 0, env', [])
      ensures forall m :: m in Refs(vars[x].values, 0) ==> Settled(vars, env', m)
    {
      var refs := Refs(vars[x].values, 0);
      forall m | m in refs
        ensures Val(env, m) == Val(env', m)
      {
      }
      ExpandAgree(vars[x].values, 0, env, env', []);
    }
  }

  /** The token loop builds each replacement from the cache it ends with, and
      settles every name it meets. */
  lemma {:induction false} CacheRefsSound(vars: Vars, cache: Cache, stack: seq<string>, toks: seq<Token>, j: nat, dic: ReplaceDic)
    requires j <= |toks|
    requires forall k :: 0 <= k < |toks| ==> IsName(toks[k].name)
    requires DicOk(vars, dic, cache.entries)
    ensures var r := CacheRefs(vars, cache, stack, toks, j, dic);
      r.Ok? ==>
        && r.value.0 == AddRefs(dic, toks, j, r.value.1.entries)
        && DicOk(vars, r.value.0, r.value.1.entries)
        && (forall k :: j <= k < |toks| ==> Settled(vars, r.value.1.entries, toks[k].name))
        && (Coherent(vars, cache.entries) ==> Coherent(vars, r.value.1.entries))
    decreases Unvisited(vars, stack), 1, |toks| - j, 1
  {
    if j < |toks| {
      if HasKey(dic, RefText(toks[j].name)) {
        KnownRefSound(vars, cache, stack, toks, j, dic);
      } else {
        NewRefSound(vars, cache, stack, toks, j, dic);
      }
    }
  }

  lemma {:induction false} KnownRefSound(vars: Vars, cache: Cache, stack: seq<string>, toks: seq<Token>, j: nat, dic: ReplaceDic)
    requires j < |toks| && HasKey(dic, RefText(toks[j].name))
    requires forall k :: 0 <= k < |toks| ==> IsName(toks[k].name)
    requires DicOk(vars, dic, cache.entries)
    ensures var r := CacheRefs(vars, cache, stack, toks, j, dic);
      r.Ok? ==>
        && r.value.0 == AddRefs(dic, toks, j, r.value.1.entries)
        && DicOk(vars, r.value.0, r.value.1.entries)
        && (forall k :: j <= k < |toks| ==> Settled(vars, r.value.1.entries, toks[k].name))
        && (Coherent(vars, cache.entries) ==> Coherent(vars, r.value.1.entries))
    decreases Unvisited(vars, stack), 1, |toks| - j, 0
  {
    var r := CacheRefs(vars, cache, stack, toks, j, dic);
    if r.Ok? {
      var n := toks[j].name;
      var key := RefText(n);
      KeyNameOf(n);
      CacheRefsSound(vars, cache, stack, toks, j + 1, dic);
      var i :| 0 <= i < |dic| && dic[i].0 == key;
      assert EntryOk(vars, dic[i], cache.entries);
      SettledStable(vars, cache.entries, r.value.1.entries, n);
    }
  }

  lemma {:induction false} NewRefSound(vars: Vars, cache: Cache, stack: seq<string>, toks: seq<Token>, j: nat, dic: ReplaceDic)
    requires j < |toks| && !HasKey(dic, RefText(toks[j].name))
    requires forall k :: 0 <= k < |toks| ==> IsName(toks[k].name)
    requires DicOk(vars, dic, cache.entries)
    ensures var r := CacheRefs(vars, cache, stack, toks, j, dic);
      r.Ok? ==>
        && r.value.0 == AddRefs(dic, toks, j, r.value.1.entries)
        && DicOk(vars, r.value.0, r.value.1.entries)
        && (forall k :: j <= k < |toks| ==> Settled(vars, r.value.1.entries, toks[k].name))
        && (Coherent(vars, cache.entries) ==> Coherent(vars, r.value.1.entries))
    decreases Unvisited(vars, stack), 1, |toks| - j, 0
  {
    var r := CacheRefs(vars, cache, stack, toks, j, dic);
    if r.Ok? {
      var n := toks[j].name;
      var key := RefText(n);
      KeyNameOf(n);
      var res := ResolveName(vars, cache, stack, n).value;
      NameSound(vars, cache, stack, n);
      var dic' := dic + [(key, Join(" ", res.0))];
      DicOkStable(vars, dic, cache.entries, res.1.entries);
      assert DicOk(vars, dic', res.1.entries) by {
        forall i | 0 <= i < |dic'|
          ensures EntryOk(vars, dic'[i], res.1.entries)
        {
          if i < |dic| {
            assert dic'[i] == dic[i];
          }
        }
      }
      assert r == CacheRefs(vars, res.1, stack, toks, j + 1, dic');
      CacheRefsSound(vars, res.1, stack, toks, j + 1, dic');
      SettledStable(vars, res.1.entries, r.value.1.entries, n);
    }
  }

  /** `resolve_list` computes the expansion of the values against the cache
      it ends with, and settles every name they reference. */
  lemma {:induction false} ValuesSound(vars: Vars, cache: Cache, stack: seq<string>, values: seq<string>, i: nat,
                                       dic: ReplaceDic, out: seq<string>)
    requires i <= |values|
    requires DicOk(vars, dic, cache.entries)
    ensures var r := ResolveValues(vars, cache, stack, values, i, dic, out);
      r.Ok? ==>
        && r.value.0 == out + Expand(values, i, r.value.1.entries, dic)
        && (forall m :: m in Refs(values, i) ==> Settled(vars, r.value.1.entries, m))
        && (Coherent(vars, cache.entries) ==> Coherent(vars, r.value.1.entries))
    decreases Unvisited(vars, stack), 2, |values| - i, 1
  {
    if i < |values| {
      if WholeRef(values[i]).Some? {
        WholeStepSound(vars, cache, stack, values, i, dic, out);
      } else {
        EmbeddedStepSound(vars, cache, stack, values, i, dic, out);
      }
    }
  }

  lemma {:induction false} WholeStepSound(vars: Vars, cache: Cache, stack: seq<string>, values: seq<string>, i: nat,
                                          dic: ReplaceDic, out: seq<string>)
    requires i < |values| && WholeRef(values[i]).Some?
    requires DicOk(vars, dic, cache.entries)
    ensures var r := ResolveValues(vars, cache, stack, values, i, dic, out);
      r.Ok? ==>
        && r.value.0 == out + Expand(values, i, r.value.1.entries, dic)
        && (forall m :: m in Refs(values, i) ==> Settled(vars, r.value.1.entries, m))
        && (Coherent(vars, cache.entries) ==> Coherent(vars, r.value.1.entries))
    decreases Unvisited(vars, stack), 2, |values| - i, 0
  {
    var r := ResolveValues(vars, cache, stack, values, i, dic, out);
    var n := WholeRef(values[i]).value;
    if r.Ok? {
      var res := ResolveName(vars, cache, stack, n).value;
      NameSound(vars, cache, stack, n);
      DicOkStable(vars, dic, cache.entries, res.1.entries);
      assert r == ResolveValues(vars, res.1, stack, values, i + 1, dic, out + res.0);
      ValuesSound(vars, res.1, stack, values, i + 1, dic, out + res.0);
      var cf := r.value.1.entries;
      SettledStable(vars, res.1.entries, cf, n);
      assert Expand(values, i, cf, dic) == Val(cf, n) + Expand(values, i + 1, cf, dic);
      Assoc(out, res.0, Expand(values, i + 1, cf, dic));
      assert Refs(values, i) == {n} + Refs(values, i + 1);
    }
  }

  lemma {:induction false} EmbeddedStepSound(vars: Vars, cache: Cache, stack: seq<string>, values: seq<string>, i: nat,
                                             dic: ReplaceDic, out: seq<string>)
    requires i < |values| && WholeRef(values[i]).None?
    requires DicOk(vars, dic, cache.entries)
    ensures var r := ResolveValues(vars, cache, stack, values, i, dic, out);
      r.Ok? ==>
        && r.value.0 == out + Expand(values, i, r.value.1.entries, dic)
        && (forall m :: m in Refs(values, i) ==> Settled(vars, r.value.1.entries, m))
        && (Coherent(vars, cache.entries) ==> Coherent(vars, r.value.1.entries))
    decreases Unvisited(vars, stack), 2, |values| - i, 0
  {
    var r := ResolveValues(vars, cache, stack, values, i, dic, out);
    var v := values[i];
    var toks := Scan(v, 0);
    if r.Ok? {
      var res := CacheRefs(vars, cache, stack, toks, 0, dic).value;
      CacheRefsSound(vars, cache, stack, toks, 0, dic);
      var item := ReplaceAll(v, res.0);
      assert r == ResolveValues(vars, res.1, stack, values, i + 1, res.0, out + [item]);
      ValuesSound(vars, res.1, stack, values, i + 1, res.0, out + [item]);
      var cf := r.value.1.entries;
      forall k | 0 <= k < |toks|
        ensures Val(res.1.entries, toks[k].name) == Val(cf, toks[k].name)
        ensures Settled(vars, cf, toks[k].name)
      {
        SettledStable(vars, res.1.entries, cf, toks[k].name);
      }
      AddRefsAgree(dic, toks, 0, res.1.entries, cf);
      assert Expand(values, i, cf, dic) == [item] + Expand(values, i + 1, cf, res.0);
      Assoc(out, [item], Expand(values, i + 1, cf, res.0));
      assert Refs(values, i) == (set t | t in toks :: t.name) + Refs(values, i + 1);
    }
  }

  lemma {:induction false} NameSound(vars: Vars, cache: Cache, stack: seq<string>, name: string)
    ensures var r := ResolveName(vars, cache, stack, name);
      r.Ok? && Coherent(vars, cache.entries) ==> Coherent(vars, r.value.1.entries)
    decreases Unvisited(vars, stack), 0, 0, 0
  {
    var r := ResolveName(vars, cache, stack, name);
    if r.Ok? && name !in cache.entries && name in vars && name !in stack {
      assert Unvisited(vars, stack + [name]) < Unvisited(vars, stack) by {
        assert name in Unvisited(vars, stack) && name !in Unvisited(vars, stack + [name]);
      }
      var values := vars[name].values;
      var res := ResolveValues(vars, cache, stack + [name], values, 0, [], []).value;
      ValuesSound(vars, cache, stack + [name], values, 0, [], []);
      if Coherent(vars, cache.entries) {
        assert name !in res.1.entries;
        CoherentExtend(vars, res.1.entries, name, res.0);
      }
    }
  }

  /** One round of the loop of `resolve` keeps the cache coherent. When the
      name was already resolved on behalf of an earlier one, storing it again
      stores the same values. */
  lemma TopSound(vars: Vars, name: string, cache: Cache)
    requires name in vars && Coherent(vars, cache.entries)
    ensures ResolveTop(vars, name, cache).Ok? ==> Coherent(vars, ResolveTop(vars, name, cache).value.entries)
  {
    var stack: seq<string> := [];
    var values := vars[name].values;
    var r := ResolveValues(vars, cache, stack + [name], values, 0, [], []);
    if r.Ok? {
      ValuesSound(vars, cache, stack + [name], values, 0, [], []);
      var c1 := r.value.1.entries;
      assert ResolveTop(vars, name, cache).value.entries == c1[name := r.value.0];
      if name in c1 {
        assert c1[name := r.value.0] == c1;
      } else {
        CoherentExtend(vars, c1, name, r.value.0);
      }
    }
  }

  /** The loop of `resolve` keeps the cache coherent. */
  lemma {:induction false} NamesSound(vars: Vars, order: seq<string>, i: nat, cache: Cache)
    requires i <= |order| && forall k :: i <= k < |order| ==> order[k] in vars
    requires Coherent(vars, cache.entries)
    ensures ResolveNames(vars, order, i, cache).Ok? ==> Coherent(vars, ResolveNames(vars, order, i, cache).value.entries)
    decreases |order| - i
  {
    if i < |order| {
      var next := ResolveTop(vars, order[i], cache);
      if next.Ok? {
        TopSound(vars, order[i], cache);
        NamesSound(vars, order, i + 1, next.value);
      }
    }
  }

  /** With every registered name resolved, the scan of a value's tokens
      resolves nothing new and cannot fail. */
  lemma {:induction false} CompleteRefs(vars: Vars, cache: Cache, stack: seq<string>, toks: seq<Token>, j: nat, dic: ReplaceDic)
    requires j <= |toks| && vars.Keys <= cache.entries.Keys
    ensures CacheRefs(vars, cache, stack, toks, j, dic).Ok?
    ensures CacheRefs(vars, cache, stack, toks, j, dic).value.1 == cache
    decreases |toks| - j
  {
    if j < |toks| {
      var key := RefText(toks[j].name);
      if HasKey(dic, key) {
        CompleteRefs(vars, cache, stack, toks, j + 1, dic);
      } else {
        var res := ResolveName(vars, cache, stack, toks[j].name);
        assert res.Ok? && res.value.1 == cache;
        CompleteRefs(vars, cache, stack, toks, j + 1, dic + [(key, Join(" ", res.value.0))]);
      }
    }
  }

  /** With every registered name resolved, resolving a list cannot fail and
      leaves the cache as it was. */
  lemma {:induction false} CompleteValues(vars: Vars, cache: Cache, stack: seq<string>, values: seq<string>, i: nat,
                                          dic: ReplaceDic, out: seq<string>)
    requires i <= |values| && vars.Keys <= cache.entries.Keys
    ensures ResolveValues(vars, cache, stack, values, i, dic, out).Ok?
    ensures ResolveValues(vars, cache, stack, values, i, dic, out).value.1 == cache
    decreases |values| - i
  {
    if i < |values| {
      match WholeRef(values[i])
      case Some(n) =>
        var res := ResolveName(vars, cache, stack, n);
        assert res.Ok? && res.value.1 == cache;
        CompleteValues(vars, cache, stack, values, i + 1, dic, out + res.value.0);
      case None =>
        var toks := Scan(values[i], 0);
        CompleteRefs(vars, cache, stack, toks, 0, dic);
        var res := CacheRefs(vars, cache, stack, toks, 0, dic).value;
        CompleteValues(vars, cache, stack, values, i + 1, res.0, out + [ReplaceAll(values[i], res.0)]);
    }
  }

  /** Registering a variable with reference-free values that no variable
      refers to, and storing its values as resolved, keeps the cache
      coherent. */
  lemma CoherentAddUnreferenced(vars: Vars, env: Env, name: string, cv: ConfigVar)
    requires Coherent(vars, env) && name !in vars && name !in env
    requires forall x :: x in vars ==> name !in Refs(vars[x].values, 0)
    requires forall j :: 0 <= j < |cv.values| ==> !HasRef(cv.values[j])
    ensures Coherent(vars[name := cv], env[name := cv.values])
  {
    var vars' := vars[name := cv];
    var env' := env[name := cv.values];
    forall x | x in env'
      ensures x in vars'
      ensures env'[x] == Expand(vars'[x].values, 0, env', [])
      ensures forall m :: m in Refs(vars'[x].values, 0) ==> Settled(vars', env', m)
    {
      if x == name {
        ExpandNoRefs(cv.values, 0, env', []);
        assert cv.values[0..] == cv.values;
      } else {
        ExpandAgree(vars[x].values, 0, env, env', []);
      }
    }
  }
}
