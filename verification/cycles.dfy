/** When `resolve` raises: only on a circular reference, never when the
    references between registered variables form no cycle, and always when
    they do. The absence of a cycle is stated as a ranking of the names in
    which every registered name a variable refers to ranks lower than the
    variable; a cycle is a path of registered names, each referring to the
    next, that comes back to where it started. */
module Cycles {
  import opened Results
  import opened Dicts
  import opened Strs
  import opened RefGrammar
  import opened Expansion
  import opened Resolver
  import opened Registries

  /** Every registered name that a variable's raw values refer to ranks
      strictly lower than the variable. */
  ghost predicate Ranked(vars: Vars, rank: map<string, nat>) {
    && vars.Keys <= rank.Keys
    && forall x, m :: x in vars && m in Refs(vars[x].values, 0) && m in vars ==> rank[m] < rank[x]
  }

  /** Every name on the stack ranks higher than `m`. */
  ghost predicate Below(rank: map<string, nat>, stack: seq<string>, m: string) {
    && m in rank
    && forall k :: 0 <= k < |stack| ==> stack[k] in rank && rank[stack[k]] > rank[m]
  }

  /** A registry whose references form no cycle resolves. */
  lemma AcyclicResolves(reg: Registry, rank: map<string, nat>)
    requires reg.vars.Valid() && Ranked(reg.vars.entries, rank)
    ensures Resolve(reg).Ok?
  {
    NamesOk(reg.vars.entries, rank, reg.vars.order, 0, Empty());
  }

  /** A registry that makes `resolve` raise has no ranking: its references
      form a cycle. */
  lemma RaisesOnlyOnCycles(reg: Registry)
    requires reg.vars.Valid() && Resolve(reg).Err?
    ensures forall rank :: !Ranked(reg.vars.entries, rank)
  {
    forall rank | Ranked(reg.vars.entries, rank)
      ensures false
    {
      AcyclicResolves(reg, rank);
    }
  }

  lemma {:induction false} NamesOk(vars: Vars, rank: map<string, nat>, order: seq<string>, i: nat, cache: Cache)
    requires i <= |order| && Ranked(vars, rank)
    requires forall k :: i <= k < |order| ==> order[k] in vars
    ensures ResolveNames(vars, order, i, cache).Ok?
    decreases |order| - i
  {
    if i < |order| {
      TopOk(vars, rank, order[i], cache);
      NamesOk(vars, rank, order, i + 1, ResolveTop(vars, order[i], cache).value);
    }
  }

  lemma TopOk(vars: Vars, rank: map<string, nat>, name: string, cache: Cache)
    requires name in vars && Ranked(vars, rank)
    ensures ResolveTop(vars, name, cache).Ok?
  {
    var stack: seq<string> := [];
    var values := vars[name].values;
    forall m | m in Refs(values, 0) && m in vars
      ensures Below(rank, stack + [name], m)
    {
    }
    ValuesOk(vars, rank, cache, stack + [name], values, 0, [], []);
  }

  lemma {:induction false} NameOk(vars: Vars, rank: map<string, nat>, cache: Cache, stack: seq<string>, name: string)
    requires Ranked(vars, rank)
    requires name in vars ==> Below(rank, stack, name)
    ensures ResolveName(vars, cache, stack, name).Ok?
    decreases Unvisited(vars, stack), 0, 0
  {
    if name !in cache.entries && name in vars {
      assert name !in stack by {
        if k :| 0 <= k < |stack| && stack[k] == name {
          assert rank[stack[k]] > rank[name];
        }
      }
      assert Unvisited(vars, stack + [name]) < Unvisited(vars, stack) by {
        assert name in Unvisited(vars, stack) && name !in Unvisited(vars, stack + [name]);
      }
      var values := vars[name].values;
      forall m | m in Refs(values, 0) && m in vars
        ensures Below(rank, stack + [name], m)
      {
        forall k | 0 <= k < |stack + [name]|
          ensures (stack + [name])[k] in rank && rank[(stack + [name])[k]] > rank[m]
        {
          if k < |stack| {
            assert (stack + [name])[k] == stack[k];
          }
        }
      }
      ValuesOk(vars, rank, cache, stack + [name], values, 0, [], []);
    }
  }

  lemma {:induction false} ValuesOk(vars: Vars, rank: map<string, nat>, cache: Cache, stack: seq<string>,
                                    values: seq<string>, i: nat, dic: ReplaceDic, out: seq<string>)
    requires i <= |values| && Ranked(vars, rank)
    requires forall m :: m in Refs(values, i) && m in vars ==> Below(rank, stack, m)
    ensures ResolveValues(vars, cache, stack, values, i, dic, out).Ok?
    decreases Unvisited(vars, stack), 2, |values| - i
  {
    if i < |values| {
      HeadRefs(values, i);
      match WholeRef(values[i])
      case Some(n) =>
        NameOk(vars, rank, cache, stack, n);
        var res := ResolveName(vars, cache, stack, n).value;
        ValuesOk(vars, rank, res.1, stack, values, i + 1, dic, out + res.0);
      case None =>
        var toks := Scan(values[i], 0);
        ScanRefs(values[i]);
        RefsOk(vars, rank, cache, stack, toks, 0, dic);
        var res := CacheRefs(vars, cache, stack, toks, 0, dic).value;
        ValuesOk(vars, rank, res.1, stack, values, i + 1, res.0, out + [ReplaceAll(values[i], res.0)]);
    }
  }

  lemma {:induction false} RefsOk(vars: Vars, rank: map<string, nat>, cache: Cache, stack: seq<string>,
                                  toks: seq<Token>, j: nat, dic: ReplaceDic)
    requires j <= |toks| && Ranked(vars, rank)
    requires forall k :: j <= k < |toks| && toks[k].name in vars ==> Below(rank, stack, toks[k].name)
    ensures CacheRefs(vars, cache, stack, toks, j, dic).Ok?
    decreases Unvisited(vars, stack), 1, |toks| - j
  {
    if j < |toks| {
      var key := RefText(toks[j].name);
      if HasKey(dic, key) {
        RefsOk(vars, rank, cache, stack, toks, j + 1, dic);
      } else {
        NameOk(vars, rank, cache, stack, toks[j].name);
        var res := ResolveName(vars, cache, stack, toks[j].name).value;
        RefsOk(vars, rank, res.1, stack, toks, j + 1, dic + [(key, Join(" ", res.0))]);
      }
    }
  }

  /** The names the first value refers to, and those of the rest, are among
      the names all of them refer to. */
  lemma HeadRefs(values: seq<string>, i: nat)
    requires i < |values|
    ensures RefNames(values[i]) <= Refs(values, i) && Refs(values, i + 1) <= Refs(values, i)
    ensures WholeRef(values[i]).Some? ==> WholeRef(values[i]).value in Refs(values, i)
  {
  }

  /** Every token the scanner finds names a reference of the value. */
  lemma ScanRefs(s: string)
    requires WholeRef(s).None?
    ensures forall k :: 0 <= k < |Scan(s, 0)| ==> Scan(s, 0)[k].name in RefNames(s)
  {
    var toks := Scan(s, 0);
    forall k | 0 <= k < |toks|
      ensures toks[k].name in RefNames(s)
    {
      assert toks[k] in toks;
    }
  }

  // ---------------------------------------------------------------------
  // A cycle makes `resolve` raise

  /** A registry whose references form a cycle makes `resolve` raise a
      circular reference. */
  lemma CycleRaises(reg: Registry, path: seq<string>)
    requires reg.vars.Valid()
    requires |path| >= 2 && path[|path| - 1] == path[0]
    requires forall k :: 0 <= k < |path| ==> path[k] in reg.vars.entries
    requires forall k :: 0 <= k < |path| - 1 ==> path[k + 1] in Refs(reg.vars.entries[path[k]].values, 0)
    ensures Resolve(reg).Err? && Resolve(reg).error.CircularReference?
  {
    var vars := reg.vars.entries;
    assert CyclePath(vars, path);
    if Resolve(reg).Ok? {
      NamesAvoid(vars, path, reg.vars.order, 0, Empty());
    }
  }

  /** Every name on the path is registered and refers to the next one, and
      the path ends where it starts. */
  ghost predicate CyclePath(vars: Vars, path: seq<string>) {
    && |path| >= 2 && path[|path| - 1] == path[0]
    && (forall k :: 0 <= k < |path| ==> path[k] in vars)
    && (forall k :: 0 <= k < |path| - 1 ==> path[k + 1] in Refs(vars[path[k]].values, 0))
  }

  /** No name on the path is resolved. */
  ghost predicate Avoids(path: seq<string>, env: Env) {
    forall k :: 0 <= k < |path| ==> path[k] !in env
  }

  /** Every name whose reference text the dictionary holds is settled. */
  ghost predicate DicSettled(vars: Vars, env: Env, dic: ReplaceDic) {
    forall m :: HasKey(dic, RefText(m)) ==> Settled(vars, env, m)
  }

  lemma {:induction false} NamesAvoid(vars: Vars, path: seq<string>, order: seq<string>, i: nat, cache: Cache)
    requires i <= |order| && forall k :: i <= k < |order| ==> order[k] in vars
    requires CyclePath(vars, path) && Avoids(path, cache.entries)
    requires ResolveNames(vars, order, i, cache).Ok?
    ensures Avoids(path, ResolveNames(vars, order, i, cache).value.entries)
    decreases |order| - i
  {
    if i < |order| {
      TopAvoids(vars, path, order[i], cache);
      NamesAvoid(vars, path, order, i + 1, ResolveTop(vars, order[i], cache).value);
    }
  }

  /** A name on the cycle never resolves: the next name on it would have to
      be resolved first. */
  lemma TopAvoids(vars: Vars, path: seq<string>, name: string, cache: Cache)
    requires name in vars && CyclePath(vars, path) && Avoids(path, cache.entries)
    requires ResolveTop(vars, name, cache).Ok?
    ensures Avoids(path, ResolveTop(vars, name, cache).value.entries)
  {
    var stack: seq<string> := [];
    var values := vars[name].values;
    ValuesAvoids(vars, path, cache, stack + [name], values, 0, [], []);
    var res := ResolveValues(vars, cache, stack + [name], values, 0, [], []).value;
    NotOnPath(vars, path, name, res.1.entries);
    AvoidsPut(path, res.1, name, res.0);
  }

  /** A registered name whose references are all settled while no name on
      the path is resolved is not on the path. */
  lemma NotOnPath(vars: Vars, path: seq<string>, name: string, env: Env)
    requires name in vars && CyclePath(vars, path) && Avoids(path, env)
    requires forall m :: m in Refs(vars[name].values, 0) ==> Settled(vars, env, m)
    ensures forall k :: 0 <= k < |path| ==> path[k] != name
  {
    forall k | 0 <= k < |path|
      ensures path[k] != name
    {
      var next := if k < |path| - 1 then k + 1 else 1;
      assert path[next] in Refs(vars[path[if k < |path| - 1 then k else 0]].values, 0);
    }
  }

  /** Storing a name that is not on the path keeps the path unresolved. */
  lemma AvoidsPut(path: seq<string>, cache: Cache, name: string, v: seq<string>)
    requires Avoids(path, cache.entries) && forall k :: 0 <= k < |path| ==> path[k] != name
    ensures Avoids(path, cache.Put(name, v).entries)
  {
  }

  lemma {:induction false} NameAvoids(vars: Vars, path: seq<string>, cache: Cache, stack: seq<string>, name: string)
    requires CyclePath(vars, path) && Avoids(path, cache.entries)
    requires ResolveName(vars, cache, stack, name).Ok?
    ensures Avoids(path, ResolveName(vars, cache, stack, name).value.1.entries)
    decreases Unvisited(vars, stack), 0, 0
  {
    if name !in cache.entries && name in vars && name !in stack {
      assert Unvisited(vars, stack + [name]) < Unvisited(vars, stack) by {
        assert name in Unvisited(vars, stack) && name !in Unvisited(vars, stack + [name]);
      }
      var values := vars[name].values;
      ValuesAvoids(vars, path, cache, stack + [name], values, 0, [], []);
      var res := ResolveValues(vars, cache, stack + [name], values, 0, [], []).value;
      NotOnPath(vars, path, name, res.1.entries);
      AvoidsPut(path, res.1, name, res.0);
    }
  }

  lemma {:induction false} ValuesAvoids(vars: Vars, path: seq<string>, cache: Cache, stack: seq<string>,
                                        values: seq<string>, i: nat, dic: ReplaceDic, out: seq<string>)
    requires i <= |values| && CyclePath(vars, path) && Avoids(path, cache.entries)
    requires DicSettled(vars, cache.entries, dic)
    requires ResolveValues(vars, cache, stack, values, i, dic, out).Ok?
    ensures var env := ResolveValues(vars, cache, stack, values, i, dic, out).value.1.entries;
      Avoids(path, env) && forall m :: m in Refs(values, i) ==> Settled(vars, env, m)
    decreases Unvisited(vars, stack), 2, |values| - i
  {
    if i < |values| {
      match WholeRef(values[i])
      case Some(n) =>
        NameAvoids(vars, path, cache, stack, n);
        var res := ResolveName(vars, cache, stack, n).value;
        ValuesAvoids(vars, path, res.1, stack, values, i + 1, dic, out + res.0);
        var r := ResolveValues(vars, res.1, stack, values, i + 1, dic, out + res.0).value;
        assert ResolveValues(vars, cache, stack, values, i, dic, out).value == r;
        SettledStep(vars, res.1.entries, r.1.entries, values, i);
      case None =>
        var toks := Scan(values[i], 0);
        RefsAvoid(vars, path, cache, stack, toks, 0, dic);
        var res := CacheRefs(vars, cache, stack, toks, 0, dic).value;
        TokensSettled(vars, res.1.entries, res.0, values[i]);
        var item := ReplaceAll(values[i], res.0);
        ValuesAvoids(vars, path, res.1, stack, values, i + 1, res.0, out + [item]);
        var r := ResolveValues(vars, res.1, stack, values, i + 1, res.0, out + [item]).value;
        assert ResolveValues(vars, cache, stack, values, i, dic, out).value == r;
        SettledStep(vars, res.1.entries, r.1.entries, values, i);
    }
  }

  /** The names of the first value, settled before the rest is resolved,
      stay settled; with those of the rest, all are settled. */
  lemma SettledStep(vars: Vars, env1: Env, env2: Env, values: seq<string>, i: nat)
    requires i < |values| && Grows(vars, env1, env2)
    requires forall m :: m in RefNames(values[i]) ==> Settled(vars, env1, m)
    requires forall m :: m in Refs(values, i + 1) ==> Settled(vars, env2, m)
    ensures forall m :: m in Refs(values, i) ==> Settled(vars, env2, m)
  {
    assert Refs(values, i) == RefNames(values[i]) + Refs(values, i + 1);
  }

  /** The names embedded in a value are settled once the dictionary holds
      all of its tokens. */
  lemma TokensSettled(vars: Vars, env: Env, dic: ReplaceDic, s: string)
    requires WholeRef(s).None? && DicSettled(vars, env, dic)
    requires forall k :: 0 <= k < |Scan(s, 0)| ==> HasKey(dic, RefText(Scan(s, 0)[k].name))
    ensures forall m :: m in RefNames(s) ==> Settled(vars, env, m)
  {
    forall m | m in RefNames(s)
      ensures Settled(vars, env, m)
    {
      var t :| t in Scan(s, 0) && t.name == m;
      var k :| 0 <= k < |Scan(s, 0)| && Scan(s, 0)[k] == t;
      assert HasKey(dic, RefText(m));
    }
  }

  lemma {:induction false} RefsAvoid(vars: Vars, path: seq<string>, cache: Cache, stack: seq<string>,
                                     toks: seq<Token>, j: nat, dic: ReplaceDic)
    requires j <= |toks| && CyclePath(vars, path) && Avoids(path, cache.entries)
    requires DicSettled(vars, cache.entries, dic)
    requires CacheRefs(vars, cache, stack, toks, j, dic).Ok?
    ensures var res := CacheRefs(vars, cache, stack, toks, j, dic).value;
      Avoids(path, res.1.entries) && DicSettled(vars, res.1.entries, res.0)
    decreases Unvisited(vars, stack), 1, |toks| - j
  {
    if j < |toks| {
      var key := RefText(toks[j].name);
      if HasKey(dic, key) {
        RefsAvoid(vars, path, cache, stack, toks, j + 1, dic);
      } else {
        NameAvoids(vars, path, cache, stack, toks[j].name);
        var res := ResolveName(vars, cache, stack, toks[j].name).value;
        var dic' := dic + [(key, Join(" ", res.0))];
        DicSettledExtend(vars, cache.entries, res.1.entries, dic, toks[j].name, Join(" ", res.0));
        RefsAvoid(vars, path, res.1, stack, toks, j + 1, dic');
      }
    }
  }

  /** Adding the entry of a settled name, in a cache that only grew, keeps
      every dictionary name settled. */
  lemma DicSettledExtend(vars: Vars, env: Env, env': Env, dic: ReplaceDic, n: string, rep: string)
    requires DicSettled(vars, env, dic) && Grows(vars, env, env') && Settled(vars, env', n)
    ensures DicSettled(vars, env', dic + [(RefText(n), rep)])
  {
    var dic' := dic + [(RefText(n), rep)];
    forall m | HasKey(dic', RefText(m))
      ensures Settled(vars, env', m)
    {
      var i :| 0 <= i < |dic'| && dic'[i].0 == RefText(m);
      if i < |dic| {
        assert HasKey(dic, RefText(m));
      } else {
        KeyNameOf(m);
        KeyNameOf(n);
      }
    }
  }
}
