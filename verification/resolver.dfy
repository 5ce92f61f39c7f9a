/** The resolution pass: `resolve_value_callback`, `resolve_list` driven by
    it, and the top-level loop of `resolve`. The registered variables are
    fixed during a pass; the cache of resolved values is threaded through the
    calls and the stack of names being resolved is a parameter, so it is the
    same after each call as before it. */
module Resolver {
  import opened Results
  import opened Dicts
  import opened Strs
  import opened RefGrammar
  import opened ConfigVars
  import opened Expansion

  /** The registered (unresolved) variables by name. */
  type Vars = map<string, ConfigVar>

  /** The resolved values by name, in insertion order. */
  type Cache = Dict<seq<string>>

  function StackSet(stack: seq<string>): set<string> {
    set x | x in stack
  }

  /** The registered names that are not being resolved: each nested
      resolution takes one of them onto the stack. */
  function Unvisited(vars: Vars, stack: seq<string>): set<string> {
    vars.Keys - StackSet(stack)
  }

  /** A name whose resolved value can no longer change in this pass: it is
      resolved already, or it is not registered (and so stays `()`). */
  ghost predicate Settled(vars: Vars, env: Env, n: string) {
    n in env || n !in vars
  }

  /** How the cache may change during a pass: entries are only added, and
      only for registered names. */
  ghost predicate Grows(vars: Vars, env: Env, env': Env) {
    && env.Keys <= env'.Keys
    && (forall k :: k in env ==> env'[k] == env[k])
    && env'.Keys <= env.Keys + vars.Keys
  }

  /** The insertion order of the cache only grows at the end. */
  ghost predicate OrderExtends(c0: Cache, c1: Cache) {
    |c0.order| <= |c1.order| && c1.order[..|c0.order|] == c0.order
  }

  /** `resolve_value_callback(name)` with `stack` as the resolve stack. */
  function ResolveName(vars: Vars, cache: Cache, stack: seq<string>, name: string): (r: Result<(seq<string>, Cache)>)
    ensures name in cache.entries ==> r == Ok((cache.entries[name], cache))
    ensures name !in cache.entries && name !in vars ==> r == Ok(([], cache))
    ensures name !in cache.entries && name in vars && name in stack ==> r == Err(CircularReference(name))
    ensures r.Ok? ==> Grows(vars, cache.entries, r.value.1.entries)
    ensures r.Ok? ==> r.value.1.entries.Keys <= cache.entries.Keys + Unvisited(vars, stack)
    ensures r.Ok? ==> Settled(vars, r.value.1.entries, name) && r.value.0 == Val(r.value.1.entries, name)
    ensures r.Ok? && cache.Valid() ==> r.value.1.Valid()
    ensures r.Ok? ==> OrderExtends(cache, r.value.1)
    ensures r.Err? ==> r.error.CircularReference? && r.error.name in vars
    decreases Unvisited(vars, stack), 0, 0
  {
    if name in cache.entries then Ok((cache.entries[name], cache))
    else if name !in vars then Ok(([], cache))
    else if name in stack then Err(CircularReference(name))
    else
      assert Unvisited(vars, stack + [name]) < Unvisited(vars, stack) by {
        assert name in Unvisited(vars, stack) && name !in Unvisited(vars, stack + [name]);
      }
      var res :- ResolveValues(vars, cache, stack + [name], vars[name].values, 0, [], []);
      Ok((res.0, res.1.Put(name, res.0)))
  }

  /** `resolve_list(values)`, from position `i` on, with the replacement
      dictionary `dic` and the items `out` produced so far. */
  function ResolveValues(vars: Vars, cache: Cache, stack: seq<string>, values: seq<string>, i: nat,
                         dic: ReplaceDic, out: seq<string>): (r: Result<(seq<string>, Cache)>)
    requires i <= |values|
    ensures r.Ok? ==> Grows(vars, cache.entries, r.value.1.entries)
    ensures r.Ok? ==> r.value.1.entries.Keys <= cache.entries.Keys + Unvisited(vars, stack)
    ensures r.Ok? ==> |out| <= |r.value.0| && r.value.0[..|out|] == out
    ensures r.Ok? && cache.Valid() ==> r.value.1.Valid()
    ensures r.Ok? ==> OrderExtends(cache, r.value.1)
    ensures r.Err? ==> r.error.CircularReference? && r.error.name in vars
    decreases Unvisited(vars, stack), 2, |values| - i
  {
    if i == |values| then Ok((out, cache))
    else match WholeRef(values[i])
      case Some(n) =>
        var res :- ResolveName(vars, cache, stack, n);
        var r := ResolveValues(vars, res.1, stack, values, i + 1, dic, out + res.0);
        if r.Ok? then
          Chain(vars, stack, cache, res.1, r.value.1, out, out + res.0, r.value.0);
          r
        else r
      case None =>
        var res :- CacheRefs(vars, cache, stack, Scan(values[i], 0), 0, dic);
        var item := ReplaceAll(values[i], res.0);
        var r := ResolveValues(vars, res.1, stack, values, i + 1, res.0, out + [item]);
        if r.Ok? then
          Chain(vars, stack, cache, res.1, r.value.1, out, out + [item], r.value.0);
          r
        else r
  }

  /** Two successive steps of a pass compose into one. */
  lemma Chain<T>(vars: Vars, stack: seq<string>, c0: Cache, c1: Cache, c2: Cache, a: seq<T>, b: seq<T>, c: seq<T>)
    requires Grows(vars, c0.entries, c1.entries) && Grows(vars, c1.entries, c2.entries)
    requires c1.entries.Keys <= c0.entries.Keys + Unvisited(vars, stack)
    requires c2.entries.Keys <= c1.entries.Keys + Unvisited(vars, stack)
    requires |a| <= |b| && b[..|a|] == a && |b| <= |c| && c[..|b|] == b
    requires c0.Valid() ==> c1.Valid()
    requires c1.Valid() ==> c2.Valid()
    requires OrderExtends(c0, c1) && OrderExtends(c1, c2)
    ensures OrderExtends(c0, c2)
    ensures Grows(vars, c0.entries, c2.entries)
    ensures c2.entries.Keys <= c0.entries.Keys + Unvisited(vars, stack)
    ensures |a| <= |c| && c[..|a|] == a
    ensures c0.Valid() ==> c2.Valid()
  {
    assert c[..|a|] == c[..|b|][..|a|];
    assert c2.order[..|c0.order|] == c2.order[..|c1.order|][..|c0.order|];
  }

  /** The `finditer` loop of `resolve_list` over the tokens `toks[j..]` of one
      value: a reference text not yet in the dictionary is resolved and its
      values joined with one space. */
  function CacheRefs(vars: Vars, cache: Cache, stack: seq<string>, toks: seq<Token>, j: nat,
                     dic: ReplaceDic): (r: Result<(ReplaceDic, Cache)>)
    requires j <= |toks|
    ensures r.Ok? ==> Grows(vars, cache.entries, r.value.1.entries)
    ensures r.Ok? ==> r.value.1.entries.Keys <= cache.entries.Keys + Unvisited(vars, stack)
    ensures r.Ok? ==> |dic| <= |r.value.0| && r.value.0[..|dic|] == dic
    ensures r.Ok? ==> forall k :: j <= k < |toks| ==> HasKey(r.value.0, RefText(toks[k].name))
    ensures r.Ok? && cache.Valid() ==> r.value.1.Valid()
    ensures r.Ok? ==> OrderExtends(cache, r.value.1)
    ensures r.Err? ==> r.error.CircularReference? && r.error.name in vars
    decreases Unvisited(vars, stack), 1, |toks| - j
  {
    if j == |toks| then Ok((dic, cache))
    else
      var key := RefText(toks[j].name);
      if HasKey(dic, key) then
        CacheRefs(vars, cache, stack, toks, j + 1, dic)
      else
        var res :- ResolveName(vars, cache, stack, toks[j].name);
        var dic' := dic + [(key, Join(" ", res.0))];
        assert dic'[|dic|].0 == key;
        var r := CacheRefs(vars, res.1, stack, toks, j + 1, dic');
        if r.Ok? then
          Chain(vars, stack, cache, res.1, r.value.1, dic, dic', r.value.0);
          assert r.value.0[|dic|] == dic'[|dic|];
          r
        else r
  }

  /** The loop of `resolve` over the registered names `order[i..]`: each is
      pushed and its values resolved again, even when it was already resolved
      on behalf of an earlier name. */
  function ResolveNames(vars: Vars, order: seq<string>, i: nat, cache: Cache): (r: Result<Cache>)
    requires i <= |order|
    requires forall k :: i <= k < |order| ==> order[k] in vars
    ensures r.Ok? ==> cache.entries.Keys <= r.value.entries.Keys <= cache.entries.Keys + vars.Keys
    ensures r.Ok? ==> forall k :: i <= k < |order| ==> order[k] in r.value.entries
    ensures r.Ok? && cache.Valid() ==> r.value.Valid()
    ensures r.Err? ==> r.error.CircularReference? && r.error.name in vars
    decreases |order| - i
  {
    if i == |order| then Ok(cache)
    else
      var next :- ResolveTop(vars, order[i], cache);
      ResolveNames(vars, order, i + 1, next)
  }

  /** One round of the loop of `resolve`: push the name, resolve its values,
      store them and pop. The check against the stack before the push can never
      fire, because the stack is empty there. */
  function ResolveTop(vars: Vars, name: string, cache: Cache): (r: Result<Cache>)
    requires name in vars
    ensures r.Ok? ==> cache.entries.Keys + {name} <= r.value.entries.Keys <= cache.entries.Keys + vars.Keys
    ensures r.Ok? && cache.Valid() ==> r.value.Valid()
    ensures r.Err? ==> r.error.CircularReference? && r.error.name in vars
  {
    var stack: seq<string> := [];
    if name in stack then Err(CircularReference(name))
    else
      var res :- ResolveValues(vars, cache, stack + [name], vars[name].values, 0, [], []);
      Ok(res.1.Put(name, res.0))
  }
}
