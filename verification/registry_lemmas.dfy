/** Properties of the registry as a whole: what a successful `resolve`
    leaves behind, what `resolve_string` reads from a clean registry, how
    `add_const_config_variable` keeps (or fails to keep) the resolved values
    correct, and the circular references that make `resolve` raise. */
module RegistryLemmas {
  import opened Results
  import opened Dicts
  import opened Strs
  import opened RefGrammar
  import ConfigVars
  import opened Expansion
  import opened Resolver
  import opened Soundness
  import opened Registries

  /** After a successful `resolve` the registry is clean and every registered
      name holds the expansion of its raw values. */
  lemma ResolveConsistent(reg: Registry)
    requires Valid(reg)
    ensures Resolve(reg).Ok? ==> Valid(Resolve(reg).value) && Consistent(Resolve(reg).value)
  {
    NamesSound(reg.vars.entries, reg.vars.order, 0, Empty());
  }

  /** Resolving twice in a row with no change in between gives the same
      registry: `resolve` starts from an empty cache and reads only the
      registered variables. */
  lemma ResolveIdempotent(reg: Registry)
    requires reg.vars.Valid() && Resolve(reg).Ok?
    ensures Resolve(Resolve(reg).value) == Resolve(reg)
  {
  }

  /** What the reads return after a successful `resolve`: the registered
      names and nothing else, each with its expanded values. */
  lemma ResolveThenRead(reg: Registry, name: string, default: seq<string>)
    requires Valid(reg) && Resolve(reg).Ok?
    ensures var reg' := Resolve(reg).value;
      && Len(reg') == Ok(|reg.vars.order|)
      && Contains(reg', name) == Ok(name in reg.vars.entries)
      && (name in reg.vars.entries ==>
            GetItem(reg', name) == Ok(Expand(reg.vars.entries[name].values, 0, reg'.resolved.entries, [])))
      && (name !in reg.vars.entries ==> GetItem(reg', name) == Err(MissingKey(name)) && Get(reg', name, default) == Ok(default))
      && (forall n :: n in Iter(reg').value <==> n in reg.vars.entries)
  {
    var reg' := Resolve(reg).value;
    ResolveConsistent(reg);
    reg'.resolved.ValidSize();
    reg.vars.ValidSize();
    assert |reg'.resolved.entries| == |reg'.resolved.entries.Keys| == |reg.vars.entries.Keys| == |reg.vars.entries|;
  }

  /** On a clean, consistent registry `resolve_string` reads the resolved
      values only: the text is expanded against them and nothing changes. */
  lemma ResolveStringOnClean(reg: Registry, text: string, sep: string)
    requires Valid(reg) && Consistent(reg) && !reg.dirty
    ensures ResolveString(reg, text, sep) == Ok((Join(sep, Expand([text], 0, reg.resolved.entries, [])), reg))
  {
    var vars := reg.vars.entries;
    CompleteValues(vars, reg.resolved, [], [text], 0, [], []);
    ValuesSound(vars, reg.resolved, [], [text], 0, [], []);
    assert reg.(resolved := reg.resolved) == reg;
  }

  /** A clean registry stays consistent when the corrected registration adds
      a constant. */
  lemma AddConstFixedConsistent(reg: Registry, name: string, description: string, values: seq<string>)
    requires Valid(reg) && Consistent(reg)
    ensures var r := AddConstConfigVariableFixed(reg, name, description, values);
      r.Ok? ==> Valid(r.value) && Consistent(r.value)
  {
    var r := AddConstConfigVariableFixed(reg, name, description, values);
    if r.Ok? && !r.value.dirty {
      assert !ReferencedBy(reg.vars.entries, name);
      CoherentAddUnreferenced(reg.vars.entries, reg.resolved.entries, name,
                              ConfigVars.NewConstVar(name, description, values));
    }
  }

  /** The registration as written can leave a clean registry inconsistent: a
      variable whose only value is `$(c)`, resolved while `c` was unknown,
      keeps its empty result after the constant `c` is added, and the registry
      stays clean. */
  lemma AddConstLeavesStaleValues(reg: Registry, x: string, c: string, v: seq<string>)
    requires Valid(reg) && Consistent(reg) && !reg.dirty
    requires IsName(c) && c !in reg.vars.entries
    requires x in reg.vars.entries && reg.vars.entries[x].values == [RefText(c)]
    requires |v| > 0 && forall j :: 0 <= j < |v| ==> !HasRef(v[j])
    ensures var r := AddConstConfigVariable(reg, c, "", v);
      r.Ok? && !r.value.dirty && !Consistent(r.value)
  {
    var r := AddConstConfigVariable(reg, c, "", v).value;
    var env := reg.resolved.entries;
    var env' := r.resolved.entries;
    ExpandSplice(RefText(c), c, env, []);
    ExpandSplice(RefText(c), c, env', []);
    assert env'[x] == env[x] == [];
    assert Expand(r.vars.entries[x].values, 0, env', []) == v;
  }

  /** A change through an object held across `resolve` can leave a clean
      registry inconsistent: appending a value that is not one whole
      reference (so it adds exactly one resolved item) to a registered
      variable leaves it clean, while its resolved values miss that item.
      The only fact used about the registry is that its resolved list for the
      variable is the expansion of its values, as in every consistent clean
      registry. */
  lemma HeldAppendLeavesStaleValues(reg: Registry, x: string, v: string)
    requires !reg.dirty && x in reg.vars.entries && x in reg.resolved.entries
    requires reg.resolved.entries[x] == Expand(reg.vars.entries[x].values, 0, reg.resolved.entries, [])
    requires !reg.vars.entries[x].constant && WholeRef(v).None?
    ensures var r := MutateHeld(reg, x, ConfigVars.AppendOp(v));
      r.1.Ok? && !r.0.dirty && !Consistent(r.0)
  {
    var r := MutateHeld(reg, x, ConfigVars.AppendOp(v));
    var env := reg.resolved.entries;
    var before := reg.vars.entries[x].values;
    var after := r.0.vars.entries[x].values;
    assert after == before + [v];
    SumWidthsAppend(before, v, 0, env);
    assert |Expand(after, 0, env, [])| == |Expand(before, 0, env, [])| + 1;
    assert env[x] == Expand(before, 0, env, []);
  }

  /** A variable whose only value refers to itself makes `resolve` raise. */
  lemma SelfReferenceIsCircular(a: string)
    requires IsName(a)
    ensures Resolve(Registry(Dict([a], map[a := ConfigVars.NewVar(a, "", [RefText(a)])]), Empty(), true))
      == Err(CircularReference(a))
  {
    var vars := map[a := ConfigVars.NewVar(a, "", [RefText(a)])];
    var empty: Cache := Empty();
    WholeRefOfRefText(a);
    var stack: seq<string> := [];
    assert ResolveName(vars, empty, stack + [a], a) == Err(CircularReference(a));
    assert ResolveValues(vars, empty, stack + [a], [RefText(a)], 0, [], []) == Err(CircularReference(a));
    assert ResolveTop(vars, a, empty) == Err(CircularReference(a));
  }

  /** Two variables that refer to each other make `resolve` raise, on the
      first of them, while the second is being resolved on its behalf. */
  lemma MutualReferenceIsCircular(a: string, b: string)
    requires IsName(a) && IsName(b) && a != b
    ensures Resolve(Registry(Dict([a, b], map[a := ConfigVars.NewVar(a, "", [RefText(b)]), b := ConfigVars.NewVar(b, "", [RefText(a)])]),
                             Empty(), true))
      == Err(CircularReference(a))
  {
    var vars := map[a := ConfigVars.NewVar(a, "", [RefText(b)]), b := ConfigVars.NewVar(b, "", [RefText(a)])];
    var empty: Cache := Empty();
    WholeRefOfRefText(a);
    WholeRefOfRefText(b);
    var stack: seq<string> := [];
    var sa := stack + [a];
    var sab := sa + [b];
    assert ResolveName(vars, empty, sab, a) == Err(CircularReference(a));
    assert ResolveValues(vars, empty, sab, [RefText(a)], 0, [], []) == Err(CircularReference(a));
    assert ResolveName(vars, empty, sa, b) == Err(CircularReference(a));
    assert ResolveValues(vars, empty, sa, [RefText(b)], 0, [], []) == Err(CircularReference(a));
    assert ResolveTop(vars, a, empty) == Err(CircularReference(a));
  }
}
