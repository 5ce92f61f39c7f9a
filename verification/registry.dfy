/** `ConfigVarList`: the registry of configuration variables. It holds the
    registered (raw) variables, the resolved values and a dirty flag that is
    set whenever a variable may have changed since the last resolution. Every
    operation takes the registry and returns the new one. */
module Registries {
  import opened Results
  import opened Dicts
  import opened Strs
  import opened RefGrammar
  import opened ConfigVars
  import opened Expansion
  import opened Resolver
  import opened Soundness

  /** `_ConfigVar_objs`, `_resolved_vars` and `__dirty`. */
  datatype Registry = Registry(vars: Dict<ConfigVar>, resolved: Dict<seq<string>>, dirty: bool)

  /** Both dictionaries are well formed and every variable is registered
      under its own name. */
  ghost predicate Valid(reg: Registry) {
    && reg.vars.Valid()
    && reg.resolved.Valid()
    && (forall n :: n in reg.vars.entries ==> reg.vars.entries[n].name == n)
  }

  /** What the dirty flag promises when it is clear: exactly the registered
      names are resolved, each to the expansion of its raw values against the
      resolved values. */
  ghost predicate Consistent(reg: Registry) {
    !reg.dirty ==>
      && reg.resolved.entries.Keys == reg.vars.entries.Keys
      && Coherent(reg.vars.entries, reg.resolved.entries)
  }

  /** `ConfigVarList()` */
  function NewRegistry(): (reg: Registry)
    ensures Valid(reg) && Consistent(reg) && !reg.dirty
    ensures reg.vars.entries == map[] && reg.resolved.entries == map[]
  {
    Registry(Empty(), Empty(), false)
  }

  // ---------------------------------------------------------------------
  // Reads of the resolved values: each raises while the registry is dirty

  /** `len(reg)` */
  function Len(reg: Registry): (r: Result<nat>)
    ensures reg.dirty <==> r == Err(NotResolved)
    ensures r.Ok? && reg.resolved.Valid() ==> r.value == |reg.resolved.order|
  {
    if reg.dirty then Err(NotResolved) else Ok(reg.resolved.Size())
  }

  /** `reg[name]`: an unknown name raises. */
  function GetItem(reg: Registry, name: string): (r: Result<seq<string>>)
    ensures reg.dirty <==> r == Err(NotResolved)
    ensures !reg.dirty && name !in reg.resolved.entries <==> r == Err(MissingKey(name))
    ensures r.Ok? <==> !reg.dirty && name in reg.resolved.entries
    ensures r.Ok? ==> r.value == reg.resolved.entries[name]
  {
    if reg.dirty then Err(NotResolved)
    else if name in reg.resolved.entries then Ok(reg.resolved.entries[name])
    else Err(MissingKey(name))
  }

  /** `reg.get(name, default)` */
  function Get(reg: Registry, name: string, default: seq<string>): (r: Result<seq<string>>)
    ensures reg.dirty <==> r == Err(NotResolved)
    ensures r.Ok? && name in reg.resolved.entries ==> r.value == reg.resolved.entries[name]
    ensures r.Ok? && name !in reg.resolved.entries ==> r.value == default
  {
    if reg.dirty then Err(NotResolved)
    else if name in reg.resolved.entries then Ok(reg.resolved.entries[name])
    else Ok(default)
  }

  /** `iter(reg)`: the resolved names in the order they were resolved. */
  function Iter(reg: Registry): (r: Result<seq<string>>)
    ensures reg.dirty <==> r == Err(NotResolved)
    ensures r.Ok? && reg.resolved.Valid() ==> forall n :: n in r.value <==> n in reg.resolved.entries
  {
    if reg.dirty then Err(NotResolved) else Ok(reg.resolved.order)
  }

  /** `reversed(reg)` */
  function ReversedNames(reg: Registry): (r: Result<seq<string>>)
    ensures reg.dirty <==> r == Err(NotResolved)
    ensures r.Ok? ==> r.value == Reverse(Iter(reg).value)
  {
    if reg.dirty then Err(NotResolved) else Ok(Reverse(reg.resolved.order))
  }

  /** `name in reg` */
  function Contains(reg: Registry, name: string): (r: Result<bool>)
    ensures reg.dirty <==> r == Err(NotResolved)
    ensures r.Ok? ==> (r.value <==> GetItem(reg, name).Ok?)
  {
    if reg.dirty then Err(NotResolved)
    else if name in reg.resolved.entries then Ok(true)
    else Ok(false)
  }

  // ---------------------------------------------------------------------
  // Registration

  /** `get_configVar_obj(name)`: the registered variable, or a new empty one
      registered on the spot. The caller may change the returned object, so
      the registry is marked dirty either way. */
  function GetConfigVarObj(reg: Registry, name: string): (r: (ConfigVar, Registry))
    ensures r.1.dirty && r.1.resolved == reg.resolved
    ensures name in reg.vars.entries ==> r.0 == reg.vars.entries[name] && r.1.vars == reg.vars
    ensures name !in reg.vars.entries ==> r.0.name == name && r.0.description == "" && r.0.values == [] && !r.0.constant
    ensures r.1.vars.entries == reg.vars.entries[name := r.0]
    ensures r.1.vars.order == if name in reg.vars.entries then reg.vars.order else reg.vars.order + [name]
    ensures Valid(reg) ==> Valid(r.1)
  {
    var blank := NewVar(name, "", []);
    if name in reg.vars.entries then (reg.vars.entries[name], reg.(dirty := true))
    else (blank, reg.(vars := reg.vars.Put(name, blank), dirty := true))
  }

  /** A change made through the object `get_configVar_obj(name)` returned:
      the object is shared with the registry, so a successful mutation is
      seen there, and a refused one leaves it as it was. */
  function Mutate(reg: Registry, name: string, m: Mutation): (r: (Registry, Result<ConfigVar>))
    ensures r.0.dirty && r.0.resolved == reg.resolved
    ensures name in r.0.vars.entries
    ensures r.1.Ok? ==> r.0.vars.entries == reg.vars.entries[name := r.1.value]
    ensures r.1.Ok? ==> r.1.value.name == GetConfigVarObj(reg, name).0.name
    ensures r.1.Err? ==> r.0.vars == GetConfigVarObj(reg, name).1.vars
    ensures name in reg.vars.entries && reg.vars.entries[name].constant ==>
      r.1 == Err(ImmutableVariable(reg.vars.entries[name].name)) && r.0.vars == reg.vars
    ensures r.1.Ok? ==> r.1.value.constant == GetConfigVarObj(reg, name).0.constant
    ensures r.1 == Apply(GetConfigVarObj(reg, name).0, m)
    ensures r.0.vars.entries.Keys == reg.vars.entries.Keys + {name}
    ensures Valid(reg) ==> Valid(r.0)
  {
    var (cv, reg1) := GetConfigVarObj(reg, name);
    ApplyFacts(cv, m);
    match Apply(cv, m)
    case Ok(cv') => (reg1.(vars := reg1.vars.Put(name, cv')), Ok(cv'))
    case Err(e) => (reg1, Err(e))
  }

  /** A change made through an object that `get_configVar_obj` returned
      before the last `resolve` and the caller kept: the registered variable
      changes, but nothing marks the registry dirty. */
  function MutateHeld(reg: Registry, name: string, m: Mutation): (r: (Registry, Result<ConfigVar>))
    requires name in reg.vars.entries
    ensures r.0.dirty == reg.dirty && r.0.resolved == reg.resolved
    ensures r.1 == Apply(reg.vars.entries[name], m)
    ensures r.1.Ok? ==> r.0.vars.entries == reg.vars.entries[name := r.1.value] && r.0.vars.order == reg.vars.order
    ensures r.1.Err? ==> r.0 == reg
    ensures Valid(reg) ==> Valid(r.0)
  {
    ApplyFacts(reg.vars.entries[name], m);
    match Apply(reg.vars.entries[name], m)
    case Ok(cv') => (reg.(vars := reg.vars.Put(name, cv')), Ok(cv'))
    case Err(e) => (reg, Err(e))
  }

  /** A mutation keeps the name and the kind of the variable, and a constant
      refuses it. */
  lemma ApplyFacts(cv: ConfigVar, m: Mutation)
    ensures Apply(cv, m).Ok? ==> Apply(cv, m).value.name == cv.name && Apply(cv, m).value.constant == cv.constant
    ensures cv.constant ==> Apply(cv, m) == Err(ImmutableVariable(cv.name))
  {
    match m
    case SetDescriptionOp(d) =>
    case SetItemOp(k, v) =>
    case DelItemOp(k) =>
    case AppendOp(v) =>
    case ExtendOp(vs) =>
  }

  /** `add_const_config_variable(name, description, *values)`, as written: on
      a clean registry the values are stored as resolved straight away unless
      one of them holds a reference. */
  function AddConstConfigVariable(reg: Registry, name: string, description: string, values: seq<string>): (r: Result<Registry>)
    ensures r.Err? <==> name in reg.vars.entries
    ensures r.Err? ==> r.error == DuplicateConstant(name)
    ensures r.Ok? ==> r.value.vars.entries == reg.vars.entries[name := NewConstVar(name, description, values)]
    ensures r.Ok? ==> (r.value.dirty <==> reg.dirty || exists j :: 0 <= j < |values| && HasRef(values[j]))
    ensures r.Ok? && !r.value.dirty ==> r.value.resolved.entries == reg.resolved.entries[name := values]
    ensures r.Ok? && r.value.dirty ==> r.value.resolved == reg.resolved
    ensures r.Ok? && Valid(reg) ==> Valid(r.value)
  {
    if name in reg.vars.entries then Err(DuplicateConstant(name))
    else
      var vars := reg.vars.Put(name, NewConstVar(name, description, values));
      if reg.dirty then Ok(reg.(vars := vars))
      else
        HasRefJoinSpace(values);
        if HasRef(Join(" ", values)) then Ok(reg.(vars := vars, dirty := true))
        else Ok(Registry(vars, reg.resolved.Put(name, values), false))
  }

  /** Some registered variable refers to `name` in its raw values. */
  predicate ReferencedBy(vars: map<string, ConfigVar>, name: string) {
    exists x :: x in vars && name in Refs(vars[x].values, 0)
  }

  /** `add_const_config_variable` as evidently intended: it keeps the registry
      clean only when that keeps the resolved values correct, which needs,
      besides reference-free values, that no registered variable refers to the
      new name (such a variable was resolved while the name was unknown). */
  function AddConstConfigVariableFixed(reg: Registry, name: string, description: string, values: seq<string>): (r: Result<Registry>)
    ensures r.Err? <==> name in reg.vars.entries
    ensures r.Err? ==> r.error == DuplicateConstant(name)
    ensures r.Ok? ==> r.value.vars.entries == reg.vars.entries[name := NewConstVar(name, description, values)]
    ensures r.Ok? ==> (r.value.dirty <==>
      reg.dirty || ReferencedBy(reg.vars.entries, name) || exists j :: 0 <= j < |values| && HasRef(values[j]))
    ensures r.Ok? && !r.value.dirty ==> r.value.resolved.entries == reg.resolved.entries[name := values]
    ensures r.Ok? && r.value.dirty ==> r.value.resolved == reg.resolved
    ensures r.Ok? && Valid(reg) ==> Valid(r.value)
  {
    if name in reg.vars.entries then Err(DuplicateConstant(name))
    else
      var vars := reg.vars.Put(name, NewConstVar(name, description, values));
      if reg.dirty then Ok(reg.(vars := vars))
      else
        HasRefJoinSpace(values);
        if HasRef(Join(" ", values)) || ReferencedBy(reg.vars.entries, name) then Ok(reg.(vars := vars, dirty := true))
        else Ok(Registry(vars, reg.resolved.Put(name, values), false))
  }

  /** The non-empty names of an environment listing. */
  function EnvNames(env: seq<(string, string)>): (names: set<string>)
    ensures forall n :: n in names <==> n != "" && exists k :: 0 <= k < |env| && env[k].0 == n
    decreases |env|
  {
    if |env| == 0 then {}
    else
      var rest := EnvNames(env[1..]);
      assert forall k :: 1 <= k < |env| ==> env[k] == env[1..][k - 1];
      if env[0].0 == "" then rest else {env[0].0} + rest
  }

  /** The values the listing gives `n`, in order. */
  function EnvValues(env: seq<(string, string)>, n: string): (vs: seq<string>)
    ensures (forall k :: 0 <= k < |env| ==> env[k].0 != n) ==> vs == []
    decreases |env|
  {
    if |env| == 0 then []
    else
      assert forall k :: 1 <= k < |env| ==> env[k] == env[1..][k - 1];
      (if env[0].0 == n then [env[0].1] else []) + EnvValues(env[1..], n)
  }

  /** The raw values registered under `n`, none if it is not registered. */
  function RawValues(vars: map<string, ConfigVar>, n: string): seq<string> {
    if n in vars then vars[n].values else []
  }

  /** None of `names` is registered as a constant. */
  ghost predicate NoConstant(vars: map<string, ConfigVar>, names: set<string>) {
    forall n :: n in names && n in vars ==> !vars[n].constant
  }

  /** `read_environment()`, with the environment as a list of (name, value)
      pairs: each non-empty name gets the description "from envirnment" and
      its value appended. A constant of the same name makes it raise, which
      stops the loop. */
  function ReadEnvironment(reg: Registry, env: seq<(string, string)>): (r: (Registry, Result<()>))
    ensures r.1.Ok? <==> NoConstant(reg.vars.entries, EnvNames(env))
    ensures r.1.Ok? ==> forall n :: n in EnvNames(env) ==>
      n in r.0.vars.entries && r.0.vars.entries[n].description == "from envirnment"
    ensures r.1.Ok? ==> r.0.vars.entries.Keys == reg.vars.entries.Keys + EnvNames(env)
    ensures r.1.Ok? ==> forall n :: n in reg.vars.entries && n !in EnvNames(env) ==>
      r.0.vars.entries[n] == reg.vars.entries[n]
    ensures r.1.Ok? ==> forall n :: n in EnvNames(env) ==>
      r.0.vars.entries[n].values == RawValues(reg.vars.entries, n) + EnvValues(env, n)
    ensures r.1.Ok? ==> (r.0.dirty <==> reg.dirty || EnvNames(env) != {})
    ensures r.0.resolved == reg.resolved
    ensures Valid(reg) ==> Valid(r.0)
    decreases |env|
  {
    if |env| == 0 then (reg, Ok(()))
    else if env[0].0 == "" then
      var r := ReadEnvironment(reg, env[1..]);
      assert forall n :: n in EnvNames(env) ==> EnvValues(env, n) == EnvValues(env[1..], n);
      r
    else
      var (reg1, o) := ReadEnvVar(reg, env[0].0, env[0].1);
      if o.Err? then (reg1, o)
      else
        var r := ReadEnvironment(reg1, env[1..]);
        ReadEnvStep(reg, reg1, r, env);
        EnvValuesStep(reg.vars.entries, reg1.vars.entries, r.0.vars.entries, env, r.1.Ok?);
        r
  }

  /** What one more listed pair, read without raising, adds to what the rest
      of the listing does. */
  lemma ReadEnvStep(reg: Registry, reg1: Registry, r: (Registry, Result<()>), env: seq<(string, string)>)
    requires |env| > 0 && env[0].0 != ""
    requires reg1.dirty && NoConstant(reg.vars.entries, {env[0].0})
    requires reg1.vars.entries.Keys == reg.vars.entries.Keys + {env[0].0}
    requires reg1.vars.entries[env[0].0].description == "from envirnment" && !reg1.vars.entries[env[0].0].constant
    requires forall n :: n in reg.vars.entries && n != env[0].0 ==> reg1.vars.entries[n] == reg.vars.entries[n]
    requires r.1.Ok? <==> NoConstant(reg1.vars.entries, EnvNames(env[1..]))
    requires r.1.Ok? ==> forall n :: n in EnvNames(env[1..]) ==>
      n in r.0.vars.entries && r.0.vars.entries[n].description == "from envirnment"
    requires r.1.Ok? ==> r.0.vars.entries.Keys == reg1.vars.entries.Keys + EnvNames(env[1..])
    requires r.1.Ok? ==> forall n :: n in reg1.vars.entries && n !in EnvNames(env[1..]) ==>
      r.0.vars.entries[n] == reg1.vars.entries[n]
    requires r.1.Ok? ==> r.0.dirty
    ensures EnvNames(env) == {env[0].0} + EnvNames(env[1..])
    ensures r.1.Ok? <==> NoConstant(reg.vars.entries, EnvNames(env))
    ensures r.1.Ok? ==> forall n :: n in EnvNames(env) ==>
      n in r.0.vars.entries && r.0.vars.entries[n].description == "from envirnment"
    ensures r.1.Ok? ==> r.0.vars.entries.Keys == reg.vars.entries.Keys + EnvNames(env)
    ensures r.1.Ok? ==> forall n :: n in reg.vars.entries && n !in EnvNames(env) ==>
      r.0.vars.entries[n] == reg.vars.entries[n]
    ensures r.1.Ok? ==> (r.0.dirty <==> reg.dirty || EnvNames(env) != {})
  {
    var name := env[0].0;
    var rest := EnvNames(env[1..]);
    assert EnvNames(env) == {name} + rest;
    NoConstantStep(reg.vars.entries, reg1.vars.entries, name, rest);
    if r.1.Ok? {
      KeptStep(reg.vars.entries, reg1.vars.entries, r.0.vars.entries, name, rest);
    }
  }

  /** The constants that stop the loop: the first name is not one, and the
      rest are constants before exactly when they are after. */
  lemma NoConstantStep(vars: map<string, ConfigVar>, vars1: map<string, ConfigVar>, name: string, rest: set<string>)
    requires NoConstant(vars, {name})
    requires vars1.Keys == vars.Keys + {name} && !vars1[name].constant
    requires forall n :: n in vars && n != name ==> vars1[n] == vars[n]
    ensures NoConstant(vars1, rest) <==> NoConstant(vars, {name} + rest)
  {
  }

  /** The description of every read name is set, and the others are kept. */
  lemma KeptStep(vars: map<string, ConfigVar>, vars1: map<string, ConfigVar>, vars2: map<string, ConfigVar>,
                 name: string, rest: set<string>)
    requires vars1.Keys == vars.Keys + {name} && vars1[name].description == "from envirnment"
    requires forall n :: n in vars && n != name ==> vars1[n] == vars[n]
    requires forall n :: n in rest ==> n in vars2 && vars2[n].description == "from envirnment"
    requires vars2.Keys == vars1.Keys + rest
    requires forall n :: n in vars1 && n !in rest ==> vars2[n] == vars1[n]
    ensures forall n :: n in {name} + rest ==> n in vars2 && vars2[n].description == "from envirnment"
    ensures vars2.Keys == vars.Keys + ({name} + rest)
    ensures forall n :: n in vars && n !in {name} + rest ==> vars2[n] == vars[n]
  {
  }

  /** How the values of one more listed pair add up. */
  lemma EnvValuesStep(vars: map<string, ConfigVar>, vars1: map<string, ConfigVar>, vars2: map<string, ConfigVar>,
                      env: seq<(string, string)>, ok: bool)
    requires |env| > 0 && env[0].0 != ""
    requires env[0].0 in vars1 && vars1[env[0].0].values == RawValues(vars, env[0].0) + [env[0].1]
    requires vars1.Keys == vars.Keys + {env[0].0}
    requires forall n :: n in vars && n != env[0].0 ==> vars1[n] == vars[n]
    requires EnvNames(env) == {env[0].0} + EnvNames(env[1..])
    requires ok ==> forall n :: n in EnvNames(env[1..]) ==> n in vars2 && vars2[n].values == RawValues(vars1, n) + EnvValues(env[1..], n)
    requires ok ==> vars1.Keys <= vars2.Keys
    requires ok ==> forall n :: n in vars1 && n !in EnvNames(env[1..]) ==> vars2[n] == vars1[n]
    ensures ok ==> forall n :: n in EnvNames(env) ==> n in vars2 && vars2[n].values == RawValues(vars, n) + EnvValues(env, n)
  {
    if ok {
      forall n | n in EnvNames(env)
        ensures n in vars2 && vars2[n].values == RawValues(vars, n) + EnvValues(env, n)
      {
        RawValuesStep(vars, vars1, env[0].0, env[0].1, n);
        EnvValuesOne(vars, vars1, vars2, env, n);
      }
    }
  }

  /** Appending `v` under `x` adds it to the raw values of `x` only. */
  lemma RawValuesStep(vars: map<string, ConfigVar>, vars1: map<string, ConfigVar>, x: string, v: string, n: string)
    requires x in vars1 && vars1[x].values == RawValues(vars, x) + [v]
    requires vars1.Keys == vars.Keys + {x}
    requires forall m :: m in vars && m != x ==> vars1[m] == vars[m]
    ensures RawValues(vars1, n) == RawValues(vars, n) + (if x == n then [v] else [])
  {
    if n != x && n in vars {
      assert vars1[n] == vars[n];
    }
  }

  lemma EnvValuesOne(vars: map<string, ConfigVar>, vars1: map<string, ConfigVar>, vars2: map<string, ConfigVar>,
                     env: seq<(string, string)>, n: string)
    requires |env| > 0 && n != ""
    requires RawValues(vars1, n) == RawValues(vars, n) + (if env[0].0 == n then [env[0].1] else [])
    requires n in EnvNames(env[1..]) ==> n in vars2 && vars2[n].values == RawValues(vars1, n) + EnvValues(env[1..], n)
    requires n !in EnvNames(env[1..]) ==> n in vars1 && n in vars2 && vars2[n] == vars1[n]
    ensures n in vars2 && vars2[n].values == RawValues(vars, n) + EnvValues(env, n)
  {
    var head: seq<string> := if env[0].0 == n then [env[0].1] else [];
    var tail := EnvValues(env[1..], n);
    assert EnvValues(env, n) == head + tail;
    if n !in EnvNames(env[1..]) {
      assert forall k :: 0 <= k < |env[1..]| ==> env[1..][k].0 != n;
      assert tail == [];
    }
    Assoc(RawValues(vars, n), head, tail);
  }

  /** One round of `read_environment`. */
  function ReadEnvVar(reg: Registry, name: string, value: string): (r: (Registry, Result<()>))
    ensures r.0.dirty && r.0.resolved == reg.resolved
    ensures r.1.Ok? <==> NoConstant(reg.vars.entries, {name})
    ensures r.1.Ok? ==> r.0.vars.entries.Keys == reg.vars.entries.Keys + {name}
    ensures r.1.Ok? ==> r.0.vars.entries[name].description == "from envirnment" && !r.0.vars.entries[name].constant
    ensures r.1.Ok? ==> r.0.vars.entries[name].values == RawValues(reg.vars.entries, name) + [value]
    ensures r.1.Ok? ==> forall n :: n in reg.vars.entries && n != name ==> r.0.vars.entries[n] == reg.vars.entries[n]
    ensures Valid(reg) ==> Valid(r.0)
  {
    var (reg1, o1) := Mutate(reg, name, SetDescriptionOp("from envirnment"));
    if o1.Err? then (reg1, Err(o1.error))
    else
      var (reg2, _) := Mutate(reg1, name, AppendOp(value));
      (reg2, Ok(()))
  }

  // ---------------------------------------------------------------------
  // Resolution

  /** `resolve()`: rebuilds the resolved values from scratch, one registered
      name after the other in registration order, and clears the dirty flag. */
  function Resolve(reg: Registry): (r: Result<Registry>)
    requires reg.vars.Valid()
    ensures r.Ok? ==> r.value.vars == reg.vars && !r.value.dirty
    ensures r.Ok? ==> r.value.resolved.entries.Keys == reg.vars.entries.Keys
    ensures r.Ok? ==> r.value.resolved.Valid()
    ensures r.Err? ==> r.error.CircularReference? && r.error.name in reg.vars.entries
  {
    var resolved :- ResolveNames(reg.vars.entries, reg.vars.order, 0, Empty());
    Ok(Registry(reg.vars, resolved, false))
  }

  /** `resolve_string(text, sep)`: the text is resolved as a one-value list,
      with no variable being resolved, and the items are joined with `sep`.
      Names it resolves on the way are kept as resolved. */
  function ResolveString(reg: Registry, text: string, sep: string): (r: Result<(string, Registry)>)
    ensures r.Ok? ==> r.value.1.vars == reg.vars && r.value.1.dirty == reg.dirty
    ensures r.Ok? ==> Grows(reg.vars.entries, reg.resolved.entries, r.value.1.resolved.entries)
    ensures r.Ok? && reg.resolved.Valid() ==> r.value.1.resolved.Valid()
  {
    var res :- ResolveValues(reg.vars.entries, reg.resolved, [], [text], 0, [], []);
    Ok((Join(sep, res.0), reg.(resolved := res.1)))
  }
}
