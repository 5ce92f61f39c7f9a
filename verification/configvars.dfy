/** A configuration variable: a name, a description and an ordered list of raw
    (unresolved) string values. The constant variant is the same record with
    `constant` set; every mutator then fails and leaves it unchanged. */
module ConfigVars {
  import opened Results

  datatype ConfigVar = ConfigVar(name: string, description: string, values: seq<string>, constant: bool)

  /** `ConfigVar(name, description, *values)` */
  function NewVar(name: string, description: string, values: seq<string>): (cv: ConfigVar)
    ensures cv.name == name && cv.description == description && !cv.constant
    ensures Len(cv) == |values| && Iter(cv) == values
  {
    ConfigVar(name, description, values, false)
  }

  /** `ConstConfigVar(name, description, *values)` */
  function NewConstVar(name: string, description: string, values: seq<string>): (cv: ConfigVar)
    ensures cv.name == name && cv.description == description && cv.constant
    ensures Len(cv) == |values| && Iter(cv) == values
  {
    ConfigVar(name, description, values, true)
  }

  /** `len(cv)`: the positions below it are exactly those indexing accepts. */
  function Len(cv: ConfigVar): (n: nat)
    ensures forall k: nat :: k < n <==> GetItem(cv, k).Ok?
  {
    |cv.values|
  }

  /** `cv[k]`, for a non-negative index; past the end the list raises. */
  function GetItem(cv: ConfigVar, k: nat): (r: Result<string>)
    ensures r.Ok? <==> k < |cv.values|
    ensures r.Ok? ==> r.value == cv.values[k]
    ensures r.Err? ==> r.error == IndexOutOfRange(k)
  {
    if k < |cv.values| then Ok(cv.values[k]) else Err(IndexOutOfRange(k))
  }

  /** `cv.set_description(d)` */
  function SetDescription(cv: ConfigVar, d: string): (r: Result<ConfigVar>)
    ensures cv.constant <==> r.Err?
    ensures r.Err? ==> r.error == ImmutableVariable(cv.name)
    ensures r.Ok? ==> r.value.description == d && r.value.name == cv.name && r.value.values == cv.values
    ensures r.Ok? ==> !r.value.constant
  {
    if cv.constant then Err(ImmutableVariable(cv.name))
    else Ok(cv.(description := d))
  }

  /** `cv[k] = v`: only position `k` changes. */
  function SetItem(cv: ConfigVar, k: nat, v: string): (r: Result<ConfigVar>)
    ensures cv.constant ==> r == Err(ImmutableVariable(cv.name))
    ensures !cv.constant ==> (r.Ok? <==> k < Len(cv))
    ensures r.Ok? ==> Len(r.value) == Len(cv) && r.value.values[k] == v
    ensures r.Ok? ==> forall j :: 0 <= j < Len(cv) && j != k ==> r.value.values[j] == cv.values[j]
    ensures r.Ok? ==> r.value.name == cv.name && r.value.description == cv.description && r.value.constant == cv.constant
  {
    if cv.constant then Err(ImmutableVariable(cv.name))
    else if k < |cv.values| then Ok(cv.(values := cv.values[k := v]))
    else Err(IndexOutOfRange(k))
  }

  /** `del cv[k]`: position `k` goes and later values move down by one. */
  function DelItem(cv: ConfigVar, k: nat): (r: Result<ConfigVar>)
    ensures cv.constant ==> r == Err(ImmutableVariable(cv.name))
    ensures !cv.constant ==> (r.Ok? <==> k < Len(cv))
    ensures r.Ok? ==> Len(r.value) == Len(cv) - 1
    ensures r.Ok? ==> forall j :: 0 <= j < k ==> r.value.values[j] == cv.values[j]
    ensures r.Ok? ==> forall j :: k <= j < Len(r.value) ==> r.value.values[j] == cv.values[j + 1]
    ensures r.Ok? ==> r.value.name == cv.name && r.value.description == cv.description && r.value.constant == cv.constant
  {
    if cv.constant then Err(ImmutableVariable(cv.name))
    else if k < |cv.values| then Ok(cv.(values := cv.values[..k] + cv.values[k + 1..]))
    else Err(IndexOutOfRange(k))
  }

  /** `cv.append(v)`: one value more, at the end. */
  function Append(cv: ConfigVar, v: string): (r: Result<ConfigVar>)
    ensures cv.constant <==> r.Err?
    ensures r.Err? ==> r.error == ImmutableVariable(cv.name)
    ensures r.Ok? ==> Len(r.value) == Len(cv) + 1 && r.value.values[Len(cv)] == v
    ensures r.Ok? ==> r.value.values[..Len(cv)] == cv.values
    ensures r.Ok? ==> r.value.name == cv.name && r.value.description == cv.description && !r.value.constant
  {
    if cv.constant then Err(ImmutableVariable(cv.name))
    else Ok(cv.(values := cv.values + [v]))
  }

  /** `cv.extend(vs)`: the given values, in order, at the end. */
  function Extend(cv: ConfigVar, vs: seq<string>): (r: Result<ConfigVar>)
    ensures cv.constant <==> r.Err?
    ensures r.Err? ==> r.error == ImmutableVariable(cv.name)
    ensures r.Ok? ==> Len(r.value) == Len(cv) + |vs|
    ensures r.Ok? ==> r.value.values[..Len(cv)] == cv.values && r.value.values[Len(cv)..] == vs
    ensures r.Ok? ==> r.value.name == cv.name && r.value.description == cv.description && !r.value.constant
  {
    if cv.constant then Err(ImmutableVariable(cv.name))
    else Ok(cv.(values := cv.values + vs))
  }

  /** `iter(cv)`: the raw values in insertion order, one for each position
      indexing accepts. */
  function Iter(cv: ConfigVar): (r: seq<string>)
    ensures |r| == Len(cv)
    ensures forall k :: 0 <= k < |r| ==> GetItem(cv, k) == Ok(r[k])
  {
    cv.values
  }

  /** `reversed(cv)`: the raw values, last first. */
  function Reversed(cv: ConfigVar): (r: seq<string>)
    ensures |r| == Len(cv)
    ensures forall j :: 0 <= j < |r| ==> r[j] == cv.values[Len(cv) - 1 - j]
  {
    Reverse(cv.values)
  }

  function Reverse(s: seq<string>): (r: seq<string>)
    ensures |r| == |s|
    ensures forall j :: 0 <= j < |r| ==> r[j] == s[|s| - 1 - j]
    decreases |s|
  {
    if |s| == 0 then [] else Reverse(s[1..]) + [s[0]]
  }

  /** Reversing twice gives the insertion order back. */
  lemma ReversedTwice(cv: ConfigVar)
    ensures Reverse(Reversed(cv)) == Iter(cv)
  {
  }

  /** Extending is appending the values one at a time. */
  lemma {:induction false} ExtendIsRepeatedAppend(cv: ConfigVar, vs: seq<string>)
    requires !cv.constant
    ensures Extend(cv, vs) == AppendAll(cv, vs)
    decreases |vs|
  {
    if |vs| > 0 {
      var next := Append(cv, vs[0]).value;
      ExtendIsRepeatedAppend(next, vs[1..]);
      assert cv.values + vs == next.values + vs[1..];
    } else {
      assert cv.values + vs == cv.values;
    }
  }

  /** `for v in vs: cv.append(v)` */
  function AppendAll(cv: ConfigVar, vs: seq<string>): Result<ConfigVar>
    decreases |vs|
  {
    if |vs| == 0 then Ok(cv)
    else
      var next :- Append(cv, vs[0]);
      AppendAll(next, vs[1..])
  }

  /** Writing back the value just read at a position changes nothing. */
  lemma SetItemGetItem(cv: ConfigVar, k: nat)
    requires !cv.constant && k < Len(cv)
    ensures SetItem(cv, k, GetItem(cv, k).value) == Ok(cv)
  {
    assert cv.values[k := cv.values[k]] == cv.values;
  }

  /** Deleting the value just appended restores the variable. */
  lemma AppendThenDelete(cv: ConfigVar, v: string)
    requires !cv.constant
    ensures DelItem(Append(cv, v).value, Len(cv)) == Ok(cv)
  {
    var a := Append(cv, v).value;
    assert a.values[..Len(cv)] + a.values[Len(cv) + 1..] == cv.values;
  }

  /** The mutators a caller can attempt on a variable. */
  datatype Mutation =
    | SetDescriptionOp(d: string)
    | SetItemOp(k: nat, v: string)
    | DelItemOp(k: nat)
    | AppendOp(v: string)
    | ExtendOp(vs: seq<string>)

  function Apply(cv: ConfigVar, m: Mutation): Result<ConfigVar> {
    match m
    case SetDescriptionOp(d) => SetDescription(cv, d)
    case SetItemOp(k, v) => SetItem(cv, k, v)
    case DelItemOp(k) => DelItem(cv, k)
    case AppendOp(v) => Append(cv, v)
    case ExtendOp(vs) => Extend(cv, vs)
  }

  /** Attempts every mutation in turn, keeping the variable as it was when one
      raises (the caller catches the exception and carries on). */
  function ApplyAll(cv: ConfigVar, ms: seq<Mutation>): (r: ConfigVar)
    decreases |ms|
  {
    if |ms| == 0 then cv
    else match Apply(cv, ms[0])
      case Ok(next) => ApplyAll(next, ms[1..])
      case Err(_) => ApplyAll(cv, ms[1..])
  }

  /** A constant variable refuses every mutation: whatever is attempted, its
      name, description and values stay exactly as constructed. */
  lemma {:induction false} ConstantIsImmutable(cv: ConfigVar, ms: seq<Mutation>)
    requires cv.constant
    ensures forall j :: 0 <= j < |ms| ==> Apply(cv, ms[j]) == Err(ImmutableVariable(cv.name))
    ensures ApplyAll(cv, ms) == cv
    decreases |ms|
  {
    if |ms| > 0 {
      ConstantIsImmutable(cv, ms[1..]);
      forall j | 0 <= j < |ms|
        ensures Apply(cv, ms[j]) == Err(ImmutableVariable(cv.name))
      {
        match ms[j]
        case SetDescriptionOp(d) =>
        case SetItemOp(k, v) =>
        case DelItemOp(k) =>
        case AppendOp(v) =>
        case ExtendOp(vs) =>
      }
    }
  }

  /** No mutation changes a variable's name. */
  lemma {:induction false} NameNeverChanges(cv: ConfigVar, ms: seq<Mutation>)
    ensures ApplyAll(cv, ms).name == cv.name
    decreases |ms|
  {
    if |ms| > 0 {
      match Apply(cv, ms[0])
      case Ok(next) =>
        assert next.name == cv.name by {
          match ms[0]
          case SetDescriptionOp(d) =>
          case SetItemOp(k, v) =>
          case DelItemOp(k) =>
          case AppendOp(v) =>
          case ExtendOp(vs) =>
        }
        NameNeverChanges(next, ms[1..]);
      case Err(_) =>
        NameNeverChanges(cv, ms[1..]);
    }
  }
}
