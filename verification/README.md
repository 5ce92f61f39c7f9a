# instl configuration variables: a Dafny model of `$(name)` resolution

This project models the configuration-variable engine of instl (`pyinstl`).
A **configuration variable** (`ConfigVar`) is a name, a description and an
ordered list of raw string values. A constant variable (`ConstConfigVar`)
refuses every change. The **registry** (`ConfigVarList`) holds three things:
- the registered variables;
- a cache of resolved values;
- a dirty flag, set whenever a variable may have changed since the last
  resolution.

Resolution expands references of the form `$(name)`:
- A value that is exactly one reference is replaced by the referenced
  variable's resolved values, spliced in as separate items.
- Any other value becomes one item. In it, every reference text is replaced
  by the referenced values joined with one space.
- A name that is not registered resolves to no values.
- A name that is needed while it is itself being resolved is a circular
  reference, and resolution raises.

Modules, one per file:

- `Results` (`results.dfy`): the raised exceptions as an `Error` datatype and
  a `Result` type.
- `Dicts` (`dicts.dfy`): an insertion-ordered dictionary, matching the
  iteration order of a Python `dict`.
- `Strs` (`strs.dfy`): `str.join`, `str.replace` and `str.split`, with
  `replace` proved equal to split-then-join.
- `RefGrammar` (`refgrammar.dfy`): the two token patterns as a hand-written
  scanner.
  - `Scan` models `finditer`.
  - `WholeRef` models the anchored `match`.
  - `HasRef` models `search`.
- `ConfigVars` (`configvars.dfy`): `ConfigVar` and `ConstConfigVar`, with one
  record type that carries a `constant` flag.
- `Expansion` (`expansion.dfy`): what `resolve_list` computes against a fixed
  map of resolved values. This is the reference definition the resolver is
  proved against.
- `Substitution` (`substitution.dfy`): when the sequential replacement of
  `resolve_list` equals putting the referenced values in place of every
  reference in one left-to-right pass.
- `Resolver` (`resolver.dfy`): `resolve_value_callback`, `resolve_list` and
  the loop of `resolve`, as mutually recursive functions.
  - The resolve stack is a parameter.
  - The cache is threaded through the calls.
  - Termination uses the set of registered names not on the stack.
- `Soundness` (`soundness.dfy`): a successful resolution returns, and caches,
  exactly the expansion of the raw values against the cache it ends with.
- `Registries` (`registry.dfy`): the `ConfigVarList` operations.
- `RegistryLemmas` (`registry_lemmas.dfy`): whole-registry properties: what
  `resolve` leaves behind, `resolve_string` on a clean registry, constant
  registration, and cycles.
- `Cycles` (`cycles.dfy`): `resolve` raises only on a circular reference,
  never when the references between registered variables form no cycle, and
  always when they form one.

Quirks of the source that the model keeps:
- **Top-level loop of `resolve`:** each registered name is resolved again,
  even when an earlier name already resolved it. The result is the same
  either way.
- **Replacement dictionary of `resolve_list`:** it is shared by all values of
  one list, not kept per value.
- **Stack check in the loop of `resolve`:** it cannot fire, because the stack
  is empty there. It is modelled as written.
- **`only_one_value_ref_re` and a trailing newline:** this pattern ends in
  `$`, and in Python `$` also matches just before a final `"\n"`. So
  `"$(A)\n"` also counts as a whole reference.
- **Order of replacements:** `replace_all_from_dict` applies one replacement
  after another, in dictionary order. A replacement can therefore create a
  reference text that a later entry then replaces. `ReplaceAll` models this
  as written. `Substitution` proves that this cannot happen when every `$`
  of a value opens a reference and no resolved value holds a `$`.

## Model

| member | source | states |
|---|---|---|
| ConfigVars.NewVar | pyinstl/configVar.py:23-27 | a new variable keeps the name and description, is not constant, and iterates its values in the given order, so its length is their number (an empty list is allowed) |
| ConfigVars.NewConstVar | pyinstl/configVar.py:79-83 | a constant is built like a variable, with the same name, description and values, and is marked constant |
| ConfigVars.Len | pyinstl/configVar.py:51-52 | the length is the number of positions indexing accepts |
| ConfigVars.Iter | pyinstl/configVar.py:64-65 | iteration yields, in order, one value for every position indexing accepts, the value indexing gives there |
| ConfigVars.GetItem | pyinstl/configVar.py:54-56 | indexing succeeds exactly for a position below the length and gives the value there; past the end it raises an index error |
| ConfigVars.SetDescription | pyinstl/configVar.py:37-39 | the description is replaced and name and values are kept; it fails exactly on a constant |
| ConfigVars.SetItem | pyinstl/configVar.py:58-59 | only position k changes and the length is kept; a constant or an index past the end raises |
| ConfigVars.DelItem | pyinstl/configVar.py:61-62 | position k is removed, earlier values stay, later ones move down by one; a constant or an index past the end raises |
| ConfigVars.Append | pyinstl/configVar.py:70-71 | exactly one value is added at the end and earlier values are unchanged; it fails exactly on a constant |
| ConfigVars.Extend | pyinstl/configVar.py:73-74 | the given values are added at the end in order, after the unchanged earlier ones; it fails exactly on a constant |
| ConfigVars.ExtendIsRepeatedAppend | pyinstl/configVar.py:70-74 | extending with a list equals appending its values one by one |
| ConfigVars.Reversed | pyinstl/configVar.py:67-68 | reversed iteration yields the values last first |
| ConfigVars.ReversedTwice | pyinstl/configVar.py:64-68 | reversing the reversed iteration gives the insertion order back |
| ConfigVars.SetItemGetItem | pyinstl/configVar.py:54-59 | writing back the value read at a position leaves the variable unchanged |
| ConfigVars.AppendThenDelete | pyinstl/configVar.py:61-71 | deleting the value just appended restores the variable |
| ConfigVars.ConstantIsImmutable | pyinstl/configVar.py:76-98 | on a constant, every one of set_description, setitem, delitem, append and extend raises, and after any sequence of attempts the name, description and values are as constructed |
| ConfigVars.NameNeverChanges | pyinstl/configVar.py:23-39 | no sequence of mutations changes a variable's name |
| RefGrammar.TokenAt | pyinstl/configVarList.py:26-32 | a match of the token pattern at position i spans exactly `$(` name `)`, with a non-empty name of word characters |
| RefGrammar.TokenAtComplete | pyinstl/configVarList.py:26-32 | wherever a reference text starts, the pattern matches there with that name |
| RefGrammar.Scan | pyinstl/configVarList.py:197 | `finditer` yields matches of the token pattern, in order and without overlap |
| RefGrammar.ScanFindsEveryRef | pyinstl/configVarList.py:197 | every reference written in a value is among the matches `finditer` yields |
| RefGrammar.WholeRef | pyinstl/configVarList.py:33-41 | the anchored pattern matches exactly the values that are one reference, or one reference and a final newline, and gives its name |
| RefGrammar.WholeRefOfRefText | pyinstl/configVarList.py:33-41 | the text `$(n)` is recognised as the whole reference to n |
| RefGrammar.HasRef | pyinstl/configVarList.py:107 | `search` succeeds exactly when some reference text occurs in the value |
| RefGrammar.HasRefJoinSpace | pyinstl/configVarList.py:107 | searching the values joined with spaces finds a reference exactly when one of the values holds one |
| RefGrammar.RefNamesExact | pyinstl/configVarList.py:190-201 | the names a value makes the resolver look up are exactly the names whose reference text occurs in it |
| RefGrammar.WholeRefOnlyRef | pyinstl/configVarList.py:33-41 | a whole-reference value contains no other reference than the one spliced |
| Strs.Join | pyinstl/configVarList.py:201 | `" ".join` of no items is empty, of one item is that item, and otherwise has one separator between every two items, so its length is the items' total length plus one separator per gap |
| Strs.Replace | pyinstl/configVarList.py:178 | for a non-empty pattern, `str.replace` equals joining the pieces of `str.split` with the replacement |
| Strs.ReplaceAbsent | pyinstl/configVarList.py:178 | a pattern that does not occur leaves the text unchanged |
| Expansion.ReplaceAll | pyinstl/configVarList.py:169-179 | with only reference texts as keys, a text holding no reference passes through the sequential replacement unchanged |
| Expansion.AddRefs | pyinstl/configVarList.py:197-201 | the token loop keeps the earlier entries, leaves every reference text of the value a key, adds only entries that map a token's reference text to the referenced values joined with one space, and never lists a key twice |
| Expansion.Expand | pyinstl/configVarList.py:181-206 | the output length is the sum, over the raw values, of the referenced list's length for a whole reference and 1 for any other value |
| Expansion.ExpandSplice | pyinstl/configVarList.py:190-194 | a whole-reference value contributes the referenced values as separate items, in order, not joined |
| Expansion.ExpandEmbeddedOneName | pyinstl/configVarList.py:197-203 | a one-value list, starting with an empty dictionary, whose value embeds references to one name only, becomes a single item in which every occurrence of the reference is replaced by the referenced values joined with one space |
| Expansion.ExpandPassThrough | pyinstl/configVarList.py:197-203 | a value without any reference passes through unchanged as one item |
| Expansion.ExpandNoRefs | pyinstl/configVarList.py:186-206 | reference-free values come out unchanged and in order, and reference no name |
| Expansion.UnknownNameVanishes | pyinstl/configVarList.py:158-167 | in a one-value list, a name with no resolved values contributes nothing when spliced, and is deleted when it is the only name embedded |
| Expansion.ExpandAgree | pyinstl/configVarList.py:181-206 | the expansion depends on the resolved values only through the names the raw values reference |
| Expansion.AddRefsKnown | pyinstl/configVarList.py:199-201 | when every remaining token's reference text is already a key, whatever names they hold, the token loop leaves the dictionary as it is |
| Substitution.ExpandEmbedded | pyinstl/configVarList.py:181-203 | for a value with embedded references, at any point of a list and with the dictionary carried from earlier values: if every `$` of the value opens a reference and no resolved value holds a `$`, the sequential replacement gives the one-pass substitution of every reference, and the dictionary passed on still maps each reference text to its replacement |
| Substitution.ExpandIsSubstitution | pyinstl/configVarList.py:181-206 | under the same conditions on every value, `resolve_list` equals the one-pass substitution of the whole list |
| Substitution.TwoNames | pyinstl/configVarList.py:197-203 | `"$(a), $(b)!"` with two names becomes the single item `"A, B!"`, where A and B are the two names' values joined with one space |
| Resolver.ResolveName | pyinstl/configVarList.py:154-167 | a cached name is returned unchanged without resolving; an unregistered name gives no values; a registered name already on the stack raises a circular reference; on success the name is settled, its values are returned, and the cache only gains entries for registered names, keeping their order; any failure is a circular reference on a registered name |
| Resolver.ResolveValues | pyinstl/configVarList.py:181-206 | resolving a list only adds cache entries for registered names, never changes existing ones, and extends the output produced so far; any failure is a circular reference on a registered name |
| Resolver.CacheRefs | pyinstl/configVarList.py:197-201 | after the token loop every reference text of the value is in the replacement dictionary, and earlier entries are kept; any failure is a circular reference on a registered name |
| Resolver.ResolveNames | pyinstl/configVarList.py:140-147 | on success every registered name in the loop has a resolved entry, and only registered names are added; any failure is a circular reference on a registered name |
| Resolver.ResolveTop | pyinstl/configVarList.py:141-147 | one round of the loop of resolve stores the pushed name's values; any failure is a circular reference on a registered name |
| Soundness.NameSound | pyinstl/configVarList.py:154-167 | resolving a name keeps the cache coherent: every entry is the expansion of its raw values against the cache |
| Soundness.ValuesSound | pyinstl/configVarList.py:181-206 | the resolved list is the expansion of the raw values against the final cache, and every name they reference is settled |
| Soundness.WholeStepSound | pyinstl/configVarList.py:190-194 | a spliced whole reference contributes the referenced values held in the final cache |
| Soundness.EmbeddedStepSound | pyinstl/configVarList.py:197-203 | an embedded-reference value contributes the replacement built from the final cache |
| Soundness.CacheRefsSound | pyinstl/configVarList.py:197-201 | each replacement entry is the referenced values in the cache, joined with one space |
| Soundness.TopSound | pyinstl/configVarList.py:144-147 | storing the result of one round of the loop of resolve keeps the cache coherent |
| Soundness.NamesSound | pyinstl/configVarList.py:140-147 | the loop of resolve keeps the cache coherent |
| Soundness.CompleteValues | pyinstl/configVarList.py:158-167 | when every registered name is resolved, resolving a list cannot fail and changes no cache entry |
| Soundness.CoherentAddUnreferenced | pyinstl/configVarList.py:106-110 | storing reference-free values for a name no variable refers to keeps the cache coherent |
| Registries.NewRegistry | pyinstl/configVarList.py:50-54 | a new registry is empty, clean and consistent |
| Registries.Len | pyinstl/configVarList.py:56-59 | len raises exactly while dirty, and otherwise counts the resolved names |
| Registries.GetItem | pyinstl/configVarList.py:61-65 | indexing raises while dirty, raises a key error for a name that is not resolved, and otherwise gives its resolved values |
| Registries.Get | pyinstl/configVarList.py:67-71 | get raises exactly while dirty, and otherwise gives the resolved values or the default |
| Registries.Iter | pyinstl/configVarList.py:73-76 | iteration raises exactly while dirty, and otherwise lists exactly the resolved names |
| Registries.ReversedNames | pyinstl/configVarList.py:78-81 | reversed raises exactly while dirty, and otherwise is iteration reversed |
| Registries.Contains | pyinstl/configVarList.py:83-89 | membership raises exactly while dirty, and otherwise holds exactly when indexing would succeed |
| Registries.GetConfigVarObj | pyinstl/configVarList.py:95-98 | the registry becomes dirty; a registered variable is returned as it is, and an unknown name gets a new empty variable registered at the end of the order |
| Registries.Mutate | pyinstl/configVarList.py:95-98 | a change made through the object right after `get_configVar_obj` returned it is seen in the registry, which is dirty; on a constant it raises and the registered variables stay as they were |
| Registries.MutateHeld | pyinstl/configVarList.py:95-98 | a change through an object kept from an earlier `get_configVar_obj` is seen in the registry, while the dirty flag stays as it was, because only handing the object out sets it; on a constant it raises and nothing changes |
| Registries.AddConstConfigVariable | pyinstl/configVarList.py:100-110 | a taken name raises; otherwise the constant is registered; a clean registry stays clean, with the values stored as resolved, exactly when no value holds a reference |
| Registries.AddConstConfigVariableFixed | pyinstl/configVarList.py:100-110 | as above, but a clean registry stays clean only when also no registered variable refers to the new name |
| Registries.ReadEnvironment | pyinstl/configVarList.py:113-120 | every non-empty environment name is registered with the description "from envirnment" and ends with its earlier values followed by the values the environment lists for it, in order; other variables are unchanged; it raises exactly when one of those names is a constant |
| Registries.ReadEnvVar | pyinstl/configVarList.py:118-120 | one environment entry sets the description and appends the value after the name's earlier values (none for a new name), or raises on a constant |
| Registries.Resolve | pyinstl/configVarList.py:135-148 | a successful resolve keeps the registered variables, resolves exactly the registered names, and clears the dirty flag; a failing one raises a circular reference on a registered name |
| Registries.ResolveString | pyinstl/configVarList.py:129-133 | resolving a string keeps the registered variables and the dirty flag, and only adds resolved entries |
| RegistryLemmas.ResolveConsistent | pyinstl/configVarList.py:135-148 | after a successful resolve, every registered name holds the expansion of its raw values against the resolved values |
| RegistryLemmas.ResolveIdempotent | pyinstl/configVarList.py:137-140 | resolving again with no change in between gives the same registry |
| RegistryLemmas.ResolveThenRead | pyinstl/configVarList.py:56-89 | after resolve, len is the number of registered names, membership holds exactly for registered names, indexing gives each one's expanded values, and an unknown name raises a key error or gives get's default |
| RegistryLemmas.ResolveStringOnClean | pyinstl/configVarList.py:129-133 | on a clean registry, resolve_string joins with the separator the expansion of the text against the resolved values, and changes nothing |
| RegistryLemmas.AddConstFixedConsistent | pyinstl/configVarList.py:106-110 | the corrected constant registration keeps a consistent registry consistent |
| RegistryLemmas.AddConstLeavesStaleValues | pyinstl/configVarList.py:106-110 | the registration as written leaves a clean registry clean but inconsistent when a variable refers to the new constant |
| RegistryLemmas.SelfReferenceIsCircular | pyinstl/configVarList.py:160-161 | a variable whose only value is its own reference makes resolve raise a circular reference |
| RegistryLemmas.MutualReferenceIsCircular | pyinstl/configVarList.py:154-167 | two variables that refer to each other make resolve raise a circular reference on the first |
| RegistryLemmas.HeldAppendLeavesStaleValues | pyinstl/configVarList.py:95-98 | appending a value that is not one whole reference through an object held across `resolve` leaves a clean registry clean but inconsistent, whenever the resolved list of that variable was the expansion of its values (as in every consistent clean registry): the resolved values miss the new item |
| Cycles.AcyclicResolves | pyinstl/configVarList.py:135-167 | when the registered names can be ranked so that every registered name a variable refers to ranks lower, resolve succeeds |
| Cycles.RaisesOnlyOnCycles | pyinstl/configVarList.py:135-167 | when resolve raises, no such ranking exists: the references form a cycle |
| Cycles.CycleRaises | pyinstl/configVarList.py:135-167 | when registered names form a cycle, each referring to the next and the last being the first, resolve raises a circular reference |

## Left out

- `read_environment` takes the environment as a list of (name, value) pairs. Reading `os.environ` is I/O.
- `repr_for_yaml` is not modelled: it depends on `aYaml.augmentedYaml`, which is not part of this model.
- `ConfigVarList.description` is not modelled: it calls `.description` on a dict, which fails whatever the argument.
- The printing of the exception inside `resolve` is left out, and so are the `__main__` demonstration blocks.
- `__str__`, `__repr__` and the unused `__resolving_in_progress` slot are left out.
- The Python `re` engine is not modelled. The token pattern is a hand-written scanner, and `\w` means ASCII letters, digits and underscore only. Python 3 also accepts other Unicode word characters.
- Negative and slice indexing of a variable's values are not modelled: indices are natural numbers, and a position past the end raises.
- `extend` takes a list of strings, not an arbitrary iterable.
- Registries.ResolveString: the model resolves with an empty stack. In the source the stack is a real list only during `resolve`. Before the first `resolve` it is `None`, and after a successful one it is deleted, so a string that reaches a registered but unresolved name raises there. After a failed `resolve` it is left as a list holding the names that were being resolved, and reaching one of those raises a circular reference. On a clean registry none of this makes a difference, because every registered name is resolved (`RegistryLemmas.ResolveStringOnClean`).
- Expansion.ExpandEmbeddedOneName: proved only for a one-value list, starting with an empty dictionary, whose tokens all name one variable. The general case is `Substitution.ExpandEmbedded`, which needs two conditions: every `$` of the value opens a reference, and no resolved value holds a `$`. Without them the general property is false, because the sequential replacement can replace a reference text that an earlier replacement created.
- Expansion.UnknownNameVanishes: proved only for a one-value list, starting with an empty dictionary; an embedded unknown name is covered only when it is the only name the value embeds. Under the conditions above, `Substitution.ExpandEmbedded` puts the empty join of an unknown name in place of its every reference.
- Substitution.ExpandIsSubstitution: needs the same two conditions, for the reason given for `Expansion.ExpandEmbeddedOneName`.
- Registries.Resolve: when it raises, the model returns only the error. The source leaves the partly rebuilt resolved values behind, and the dirty flag as it was.
- Registries.ReadEnvironment: when it raises, the model returns the registry as it was at the failing entry and drops the rest of the loop. The source does the same.
- In `resolve`, the dead stack check would raise a `NameError`, because its message uses an undefined name. The model keeps the check and gives the circular-reference error, since the check cannot fire.
- Registries.Mutate: covers only a change made right after `get_configVar_obj` handed the object out, which is when the source sets the dirty flag. The identity of variable objects is not modelled. A caller that keeps the object across a later `resolve` and changes it then leaves the source registry clean, with stale resolved values and possibly a cycle that was never checked; `Registries.MutateHeld` models that change and `RegistryLemmas.HeldAppendLeavesStaleValues` shows the stale values.

## Findings

| source | as written | input that shows it | evidently intended | confidence | as-written member | corrected member |
|---|---|---|---|---|---|---|
| pyinstl/configVarList.py:106-110 | on a clean registry, a constant whose values hold no reference is stored as resolved and the registry stays clean | register A with the value `$(C)` and resolve, so A resolves to `()`; then add the constant C with the value `x`: the registry stays clean, but A still reads `()` instead of `("x",)` | stay clean only if the resolved values remain correct, so mark the registry dirty when a registered variable refers to the new name | not executed; medium | RegistryLemmas.AddConstLeavesStaleValues | Registries.AddConstConfigVariableFixed |

The corrected registration is proved to keep a consistent registry consistent
(`RegistryLemmas.AddConstFixedConsistent`).

The registration of a constant is not the only way a clean registry goes
stale. A change through a variable object kept across `resolve` does it too
(`RegistryLemmas.HeldAppendLeavesStaleValues`). That one is not listed as a
finding: the dirty flag is set when the object is handed out, by design, and
no local correction restores the promise without tracking the objects.
