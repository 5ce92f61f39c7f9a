/** When the sequential replacement of `resolve_list` is the same as putting,
    in one pass, the referenced values in place of every reference: as long
    as every `$` in the value opens a reference and no resolved value holds
    a `$`, no replacement can create or destroy a later key's occurrence. */
module Substitution {
  import opened Results
  import opened Strs
  import opened RefGrammar
  import opened Expansion

  /** The text holds no `$`. */
  predicate DollarFree(x: string) {
    forall p :: 0 <= p < |x| ==> x[p] != '$'
  }

  /** Every `$` of the text is the start of a reference. */
  predicate DollarsOpenRefs(s: string) {
    forall p :: 0 <= p < |s| && s[p] == '$' ==> TokenAt(s, p).Some?
  }

  /** No resolved value holds a `$`. */
  ghost predicate EnvDollarFree(env: Env) {
    forall n, x :: n in env && x in env[n] ==> DollarFree(x)
  }

  /** What `resolve_list` puts in place of a reference to `n`. */
  function Rep(env: Env, n: string): string {
    Join(" ", Val(env, n))
  }

  /** Every entry maps the reference text of a name to that name's
      replacement, as `resolve_list` builds them. */
  ghost predicate DicFor(d: ReplaceDic, env: Env) {
    forall i :: 0 <= i < |d| ==>
      |d[i].0| >= 3 && IsName(KeyName(d[i].0)) && d[i] == (RefText(KeyName(d[i].0)), Rep(env, KeyName(d[i].0)))
  }

  /** The names a dictionary has entries for. */
  function DicNames(d: ReplaceDic): set<string>
    decreases |d|
  {
    if |d| == 0 || |d[0].0| < 3 then {} else {KeyName(d[0].0)} + DicNames(d[1..])
  }

  /** The text from position `i` on, rebuilt left to right: each reference
      to a name in `names` becomes that name's replacement; every other
      reference and every other character stays. */
  function SubstFrom(s: string, i: nat, env: Env, names: set<string>): string
    requires i <= |s|
    decreases |s| - i
  {
    if i == |s| then ""
    else match TokenAt(s, i)
      case Some(t) =>
        (if t.name in names then Rep(env, t.name) else RefText(t.name)) + SubstFrom(s, t.end, env, names)
      case None => [s[i]] + SubstFrom(s, i + 1, env, names)
  }

  /** The names of the references embedded in the text. */
  function TokenNames(s: string): set<string> {
    set t | t in Scan(s, 0) :: t.name
  }

  /** Every reference of the text replaced, in one pass. */
  function Substitute(s: string, env: Env): string {
    SubstFrom(s, 0, env, TokenNames(s))
  }

  /** The one-pass reading of `resolve_list(values[i:])`: a whole reference
      splices the referenced values, any other value becomes the one item
      `Substitute` makes of it. */
  function SubstituteAll(values: seq<string>, i: nat, env: Env): seq<string>
    requires i <= |values|
    decreases |values| - i
  {
    if i == |values| then []
    else match WholeRef(values[i])
      case Some(n) => Val(env, n) + SubstituteAll(values, i + 1, env)
      case None => [Substitute(values[i], env)] + SubstituteAll(values, i + 1, env)
  }

  // ---------------------------------------------------------------------
  // The theorem

  /** One value with embedded references: the dictionary-driven replacement
      gives the one-pass substitution, and the dictionary it passes on still
      maps each reference text to its replacement. */
  lemma ExpandEmbedded(values: seq<string>, i: nat, env: Env, d: ReplaceDic)
    requires i < |values| && WholeRef(values[i]).None?
    requires DicFor(d, env) && DollarsOpenRefs(values[i]) && EnvDollarFree(env)
    ensures Expand(values, i, env, d)
      == [Substitute(values[i], env)] + Expand(values, i + 1, env, AddRefs(d, Scan(values[i], 0), 0, env))
    ensures DicFor(AddRefs(d, Scan(values[i], 0), 0, env), env)
  {
    var v := values[i];
    var toks := Scan(v, 0);
    var dd := AddRefs(d, toks, 0, env);
    DicForAddRefs(d, toks, env);
    SubstNone(v, 0, env);
    assert v[0..] == v;
    ReplaceAllSubst(v, env, {}, dd);
    forall t | t in toks
      ensures t.name in DicNames(dd)
    {
      var k :| 0 <= k < |toks| && toks[k] == t;
      DicNamesHasKey(dd, env, t.name);
    }
    SubstCovered(v, 0, env, {} + DicNames(dd), TokenNames(v));
  }

  /** Under the same conditions on every value, `resolve_list` is the
      one-pass substitution of the whole list. */
  lemma {:induction false} ExpandIsSubstitution(values: seq<string>, i: nat, env: Env, d: ReplaceDic)
    requires i <= |values| && DicFor(d, env) && EnvDollarFree(env)
    requires forall j :: i <= j < |values| ==> DollarsOpenRefs(values[j])
    ensures Expand(values, i, env, d) == SubstituteAll(values, i, env)
    decreases |values| - i
  {
    if i < |values| {
      match WholeRef(values[i])
      case Some(n) =>
        ExpandIsSubstitution(values, i + 1, env, d);
      case None =>
        ExpandEmbedded(values, i, env, d);
        ExpandIsSubstitution(values, i + 1, env, AddRefs(d, Scan(values[i], 0), 0, env));
    }
  }

  /** `"$(a), $(b)!"` with two different names becomes `"A, B!"`, where `A`
      and `B` are the two names' values joined with a space. */
  lemma TwoNames(a: string, b: string, env: Env)
    requires IsName(a) && IsName(b) && EnvDollarFree(env)
    ensures Expand([RefText(a) + ", " + RefText(b) + "!"], 0, env, [])
      == [Rep(env, a) + ", " + Rep(env, b) + "!"]
  {
    var v := RefText(a) + ", " + RefText(b) + "!";
    TwoNamesScan(a, b);
    TwoNamesDollars(a, b);
    TwoNamesSubst(a, b, env);
    ExpandEmbedded([v], 0, env, []);
  }

  /** Where the tokens of `"$(a), $(b)!"` are. */
  lemma TwoNamesTokens(a: string, b: string)
    requires IsName(a) && IsName(b)
    ensures var v := RefText(a) + ", " + RefText(b) + "!";
      var p := |a| + 3;
      var q := p + 2 + |b| + 3;
      && |v| == q + 1
      && TokenAt(v, 0) == Some(Token(0, p, a))
      && TokenAt(v, p + 2) == Some(Token(p + 2, q, b))
      && TokenAt(v, p) == None && TokenAt(v, p + 1) == None && TokenAt(v, q) == None
      && v[p] == ',' && v[p + 1] == ' ' && v[q] == '!'
  {
    var v := RefText(a) + ", " + RefText(b) + "!";
    var p := |a| + 3;
    var q := p + 2 + |b| + 3;
    assert v[..p] == RefText(a);
    assert v[p + 2..q] == RefText(b);
    assert OccursAt(v, RefText(a), 0);
    assert OccursAt(v, RefText(b), p + 2);
    TokenAtComplete(v, 0, a);
    TokenAtComplete(v, p + 2, b);
    assert v[p] == ',' && v[p + 1] == ' ' && v[q] == '!';
  }

  lemma TwoNamesScan(a: string, b: string)
    requires IsName(a) && IsName(b)
    ensures var v := RefText(a) + ", " + RefText(b) + "!";
      Scan(v, 0) == [Token(0, |a| + 3, a), Token(|a| + 5, |a| + |b| + 8, b)]
  {
    var v := RefText(a) + ", " + RefText(b) + "!";
    TwoNamesTokens(a, b);
    ScanTwo(v, |a| + 3, |a| + |b| + 8, a, b);
  }

  lemma ScanTwo(v: string, p: nat, q: nat, a: string, b: string)
    requires |v| == q + 1 && p + 2 < q
    requires TokenAt(v, 0) == Some(Token(0, p, a)) && TokenAt(v, p + 2) == Some(Token(p + 2, q, b))
    requires TokenAt(v, p) == None && TokenAt(v, p + 1) == None && TokenAt(v, q) == None
    ensures Scan(v, 0) == [Token(0, p, a), Token(p + 2, q, b)]
  {
    assert Scan(v, q + 1) == [];
    assert Scan(v, q) == [];
    assert Scan(v, p + 2) == [Token(p + 2, q, b)];
    assert Scan(v, p + 1) == Scan(v, p + 2);
    assert Scan(v, p) == Scan(v, p + 1);
  }

  lemma TwoNamesDollars(a: string, b: string)
    requires IsName(a) && IsName(b)
    ensures var v := RefText(a) + ", " + RefText(b) + "!";
      WholeRef(v).None? && DollarsOpenRefs(v)
  {
    var v := RefText(a) + ", " + RefText(b) + "!";
    var p := |a| + 3;
    var q := p + 2 + |b| + 3;
    TwoNamesTokens(a, b);
    if WholeRef(v).Some? {
      WholeRefOneDollar(v, WholeRef(v).value);
    }
    forall k | 0 <= k < |v| && v[k] == '$'
      ensures TokenAt(v, k).Some?
    {
    }
  }

  lemma TwoNamesSubst(a: string, b: string, env: Env)
    requires IsName(a) && IsName(b)
    ensures Substitute(RefText(a) + ", " + RefText(b) + "!", env) == Rep(env, a) + ", " + Rep(env, b) + "!"
  {
    var v := RefText(a) + ", " + RefText(b) + "!";
    var p := |a| + 3;
    var q := p + 2 + |b| + 3;
    TwoNamesTokens(a, b);
    TwoNamesScan(a, b);
    SubstTwo(v, p, q, a, b, env);
  }

  /** The one-pass substitution of a text laid out as `"$(a), $(b)!"`. */
  lemma SubstTwo(v: string, p: nat, q: nat, a: string, b: string, env: Env)
    requires |v| == q + 1 && p + 2 < q
    requires TokenAt(v, 0) == Some(Token(0, p, a)) && TokenAt(v, p + 2) == Some(Token(p + 2, q, b))
    requires TokenAt(v, p) == None && TokenAt(v, p + 1) == None && TokenAt(v, q) == None
    requires v[p] == ',' && v[p + 1] == ' ' && v[q] == '!'
    requires Scan(v, 0) == [Token(0, p, a), Token(p + 2, q, b)]
    ensures Substitute(v, env) == Rep(env, a) + ", " + Rep(env, b) + "!"
  {
    ScanName(v, 0);
    ScanName(v, 1);
    TwoNamesRebuild(v, p, q, a, b, env, TokenNames(v));
  }

  /** The rebuild of a text laid out as `"$(a), $(b)!"`, from its tokens. */
  lemma TwoNamesRebuild(v: string, p: nat, q: nat, a: string, b: string, env: Env, names: set<string>)
    requires |v| == q + 1 && p + 2 < q
    requires TokenAt(v, 0) == Some(Token(0, p, a)) && TokenAt(v, p + 2) == Some(Token(p + 2, q, b))
    requires TokenAt(v, p) == None && TokenAt(v, p + 1) == None && TokenAt(v, q) == None
    requires v[p] == ',' && v[p + 1] == ' ' && v[q] == '!'
    requires a in names && b in names
    ensures SubstFrom(v, 0, env, names) == Rep(env, a) + ", " + Rep(env, b) + "!"
  {
    SubstChar(v, q, env, names);
    SubstToken(v, p + 2, env, names);
    SubstChar(v, p + 1, env, names);
    SubstChar(v, p, env, names);
    SubstToken(v, 0, env, names);
    RebuildPieces(SubstFrom(v, 0, env, names), SubstFrom(v, p, env, names), SubstFrom(v, p + 1, env, names),
                  SubstFrom(v, p + 2, env, names), SubstFrom(v, q, env, names), Rep(env, a), Rep(env, b));
  }

  lemma RebuildPieces(x0: string, x1: string, x2: string, x3: string, x4: string, ra: string, rb: string)
    requires x4 == "!" && x3 == rb + x4 && x2 == " " + x3 && x1 == "," + x2 && x0 == ra + x1
    ensures x0 == ra + ", " + rb + "!"
  {
  }

  lemma ScanName(v: string, k: nat)
    requires k < |Scan(v, 0)|
    ensures Scan(v, 0)[k].name in TokenNames(v)
  {
    assert Scan(v, 0)[k] in Scan(v, 0);
  }

  lemma SubstToken(v: string, i: nat, env: Env, names: set<string>)
    requires i < |v| && TokenAt(v, i).Some? && TokenAt(v, i).value.name in names
    ensures SubstFrom(v, i, env, names) == Rep(env, TokenAt(v, i).value.name) + SubstFrom(v, TokenAt(v, i).value.end, env, names)
  {
  }

  lemma SubstChar(v: string, i: nat, env: Env, names: set<string>)
    requires i < |v| && TokenAt(v, i).None?
    ensures SubstFrom(v, i, env, names) == [v[i]] + SubstFrom(v, i + 1, env, names)
  {
  }

  // ---------------------------------------------------------------------
  // Replacement one piece at a time

  /** With no name to replace, the rebuild is the text itself. */
  lemma {:induction false} SubstNone(s: string, i: nat, env: Env)
    requires i <= |s|
    ensures SubstFrom(s, i, env, {}) == s[i..]
    decreases |s| - i
  {
    if i < |s| {
      match TokenAt(s, i)
      case Some(t) =>
        SubstNone(s, t.end, env);
        assert SubstFrom(s, i, env, {}) == RefText(t.name) + s[t.end..];
        assert s[i..t.end] == RefText(t.name);
        assert s[i..] == s[i..t.end] + s[t.end..];
      case None =>
        SubstNone(s, i + 1, env);
        assert SubstFrom(s, i, env, {}) == [s[i]] + s[i + 1..];
        assert s[i..] == [s[i]] + s[i + 1..];
    }
  }

  /** The rebuild depends on `names` only through the names the scan finds. */
  lemma {:induction false} SubstCovered(s: string, i: nat, env: Env, k1: set<string>, k2: set<string>)
    requires i <= |s|
    requires forall t :: t in Scan(s, i) ==> (t.name in k1 <==> t.name in k2)
    ensures SubstFrom(s, i, env, k1) == SubstFrom(s, i, env, k2)
    decreases |s| - i
  {
    if i < |s| {
      match TokenAt(s, i)
      case Some(t) =>
        assert Scan(s, i) == [t] + Scan(s, t.end);
        assert t in Scan(s, i);
        SubstCovered(s, t.end, env, k1, k2);
      case None =>
        assert Scan(s, i) == Scan(s, i + 1);
        SubstCovered(s, i + 1, env, k1, k2);
    }
  }

  /** Replacing a reference text skips a `$`-free prefix. */
  lemma {:induction false} ReplaceDollarFreePrefix(a: string, b: string, pat: string, rep: string)
    requires DollarFree(a) && |pat| > 0 && pat[0] == '$'
    ensures Replace(a + b, pat, rep) == a + Replace(b, pat, rep)
    decreases |a|
  {
    if |a| > 0 {
      var s := a + b;
      assert s[0] == a[0] != '$';
      if |s| >= |pat| {
        assert s[..|pat|][0] == s[0];
        assert s[1..] == a[1..] + b;
        ReplaceDollarFreePrefix(a[1..], b, pat, rep);
        assert a == [a[0]] + a[1..];
      }
    } else {
      assert a + b == b;
    }
  }

  /** Replacing the text of `n` at the text of `m`: it is replaced exactly
      when the names are the same. */
  lemma ReplaceRefPrefix(m: string, b: string, n: string, rep: string)
    requires IsName(m) && IsName(n)
    ensures Replace(RefText(m) + b, RefText(n), rep)
      == (if m == n then rep else RefText(m)) + Replace(b, RefText(n), rep)
  {
    if m == n {
      ReplaceSameRef(m, b, rep);
    } else {
      ReplaceOtherRef(m, b, n, rep);
    }
  }

  lemma ReplaceSameRef(m: string, b: string, rep: string)
    ensures Replace(RefText(m) + b, RefText(m), rep) == rep + Replace(b, RefText(m), rep)
  {
    var s := RefText(m) + b;
    var pat := RefText(m);
    assert s[..|pat|] == pat && s[|pat|..] == b;
  }

  lemma ReplaceOtherRef(m: string, b: string, n: string, rep: string)
    requires IsName(m) && IsName(n) && m != n
    ensures Replace(RefText(m) + b, RefText(n), rep) == RefText(m) + Replace(b, RefText(n), rep)
  {
    var s := RefText(m) + b;
    var pat := RefText(n);
    var mid := "(" + m + ")";
    assert RefText(m) == "$" + mid;
    assert s == "$" + (mid + b);
    if |s| >= |pat| {
      OtherRefNotAtStart(m, b, n);
      assert s[1..] == mid + b;
      assert Replace(s, pat, rep) == "$" + Replace(mid + b, pat, rep);
    } else {
      assert Replace(mid + b, pat, rep) == mid + b;
    }
    MidDollarFree(m);
    ReplaceDollarFreePrefix(mid, b, pat, rep);
    Assoc("$", mid, Replace(b, pat, rep));
  }

  lemma OtherRefNotAtStart(m: string, b: string, n: string)
    requires IsName(m) && IsName(n) && m != n
    requires |RefText(m) + b| >= |RefText(n)|
    ensures (RefText(m) + b)[..|RefText(n)|] != RefText(n)
  {
    var s := RefText(m) + b;
    if s[..|RefText(n)|] == RefText(n) {
      assert OccursAt(s, RefText(m), 0) && OccursAt(s, RefText(n), 0);
      TokenAtComplete(s, 0, m);
      TokenAtComplete(s, 0, n);
    }
  }

  lemma MidDollarFree(m: string)
    requires IsName(m)
    ensures DollarFree("(" + m + ")")
  {
    var mid := "(" + m + ")";
    forall p | 0 <= p < |mid|
      ensures mid[p] != '$'
    {
      if 0 < p < |mid| - 1 {
        assert mid[p] == m[p - 1];
      }
    }
  }

  /** Joining `$`-free items with a space gives a `$`-free text. */
  lemma {:induction false} JoinDollarFree(items: seq<string>)
    requires forall k :: 0 <= k < |items| ==> DollarFree(items[k])
    ensures DollarFree(Join(" ", items))
    decreases |items|
  {
    if |items| > 1 {
      JoinDollarFree(items[1..]);
      var x, y := items[0], Join(" ", items[1..]);
      assert Join(" ", items) == x + " " + y;
      forall p | 0 <= p < |x + " " + y|
        ensures (x + " " + y)[p] != '$'
      {
        if p > |x| {
          assert (x + " " + y)[p] == y[p - |x| - 1];
        }
      }
    }
  }

  lemma RepDollarFree(env: Env, n: string)
    requires EnvDollarFree(env)
    ensures DollarFree(Rep(env, n))
  {
    var items := Val(env, n);
    forall k | 0 <= k < |items|
      ensures DollarFree(items[k])
    {
      assert items[k] in env[n];
    }
    JoinDollarFree(items);
  }

  /** One `str.replace` with the entry for `n` turns the rebuild that
      replaces `names` into the one that replaces `names` and `n`. */
  lemma {:induction false} ReplaceStep(s: string, i: nat, env: Env, names: set<string>, n: string)
    requires i <= |s| && IsName(n) && DollarsOpenRefs(s) && EnvDollarFree(env)
    ensures Replace(SubstFrom(s, i, env, names), RefText(n), Rep(env, n)) == SubstFrom(s, i, env, names + {n})
    decreases |s| - i
  {
    if i == |s| {
      assert SubstFrom(s, i, env, names) == "";
    } else if TokenAt(s, i).Some? {
      ReplaceStep(s, TokenAt(s, i).value.end, env, names, n);
      ReplaceTokenStep(s, i, env, names, n);
    } else {
      ReplaceStep(s, i + 1, env, names, n);
      ReplaceCharStep(s, i, env, names, n);
    }
  }

  /** `ReplaceStep` at a reference, given the text after it. */
  lemma ReplaceTokenStep(s: string, i: nat, env: Env, names: set<string>, n: string)
    requires i < |s| && TokenAt(s, i).Some? && IsName(n) && EnvDollarFree(env)
    requires var e := TokenAt(s, i).value.end;
      Replace(SubstFrom(s, e, env, names), RefText(n), Rep(env, n)) == SubstFrom(s, e, env, names + {n})
    ensures Replace(SubstFrom(s, i, env, names), RefText(n), Rep(env, n)) == SubstFrom(s, i, env, names + {n})
  {
    var t := TokenAt(s, i).value;
    var pat, rep := RefText(n), Rep(env, n);
    var rest := SubstFrom(s, t.end, env, names);
    if t.name in names {
      assert SubstFrom(s, i, env, names) == Rep(env, t.name) + rest;
      RepDollarFree(env, t.name);
      ReplaceDollarFreePrefix(Rep(env, t.name), rest, pat, rep);
    } else {
      assert SubstFrom(s, i, env, names) == RefText(t.name) + rest;
      ReplaceRefPrefix(t.name, rest, n, rep);
    }
  }

  /** `ReplaceStep` at a character that opens no reference, given the text
      after it. */
  lemma ReplaceCharStep(s: string, i: nat, env: Env, names: set<string>, n: string)
    requires i < |s| && TokenAt(s, i).None? && IsName(n) && DollarsOpenRefs(s)
    requires Replace(SubstFrom(s, i + 1, env, names), RefText(n), Rep(env, n)) == SubstFrom(s, i + 1, env, names + {n})
    ensures Replace(SubstFrom(s, i, env, names), RefText(n), Rep(env, n)) == SubstFrom(s, i, env, names + {n})
  {
    var rest := SubstFrom(s, i + 1, env, names);
    assert SubstFrom(s, i, env, names) == [s[i]] + rest;
    assert DollarFree([s[i]]);
    ReplaceDollarFreePrefix([s[i]], rest, RefText(n), Rep(env, n));
  }

  /** The whole sequential replacement: each entry adds its name to the
      names replaced. */
  lemma {:induction false} ReplaceAllSubst(s: string, env: Env, names: set<string>, d: ReplaceDic)
    requires DollarsOpenRefs(s) && EnvDollarFree(env) && DicFor(d, env)
    ensures ReplaceAll(SubstFrom(s, 0, env, names), d) == SubstFrom(s, 0, env, names + DicNames(d))
    decreases |d|
  {
    if |d| == 0 {
      assert names + DicNames(d) == names;
    } else {
      var n := KeyName(d[0].0);
      assert d[0] == (RefText(n), Rep(env, n));
      ReplaceStep(s, 0, env, names, n);
      DicForTail(d, env);
      ReplaceAllSubst(s, env, names + {n}, d[1..]);
      assert names + {n} + DicNames(d[1..]) == names + DicNames(d);
    }
  }

  /** The entries after the first still map reference texts to replacements,
      and the first contributes its name. */
  lemma DicForTail(d: ReplaceDic, env: Env)
    requires |d| > 0 && DicFor(d, env)
    ensures DicFor(d[1..], env)
    ensures DicNames(d) == {KeyName(d[0].0)} + DicNames(d[1..])
  {
    forall i | 0 <= i < |d[1..]|
      ensures |d[1..][i].0| >= 3
    {
      assert d[1..][i] == d[i + 1];
    }
  }

  /** `resolve_list` keeps its dictionary mapping each reference text to its
      replacement. */
  lemma DicForAddRefs(d: ReplaceDic, toks: seq<Token>, env: Env)
    requires DicFor(d, env)
    requires forall k :: 0 <= k < |toks| ==> IsName(toks[k].name)
    ensures DicFor(AddRefs(d, toks, 0, env), env)
  {
    var r := AddRefs(d, toks, 0, env);
    forall i | 0 <= i < |r|
      ensures |r[i].0| >= 3 && IsName(KeyName(r[i].0)) && r[i] == (RefText(KeyName(r[i].0)), Rep(env, KeyName(r[i].0)))
    {
      if i < |d| {
        assert r[i] == r[..|d|][i] == d[i];
      } else {
        assert FromToken(r[i], toks, 0, env);
        var t :| 0 <= t < |toks| && r[i] == (RefText(toks[t].name), Join(" ", Val(env, toks[t].name)));
        KeyNameOf(toks[t].name);
      }
    }
  }

  /** A name whose reference text is a key is one of the dictionary's names. */
  lemma {:induction false} DicNamesHasKey(d: ReplaceDic, env: Env, n: string)
    requires DicFor(d, env) && HasKey(d, RefText(n))
    ensures n in DicNames(d)
    decreases |d|
  {
    if d[0].0 == RefText(n) {
      KeyNameOf(n);
    } else {
      assert HasKey(d[1..], RefText(n)) by {
        var i :| 0 <= i < |d| && d[i].0 == RefText(n);
        assert d[1..][i - 1] == d[i];
      }
      DicForTail(d, env);
      DicNamesHasKey(d[1..], env, n);
    }
  }
}
