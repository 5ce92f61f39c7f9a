/** The reference grammar: a token is `$(` followed by one or more word
    characters followed by `)`. `value_ref_re` (found with `finditer` or
    `search`) and `only_one_value_ref_re` (anchored with `match` and `$`) are
    modelled by a hand-written scanner. */
module RefGrammar {
  import opened Results
  import opened Strs

  /** `\w`, restricted to ASCII letters, digits and underscore. */
  predicate IsWordChar(c: char) {
    ('a' <= c <= 'z') || ('A' <= c <= 'Z') || ('0' <= c <= '9') || c == '_'
  }

  /** A variable name as the grammar accepts it: `\w+`. */
  predicate IsName(n: string) {
    |n| > 0 && forall i :: 0 <= i < |n| ==> IsWordChar(n[i])
  }

  /** The text of the reference to `n`. */
  function RefText(n: string): (t: string)
    ensures |t| == |n| + 3
  {
    "$(" + n + ")"
  }

  /** The name a reference text refers to. */
  function KeyName(k: string): string
    requires |k| >= 3
  {
    k[2..|k| - 1]
  }

  lemma KeyNameOf(n: string)
    ensures KeyName(RefText(n)) == n
  {
  }

  /** A match of the token pattern: it spans `[start, end)` and names `name`. */
  datatype Token = Token(start: nat, end: nat, name: string)

  /** The end of the run of word characters that begins at `j`. */
  function WordRunEnd(s: string, j: nat): (e: nat)
    requires j <= |s|
    ensures j <= e <= |s|
    ensures forall k :: j <= k < e ==> IsWordChar(s[k])
    ensures e < |s| ==> !IsWordChar(s[e])
    decreases |s| - j
  {
    if j < |s| && IsWordChar(s[j]) then WordRunEnd(s, j + 1) else j
  }

  /** The token pattern tried at position `i` (the regex engine's attempt at
      one start position). */
  function TokenAt(s: string, i: nat): (t: Option<Token>)
    requires i <= |s|
    ensures t.Some? ==> t.value.start == i && i < t.value.end <= |s|
    ensures t.Some? ==> IsName(t.value.name) && s[i..t.value.end] == RefText(t.value.name)
    ensures t.Some? ==> t.value.end == i + |RefText(t.value.name)|
  {
    if i + 1 < |s| && s[i] == '$' && s[i + 1] == '(' then
      var e := WordRunEnd(s, i + 2);
      if e > i + 2 && e < |s| && s[e] == ')' then
        var t := Token(i, e + 1, s[i + 2..e]);
        assert IsName(t.name) by {
          forall k | 0 <= k < |t.name|
            ensures IsWordChar(t.name[k])
          {
            assert t.name[k] == s[i + 2 + k];
          }
        }
        assert s[i..e + 1] == RefText(t.name);
        Some(t)
      else None
    else None
  }

  /** The converse direction: wherever the text of a reference starts, the
      pattern matches there and finds that name. */
  lemma TokenAtComplete(s: string, i: nat, n: string)
    requires IsName(n) && OccursAt(s, RefText(n), i)
    ensures TokenAt(s, i) == Some(Token(i, i + |n| + 3, n))
  {
    var r := RefText(n);
    assert s[i] == r[0] && s[i + 1] == r[1];
    forall k | 0 <= k < |n|
      ensures s[i + 2 + k] == n[k]
    {
      assert s[i + 2 + k] == r[2 + k];
    }
    assert s[i + 2 + |n|] == r[2 + |n|] == ')';
    var e := WordRunEnd(s, i + 2);
    assert e == i + 2 + |n|;
    assert s[i + 2..e] == n;
  }

  /** `value_ref_re.finditer(s[i:])`: all non-overlapping matches, left to
      right, from position `i` on. */
  function Scan(s: string, i: nat): (toks: seq<Token>)
    requires i <= |s|
    ensures forall k :: 0 <= k < |toks| ==> i <= toks[k].start < toks[k].end <= |s|
    ensures forall k :: 0 <= k < |toks| ==> TokenAt(s, toks[k].start) == Some(toks[k])
    ensures forall k :: 0 <= k < |toks| - 1 ==> toks[k].end <= toks[k + 1].start
    decreases |s| - i
  {
    if i == |s| then []
    else match TokenAt(s, i)
      case Some(t) => [t] + Scan(s, t.end)
      case None => Scan(s, i + 1)
  }

  /** Every place where a reference is written is found by the scan: matches
      cannot overlap an occurrence, because a match has no `$` after its first
      character. */
  lemma {:induction false} ScanFindsEveryRef(s: string, i: nat, n: string, k: nat)
    requires i <= k && IsName(n) && OccursAt(s, RefText(n), k)
    ensures Token(k, k + |n| + 3, n) in Scan(s, i)
    decreases |s| - i
  {
    TokenAtComplete(s, k, n);
    if i == k {
      assert Scan(s, i) == [Token(k, k + |n| + 3, n)] + Scan(s, k + |n| + 3);
    } else if TokenAt(s, i).Some? {
      var t := TokenAt(s, i).value;
      TokenEndsBeforeRef(s, t, n, k);
      ScanFindsEveryRef(s, t.end, n, k);
      assert Scan(s, i) == [t] + Scan(s, t.end);
    } else {
      ScanFindsEveryRef(s, i + 1, n, k);
      assert Scan(s, i) == Scan(s, i + 1);
    }
  }

  /** A match that starts before an occurrence of a reference ends before it:
      the only `$` in a match is its first character. */
  lemma TokenEndsBeforeRef(s: string, t: Token, n: string, k: nat)
    requires t.start < t.end <= |s| && t.start < k
    requires IsName(t.name) && s[t.start..t.end] == RefText(t.name)
    requires IsName(n) && OccursAt(s, RefText(n), k)
    ensures t.end <= k
  {
    var r := RefText(t.name);
    assert s[k] == RefText(n)[0] == '$';
    NoDollarInRef(t.name);
    forall j | t.start < j < t.end
      ensures s[j] != '$'
    {
      assert s[j] == r[j - t.start];
    }
  }

  /** The only `$` in the text of a reference is its first character. */
  lemma NoDollarInRef(n: string)
    requires IsName(n)
    ensures forall p :: 0 < p < |RefText(n)| ==> RefText(n)[p] != '$'
  {
    var r := RefText(n);
    forall p | 0 < p < |r|
      ensures r[p] != '$'
    {
      if 2 <= p < |r| - 1 {
        assert r[p] == n[p - 2];
      }
    }
  }

  /** `only_one_value_ref_re.match(s)`: the whole value is one reference.
      Python's `$` also matches just before a final newline, so a value that is
      one reference followed by `"\n"` matches too. */
  function WholeRef(s: string): (r: Option<string>)
    ensures r.Some? <==> exists n :: IsName(n) && (s == RefText(n) || s == RefText(n) + "\n")
    ensures r.Some? ==> IsName(r.value) && (s == RefText(r.value) || s == RefText(r.value) + "\n")
  {
    var r := if |s| == 0 then None
      else match TokenAt(s, 0)
        case Some(t) =>
          if t.end == |s| || (t.end + 1 == |s| && s[t.end] == '\n') then Some(t.name) else None
        case None => None;
    if r.None? then
      assert forall n :: IsName(n) && (s == RefText(n) || s == RefText(n) + "\n") ==> false by {
        forall n | IsName(n) && (s == RefText(n) || s == RefText(n) + "\n")
          ensures false
        {
          assert OccursAt(s, RefText(n), 0);
          TokenAtComplete(s, 0, n);
        }
      }
      r
    else
      var t := TokenAt(s, 0).value;
      assert s[..t.end] == RefText(t.name);
      assert t.end + 1 == |s| ==> s == s[..t.end] + "\n";
      r
  }

  /** `value_ref_re.search(s)`: the value contains a reference somewhere. */
  function HasRef(s: string): (b: bool)
    ensures b <==> exists n, k: nat :: IsName(n) && OccursAt(s, RefText(n), k)
  {
    var toks := Scan(s, 0);
    if |toks| > 0 then
      assert OccursAt(s, RefText(toks[0].name), toks[0].start);
      true
    else
      assert forall n, k: nat :: IsName(n) && OccursAt(s, RefText(n), k) ==> false by {
        forall n, k: nat | IsName(n) && OccursAt(s, RefText(n), k)
          ensures false
        {
          ScanFindsEveryRef(s, 0, n, k);
        }
      }
      false
  }

  /** A value that is one whole reference also contains that reference. */
  lemma WholeRefHasRef(s: string)
    requires WholeRef(s).Some?
    ensures HasRef(s)
  {
    assert OccursAt(s, RefText(WholeRef(s).value), 0);
  }

  /** The names written in a value: the spliced name of a whole reference, or
      the names of all embedded tokens. */
  function RefNames(s: string): (names: set<string>)
    ensures forall n :: n in names ==> IsName(n)
  {
    match WholeRef(s)
    case Some(n) => {n}
    case None => set t | t in Scan(s, 0) :: t.name
  }

  /** A value mentions exactly the names whose references it contains. */
  lemma RefNamesExact(s: string, n: string)
    ensures n in RefNames(s) <==> IsName(n) && Occurs(s, RefText(n))
  {
    if n in RefNames(s) {
      RefNameOccurs(s, n);
    }
    if IsName(n) && Occurs(s, RefText(n)) {
      OccursInRefNames(s, n);
    }
  }

  lemma RefNameOccurs(s: string, n: string)
    requires n in RefNames(s)
    ensures Occurs(s, RefText(n))
  {
    if WholeRef(s).Some? {
      var r := RefText(WholeRef(s).value);
      assert n == WholeRef(s).value;
      assert s == r || s == r + "\n";
      assert s[0..|r|] == r;
      assert OccursAt(s, RefText(n), 0);
    } else {
      var t :| t in Scan(s, 0) && t.name == n;
      assert OccursAt(s, RefText(n), t.start);
    }
  }

  lemma OccursInRefNames(s: string, n: string)
    requires IsName(n) && Occurs(s, RefText(n))
    ensures n in RefNames(s)
  {
    var k: nat :| k <= |s| && OccursAt(s, RefText(n), k);
    match WholeRef(s)
    case Some(m) =>
      WholeRefOnlyRef(s, m, n, k);
    case None =>
      ScanFindsEveryRef(s, 0, n, k);
  }

  /** No `$` follows the first character of a whole-reference value. */
  lemma WholeRefOneDollar(s: string, m: string)
    requires WholeRef(s) == Some(m)
    ensures forall j :: 0 < j < |s| ==> s[j] != '$'
  {
    var r := RefText(m);
    forall j | 0 < j < |s|
      ensures s[j] != '$'
    {
      if j < |r| {
        assert s[j] == r[j];
        if 2 <= j < |r| - 1 {
          assert r[j] == m[j - 2];
          assert IsWordChar(m[j - 2]);
        }
      } else {
        assert s == r + "\n";
      }
    }
  }

  /** The only reference in a whole-reference value is the spliced one. */
  lemma WholeRefOnlyRef(s: string, m: string, n: string, k: nat)
    requires WholeRef(s) == Some(m)
    requires IsName(n) && OccursAt(s, RefText(n), k)
    ensures k == 0 && n == m
  {
    WholeRefOneDollar(s, m);
    assert s[k] == RefText(n)[0];
    TokenAtComplete(s, 0, n);
    assert OccursAt(s, RefText(m), 0);
    TokenAtComplete(s, 0, m);
  }

  /** A token cannot reach across a space, so joining values with `" "` (as
      the constant registration does before searching) finds a reference
      exactly when one of the values has one. */
  lemma {:induction false} HasRefJoinSpace(items: seq<string>)
    ensures HasRef(Join(" ", items)) <==> exists j :: 0 <= j < |items| && HasRef(items[j])
    decreases |items|
  {
    if |items| > 1 {
      HasRefJoinSpace(items[1..]);
      var a, b := items[0], Join(" ", items[1..]);
      HasRefConcatSpace(a, b);
      if HasRef(b) {
        var j :| 0 <= j < |items[1..]| && HasRef(items[1..][j]);
        assert HasRef(items[j + 1]);
      }
      if exists j :: 0 <= j < |items| && HasRef(items[j]) {
        var j :| 0 <= j < |items| && HasRef(items[j]);
        if j > 0 {
          assert HasRef(items[1..][j - 1]);
        }
      }
    }
  }

  /** The text of a reference contains no space. */
  lemma NoSpaceInRef(n: string)
    requires IsName(n)
    ensures forall p :: 0 <= p < |RefText(n)| ==> RefText(n)[p] != ' '
  {
    var r := RefText(n);
    forall p | 0 <= p < |r|
      ensures r[p] != ' '
    {
      if 2 <= p < |r| - 1 {
        assert r[p] == n[p - 2];
      }
    }
  }

  lemma HasRefConcatSpace(a: string, b: string)
    ensures HasRef(a + " " + b) <==> HasRef(a) || HasRef(b)
  {
    if HasRef(a + " " + b) {
      RefInConcatSpace(a, b);
    }
    if HasRef(a) {
      RefInLeft(a, " " + b);
      assert a + " " + b == a + (" " + b);
    }
    if HasRef(b) {
      RefInRight(a + " ", b);
    }
  }

  /** A reference in `a + " " + b` lies wholly on one side of the space. */
  lemma RefInConcatSpace(a: string, b: string)
    requires HasRef(a + " " + b)
    ensures HasRef(a) || HasRef(b)
  {
    var s := a + " " + b;
    var n, k: nat :| IsName(n) && OccursAt(s, RefText(n), k);
    var r := RefText(n);
    if k + |r| <= |a| {
      assert a[k..k + |r|] == s[k..k + |r|];
      assert OccursAt(a, r, k);
    } else {
      SpaceOutsideRef(s, n, k, |a|);
      assert b[k - |a| - 1..k - |a| - 1 + |r|] == s[k..k + |r|];
      assert OccursAt(b, r, k - |a| - 1);
    }
  }

  /** An occurrence of a reference never covers a space. */
  lemma SpaceOutsideRef(s: string, n: string, k: nat, p: nat)
    requires IsName(n) && OccursAt(s, RefText(n), k)
    requires p < |s| && s[p] == ' '
    ensures p < k || k + |RefText(n)| <= p
  {
  }

  /** A reference in `a` is still there after appending. */
  lemma RefInLeft(a: string, c: string)
    requires HasRef(a)
    ensures HasRef(a + c)
  {
    var n, k: nat :| IsName(n) && OccursAt(a, RefText(n), k);
    assert (a + c)[k..k + |RefText(n)|] == a[k..k + |RefText(n)|];
    assert OccursAt(a + c, RefText(n), k);
  }

  /** A reference in `b` is still there after prepending. */
  lemma RefInRight(c: string, b: string)
    requires HasRef(b)
    ensures HasRef(c + b)
  {
    var n, k: nat :| IsName(n) && OccursAt(b, RefText(n), k);
    var r := RefText(n);
    assert (c + b)[|c| + k..|c| + k + |r|] == b[k..k + |r|];
    assert OccursAt(c + b, r, |c| + k);
  }

  /** The text of a reference is recognised as that one whole reference. */
  lemma WholeRefOfRefText(n: string)
    requires IsName(n)
    ensures WholeRef(RefText(n)) == Some(n)
  {
    var s := RefText(n);
    var m := WholeRef(s).value;
    assert s == RefText(m);
    assert n == s[2..|s| - 1] == m;
  }

  /** A value without a reference names nothing. */
  lemma NoRefNoNames(s: string)
    requires !HasRef(s)
    ensures RefNames(s) == {}
  {
    if n :| n in RefNames(s) {
      RefNamesExact(s, n);
    }
  }
}
