/** The Python string operations the resolver relies on: `sep.join(items)`,
    `s.replace(old, new)` and, as an independent reference for replace,
    `s.split(sep)`. */
module Strs {

  /** `sep.join(items)`: the items in order with one separator between every
      two of them. */
  function Join(sep: string, items: seq<string>): (r: string)
    ensures |items| == 0 ==> r == ""
    ensures |items| == 1 ==> r == items[0]
    ensures |items| > 0 ==> |r| == SumLengths(items) + (|items| - 1) * |sep|
    decreases |items|
  {
    if |items| == 0 then ""
    else if |items| == 1 then items[0]
    else items[0] + sep + Join(sep, items[1..])
  }

  function SumLengths(items: seq<string>): nat
    decreases |items|
  {
    if |items| == 0 then 0 else |items[0]| + SumLengths(items[1..])
  }

  /** True when `pat` occurs in `s` starting at `i`. */
  predicate OccursAt(s: string, pat: string, i: nat) {
    i + |pat| <= |s| && s[i..i + |pat|] == pat
  }

  /** `pat in s` */
  predicate Occurs(s: string, pat: string) {
    exists i: nat | i <= |s| :: OccursAt(s, pat, i)
  }

  /** `s.replace(pat, rep)`: leftmost, non-overlapping replacement of every
      occurrence. With an empty pattern Python inserts `rep` around every
      character. For a non-empty pattern this is `rep.join(s.split(pat))`. */
  function Replace(s: string, pat: string, rep: string): (r: string)
    ensures |pat| > 0 ==> r == Join(rep, Split(s, pat))
    decreases |s|
  {
    if |pat| == 0 then InsertAround(s, rep)
    else if |s| < |pat| then s
    else if s[..|pat|] == pat then
      var tail := Replace(s[|pat|..], pat, rep);
      assert rep + tail == Join(rep, Split(s, pat)) by {
        JoinCons(rep, "", Split(s[|pat|..], pat));
      }
      rep + tail
    else
      var tail := Replace(s[1..], pat, rep);
      assert [s[0]] + tail == Join(rep, Split(s, pat)) by {
        JoinExtendHead(rep, [s[0]], Split(s[1..], pat));
      }
      [s[0]] + tail
  }

  function InsertAround(s: string, rep: string): (r: string)
    ensures |r| == |s| + (|s| + 1) * |rep|
    decreases |s|
  {
    if |s| == 0 then rep else rep + [s[0]] + InsertAround(s[1..], rep)
  }

  /** `s.split(pat)` for a non-empty pattern: the pieces between the
      leftmost, non-overlapping occurrences. */
  function Split(s: string, pat: string): (pieces: seq<string>)
    requires |pat| > 0
    ensures |pieces| > 0
    decreases |s|
  {
    if |s| < |pat| then [s]
    else if s[..|pat|] == pat then [""] + Split(s[|pat|..], pat)
    else
      var rest := Split(s[1..], pat);
      [[s[0]] + rest[0]] + rest[1..]
  }

  lemma JoinCons(sep: string, x: string, items: seq<string>)
    requires |items| > 0
    ensures Join(sep, [x] + items) == x + sep + Join(sep, items)
  {
    assert ([x] + items)[1..] == items;
  }

  lemma {:induction false} JoinExtendHead(sep: string, pre: string, items: seq<string>)
    requires |items| > 0
    ensures Join(sep, [pre + items[0]] + items[1..]) == pre + Join(sep, items)
  {
    var xs := [pre + items[0]] + items[1..];
    if |items| > 1 {
      assert xs[1..] == items[1..];
    }
  }

  /** A pattern that does not occur leaves the text unchanged. */
  lemma {:induction false} ReplaceAbsent(s: string, pat: string, rep: string)
    requires |pat| > 0
    requires !Occurs(s, pat)
    ensures Replace(s, pat, rep) == s
    decreases |s|
  {
    if |s| < |pat| {
    } else {
      assert !OccursAt(s, pat, 0);
      assert s[..|pat|] != pat;
      forall i: nat
        ensures !OccursAt(s[1..], pat, i)
      {
        assert !OccursAt(s, pat, i + 1);
        if i + |pat| <= |s[1..]| {
          assert s[1..][i..i + |pat|] == s[i + 1..i + 1 + |pat|];
        }
      }
      ReplaceAbsent(s[1..], pat, rep);
      assert s == [s[0]] + s[1..];
    }
  }

  /** Concatenation regroups freely. */
  lemma Assoc<T>(a: seq<T>, b: seq<T>, c: seq<T>)
    ensures a + b + c == a + (b + c)
  {
  }
}
