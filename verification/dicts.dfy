/** An insertion-ordered dictionary keyed by strings, the behaviour of a
    Python 3.7+ `dict`: iteration follows first insertion, and re-assigning an
    existing key keeps its position. */
module Dicts {

  datatype Dict<V> = Dict(order: seq<string>, entries: map<string, V>) {

    /** The keys are listed once each, and exactly the keys are listed. */
    ghost predicate Valid() {
      && (forall i, j :: 0 <= i < j < |order| ==> order[i] != order[j])
      && (forall k :: k in entries <==> k in order)
    }

    /** `d[k] = v` */
    function Put(k: string, v: V): (d: Dict<V>)
      ensures d.entries.Keys == entries.Keys + {k}
      ensures k in d.entries && d.entries[k] == v
      ensures forall x :: x in entries && x != k ==> x in d.entries && d.entries[x] == entries[x]
      ensures Valid() ==> d.Valid()
      ensures |order| <= |d.order| && d.order[..|order|] == order
      ensures k in entries ==> d.order == order
      ensures Valid() && k !in entries ==> d.order[|order|..] == [k]
    {
      if k in entries then Dict(order, entries[k := v])
      else Dict(order + [k], entries[k := v])
    }

    /** `len(d)` */
    function Size(): (n: nat)
      ensures Valid() ==> n == |order|
    {
      ValidSize();
      |entries|
    }

    lemma ValidSize()
      ensures Valid() ==> |entries| == |order|
    {
      if Valid() {
        DistinctCard(order);
        assert entries.Keys == set x | x in order;
      }
    }
  }

  function Empty<V>(): (d: Dict<V>)
    ensures d.Valid() && d.entries == map[] && d.order == []
  {
    Dict([], map[])
  }

  /** A duplicate-free sequence has as many elements as its set. */
  lemma {:induction false} DistinctCard(s: seq<string>)
    requires forall i, j :: 0 <= i < j < |s| ==> s[i] != s[j]
    ensures |set x | x in s| == |s|
  {
    if |s| > 0 {
      var t := s[..|s| - 1];
      DistinctCard(t);
      assert (set x | x in s) == (set x | x in t) + {s[|s| - 1]};
      assert s[|s| - 1] !in (set x | x in t);
    }
  }
}
