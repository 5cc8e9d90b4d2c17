/** Counting dictionaries: the `d[k] = d.get(k, 0) + 1` loops of the repository. */
module Tally {

  /** How often each string occurs. */
  function TallyOf(xs: seq<string>): map<string, nat> {
    map k | k in xs :: multiset(xs)[k]
  }

  function Get(m: map<string, nat>, k: string): nat {
    if k in m then m[k] else 0
  }

  function Bump(m: map<string, nat>, k: string): map<string, nat> {
    m[k := Get(m, k) + 1]
  }

  lemma TallySnoc(xs: seq<string>, x: string)
    ensures TallyOf(xs + [x]) == Bump(TallyOf(xs), x)
  {
    var now, before := TallyOf(xs + [x]), Bump(TallyOf(xs), x);
    assert multiset(xs + [x]) == multiset(xs) + multiset{x};
    assert forall k :: k in xs + [x] <==> k in xs || k == x;
    assert now.Keys == before.Keys;
    forall k | k in now
      ensures now[k] == before[k]
    {
      assert k in multiset(xs) <==> k in xs;
    }
  }

  lemma GetIsMultiplicity(xs: seq<string>, k: string)
    ensures Get(TallyOf(xs), k) == multiset(xs)[k]
  {
    assert k in multiset(xs) <==> k in xs;
  }

  /** The sum of all counts. */
  ghost function Total(m: map<string, nat>): nat
    decreases |m|
  {
    if m == map[] then 0
    else
      var k :| k in m;
      m[k] + Total(m - {k})
  }

  /** The order in which the counts are added does not matter. */
  lemma {:induction false} TotalSplit(m: map<string, nat>, k: string)
    requires k in m
    ensures Total(m) == m[k] + Total(m - {k})
    decreases |m|
  {
    var j :| j in m && Total(m) == m[j] + Total(m - {j});
    if j != k {
      TotalSplit(m - {j}, k);
      TotalSplit(m - {k}, j);
      assert m - {j} - {k} == m - {k} - {j};
    }
  }

  lemma TotalBump(m: map<string, nat>, k: string)
    ensures Total(Bump(m, k)) == Total(m) + 1
  {
    TotalSplit(Bump(m, k), k);
    assert Bump(m, k) - {k} == m - {k};
    if k in m {
      TotalSplit(m, k);
    } else {
      assert m - {k} == m;
    }
  }

  /** The counts add up to the number of strings counted. */
  lemma {:induction false} TallyTotal(xs: seq<string>)
    ensures Total(TallyOf(xs)) == |xs|
  {
    if xs == [] {
      assert TallyOf(xs) == map[];
    } else {
      var front, last := xs[..|xs| - 1], xs[|xs| - 1];
      assert xs == front + [last];
      TallyTotal(front);
      TallySnoc(front, last);
      TotalBump(TallyOf(front), last);
    }
  }
}
