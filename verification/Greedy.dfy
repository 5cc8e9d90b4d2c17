/** Greedy near-duplicate removal as mathematics.
    A position is kept when no earlier kept position is related to it. The
    module states what that choice means for any relation; the loops of
    deduplicator.py are proved against it in Deduplicator. */
module Greedy {

  predicate IsKept<T>(cs: seq<T>, rel: (T, T) -> bool, i: nat)
    requires i < |cs|
    decreases i
  {
    !exists k: nat :: k < i && IsKept(cs, rel, k) && rel(cs[k], cs[i])
  }

  /** The kept positions below n, in order. */
  function KeptBelow<T>(cs: seq<T>, rel: (T, T) -> bool, n: nat): (kept: seq<nat>)
    requires n <= |cs|
    ensures forall a :: 0 <= a < |kept| ==> kept[a] < n && IsKept(cs, rel, kept[a])
    ensures forall a, b :: 0 <= a < b < |kept| ==> kept[a] < kept[b]
    ensures forall i: nat :: i < n && IsKept(cs, rel, i) ==> i in kept
    ensures |kept| <= n
  {
    if n == 0 then []
    else KeptBelow(cs, rel, n - 1) + if IsKept(cs, rel, n - 1) then [n - 1] else []
  }

  /** The kept elements below n, in order. */
  function UniqueBelow<T>(cs: seq<T>, rel: (T, T) -> bool, n: nat): seq<T>
    requires n <= |cs|
  {
    if n == 0 then []
    else UniqueBelow(cs, rel, n - 1) + if IsKept(cs, rel, n - 1) then [cs[n - 1]] else []
  }

  function Unique<T>(cs: seq<T>, rel: (T, T) -> bool): seq<T> {
    UniqueBelow(cs, rel, |cs|)
  }

  /** The kept elements are the elements at the kept positions. */
  lemma {:induction false} UniqueAtKept<T>(cs: seq<T>, rel: (T, T) -> bool, n: nat)
    requires n <= |cs|
    ensures |UniqueBelow(cs, rel, n)| == |KeptBelow(cs, rel, n)|
    ensures forall a :: 0 <= a < |UniqueBelow(cs, rel, n)| ==>
      UniqueBelow(cs, rel, n)[a] == cs[KeptBelow(cs, rel, n)[a]]
  {
    if n > 0 {
      UniqueAtKept(cs, rel, n - 1);
    }
  }

  ghost predicate Independent<T>(cs: seq<T>, rel: (T, T) -> bool) {
    forall a, b :: 0 <= a < b < |cs| ==> !rel(cs[a], cs[b])
  }

  ghost predicate Symmetric<T(!new)>(rel: (T, T) -> bool) {
    forall x, y :: rel(x, y) <==> rel(y, x)
  }

  // ----- the kept set is the only one that decides each position this way

  ghost predicate Greedily<T>(cs: seq<T>, rel: (T, T) -> bool, s: set<nat>) {
    forall i: nat :: i < |cs| ==> (i in s <==> !exists k: nat :: k < i && k in s && rel(cs[k], cs[i]))
  }

  lemma {:induction false} KeptIsTheOnlyGreedySet<T>(cs: seq<T>, rel: (T, T) -> bool, s: set<nat>, i: nat)
    requires Greedily(cs, rel, s) && i < |cs|
    ensures i in s <==> IsKept(cs, rel, i)
    decreases i
  {
    forall k: nat | k < i
      ensures k in s <==> IsKept(cs, rel, k)
    {
      KeptIsTheOnlyGreedySet(cs, rel, s, k);
    }
    assert i in s <==> !exists k: nat :: k < i && k in s && rel(cs[k], cs[i]);
  }

  /** An independent set that agrees with the kept one below i contains i
      only if i is kept: the kept set is the lexicographically first maximal
      independent set. */
  lemma KeptIsLexicographicallyFirst<T>(cs: seq<T>, rel: (T, T) -> bool, s: set<nat>, i: nat)
    requires i < |cs|
    requires forall a: nat, b: nat :: a in s && b in s && a < b < |cs| ==> !rel(cs[a], cs[b])
    requires forall k: nat :: k < i ==> (k in s <==> IsKept(cs, rel, k))
    ensures i in s ==> IsKept(cs, rel, i)
  {
    if i in s {
      assert forall k: nat :: k < i && IsKept(cs, rel, k) ==> k in s && !rel(cs[k], cs[i]);
    }
  }

  // ----- the choice depends on the answers of the relation only

  ghost predicate SameAnswers<T(!new)>(rel: (T, T) -> bool, rel': (T, T) -> bool) {
    forall x, y :: rel(x, y) <==> rel'(x, y)
  }

  lemma {:induction false} SameKept<T(!new)>(cs: seq<T>, rel: (T, T) -> bool, rel': (T, T) -> bool, i: nat)
    requires SameAnswers(rel, rel') && i < |cs|
    ensures IsKept(cs, rel, i) <==> IsKept(cs, rel', i)
    decreases i
  {
    forall k: nat | k < i
      ensures IsKept(cs, rel, k) <==> IsKept(cs, rel', k)
    {
      SameKept(cs, rel, rel', k);
    }
  }

  lemma {:induction false} SameUnique<T(!new)>(cs: seq<T>, rel: (T, T) -> bool, rel': (T, T) -> bool, n: nat)
    requires SameAnswers(rel, rel') && n <= |cs|
    ensures UniqueBelow(cs, rel, n) == UniqueBelow(cs, rel', n)
  {
    if n > 0 {
      SameUnique(cs, rel, rel', n - 1);
      SameKept(cs, rel, rel', n - 1);
    }
  }

  lemma SameClaims<T(!new)>(cs: seq<T>, rel: (T, T) -> bool, rel': (T, T) -> bool, i: nat, j: nat)
    requires SameAnswers(rel, rel') && i < j < |cs|
    ensures Claims(cs, rel, i, j) <==> Claims(cs, rel', i, j)
  {
    forall k: nat | k <= i
      ensures IsKept(cs, rel, k) <==> IsKept(cs, rel', k)
    {
      SameKept(cs, rel, rel', k);
    }
  }

  lemma {:induction false} SameMembersOf<T(!new)>(cs: seq<T>, rel: (T, T) -> bool, rel': (T, T) -> bool, i: nat, n: nat)
    requires SameAnswers(rel, rel') && i < n <= |cs|
    ensures Members(cs, rel, i, n) == Members(cs, rel', i, n)
  {
    hide IsKept, Claims;
    if n > i + 1 {
      SameMembersOf(cs, rel, rel', i, n - 1);
      SameClaims(cs, rel, rel', i, n - 1);
    }
  }

  // ----- independence, idempotence and the incremental form

  lemma UniqueIsIndependent<T>(cs: seq<T>, rel: (T, T) -> bool)
    ensures Independent(Unique(cs, rel), rel)
  {
    var kept := KeptBelow(cs, rel, |cs|);
    var u := Unique(cs, rel);
    UniqueAtKept(cs, rel, |cs|);
    forall a, b | 0 <= a < b < |u|
      ensures !rel(u[a], u[b])
    {
      assert IsKept(cs, rel, kept[a]) && IsKept(cs, rel, kept[b]);
    }
  }

  lemma {:induction false} IndependentKeepsAll<T>(cs: seq<T>, rel: (T, T) -> bool, n: nat)
    requires Independent(cs, rel) && n <= |cs|
    ensures UniqueBelow(cs, rel, n) == cs[..n]
  {
    if n > 0 {
      IndependentKeepsAll(cs, rel, n - 1);
      assert forall k: nat :: k < n - 1 ==> !rel(cs[k], cs[n - 1]);
      assert IsKept(cs, rel, n - 1);
      assert cs[..n] == cs[..n - 1] + [cs[n - 1]];
    }
  }

  lemma UniqueIsIdempotent<T>(cs: seq<T>, rel: (T, T) -> bool)
    ensures Unique(Unique(cs, rel), rel) == Unique(cs, rel)
  {
    var u := Unique(cs, rel);
    UniqueIsIndependent(cs, rel);
    IndependentKeepsAll(u, rel, |u|);
    assert u[..|u|] == u;
  }

  predicate RelatedToAny<T>(x: T, existing: seq<T>, rel: (T, T) -> bool) {
    exists e :: 0 <= e < |existing| && rel(x, existing[e])
  }

  /** Feed the elements one at a time to the incremental test. */
  function FoldBelow<T>(cs: seq<T>, rel: (T, T) -> bool, n: nat): seq<T>
    requires n <= |cs|
  {
    if n == 0 then []
    else
      var soFar := FoldBelow(cs, rel, n - 1);
      if RelatedToAny(cs[n - 1], soFar, rel) then soFar else soFar + [cs[n - 1]]
  }

  lemma RelatedMeansRemoved<T(!new)>(cs: seq<T>, rel: (T, T) -> bool, n: nat, e: nat)
    requires Symmetric(rel) && n < |cs|
    requires e < |UniqueBelow(cs, rel, n)| && rel(cs[n], UniqueBelow(cs, rel, n)[e])
    ensures !IsKept(cs, rel, n)
  {
    UniqueAtKept(cs, rel, n);
    var k := KeptBelow(cs, rel, n)[e];
    assert k < n && IsKept(cs, rel, k) && rel(cs[k], cs[n]);
  }

  lemma RemovedMeansRelated<T(!new)>(cs: seq<T>, rel: (T, T) -> bool, n: nat, k: nat)
    requires Symmetric(rel) && n < |cs|
    requires k < n && IsKept(cs, rel, k) && rel(cs[k], cs[n])
    ensures RelatedToAny(cs[n], UniqueBelow(cs, rel, n), rel)
  {
    UniqueAtKept(cs, rel, n);
    var kept := KeptBelow(cs, rel, n);
    var e :| 0 <= e < |kept| && kept[e] == k;
    assert rel(cs[n], UniqueBelow(cs, rel, n)[e]);
  }

  /** The incremental test against the kept elements so far is the batch
      decision for the next position. */
  lemma IncrementalTest<T(!new)>(cs: seq<T>, rel: (T, T) -> bool, n: nat)
    requires Symmetric(rel) && n < |cs|
    ensures RelatedToAny(cs[n], UniqueBelow(cs, rel, n), rel) <==> !IsKept(cs, rel, n)
  {
    if RelatedToAny(cs[n], UniqueBelow(cs, rel, n), rel) {
      var e: nat :| e < |UniqueBelow(cs, rel, n)| && rel(cs[n], UniqueBelow(cs, rel, n)[e]);
      RelatedMeansRemoved(cs, rel, n, e);
    } else if !IsKept(cs, rel, n) {
      var k: nat :| k < n && IsKept(cs, rel, k) && rel(cs[k], cs[n]);
      RemovedMeansRelated(cs, rel, n, k);
    }
  }

  lemma {:induction false} BatchIsIncremental<T(!new)>(cs: seq<T>, rel: (T, T) -> bool, n: nat)
    requires Symmetric(rel) && n <= |cs|
    ensures FoldBelow(cs, rel, n) == UniqueBelow(cs, rel, n)
  {
    if n > 0 {
      BatchIsIncremental(cs, rel, n - 1);
      IncrementalTest(cs, rel, n - 1);
    }
  }

  // ----- a prefix as long as the kept list

  /** No removed position comes before a kept one. */
  ghost predicate RemovedIsSuffix<T>(cs: seq<T>, rel: (T, T) -> bool) {
    forall i: nat, j: nat :: i < j < |cs| && IsKept(cs, rel, j) ==> IsKept(cs, rel, i)
  }

  lemma {:induction false} KeptInPrefix<T>(cs: seq<T>, rel: (T, T) -> bool, n: nat, i: nat)
    requires i < n <= |cs|
    ensures IsKept(cs[..n], rel, i) <==> IsKept(cs, rel, i)
    decreases i
  {
    forall k: nat | k < i
      ensures IsKept(cs[..n], rel, k) <==> IsKept(cs, rel, k)
    {
      KeptInPrefix(cs, rel, n, k);
    }
    assert forall k: nat :: k < i ==> cs[..n][k] == cs[k];
  }

  lemma {:induction false} IncreasingIsAtLeastIndex(xs: seq<nat>, a: nat)
    requires forall i, j :: 0 <= i < j < |xs| ==> xs[i] < xs[j]
    requires a < |xs|
    ensures a <= xs[a]
  {
    if a > 0 {
      IncreasingIsAtLeastIndex(xs, a - 1);
    }
  }

  /** If all positions up to the number kept are kept, they are the kept ones. */
  lemma FullPrefixIsKept<T>(cs: seq<T>, rel: (T, T) -> bool)
    requires forall i: nat :: i < |KeptBelow(cs, rel, |cs|)| ==> IsKept(cs, rel, i)
    ensures forall a: nat :: a < |KeptBelow(cs, rel, |cs|)| ==> KeptBelow(cs, rel, |cs|)[a] == a
  {
    var kept := KeptBelow(cs, rel, |cs|);
    forall a: nat | a < |kept|
      ensures kept[a] == a
    {
      FullPrefixAt(kept, a);
    }
  }

  lemma {:induction false} FullPrefixAt(kept: seq<nat>, a: nat)
    requires forall i, j :: 0 <= i < j < |kept| ==> kept[i] < kept[j]
    requires forall i: nat :: i < |kept| ==> i in kept
    requires a < |kept|
    ensures kept[a] == a
  {
    assert a in kept;
    var b :| 0 <= b < |kept| && kept[b] == a;
    IncreasingIsAtLeastIndex(kept, b);
    if b < a {
      FullPrefixAt(kept, a - 1);
    }
  }

  /** With removals only at the end, the kept positions are 0, 1, 2, ... */
  lemma SuffixMeansFullPrefix<T>(cs: seq<T>, rel: (T, T) -> bool)
    requires RemovedIsSuffix(cs, rel)
    ensures forall i: nat :: i < |KeptBelow(cs, rel, |cs|)| ==> IsKept(cs, rel, i)
  {
    var kept := KeptBelow(cs, rel, |cs|);
    forall i: nat | i < |kept|
      ensures IsKept(cs, rel, i)
    {
      IncreasingIsAtLeastIndex(kept, i);
      assert IsKept(cs, rel, kept[i]);
    }
  }

  lemma FullPrefixMeansSuffix<T>(cs: seq<T>, rel: (T, T) -> bool)
    requires forall i: nat :: i < |KeptBelow(cs, rel, |cs|)| ==> IsKept(cs, rel, i)
    ensures RemovedIsSuffix(cs, rel)
  {
    FullPrefixIsKept(cs, rel);
    var kept := KeptBelow(cs, rel, |cs|);
    forall i: nat, j: nat | i < j < |cs| && IsKept(cs, rel, j)
      ensures IsKept(cs, rel, i)
    {
      assert j in kept;
    }
  }

  lemma FullPrefixIsUnique<T>(cs: seq<T>, rel: (T, T) -> bool)
    requires RemovedIsSuffix(cs, rel)
    ensures KeptBelow(cs, rel, |cs|) == seq(|Unique(cs, rel)|, i => i)
    ensures Unique(cs, rel) == cs[..|Unique(cs, rel)|]
  {
    SuffixMeansFullPrefix(cs, rel);
    FullPrefixIsKept(cs, rel);
    UniqueAtKept(cs, rel, |cs|);
  }

  lemma IdentityKeptMeansSuffix<T>(cs: seq<T>, rel: (T, T) -> bool)
    requires KeptBelow(cs, rel, |cs|) == seq(|Unique(cs, rel)|, i => i)
    ensures RemovedIsSuffix(cs, rel)
  {
    var kept := KeptBelow(cs, rel, |cs|);
    UniqueAtKept(cs, rel, |cs|);
    forall i: nat | i < |kept|
      ensures IsKept(cs, rel, i)
    {
      assert kept[i] == i;
    }
    FullPrefixMeansSuffix(cs, rel);
  }

  lemma IndependentPrefixMeansSuffix<T>(cs: seq<T>, rel: (T, T) -> bool)
    requires |Unique(cs, rel)| <= |cs|
    requires Independent(cs[..|Unique(cs, rel)|], rel)
    ensures RemovedIsSuffix(cs, rel)
  {
    var u := |KeptBelow(cs, rel, |cs|)|;
    UniqueAtKept(cs, rel, |cs|);
    forall i: nat | i < u
      ensures IsKept(cs, rel, i)
    {
      assert forall k: nat :: k < i ==> !rel(cs[..u][k], cs[..u][i]);
      KeptInPrefix(cs, rel, u, i);
    }
    FullPrefixMeansSuffix(cs, rel);
  }

  /** The prefix as long as the kept list, and the kept list itself: two
      ways to say that they are the same choice. */
  lemma PrefixIsUniqueIffSuffix<T>(cs: seq<T>, rel: (T, T) -> bool)
    ensures |Unique(cs, rel)| <= |cs|
    ensures KeptBelow(cs, rel, |cs|) == seq(|Unique(cs, rel)|, i => i) <==> RemovedIsSuffix(cs, rel)
    ensures Independent(cs[..|Unique(cs, rel)|], rel) <==> RemovedIsSuffix(cs, rel)
  {
    UniqueAtKept(cs, rel, |cs|);
    if RemovedIsSuffix(cs, rel) {
      FullPrefixIsUnique(cs, rel);
      UniqueIsIndependent(cs, rel);
    }
    if KeptBelow(cs, rel, |cs|) == seq(|Unique(cs, rel)|, i => i) {
      IdentityKeptMeansSuffix(cs, rel);
    }
    if Independent(cs[..|Unique(cs, rel)|], rel) {
      IndependentPrefixMeansSuffix(cs, rel);
    }
  }

  // ----- duplicate groups

  /** Kept position i is the one that removes position j. */
  predicate Claims<T>(cs: seq<T>, rel: (T, T) -> bool, i: nat, j: nat)
    requires i < j < |cs|
  {
    IsKept(cs, rel, i) && rel(cs[i], cs[j])
    && forall k: nat :: k < i && IsKept(cs, rel, k) ==> !rel(cs[k], cs[j])
  }

  /** The positions below n that i removes, in order. */
  function Members<T>(cs: seq<T>, rel: (T, T) -> bool, i: nat, n: nat): (ms: seq<nat>)
    requires i < n <= |cs|
    ensures forall a :: 0 <= a < |ms| ==> i < ms[a] < n && Claims(cs, rel, i, ms[a])
    ensures forall a, b :: 0 <= a < b < |ms| ==> ms[a] < ms[b]
    ensures forall j: nat :: i < j < n && Claims(cs, rel, i, j) ==> j in ms
  {
    if n == i + 1 then []
    else Members(cs, rel, i, n - 1) + if Claims(cs, rel, i, n - 1) then [n - 1] else []
  }

  /** One group for each position below n that removes something: the
      representative first, then what it removes. */
  function GroupsBelow<T>(cs: seq<T>, rel: (T, T) -> bool, n: nat): seq<seq<nat>>
    requires n <= |cs|
  {
    if n == 0 then []
    else
      var ms := Members(cs, rel, n - 1, |cs|);
      GroupsBelow(cs, rel, n - 1) + if |ms| > 0 then [[n - 1] + ms] else []
  }

  ghost predicate ClaimedBelow<T>(cs: seq<T>, rel: (T, T) -> bool, n: nat, j: nat)
    requires n <= |cs| && j < |cs|
  {
    exists i: nat :: i < n && i < j && Claims(cs, rel, i, j)
  }

  ghost function RemovedBelow<T>(cs: seq<T>, rel: (T, T) -> bool, n: nat): set<nat>
    requires n <= |cs|
  {
    set j: nat | j < |cs| && ClaimedBelow(cs, rel, n, j)
  }

  ghost function NotKeptBelow<T>(cs: seq<T>, rel: (T, T) -> bool, n: nat): set<nat>
    requires n <= |cs|
  {
    set j: nat | j < n && !IsKept(cs, rel, j)
  }

  ghost function Removed<T>(cs: seq<T>, rel: (T, T) -> bool): set<nat> {
    NotKeptBelow(cs, rel, |cs|)
  }

  /** All group members except the representatives. */
  function Tails(groups: seq<seq<nat>>): seq<nat> {
    if groups == [] then []
    else
      var last := groups[|groups| - 1];
      Tails(groups[..|groups| - 1]) + if last == [] then [] else last[1..]
  }

  /** Every removed position has a representative, the first kept position
      related to it. */
  lemma RemovedHasClaimer<T>(cs: seq<T>, rel: (T, T) -> bool, j: nat)
    requires j < |cs|
    ensures !IsKept(cs, rel, j) <==> exists i: nat :: i < j && Claims(cs, rel, i, j)
  {
    if !IsKept(cs, rel, j) {
      var k: nat :| k < j && IsKept(cs, rel, k) && rel(cs[k], cs[j]);
      FirstClaimer(cs, rel, j, k);
    }
  }

  lemma {:induction false} FirstClaimer<T>(cs: seq<T>, rel: (T, T) -> bool, j: nat, k: nat)
    requires k < j < |cs| && IsKept(cs, rel, k) && rel(cs[k], cs[j])
    ensures exists i: nat :: i <= k && Claims(cs, rel, i, j)
    decreases k
  {
    if !Claims(cs, rel, k, j) {
      var k': nat :| k' < k && IsKept(cs, rel, k') && rel(cs[k'], cs[j]);
      FirstClaimer(cs, rel, j, k');
    }
  }

  ghost function SetOf(xs: seq<nat>): set<nat> {
    set x | x in xs
  }

  lemma {:induction false} DistinctSeqAsSet(xs: seq<nat>)
    requires forall a, b :: 0 <= a < b < |xs| ==> xs[a] < xs[b]
    ensures multiset(xs) == multiset(SetOf(xs))
  {
    if xs != [] {
      var front, last := xs[..|xs| - 1], xs[|xs| - 1];
      DistinctSeqAsSet(front);
      assert xs == front + [last];
      assert last !in front;
      assert SetOf(xs) == SetOf(front) + {last};
      assert multiset(SetOf(front) + {last}) == multiset(SetOf(front)) + multiset{last};
    }
  }

  lemma RemovedGrows<T>(cs: seq<T>, rel: (T, T) -> bool, n: nat)
    requires n < |cs|
    ensures RemovedBelow(cs, rel, n + 1) == RemovedBelow(cs, rel, n) + SetOf(Members(cs, rel, n, |cs|))
    ensures RemovedBelow(cs, rel, n) !! SetOf(Members(cs, rel, n, |cs|))
  {
    var ms := Members(cs, rel, n, |cs|);
    forall j: nat | j < |cs|
      ensures ClaimedBelow(cs, rel, n + 1, j) <==> ClaimedBelow(cs, rel, n, j) || j in ms
      ensures !(ClaimedBelow(cs, rel, n, j) && j in ms)
    {
      if j in ms {
        assert n < j && Claims(cs, rel, n, j);
      }
    }
  }

  lemma NothingClaimedYet<T>(cs: seq<T>, rel: (T, T) -> bool)
    ensures RemovedBelow(cs, rel, 0) == {}
  {
  }

  /** By the time the pass reaches i, what has been claimed decides i. */
  lemma RemovedSoFar<T>(cs: seq<T>, rel: (T, T) -> bool, i: nat)
    requires i < |cs|
    ensures i in RemovedBelow(cs, rel, i) <==> !IsKept(cs, rel, i)
  {
    RemovedHasClaimer(cs, rel, i);
  }

  lemma {:induction false} NothingToClaim<T>(cs: seq<T>, rel: (T, T) -> bool, i: nat, n: nat)
    requires i < n <= |cs| && !IsKept(cs, rel, i)
    ensures Members(cs, rel, i, n) == []
  {
    if n > i + 1 {
      NothingToClaim(cs, rel, i, n - 1);
    }
  }

  /** A kept position claims a later one exactly when they are related and no
      earlier position has claimed it. */
  lemma ClaimTest<T>(cs: seq<T>, rel: (T, T) -> bool, i: nat, j: nat)
    requires i < j < |cs| && IsKept(cs, rel, i)
    ensures Claims(cs, rel, i, j) <==> j !in RemovedBelow(cs, rel, i) && rel(cs[i], cs[j])
  {
    if exists k: nat :: k < i && IsKept(cs, rel, k) && rel(cs[k], cs[j]) {
      var k: nat :| k < i && IsKept(cs, rel, k) && rel(cs[k], cs[j]);
      FirstClaimer(cs, rel, j, k);
      assert ClaimedBelow(cs, rel, i, j);
    }
  }

  ghost predicate WellHeaded<T>(cs: seq<T>, rel: (T, T) -> bool, g: seq<nat>) {
    |g| >= 2 && g[0] < |cs| && IsKept(cs, rel, g[0])
  }

  lemma {:induction false} GroupsWellHeaded<T>(cs: seq<T>, rel: (T, T) -> bool, n: nat)
    requires n <= |cs|
    ensures forall g :: 0 <= g < |GroupsBelow(cs, rel, n)| ==> WellHeaded(cs, rel, GroupsBelow(cs, rel, n)[g])
  {
    if n > 0 {
      GroupsWellHeaded(cs, rel, n - 1);
      var ms := Members(cs, rel, n - 1, |cs|);
      if |ms| > 0 {
        assert Claims(cs, rel, n - 1, ms[0]);
        assert WellHeaded(cs, rel, [n - 1] + ms);
      }
    }
  }

  ghost predicate ListsRemoved<T>(cs: seq<T>, rel: (T, T) -> bool, n: nat)
    requires n <= |cs|
  {
    multiset(Tails(GroupsBelow(cs, rel, n))) == multiset(RemovedBelow(cs, rel, n))
  }

  lemma GroupsListStep<T>(cs: seq<T>, rel: (T, T) -> bool, n: nat)
    requires n < |cs| && ListsRemoved(cs, rel, n)
    ensures ListsRemoved(cs, rel, n + 1)
  {
    RemovedGrows(cs, rel, n);
    var ms := Members(cs, rel, n, |cs|);
    DistinctSeqAsSet(ms);
    OneMoreGroup(GroupsBelow(cs, rel, n), n, ms, RemovedBelow(cs, rel, n), RemovedBelow(cs, rel, n + 1));
  }

  lemma GroupsListRemovedBelow<T>(cs: seq<T>, rel: (T, T) -> bool, n: nat)
    requires n <= |cs|
    ensures ListsRemoved(cs, rel, n)
  {
    NothingRemovedYet(cs, rel);
    for i := 0 to n
      invariant ListsRemoved(cs, rel, i)
    {
      GroupsListStep(cs, rel, i);
    }
  }

  lemma NothingRemovedYet<T>(cs: seq<T>, rel: (T, T) -> bool)
    ensures ListsRemoved(cs, rel, 0)
  {
    var none: seq<seq<nat>> := [];
    assert Tails(none) == [];
    NothingClaimedYet(cs, rel);
  }

  lemma OneMoreGroup(groups: seq<seq<nat>>, head: nat, ms: seq<nat>, before: set<nat>, after: set<nat>)
    requires multiset(Tails(groups)) == multiset(before)
    requires multiset(ms) == multiset(SetOf(ms))
    requires after == before + SetOf(ms) && before !! SetOf(ms)
    ensures multiset(Tails(groups + if |ms| > 0 then [[head] + ms] else [])) == multiset(after)
  {
    MultisetOfUnion(before, SetOf(ms));
    if |ms| > 0 {
      TailsSnoc(groups, [head] + ms);
      assert ([head] + ms)[1..] == ms;
    } else {
      assert groups + [] == groups;
      assert after == before;
    }
  }

  lemma MultisetOfUnion(a: set<nat>, b: set<nat>)
    requires a !! b
    ensures multiset(a + b) == multiset(a) + multiset(b)
  {
  }

  lemma TailsSnoc(groups: seq<seq<nat>>, g: seq<nat>)
    requires |g| > 0
    ensures Tails(groups + [g]) == Tails(groups) + g[1..]
  {
    assert (groups + [g])[..|groups|] == groups;
  }

  lemma RemovedIsRemovedBelow<T>(cs: seq<T>, rel: (T, T) -> bool)
    ensures Removed(cs, rel) == RemovedBelow(cs, rel, |cs|)
  {
    forall j: nat | j < |cs|
      ensures IsKept(cs, rel, j) <==> !ClaimedBelow(cs, rel, |cs|, j)
    {
      RemovedHasClaimer(cs, rel, j);
    }
  }

  /** The groups list every removed position exactly once, each under a kept
      representative that comes first; so the sizes add up. */
  lemma GroupsPartitionRemoved<T>(cs: seq<T>, rel: (T, T) -> bool)
    ensures forall g :: 0 <= g < |GroupsBelow(cs, rel, |cs|)| ==> WellHeaded(cs, rel, GroupsBelow(cs, rel, |cs|)[g])
    ensures multiset(Tails(GroupsBelow(cs, rel, |cs|))) == multiset(Removed(cs, rel))
    ensures |Tails(GroupsBelow(cs, rel, |cs|))| == |Removed(cs, rel)|
    ensures |Removed(cs, rel)| + |Unique(cs, rel)| == |cs|
  {
    GroupsWellHeaded(cs, rel, |cs|);
    GroupsListRemovedBelow(cs, rel, |cs|);
    RemovedIsRemovedBelow(cs, rel);
    assert |multiset(Tails(GroupsBelow(cs, rel, |cs|)))| == |multiset(Removed(cs, rel))|;
    RemovedCount(cs, rel, |cs|);
    UniqueAtKept(cs, rel, |cs|);
  }

  lemma {:induction false} RemovedCount<T>(cs: seq<T>, rel: (T, T) -> bool, n: nat)
    requires n <= |cs|
    ensures |NotKeptBelow(cs, rel, n)| + |KeptBelow(cs, rel, n)| == n
  {
    if n == 0 {
      assert NotKeptBelow(cs, rel, n) == {};
    } else {
      RemovedCount(cs, rel, n - 1);
      var before := NotKeptBelow(cs, rel, n - 1);
      if IsKept(cs, rel, n - 1) {
        assert NotKeptBelow(cs, rel, n) == before;
      } else {
        assert NotKeptBelow(cs, rel, n) == before + {n - 1};
      }
    }
  }
}
