/** deduplicator.py: the batch pass, the incremental test, and the object that
    chooses between embeddings and word overlap. */
module Deduplicator {
  import opened Prelude
  import opened Models
  import opened Greedy
  import opened Fractions
  import Jaccard

  /** Similarity of an earlier and a later clause; None when the pass skips the pair. */
  type Similarity = (Clause, Clause) -> Option<real>

  predicate AtOrAbove(sim: Similarity, threshold: real, x: Clause, y: Clause) {
    sim(x, y).Some? && sim(x, y).value >= threshold
  }

  function Duplicates(sim: Similarity, threshold: real): (Clause, Clause) -> bool {
    (x: Clause, y: Clause) => AtOrAbove(sim, threshold, x, y)
  }

  /** Word overlap; two clauses without words are never compared. */
  function TextSimilarity(words: string -> set<string>): Similarity {
    (x: Clause, y: Clause) =>
      var wx, wy := words(x.clauseText), words(y.clauseText);
      if wx + wy == {} then None else Some(Jaccard.Similarity(wx, wy))
  }

  /** Some words at all, and the common ones make up the share t of them. */
  predicate Overlaps(words: string -> set<string>, t: real, x: Clause, y: Clause) {
    var a, b := words(x.clauseText), words(y.clauseText);
    a + b != {} && |a * b| as real >= t * |a + b| as real
  }

  /** What makes two clauses duplicates, with and without embeddings. */
  predicate Decides(installed: Option<(string, string) -> real>, words: string -> set<string>, t: real, x: Clause,
                    y: Clause) {
    match installed
    case Some(cosine) => cosine(x.clauseText, y.clauseText) >= t
    case None => Overlaps(words, t, x, y)
  }

  function Deciding(installed: Option<(string, string) -> real>, words: string -> set<string>, t: real)
    : (Clause, Clause) -> bool
  {
    (x: Clause, y: Clause) => Decides(installed, words, t, x, y)
  }

  /** The similarity every call ends up using. */
  function Chosen(installed: Option<(string, string) -> real>, words: string -> set<string>): Similarity {
    match installed
    case Some(cosine) => EmbeddingSimilarity(cosine)
    case None => TextSimilarity(words)
  }

  /** Without embeddings the decision is a count of words. */
  lemma TextDuplicateIff(words: string -> set<string>, t: real, x: Clause, y: Clause)
    ensures AtOrAbove(TextSimilarity(words), t, x, y) <==> Overlaps(words, t, x, y)
  {
    hide Jaccard.Similarity;
    var a, b := words(x.clauseText), words(y.clauseText);
    if a + b != {} {
      Jaccard.SimilarityIsRatio(a, b);
      var s, n := Jaccard.Similarity(a, b), |a + b| as real;
      if s < t {
        StrictProduct(s, t, n);
      } else {
        Product(t, s, n);
      }
    }
  }

  lemma ChosenDecides(installed: Option<(string, string) -> real>, words: string -> set<string>, t: real)
    ensures SameAnswers(Duplicates(Chosen(installed, words), t), Deciding(installed, words, t))
  {
    forall x: Clause, y: Clause
      ensures AtOrAbove(Chosen(installed, words), t, x, y) <==> Decides(installed, words, t, x, y)
    {
      TextDuplicateIff(words, t, x, y);
    }
  }

  function EmbeddingSimilarity(cosine: (string, string) -> real): Similarity {
    (x: Clause, y: Clause) => Some(cosine(x.clauseText, y.clauseText))
  }

  datatype DeduplicationResult = DeduplicationResult(
    totalInput: nat,
    duplicatesRemoved: nat,
    uniqueKept: nat,
    duplicateGroups: seq<seq<string>>,
    duplicateScores: seq<real>)

  function Ids(cs: seq<Clause>, positions: seq<nat>): seq<string>
    requires forall a :: 0 <= a < |positions| ==> positions[a] < |cs|
  {
    if positions == [] then []
    else Ids(cs, positions[..|positions| - 1]) + [cs[positions[|positions| - 1]].clauseId]
  }

  /** The largest similarity between a representative and its members, from 0. */
  function Best(cs: seq<Clause>, sim: Similarity, i: nat, members: seq<nat>): real
    requires i < |cs| && forall a :: 0 <= a < |members| ==> members[a] < |cs|
  {
    if members == [] then 0.0
    else
      var soFar := Best(cs, sim, i, members[..|members| - 1]);
      match sim(cs[i], cs[members[|members| - 1]])
      case Some(s) => Max(soFar, s)
      case None => soFar
  }

  function GroupIds(cs: seq<Clause>, rel: (Clause, Clause) -> bool, n: nat): seq<seq<string>>
    requires n <= |cs|
  {
    if n == 0 then []
    else
      var ms := Members(cs, rel, n - 1, |cs|);
      GroupIds(cs, rel, n - 1) + if |ms| > 0 then [[cs[n - 1].clauseId] + Ids(cs, ms)] else []
  }

  function GroupScores(cs: seq<Clause>, sim: Similarity, threshold: real, n: nat): seq<real>
    requires n <= |cs|
  {
    if n == 0 then []
    else
      var ms := Members(cs, Duplicates(sim, threshold), n - 1, |cs|);
      GroupScores(cs, sim, threshold, n - 1) + if |ms| > 0 then [Best(cs, sim, n - 1, ms)] else []
  }

  /** What a pass reports, in terms of the greedy choice. */
  function Report(cs: seq<Clause>, sim: Similarity, threshold: real): DeduplicationResult {
    var rel := Duplicates(sim, threshold);
    UniqueAtKept(cs, rel, |cs|);
    DeduplicationResult(|cs|, |cs| - |Unique(cs, rel)|, |Unique(cs, rel)|,
                        GroupIds(cs, rel, |cs|), GroupScores(cs, sim, threshold, |cs|))
  }

  class SemanticDeduplicator {
    const threshold: real
    const words: string -> set<string>
    // the embedding library, when it can be imported
    const installed: Option<(string, string) -> real>
    var model: Option<(string, string) -> real>

    ghost predicate Valid()
      reads this
    {
      model.Some? ==> model == installed
    }

    function Similar(): Similarity {
      Chosen(installed, words)
    }

    constructor (threshold: real, words: string -> set<string>, installed: Option<(string, string) -> real>)
      ensures Valid()
      ensures this.threshold == threshold && this.words == words && this.installed == installed
    {
      this.threshold, this.words, this.installed := threshold, words, installed;
      model := None;
    }

    method LoadModel()
      requires Valid()
      modifies this`model
      ensures Valid() && model == installed
    {
      if model.Some? { return; }
      model := installed;
    }

    method Deduplicate(clauses: seq<Clause>) returns (result: DeduplicationResult)
      requires Valid()
      modifies this`model
      ensures Valid()
      ensures result == Report(clauses, Similar(), threshold)
      ensures result.totalInput == |clauses|
      ensures result.uniqueKept == |Unique(clauses, Deciding(installed, words, threshold))|
      ensures result.duplicatesRemoved == |Removed(clauses, Deciding(installed, words, threshold))|
      ensures result.duplicateGroups == GroupIds(clauses, Deciding(installed, words, threshold), |clauses|)
    {
      DecidedReport(clauses, installed, words, threshold);
      hide Report;
      if |clauses| <= 1 {
        ShortInput(clauses, Similar(), threshold);
        return DeduplicationResult(|clauses|, 0, |clauses|, [], []);
      }
      LoadModel();
      match model
      case Some(cosine) => result := GreedyPass(clauses, EmbeddingSimilarity(cosine), threshold);
      case None => result := GreedyPass(clauses, TextSimilarity(words), threshold);
    }

    method IsDuplicate(clause: Clause, existing: seq<Clause>) returns (dup: bool, score: real)
      requires Valid()
      modifies this`model
      ensures Valid()
      ensures dup <==> RelatedToAny(clause, existing, Duplicates(Similar(), threshold))
      ensures dup ==> FirstMatch(clause, existing, Similar(), threshold, score)
      ensures !dup ==> score == 0.0
      ensures dup <==> exists e :: 0 <= e < |existing| && Decides(installed, words, threshold, clause, existing[e])
    {
      DecidedRelated(clause, existing, installed, words, threshold);
      if existing == [] {
        return false, 0.0;
      }
      LoadModel();
      match model
      case Some(cosine) => dup, score := ScanExisting(clause, existing, EmbeddingSimilarity(cosine), threshold);
      case None => dup, score := ScanExisting(clause, existing, TextSimilarity(words), threshold);
    }
  }

  /** What a pass reports, in terms of what makes two clauses duplicates. */
  lemma DecidedReport(cs: seq<Clause>, installed: Option<(string, string) -> real>, words: string -> set<string>,
                      t: real)
    ensures var r, rel := Report(cs, Chosen(installed, words), t), Deciding(installed, words, t);
      && r.totalInput == |cs| && r.uniqueKept == |Unique(cs, rel)| && r.duplicatesRemoved == |Removed(cs, rel)|
      && r.duplicateGroups == GroupIds(cs, rel, |cs|)
  {
    hide Chosen, Deciding, GroupIds, IsKept;
    ChosenDecides(installed, words, t);
    SameUnique(cs, Duplicates(Chosen(installed, words), t), Deciding(installed, words, t), |cs|);
    SameGroupIds(cs, Duplicates(Chosen(installed, words), t), Deciding(installed, words, t), |cs|);
    GroupsPartitionRemoved(cs, Deciding(installed, words, t));
  }

  lemma {:induction false} SameGroupIds(
    cs: seq<Clause>, rel: (Clause, Clause) -> bool, rel': (Clause, Clause) -> bool, n: nat)
    requires SameAnswers(rel, rel') && n <= |cs|
    ensures GroupIds(cs, rel, n) == GroupIds(cs, rel', n)
  {
    hide IsKept, Claims, Ids, SameAnswers, Members;
    if n > 0 {
      SameGroupIds(cs, rel, rel', n - 1);
      SameMembersOf(cs, rel, rel', n - 1, |cs|);
    }
  }

  lemma DecidedRelated(clause: Clause, existing: seq<Clause>,
                       installed: Option<(string, string) -> real>, words: string -> set<string>, t: real)
    ensures RelatedToAny(clause, existing, Duplicates(Chosen(installed, words), t))
      <==> exists e :: 0 <= e < |existing| && Decides(installed, words, t, clause, existing[e])
  {
    hide Chosen, AtOrAbove, Decides;
    ChosenDecides(installed, words, t);
    forall e | 0 <= e < |existing|
      ensures AtOrAbove(Chosen(installed, words), t, clause, existing[e]) <==>
        Decides(installed, words, t, clause, existing[e])
    {
      assert Duplicates(Chosen(installed, words), t)(clause, existing[e]) <==>
        Deciding(installed, words, t)(clause, existing[e]);
    }
  }

  /** The score comes from the first existing clause at or above the threshold. */
  ghost predicate FirstMatch(clause: Clause, existing: seq<Clause>, sim: Similarity, threshold: real, score: real) {
    exists e :: 0 <= e < |existing| && sim(clause, existing[e]) == Some(score) && score >= threshold
      && forall d :: 0 <= d < e ==> !AtOrAbove(sim, threshold, clause, existing[d])
  }

  method ScanExisting(clause: Clause, existing: seq<Clause>, sim: Similarity, threshold: real)
    returns (dup: bool, score: real)
    ensures dup <==> RelatedToAny(clause, existing, Duplicates(sim, threshold))
    ensures dup ==> FirstMatch(clause, existing, sim, threshold, score)
    ensures !dup ==> score == 0.0
  {
    for e := 0 to |existing|
      invariant forall d :: 0 <= d < e ==> !AtOrAbove(sim, threshold, clause, existing[d])
    {
      var s := sim(clause, existing[e]);
      if s.Some? && s.value >= threshold {
        assert Duplicates(sim, threshold)(clause, existing[e]);
        return true, s.value;
      }
    }
    return false, 0.0;
  }

  lemma ShortInput(cs: seq<Clause>, sim: Similarity, threshold: real)
    requires |cs| <= 1
    ensures Report(cs, sim, threshold) == DeduplicationResult(|cs|, 0, |cs|, [], [])
  {
    var rel := Duplicates(sim, threshold);
    if |cs| == 1 {
      assert IsKept(cs, rel, 0);
      assert Unique(cs, rel) == UniqueBelow(cs, rel, 0) + [cs[0]];
      assert Members(cs, rel, 0, 1) == [];
      assert GroupIds(cs, rel, 1) == GroupIds(cs, rel, 0) + [];
      assert GroupScores(cs, sim, threshold, 1) == GroupScores(cs, sim, threshold, 0) + [];
    }
  }

  ghost predicate GroupSoFar(cs: seq<Clause>, sim: Similarity, i: nat, ms: seq<nat>, claimed: set<nat>,
                             group: seq<string>, maxSim: real, removed: set<nat>)
    requires i < |cs|
  {
    && (forall a :: 0 <= a < |ms| ==> ms[a] < |cs|)
    && group == [cs[i].clauseId] + Ids(cs, ms)
    && maxSim == Best(cs, sim, i, ms)
    && removed == claimed + SetOf(ms)
  }

  lemma GroupGrows(cs: seq<Clause>, sim: Similarity, i: nat, ms: seq<nat>, claimed: set<nat>,
                   group: seq<string>, maxSim: real, removed: set<nat>, j: nat, s: real)
    requires i < |cs| && j < |cs| && sim(cs[i], cs[j]) == Some(s)
    requires GroupSoFar(cs, sim, i, ms, claimed, group, maxSim, removed)
    ensures GroupSoFar(cs, sim, i, ms + [j], claimed, group + [cs[j].clauseId], Max(maxSim, s), removed + {j})
  {
    assert (ms + [j])[..|ms|] == ms;
    assert SetOf(ms + [j]) == SetOf(ms) + {j};
  }

  lemma MembersStep(cs: seq<Clause>, sim: Similarity, threshold: real, i: nat, j: nat)
    requires i < j < |cs| && IsKept(cs, Duplicates(sim, threshold), i)
    ensures Members(cs, Duplicates(sim, threshold), i, j + 1) == Members(cs, Duplicates(sim, threshold), i, j)
      + if j !in RemovedBelow(cs, Duplicates(sim, threshold), i) && AtOrAbove(sim, threshold, cs[i], cs[j])
        then [j] else []
    ensures j !in Members(cs, Duplicates(sim, threshold), i, j)
  {
    ClaimTest(cs, Duplicates(sim, threshold), i, j);
  }

  lemma GroupStarts(cs: seq<Clause>, sim: Similarity, threshold: real, i: nat, claimed: set<nat>)
    requires i < |cs|
    ensures Members(cs, Duplicates(sim, threshold), i, i + 1) == []
    ensures GroupSoFar(cs, sim, i, [], claimed, [cs[i].clauseId], 0.0, claimed)
  {
    var none: seq<nat> := [];
    assert SetOf(none) == {};
  }

  lemma GroupHolds(cs: seq<Clause>, sim: Similarity, i: nat, ms: seq<nat>, claimed: set<nat>,
                   group: seq<string>, maxSim: real, removed: set<nat>, j: nat)
    requires i < |cs| && GroupSoFar(cs, sim, i, ms, claimed, group, maxSim, removed)
    ensures j in removed <==> j in claimed || j in ms
  {
  }

  /** The inner loop: everything a kept position removes. */
  method CollectGroup(clauses: seq<Clause>, sim: Similarity, threshold: real, i: nat, alreadyRemoved: set<nat>)
    returns (group: seq<string>, maxSim: real, removed: set<nat>)
    requires i < |clauses| && IsKept(clauses, Duplicates(sim, threshold), i)
    requires alreadyRemoved == RemovedBelow(clauses, Duplicates(sim, threshold), i)
    ensures GroupSoFar(clauses, sim, i, Members(clauses, Duplicates(sim, threshold), i, |clauses|), alreadyRemoved,
                       group, maxSim, removed)
  {
    hide IsKept, Claims, Members, GroupSoFar, RemovedBelow;
    GroupStarts(clauses, sim, threshold, i, alreadyRemoved);
    group, maxSim, removed := [clauses[i].clauseId], 0.0, alreadyRemoved;
    ghost var ms: seq<nat> := [];
    for j := i + 1 to |clauses|
      invariant ms == Members(clauses, Duplicates(sim, threshold), i, j)
      invariant GroupSoFar(clauses, sim, i, ms, alreadyRemoved, group, maxSim, removed)
    {
      MembersStep(clauses, sim, threshold, i, j);
      GroupHolds(clauses, sim, i, ms, alreadyRemoved, group, maxSim, removed, j);
      assert ms + [] == ms;
      if j in removed {
        continue;
      }
      var s := sim(clauses[i], clauses[j]);
      if s.Some? && s.value >= threshold {
        GroupGrows(clauses, sim, i, ms, alreadyRemoved, group, maxSim, removed, j, s.value);
        ms := ms + [j];
        removed := removed + {j};
        group := group + [clauses[j].clauseId];
        maxSim := Max(maxSim, s.value);
      }
    }
  }

  lemma {:induction false} IdsLength(cs: seq<Clause>, positions: seq<nat>)
    requires forall a :: 0 <= a < |positions| ==> positions[a] < |cs|
    ensures |Ids(cs, positions)| == |positions|
    ensures forall a :: 0 <= a < |positions| ==> Ids(cs, positions)[a] == cs[positions[a]].clauseId
  {
    if positions != [] {
      IdsLength(cs, positions[..|positions| - 1]);
    }
  }

  ghost predicate PassSoFar(cs: seq<Clause>, sim: Similarity, threshold: real, n: nat,
                            kept: seq<nat>, removed: set<nat>, groups: seq<seq<string>>, scores: seq<real>)
    requires n <= |cs|
  {
    var rel := Duplicates(sim, threshold);
    && kept == KeptBelow(cs, rel, n)
    && removed == RemovedBelow(cs, rel, n)
    && groups == GroupIds(cs, rel, n)
    && scores == GroupScores(cs, sim, threshold, n)
  }

  lemma RemovedStep(cs: seq<Clause>, sim: Similarity, threshold: real, i: nat,
                    kept: seq<nat>, removed: set<nat>, groups: seq<seq<string>>, scores: seq<real>)
    requires i < |cs| && PassSoFar(cs, sim, threshold, i, kept, removed, groups, scores)
    requires !IsKept(cs, Duplicates(sim, threshold), i)
    ensures PassSoFar(cs, sim, threshold, i + 1, kept, removed, groups, scores)
  {
    hide IsKept, Claims, Members, RemovedBelow;
    var rel := Duplicates(sim, threshold);
    NothingToClaim(cs, rel, i, |cs|);
    RemovedGrows(cs, rel, i);
    var none: seq<nat> := [];
    assert SetOf(none) == {};
    assert groups + [] == groups && scores + [] == scores && kept + [] == kept;
  }

  lemma KeptStep(cs: seq<Clause>, sim: Similarity, threshold: real, i: nat,
                 kept: seq<nat>, removed: set<nat>, groups: seq<seq<string>>, scores: seq<real>,
                 group: seq<string>, maxSim: real, removed': set<nat>)
    requires i < |cs| && PassSoFar(cs, sim, threshold, i, kept, removed, groups, scores)
    requires IsKept(cs, Duplicates(sim, threshold), i)
    requires GroupSoFar(cs, sim, i, Members(cs, Duplicates(sim, threshold), i, |cs|), removed, group, maxSim, removed')
    ensures PassSoFar(cs, sim, threshold, i + 1, kept + [i], removed',
                      groups + if |group| > 1 then [group] else [], scores + if |group| > 1 then [maxSim] else [])
  {
    var rel := Duplicates(sim, threshold);
    RemovedGrows(cs, rel, i);
    IdsLength(cs, Members(cs, rel, i, |cs|));
  }

  lemma PassStarts(cs: seq<Clause>, sim: Similarity, threshold: real)
    ensures PassSoFar(cs, sim, threshold, 0, [], {}, [], [])
  {
    NothingClaimedYet(cs, Duplicates(sim, threshold));
  }

  lemma RemovedDecides(cs: seq<Clause>, sim: Similarity, threshold: real, i: nat,
                       kept: seq<nat>, removed: set<nat>, groups: seq<seq<string>>, scores: seq<real>)
    requires i < |cs| && PassSoFar(cs, sim, threshold, i, kept, removed, groups, scores)
    ensures i in removed <==> !IsKept(cs, Duplicates(sim, threshold), i)
    ensures removed == RemovedBelow(cs, Duplicates(sim, threshold), i)
  {
    RemovedSoFar(cs, Duplicates(sim, threshold), i);
  }

  lemma PassEnds(cs: seq<Clause>, sim: Similarity, threshold: real,
                 kept: seq<nat>, removed: set<nat>, groups: seq<seq<string>>, scores: seq<real>)
    requires PassSoFar(cs, sim, threshold, |cs|, kept, removed, groups, scores)
    ensures DeduplicationResult(|cs|, |removed|, |kept|, groups, scores) == Report(cs, sim, threshold)
  {
    var rel := Duplicates(sim, threshold);
    GroupsPartitionRemoved(cs, rel);
    RemovedIsRemovedBelow(cs, rel);
    UniqueAtKept(cs, rel, |cs|);
  }

  /** The double loop shared by the embedding and the word-overlap pass. */
  method GreedyPass(clauses: seq<Clause>, sim: Similarity, threshold: real) returns (result: DeduplicationResult)
    ensures result == Report(clauses, sim, threshold)
  {
    hide IsKept, PassSoFar, GroupSoFar;
    var n := |clauses|;
    var kept: seq<nat>, removed: set<nat> := [], {};
    var groups: seq<seq<string>>, scores: seq<real> := [], [];
    PassStarts(clauses, sim, threshold);
    for i := 0 to n
      invariant PassSoFar(clauses, sim, threshold, i, kept, removed, groups, scores)
    {
      RemovedDecides(clauses, sim, threshold, i, kept, removed, groups, scores);
      if i in removed {
        RemovedStep(clauses, sim, threshold, i, kept, removed, groups, scores);
        continue;
      }
      var group, maxSim, removed' := CollectGroup(clauses, sim, threshold, i, removed);
      KeptStep(clauses, sim, threshold, i, kept, removed, groups, scores, group, maxSim, removed');
      assert groups + [] == groups && scores + [] == scores;
      kept, removed := kept + [i], removed';
      if |group| > 1 {
        groups, scores := groups + [group], scores + [maxSim];
      }
    }
    PassEnds(clauses, sim, threshold, kept, removed, groups, scores);
    return DeduplicationResult(n, |removed|, |kept|, groups, scores);
  }

  // ----- what a report means

  /** A group of ids is a group of positions, read through the clause ids. */
  lemma GroupIdsAreIds(cs: seq<Clause>, rel: (Clause, Clause) -> bool)
    ensures SameGroups(cs, GroupsBelow(cs, rel, |cs|), GroupIds(cs, rel, |cs|))
  {
    hide IsKept, SameGroups;
    NoGroups(cs);
    for n := 0 to |cs|
      invariant SameGroups(cs, GroupsBelow(cs, rel, n), GroupIds(cs, rel, n))
    {
      OneMoreSameGroup(cs, rel, n);
    }
  }

  lemma NoGroups(cs: seq<Clause>)
    ensures SameGroups(cs, [], [])
  {
  }

  lemma OneMoreSameGroup(cs: seq<Clause>, rel: (Clause, Clause) -> bool, n: nat)
    requires n < |cs| && SameGroups(cs, GroupsBelow(cs, rel, n), GroupIds(cs, rel, n))
    ensures SameGroups(cs, GroupsBelow(cs, rel, n + 1), GroupIds(cs, rel, n + 1))
  {
    hide IsKept, Claims, SameGroups, Ids;
    var ms := Members(cs, rel, n, |cs|);
    var groups, ids := GroupsBelow(cs, rel, n), GroupIds(cs, rel, n);
    if |ms| > 0 {
      HeadedGroup(cs, n, ms);
      SameGroupsSnoc(cs, groups, ids, [n] + ms, [cs[n].clauseId] + Ids(cs, ms));
    } else {
      assert groups + [] == groups && ids + [] == ids;
    }
  }

  lemma HeadedGroup(cs: seq<Clause>, n: nat, ms: seq<nat>)
    requires n < |cs| && forall a :: 0 <= a < |ms| ==> ms[a] < |cs|
    ensures SameGroup(cs, [n] + ms, [cs[n].clauseId] + Ids(cs, ms))
  {
    IdsLength(cs, ms);
  }

  lemma SameGroupsSnoc(cs: seq<Clause>, groups: seq<seq<nat>>, ids: seq<seq<string>>, g: seq<nat>, id: seq<string>)
    requires SameGroups(cs, groups, ids) && SameGroup(cs, g, id)
    ensures SameGroups(cs, groups + [g], ids + [id])
  {
  }

  ghost predicate SameGroups(cs: seq<Clause>, groups: seq<seq<nat>>, ids: seq<seq<string>>) {
    |groups| == |ids| && forall g :: 0 <= g < |ids| ==> SameGroup(cs, groups[g], ids[g])
  }

  ghost predicate SameGroup(cs: seq<Clause>, positions: seq<nat>, ids: seq<string>) {
    |positions| == |ids| && forall a :: 0 <= a < |ids| ==> positions[a] < |cs| && ids[a] == cs[positions[a]].clauseId
  }

  /** Everything behind the representative of a group was removed by it. */
  lemma {:induction false} GroupMembersClaimed<T>(cs: seq<T>, rel: (T, T) -> bool, n: nat, g: nat)
    requires n <= |cs| && g < |GroupsBelow(cs, rel, n)|
    ensures var group := GroupsBelow(cs, rel, n)[g];
      |group| >= 2 && forall a :: 1 <= a < |group| ==> group[0] < group[a] < |cs| && Claims(cs, rel, group[0], group[a])
  {
    hide IsKept, Claims;
    if g < |GroupsBelow(cs, rel, n - 1)| {
      GroupMembersClaimed(cs, rel, n - 1, g);
    }
  }

  /** Two clauses within t of a third are within 2t - 1 of each other. */
  lemma WithinTwice(words: string -> set<string>, threshold: real, r: Clause, x: Clause, y: Clause)
    requires AtOrAbove(TextSimilarity(words), threshold, r, x) && AtOrAbove(TextSimilarity(words), threshold, r, y)
    requires words(x.clauseText) + words(y.clauseText) != {}
    ensures Jaccard.Similarity(words(x.clauseText), words(y.clauseText)) >= 2.0 * threshold - 1.0
  {
    var wr, wx, wy := words(r.clauseText), words(x.clauseText), words(y.clauseText);
    hide Jaccard.Similarity;
    assert wx + wr == wr + wx;
    Jaccard.SimilarityIsSymmetric(wr, wx);
    Jaccard.Triangle(wx, wr, wy);
  }

  lemma GroupMembersRelated(cs: seq<Clause>, sim: Similarity, threshold: real, g: nat, a: nat)
    requires g < |GroupsBelow(cs, Duplicates(sim, threshold), |cs|)|
    requires a < |GroupsBelow(cs, Duplicates(sim, threshold), |cs|)[g]|
    ensures var group := GroupsBelow(cs, Duplicates(sim, threshold), |cs|)[g];
      group[0] < |cs| && group[a] < |cs| && (a > 0 ==> AtOrAbove(sim, threshold, cs[group[0]], cs[group[a]]))
  {
    hide IsKept, GroupsBelow;
    var rel := Duplicates(sim, threshold);
    GroupMembersClaimed(cs, rel, |cs|, g);
    var group := GroupsBelow(cs, rel, |cs|)[g];
    assert Claims(cs, rel, group[0], group[1]);
    if a > 0 {
      assert rel(cs[group[0]], cs[group[a]]);
    }
  }

  lemma RelatedIsSimilar(words: string -> set<string>, threshold: real, r: Clause, y: Clause)
    requires AtOrAbove(TextSimilarity(words), threshold, r, y)
    requires words(r.clauseText) + words(y.clauseText) != {}
    ensures Jaccard.Similarity(words(r.clauseText), words(y.clauseText)) >= 2.0 * threshold - 1.0
  {
  }

  /** Any two clauses in one word-overlap group are at least 2t - 1 similar. */
  lemma GroupCohesion(cs: seq<Clause>, words: string -> set<string>, threshold: real, g: nat, a: nat, b: nat)
    requires g < |GroupsBelow(cs, Duplicates(TextSimilarity(words), threshold), |cs|)|
    requires a < b < |GroupsBelow(cs, Duplicates(TextSimilarity(words), threshold), |cs|)[g]|
    ensures var group := GroupsBelow(cs, Duplicates(TextSimilarity(words), threshold), |cs|)[g];
      && group[a] < |cs| && group[b] < |cs|
      && var wa, wb := words(cs[group[a]].clauseText), words(cs[group[b]].clauseText);
         wa + wb != {} ==> Jaccard.Similarity(wa, wb) >= 2.0 * threshold - 1.0
  {
    hide IsKept, Claims, GroupsBelow, AtOrAbove, Jaccard.Similarity;
    var rel := Duplicates(TextSimilarity(words), threshold);
    var group := GroupsBelow(cs, rel, |cs|)[g];
    GroupMembersRelated(cs, TextSimilarity(words), threshold, g, a);
    GroupMembersRelated(cs, TextSimilarity(words), threshold, g, b);
    var x, y, r := cs[group[a]], cs[group[b]], cs[group[0]];
    if words(x.clauseText) + words(y.clauseText) != {} {
      if a == 0 {
        RelatedIsSimilar(words, threshold, r, y);
      } else {
        WithinTwice(words, threshold, r, x, y);
      }
    }
  }

  /** A reported score is the largest similarity in its group. */
  lemma {:induction false} BestIsLargest(cs: seq<Clause>, sim: Similarity, threshold: real, i: nat, members: seq<nat>)
    requires i < |cs| && threshold >= 0.0 && members != []
    requires forall a :: 0 <= a < |members| ==> members[a] < |cs| && AtOrAbove(sim, threshold, cs[i], cs[members[a]])
    ensures exists a :: 0 <= a < |members| && sim(cs[i], cs[members[a]]) == Some(Best(cs, sim, i, members))
    ensures forall a :: 0 <= a < |members| ==>
      AtOrAbove(sim, threshold, cs[i], cs[members[a]]) && sim(cs[i], cs[members[a]]).value <= Best(cs, sim, i, members)
  {
    var front, last := members[..|members| - 1], members[|members| - 1];
    assert AtOrAbove(sim, threshold, cs[i], cs[last]);
    if front != [] {
      BestIsLargest(cs, sim, threshold, i, front);
      var a :| 0 <= a < |front| && sim(cs[i], cs[front[a]]) == Some(Best(cs, sim, i, front));
      assert members[a] == front[a];
    }
    assert members[|members| - 1] == last;
  }

  /** One score for each group: the similarity of some member to the
      representative, and no member is more similar. */
  lemma {:induction false} ScoresMatchGroups(cs: seq<Clause>, sim: Similarity, threshold: real, n: nat)
    requires n <= |cs| && threshold >= 0.0
    ensures |GroupScores(cs, sim, threshold, n)| == |GroupsBelow(cs, Duplicates(sim, threshold), n)|
    ensures forall g :: 0 <= g < |GroupScores(cs, sim, threshold, n)| ==>
      ScoreOf(cs, sim, GroupsBelow(cs, Duplicates(sim, threshold), n)[g], GroupScores(cs, sim, threshold, n)[g])
  {
    hide IsKept, Claims, ScoreOf, Best;
    if n > 0 {
      ScoresMatchGroups(cs, sim, threshold, n - 1);
      if |Members(cs, Duplicates(sim, threshold), n - 1, |cs|)| > 0 {
        BestIsScore(cs, sim, threshold, n - 1);
      }
    }
  }

  ghost predicate ScoreOf(cs: seq<Clause>, sim: Similarity, group: seq<nat>, score: real) {
    && |group| > 1 && (forall a :: 0 <= a < |group| ==> group[a] < |cs|)
    && (exists a :: 1 <= a < |group| && sim(cs[group[0]], cs[group[a]]) == Some(score))
    && forall a :: 1 <= a < |group| ==>
      sim(cs[group[0]], cs[group[a]]).Some? && sim(cs[group[0]], cs[group[a]]).value <= score
  }

  lemma BestIsScore(cs: seq<Clause>, sim: Similarity, threshold: real, i: nat)
    requires i < |cs| && threshold >= 0.0 && |Members(cs, Duplicates(sim, threshold), i, |cs|)| > 0
    ensures var ms := Members(cs, Duplicates(sim, threshold), i, |cs|);
      ScoreOf(cs, sim, [i] + ms, Best(cs, sim, i, ms))
  {
    hide IsKept, Best, Members, ScoreOf, AtOrAbove;
    var ms := Members(cs, Duplicates(sim, threshold), i, |cs|);
    forall a | 0 <= a < |ms|
      ensures AtOrAbove(sim, threshold, cs[i], cs[ms[a]])
    {
      assert Claims(cs, Duplicates(sim, threshold), i, ms[a]);
    }
    BestIsLargest(cs, sim, threshold, i, ms);
    HeadedScore(cs, sim, threshold, i, ms, Best(cs, sim, i, ms));
  }

  lemma HeadedScore(cs: seq<Clause>, sim: Similarity, threshold: real, i: nat, ms: seq<nat>, best: real)
    requires i < |cs| && ms != [] && forall a :: 0 <= a < |ms| ==> ms[a] < |cs|
    requires exists a :: 0 <= a < |ms| && sim(cs[i], cs[ms[a]]) == Some(best)
    requires forall a :: 0 <= a < |ms| ==>
      AtOrAbove(sim, threshold, cs[i], cs[ms[a]]) && sim(cs[i], cs[ms[a]]).value <= best
    ensures ScoreOf(cs, sim, [i] + ms, best)
  {
    var group := [i] + ms;
    var a :| 0 <= a < |ms| && sim(cs[i], cs[ms[a]]) == Some(best);
    assert group[a + 1] == ms[a];
    forall b | 1 <= b < |group|
      ensures group[b] == ms[b - 1] && AtOrAbove(sim, threshold, cs[i], cs[ms[b - 1]])
    {
    }
  }

  lemma TextSimilarityIsSymmetric(words: string -> set<string>, threshold: real)
    ensures Symmetric(Duplicates(TextSimilarity(words), threshold))
  {
    forall x: Clause, y: Clause
      ensures AtOrAbove(TextSimilarity(words), threshold, x, y) <==> AtOrAbove(TextSimilarity(words), threshold, y, x)
    {
      var wx, wy := words(x.clauseText), words(y.clauseText);
      assert wx + wy == wy + wx;
      if wx + wy != {} {
        Jaccard.SimilarityIsSymmetric(wx, wy);
      }
    }
  }
}
