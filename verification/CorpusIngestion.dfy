/** corpus_ingestion.py: what one call stores, what it reports, and what a
    whole sequence of calls keeps. */
module CorpusIngestion {
  import opened Prelude
  import opened Models
  import opened Greedy
  import opened Deduplicator
  import opened Tally
  import opened Rounding

  datatype Raw = Raw(
    clauseText: string,
    sourceDocumentId: Option<string>,
    clauseType: Option<string>,
    contractType: Option<string>,
    industry: Option<string>,
    counterpartyType: Option<string>,
    qualityScore: Option<real>)

  datatype Verdict = Verdict(overall: real, admitted: bool)

  /** The parts of the pipeline that are not modelled: Python's notion of blank
      text, the anonymizer and the quality filter. None stands for an exception. */
  datatype Environment = Environment(
    blank: string -> bool,
    anonymize: string -> Option<string>,
    evaluate: Clause -> Option<Verdict>,
    sourceName: nat -> string)

  const CONTRACT_TYPES := {
    "saas_agreement", "software_license", "professional_services", "employment_agreement", "non_disclosure",
    "supply_agreement", "distribution_agreement", "partnership_agreement", "joint_venture", "loan_agreement",
    "lease_agreement", "merger_agreement", "service_level", "master_services", "statement_of_work", "other"}

  const INDUSTRIES := {
    "technology", "healthcare", "financial_services", "manufacturing", "retail", "energy", "real_estate",
    "telecommunications", "government", "pharmaceuticals"}

  const COUNTERPARTY_TYPES := {"enterprise", "smb", "government", "non_profit"}

  datatype Outcome = Failed | Skipped | Passed(clause: Clause)

  function GetOr<T>(o: Option<T>, default: T): T {
    match o
    case Some(v) => v
    case None => default
  }

  function Candidate(env: Environment, raw: Raw, index: nat, id: string, text: string): Clause {
    Clause(id, GetOr(raw.sourceDocumentId, env.sourceName(index)), GetOr(raw.clauseType, "unknown"), text,
           GetOr(raw.contractType, "other"), GetOr(raw.industry, "technology"),
           GetOr(raw.counterpartyType, "enterprise"), GetOr(raw.qualityScore, 0.0))
  }

  /** The enumerations and the field validators accept the clause. */
  predicate Constructible(env: Environment, c: Clause) {
    && c.contractType in CONTRACT_TYPES
    && c.industry in INDUSTRIES
    && c.counterpartyType in COUNTERPARTY_TYPES
    && !env.blank(c.clauseText)
    && 0.0 <= c.qualityScore <= 1.0
  }

  /** What happens to one raw item when `existing` is the corpus. */
  function OutcomeOf(env: Environment, rel: (Clause, Clause) -> bool, existing: seq<Clause>, raw: Raw, index: nat,
                     id: string): Outcome {
    if env.blank(raw.clauseText) then Skipped
    else
      match env.anonymize(raw.clauseText)
      case None => Failed
      case Some(text) =>
        var c := Candidate(env, raw, index, id, text);
        if !Constructible(env, c) then Failed
        else
          match env.evaluate(c)
          case None => Failed
          case Some(verdict) =>
            var scored := c.(qualityScore := verdict.overall);
            if !verdict.admitted || RelatedToAny(scored, existing, rel) then Skipped
            else Passed(scored)
  }

  /** One call: the raw items, and the fresh id each of them would be given. */
  datatype Batch = Batch(raws: seq<Raw>, ids: seq<string>)

  ghost predicate FreshIds(batch: Batch, existing: seq<Clause>) {
    && |batch.ids| == |batch.raws|
    && (forall a, b :: 0 <= a < b < |batch.ids| ==> batch.ids[a] != batch.ids[b])
    && forall a, e :: 0 <= a < |batch.ids| && 0 <= e < |existing| ==> batch.ids[a] != existing[e].clauseId
  }

  function OutcomeAt(env: Environment, rel: (Clause, Clause) -> bool, existing: seq<Clause>, batch: Batch,
                     i: nat): Outcome
    requires |batch.ids| == |batch.raws| && i < |batch.raws|
  {
    OutcomeOf(env, rel, existing, batch.raws[i], i, batch.ids[i])
  }

  function Accepted(o: Outcome): seq<Clause> {
    if o.Passed? then [o.clause] else []
  }

  /** The clauses that reach deduplication. */
  function PassedBelow(env: Environment, rel: (Clause, Clause) -> bool, existing: seq<Clause>, batch: Batch,
                       n: nat): seq<Clause>
    requires |batch.ids| == |batch.raws| && n <= |batch.raws|
  {
    if n == 0 then []
    else PassedBelow(env, rel, existing, batch, n - 1) + Accepted(OutcomeAt(env, rel, existing, batch, n - 1))
  }

  function CountBelow(env: Environment, rel: (Clause, Clause) -> bool, existing: seq<Clause>, batch: Batch,
                      o: Outcome, n: nat): nat
    requires |batch.ids| == |batch.raws| && n <= |batch.raws|
  {
    if n == 0 then 0
    else
      CountBelow(env, rel, existing, batch, o, n - 1)
      + if OutcomeAt(env, rel, existing, batch, n - 1) == o then 1 else 0
  }

  function PassedIn(env: Environment, rel: (Clause, Clause) -> bool, existing: seq<Clause>, batch: Batch): seq<Clause>
    requires |batch.ids| == |batch.raws|
  {
    PassedBelow(env, rel, existing, batch, |batch.raws|)
  }

  /** The corpus after a call that stores what deduplication kept. */
  function StoreKept(env: Environment, rel: (Clause, Clause) -> bool, existing: seq<Clause>, batch: Batch): seq<Clause>
    requires |batch.ids| == |batch.raws|
  {
    existing + Unique(PassedIn(env, rel, existing, batch), rel)
  }

  /** The corpus after a call as written: as many clauses as were kept, taken
      from the front. */
  function StorePrefix(env: Environment, rel: (Clause, Clause) -> bool, existing: seq<Clause>,
                       batch: Batch): seq<Clause>
    requires |batch.ids| == |batch.raws|
  {
    var passed := PassedIn(env, rel, existing, batch);
    UniqueAtKept(passed, rel, |passed|);
    existing + passed[..|Unique(passed, rel)|]
  }

  // ----- the ledgers of one call

  lemma {:induction false} EveryItemIsCounted(env: Environment, rel: (Clause, Clause) -> bool, existing: seq<Clause>,
                                              batch: Batch, n: nat)
    requires |batch.ids| == |batch.raws| && n <= |batch.raws|
    ensures n == |PassedBelow(env, rel, existing, batch, n)|
                 + CountBelow(env, rel, existing, batch, Failed, n) + CountBelow(env, rel, existing, batch, Skipped, n)
  {
    hide OutcomeOf;
    if n > 0 {
      EveryItemIsCounted(env, rel, existing, batch, n - 1);
    }
  }

  /** Passed clauses carry the fresh ids of their items, in order, and none is
      related to the corpus. */
  ghost predicate CleanBelow(rel: (Clause, Clause) -> bool, existing: seq<Clause>, batch: Batch, n: nat,
                             passed: seq<Clause>)
    requires |batch.ids| == |batch.raws| && n <= |batch.raws|
  {
    && (forall p :: 0 <= p < |passed| ==>
          passed[p].clauseId in batch.ids[..n] && !RelatedToAny(passed[p], existing, rel))
    && forall p, q :: 0 <= p < q < |passed| ==> passed[p].clauseId != passed[q].clauseId
  }

  lemma {:induction false} PassedIsClean(env: Environment, rel: (Clause, Clause) -> bool, existing: seq<Clause>,
                                         batch: Batch, n: nat)
    requires FreshIds(batch, existing) && n <= |batch.raws|
    ensures CleanBelow(rel, existing, batch, n, PassedBelow(env, rel, existing, batch, n))
  {
    if n > 0 {
      PassedIsClean(env, rel, existing, batch, n - 1);
      var before := PassedBelow(env, rel, existing, batch, n - 1);
      forall p | 0 <= p < |before|
        ensures before[p].clauseId in batch.ids[..n] && before[p].clauseId != batch.ids[n - 1]
      {
        var a :| 0 <= a < n - 1 && batch.ids[a] == before[p].clauseId;
        assert batch.ids[..n][a] == before[p].clauseId;
      }
      assert batch.ids[..n][n - 1] == batch.ids[n - 1];
    }
  }

  // ----- what may be stored

  /** The clause is what a raw item becomes when nothing stops it: the text is
      not blank, anonymizing it succeeds, the clause can be built, and the
      quality filter admits it. */
  ghost predicate Admitted(env: Environment, raw: Raw, index: nat, id: string, c: Clause) {
    exists text, verdict ::
      && !env.blank(raw.clauseText)
      && env.anonymize(raw.clauseText) == Some(text)
      && Constructible(env, Candidate(env, raw, index, id, text))
      && env.evaluate(Candidate(env, raw, index, id, text)) == Some(verdict)
      && verdict.admitted
      && c == Candidate(env, raw, index, id, text).(qualityScore := verdict.overall)
  }

  /** An item passes exactly as the clause that is admitted and duplicates
      nothing in the corpus; it fails exactly when one of the steps raises. */
  lemma PassesIff(env: Environment, rel: (Clause, Clause) -> bool, existing: seq<Clause>, raw: Raw, index: nat,
                  id: string)
    ensures var o := OutcomeOf(env, rel, existing, raw, index, id);
      && (forall c :: o == Passed(c) <==> Admitted(env, raw, index, id, c) && !RelatedToAny(c, existing, rel))
      && (o == Failed <==>
            && !env.blank(raw.clauseText)
            && (env.anonymize(raw.clauseText).Some? ==>
                  var c := Candidate(env, raw, index, id, env.anonymize(raw.clauseText).value);
                  || c.contractType !in CONTRACT_TYPES || c.industry !in INDUSTRIES
                  || c.counterpartyType !in COUNTERPARTY_TYPES || env.blank(c.clauseText)
                  || c.qualityScore < 0.0 || c.qualityScore > 1.0
                  || env.evaluate(c).None?))
  {
    hide Candidate, RelatedToAny;
  }

  /** What an item that names nothing but its text is taken for, and that it is
      the given fields that count otherwise. */
  lemma CandidateFields(env: Environment, raw: Raw, index: nat, id: string, text: string)
    ensures var c := Candidate(env, raw, index, id, text);
      && c.clauseId == id && c.clauseText == text
      && (raw.sourceDocumentId == None ==> c.sourceDocumentId == env.sourceName(index))
      && (raw.clauseType == None ==> c.clauseType == "unknown")
      && (raw.contractType == None ==> c.contractType == "other")
      && (raw.industry == None ==> c.industry == "technology")
      && (raw.counterpartyType == None ==> c.counterpartyType == "enterprise")
      && (raw.qualityScore == None ==> c.qualityScore == 0.0)
      && (forall v :: raw.sourceDocumentId == Some(v) ==> c.sourceDocumentId == v)
      && (forall v :: raw.clauseType == Some(v) ==> c.clauseType == v)
      && (forall v :: raw.contractType == Some(v) ==> c.contractType == v)
      && (forall v :: raw.industry == Some(v) ==> c.industry == v)
      && (forall v :: raw.counterpartyType == Some(v) ==> c.counterpartyType == v)
      && (forall v :: raw.qualityScore == Some(v) ==> c.qualityScore == v)
  {
  }

  /** The clauses that reach deduplication are exactly the admitted ones that
      duplicate nothing in the corpus. */
  lemma {:induction false} PassedBelowIff(env: Environment, rel: (Clause, Clause) -> bool, existing: seq<Clause>,
                                          batch: Batch, n: nat, c: Clause)
    requires |batch.ids| == |batch.raws| && n <= |batch.raws|
    ensures c in PassedBelow(env, rel, existing, batch, n) <==>
      && !RelatedToAny(c, existing, rel)
      && exists i :: 0 <= i < n && Admitted(env, batch.raws[i], i, batch.ids[i], c)
  {
    hide OutcomeOf, Admitted, RelatedToAny;
    if n > 0 {
      PassedBelowIff(env, rel, existing, batch, n - 1, c);
      PassesIff(env, rel, existing, batch.raws[n - 1], n - 1, batch.ids[n - 1]);
    }
  }

  /** Some item of some call became this clause. */
  ghost predicate CameIn(env: Environment, batches: seq<Batch>, c: Clause) {
    exists b, i :: 0 <= b < |batches| && 0 <= i < |batches[b].raws| && i < |batches[b].ids|
      && Admitted(env, batches[b].raws[i], i, batches[b].ids[i], c)
  }

  lemma CameInLater(env: Environment, batches: seq<Batch>, c: Clause)
    requires batches != [] && CameIn(env, batches[..|batches| - 1], c)
    ensures CameIn(env, batches, c)
  {
    hide Admitted;
    var front := batches[..|batches| - 1];
    var b, i :| 0 <= b < |front| && 0 <= i < |front[b].raws| && i < |front[b].ids|
      && Admitted(env, front[b].raws[i], i, front[b].ids[i], c);
    assert batches[b] == front[b];
  }

  lemma LastCameIn(env: Environment, rel: (Clause, Clause) -> bool, existing: seq<Clause>, batches: seq<Batch>,
                   c: Clause)
    requires batches != [] && |batches[|batches| - 1].ids| == |batches[|batches| - 1].raws|
    requires c in PassedIn(env, rel, existing, batches[|batches| - 1])
    ensures CameIn(env, batches, c)
  {
    hide Admitted, PassedBelow;
    var last := batches[|batches| - 1];
    PassedBelowIff(env, rel, existing, last, |last.raws|, c);
    var i :| 0 <= i < |last.raws| && Admitted(env, last.raws[i], i, last.ids[i], c);
  }

  lemma {:induction false} UniqueIsAmong(cs: seq<Clause>, rel: (Clause, Clause) -> bool, n: nat, c: Clause)
    requires n <= |cs| && c in UniqueBelow(cs, rel, n)
    ensures c in cs
  {
    hide IsKept;
    if c in UniqueBelow(cs, rel, n - 1) {
      UniqueIsAmong(cs, rel, n - 1, c);
    }
  }

  // ----- whole runs

  function RunKept(env: Environment, rel: (Clause, Clause) -> bool, batches: seq<Batch>): seq<Clause>
    requires forall b :: 0 <= b < |batches| ==> |batches[b].ids| == |batches[b].raws|
  {
    if batches == [] then []
    else StoreKept(env, rel, RunKept(env, rel, batches[..|batches| - 1]), batches[|batches| - 1])
  }

  function RunPrefix(env: Environment, rel: (Clause, Clause) -> bool, batches: seq<Batch>): seq<Clause>
    requires forall b :: 0 <= b < |batches| ==> |batches[b].ids| == |batches[b].raws|
  {
    if batches == [] then []
    else StorePrefix(env, rel, RunPrefix(env, rel, batches[..|batches| - 1]), batches[|batches| - 1])
  }

  /** Whatever a run stores, as written or as intended, was admitted. */
  lemma {:induction false} StoredWasAdmitted(env: Environment, rel: (Clause, Clause) -> bool, batches: seq<Batch>,
                                             c: Clause)
    requires forall b :: 0 <= b < |batches| ==> |batches[b].ids| == |batches[b].raws|
    ensures c in RunPrefix(env, rel, batches) || c in RunKept(env, rel, batches) ==> CameIn(env, batches, c)
  {
    hide CameIn, IsKept, PassedBelow;
    if batches != [] && (c in RunPrefix(env, rel, batches) || c in RunKept(env, rel, batches)) {
      var front, last := batches[..|batches| - 1], batches[|batches| - 1];
      var prefix, kept := RunPrefix(env, rel, front), RunKept(env, rel, front);
      StoredWasAdmitted(env, rel, front, c);
      if c in prefix || c in kept {
        CameInLater(env, batches, c);
      } else if c in PassedIn(env, rel, prefix, last) {
        LastCameIn(env, rel, prefix, batches, c);
      } else {
        var passed := PassedIn(env, rel, kept, last);
        UniqueIsAmong(passed, rel, |passed|, c);
        LastCameIn(env, rel, kept, batches, c);
      }
    }
  }

  lemma ExtendIndependent(rel: (Clause, Clause) -> bool, existing: seq<Clause>, more: seq<Clause>)
    requires Symmetric(rel)
    requires forall p :: 0 <= p < |more| ==> !RelatedToAny(more[p], existing, rel)
    ensures Independent(existing + more, rel) <==> Independent(existing, rel) && Independent(more, rel)
  {
    var all := existing + more;
    if Independent(all, rel) {
      forall a, b | 0 <= a < b < |existing|
        ensures !rel(existing[a], existing[b])
      {
        assert all[a] == existing[a] && all[b] == existing[b];
      }
      forall a, b | 0 <= a < b < |more|
        ensures !rel(more[a], more[b])
      {
        assert all[|existing| + a] == more[a] && all[|existing| + b] == more[b];
      }
    }
    if Independent(existing, rel) && Independent(more, rel) {
      forall a, b | 0 <= a < b < |all|
        ensures !rel(all[a], all[b])
      {
        if a < |existing| <= b {
          assert !RelatedToAny(more[b - |existing|], existing, rel);
        }
      }
    }
  }

  lemma PassedIsUnrelated(env: Environment, rel: (Clause, Clause) -> bool, existing: seq<Clause>, batch: Batch, n: nat)
    requires |batch.ids| == |batch.raws| && n <= |batch.raws|
    ensures forall p :: 0 <= p < |PassedBelow(env, rel, existing, batch, n)| ==>
      !RelatedToAny(PassedBelow(env, rel, existing, batch, n)[p], existing, rel)
  {
  }

  /** Storing what was kept keeps a duplicate-free corpus duplicate-free. */
  lemma StoreKeptStep(env: Environment, rel: (Clause, Clause) -> bool, existing: seq<Clause>, batch: Batch)
    requires Symmetric(rel) && |batch.ids| == |batch.raws|
    requires Independent(existing, rel)
    ensures Independent(StoreKept(env, rel, existing, batch), rel)
  {
    hide IsKept, RelatedToAny;
    var passed := PassedIn(env, rel, existing, batch);
    PassedIsUnrelated(env, rel, existing, batch, |batch.raws|);
    UniqueIsIndependent(passed, rel);
    UniqueAtKept(passed, rel, |passed|);
    ExtendIndependent(rel, existing, Unique(passed, rel));
  }

  /** A call as written keeps the corpus duplicate-free exactly when it was
      before and deduplication removed clauses only from the end. */
  lemma StorePrefixStep(env: Environment, rel: (Clause, Clause) -> bool, existing: seq<Clause>, batch: Batch)
    requires Symmetric(rel) && |batch.ids| == |batch.raws|
    ensures Independent(StorePrefix(env, rel, existing, batch), rel)
      <==> Independent(existing, rel) && RemovedIsSuffix(PassedIn(env, rel, existing, batch), rel)
    ensures |StorePrefix(env, rel, existing, batch)| == |StoreKept(env, rel, existing, batch)|
    ensures StorePrefix(env, rel, existing, batch) == StoreKept(env, rel, existing, batch)
      <==> RemovedIsSuffix(PassedIn(env, rel, existing, batch), rel)
  {
    hide IsKept, RelatedToAny, RemovedIsSuffix;
    var passed := PassedIn(env, rel, existing, batch);
    PassedIsUnrelated(env, rel, existing, batch, |batch.raws|);
    PrefixIsUniqueIffSuffix(passed, rel);
    ExtendIndependent(rel, existing, passed[..|Unique(passed, rel)|]);
    if RemovedIsSuffix(passed, rel) {
      FullPrefixIsUnique(passed, rel);
    }
    if StorePrefix(env, rel, existing, batch) == StoreKept(env, rel, existing, batch) {
      SameTail(existing, passed[..|Unique(passed, rel)|], Unique(passed, rel));
      UniqueIsIndependent(passed, rel);
    }
  }

  lemma SameTail(front: seq<Clause>, x: seq<Clause>, y: seq<Clause>)
    requires front + x == front + y
    ensures x == y
  {
    assert x == (front + x)[|front|..] && y == (front + y)[|front|..];
  }

  /** Storing what was kept: the corpus is duplicate-free after any calls. */
  lemma {:induction false} RunKeptIsDuplicateFree(env: Environment, rel: (Clause, Clause) -> bool, batches: seq<Batch>)
    requires Symmetric(rel)
    requires forall b :: 0 <= b < |batches| ==> |batches[b].ids| == |batches[b].raws|
    ensures Independent(RunKept(env, rel, batches), rel)
  {
    if batches != [] {
      RunKeptIsDuplicateFree(env, rel, batches[..|batches| - 1]);
      StoreKeptStep(env, rel, RunKept(env, rel, batches[..|batches| - 1]), batches[|batches| - 1]);
    }
  }

  /** Every call of the run removed duplicates only from the end of its list. */
  ghost predicate AlwaysSuffix(env: Environment, rel: (Clause, Clause) -> bool, batches: seq<Batch>)
    requires forall b :: 0 <= b < |batches| ==> |batches[b].ids| == |batches[b].raws|
  {
    batches != [] ==>
      && AlwaysSuffix(env, rel, batches[..|batches| - 1])
      && RemovedIsSuffix(PassedIn(env, rel, RunPrefix(env, rel, batches[..|batches| - 1]), batches[|batches| - 1]), rel)
  }

  /** As written: the corpus is duplicate-free after the run exactly when every
      call removed from the end only, and then the run stores what was kept. */
  lemma {:induction false} RunPrefixIsDuplicateFreeIff(
    env: Environment, rel: (Clause, Clause) -> bool, batches: seq<Batch>)
    requires Symmetric(rel)
    requires forall b :: 0 <= b < |batches| ==> |batches[b].ids| == |batches[b].raws|
    ensures Independent(RunPrefix(env, rel, batches), rel) <==> AlwaysSuffix(env, rel, batches)
    ensures AlwaysSuffix(env, rel, batches) ==> RunPrefix(env, rel, batches) == RunKept(env, rel, batches)
  {
    hide RemovedIsSuffix, StorePrefix, StoreKept;
    if batches != [] {
      RunPrefixIsDuplicateFreeIff(env, rel, batches[..|batches| - 1]);
      StorePrefixStep(env, rel, RunPrefix(env, rel, batches[..|batches| - 1]), batches[|batches| - 1]);
    }
  }

  /** Three clauses, the second a copy of the first: deduplication keeps the
      first and the third, the prefix is the first and its copy. */
  lemma PrefixStoresTheCopy(x: Clause, y: Clause, z: Clause, rel: (Clause, Clause) -> bool)
    requires rel(x, y) && !rel(x, z) && !rel(y, z)
    ensures Unique([x, y, z], rel) == [x, z]
    ensures !RemovedIsSuffix([x, y, z], rel)
    ensures [x, y, z][..2] == [x, y] && !Independent([x, y], rel)
  {
    var cs := [x, y, z];
    assert cs[0] == x && cs[1] == y && cs[2] == z;
    assert IsKept(cs, rel, 0);
    assert !IsKept(cs, rel, 1);
    assert IsKept(cs, rel, 2) by {
      assert forall k: nat :: k < 2 && IsKept(cs, rel, k) ==> k == 0;
    }
    assert UniqueBelow(cs, rel, 1) == [x];
    assert UniqueBelow(cs, rel, 2) == [x];
    assert UniqueBelow(cs, rel, 3) == [x, z];
    assert rel([x, y][0], [x, y][1]);
  }

  /** Nothing to anonymize, and every clause admitted. */
  const PLAIN := Environment(s => s == "", s => Some(s), c => Some(Verdict(1.0, true)), n => "source")

  function RawText(text: string): Raw {
    Raw(text, None, None, None, None, None, None)
  }

  const COPIES := Batch([RawText("a"), RawText("a"), RawText("b")], ["1", "2", "3"])

  function PlainClause(id: string, text: string): Clause {
    Clause(id, "source", "unknown", text, "other", "technology", "enterprise", 1.0)
  }

  lemma CopiesPass(rel: (Clause, Clause) -> bool)
    ensures PassedIn(PLAIN, rel, [], COPIES) == [PlainClause("1", "a"), PlainClause("2", "a"), PlainClause("3", "b")]
  {
    PlainPasses(rel, "1", "a", 0);
    PlainPasses(rel, "2", "a", 1);
    PlainPasses(rel, "3", "b", 2);
    hide OutcomeOf;
    assert PassedBelow(PLAIN, rel, [], COPIES, 1) == [PlainClause("1", "a")];
    assert PassedBelow(PLAIN, rel, [], COPIES, 2) == [PlainClause("1", "a"), PlainClause("2", "a")];
  }

  lemma PlainPasses(rel: (Clause, Clause) -> bool, id: string, text: string, index: nat)
    requires text != ""
    ensures OutcomeOf(PLAIN, rel, [], RawText(text), index, id) == Passed(PlainClause(id, text))
  {
  }

  /** One call on a fresh pipeline, with word overlap at the default threshold:
      of three items the second copies the first, and both are stored. */
  lemma IngestStoresTheCopy(words: string -> set<string>)
    requires words("a") == {"a"} && words("b") == {"b"}
    ensures var rel := Duplicates(TextSimilarity(words), 0.92);
      && FreshIds(COPIES, [])
      && RunPrefix(PLAIN, rel, [COPIES]) == [PlainClause("1", "a"), PlainClause("2", "a")]
      && RunKept(PLAIN, rel, [COPIES]) == [PlainClause("1", "a"), PlainClause("3", "b")]
      && !Independent(RunPrefix(PLAIN, rel, [COPIES]), rel)
  {
    hide *;
    var x, y, z := PlainClause("1", "a"), PlainClause("2", "a"), PlainClause("3", "b");
    var rel := Duplicates(TextSimilarity(words), 0.92);
    CopiesAreFresh();
    CopyIsRelated(words);
    PrefixStoresTheCopy(x, y, z, rel);
    CopiesPass(rel);
    OneCall(rel);
    assert [] + [x, y] == [x, y] && [] + [x, z] == [x, z];
  }

  lemma CopiesAreFresh()
    ensures FreshIds(COPIES, [])
  {
    assert "1"[0] != "2"[0] && "1"[0] != "3"[0] && "2"[0] != "3"[0];
  }

  lemma CopyIsRelated(words: string -> set<string>)
    requires words("a") == {"a"} && words("b") == {"b"}
    ensures var rel := Duplicates(TextSimilarity(words), 0.92);
      && rel(PlainClause("1", "a"), PlainClause("2", "a"))
      && !rel(PlainClause("1", "a"), PlainClause("3", "b")) && !rel(PlainClause("2", "a"), PlainClause("3", "b"))
  {
    assert {"a"} + {"a"} == {"a"} && {"a"} * {"a"} == {"a"};
    assert "a"[0] != "b"[0];
    assert {"a"} * {"b"} == {};
  }

  lemma OneCall(rel: (Clause, Clause) -> bool)
    ensures var passed := PassedIn(PLAIN, rel, [], COPIES);
      && |Unique(passed, rel)| <= |passed|
      && RunPrefix(PLAIN, rel, [COPIES]) == [] + passed[..|Unique(passed, rel)|]
      && RunKept(PLAIN, rel, [COPIES]) == [] + Unique(passed, rel)
  {
    var passed := PassedIn(PLAIN, rel, [], COPIES);
    PrefixIsUniqueIffSuffix(passed, rel);
    assert [COPIES][..0] == [];
  }

  // ----- metadata

  datatype Metadata = Metadata(
    totalClauses: nat,
    totalDocuments: nat,
    clauseTypeCounts: map<string, nat>,
    contractTypeCounts: map<string, nat>,
    industryCounts: map<string, nat>,
    counterpartyCounts: map<string, nat>,
    avgQualityScore: real)

  function Column(cs: seq<Clause>, field: Clause -> string): seq<string> {
    seq(|cs|, i requires 0 <= i < |cs| => field(cs[i]))
  }

  function ClauseTypeOf(c: Clause): string { c.clauseType }
  function ContractTypeOf(c: Clause): string { c.contractType }
  function IndustryOf(c: Clause): string { c.industry }
  function CounterpartyOf(c: Clause): string { c.counterpartyType }

  /** The counters that one pass over the corpus fills. */
  datatype Counters = Counters(
    types: map<string, nat>,
    contracts: map<string, nat>,
    industries: map<string, nat>,
    counterparties: map<string, nat>,
    quality: real)

  function Quality(cs: seq<Clause>): seq<real> {
    seq(|cs|, i requires 0 <= i < |cs| => cs[i].qualityScore)
  }

  function CountersOf(cs: seq<Clause>): Counters {
    Counters(TallyOf(Column(cs, ClauseTypeOf)), TallyOf(Column(cs, ContractTypeOf)),
             TallyOf(Column(cs, IndustryOf)), TallyOf(Column(cs, CounterpartyOf)), Sum(Quality(cs)))
  }

  function Describe(cs: seq<Clause>): Metadata {
    var c := CountersOf(cs);
    Metadata(|cs|, |set i | 0 <= i < |cs| :: cs[i].sourceDocumentId|,
             c.types, c.contracts, c.industries, c.counterparties,
             if cs == [] then 0.0 else Round(c.quality / |cs| as real, Four))
  }

  function OfType(cs: seq<Clause>, clauseType: string): seq<Clause> {
    if cs == [] then []
    else OfType(cs[..|cs| - 1], clauseType) + if cs[|cs| - 1].clauseType == clauseType then [cs[|cs| - 1]] else []
  }

  /** Every count dictionary adds up to the number of clauses. */
  lemma MetadataAddsUp(cs: seq<Clause>)
    ensures var m := Describe(cs);
      && Total(m.clauseTypeCounts) == m.totalClauses == Total(m.contractTypeCounts)
      && Total(m.industryCounts) == m.totalClauses == Total(m.counterpartyCounts)
  {
    TallyTotal(Column(cs, ClauseTypeOf));
    TallyTotal(Column(cs, ContractTypeOf));
    TallyTotal(Column(cs, IndustryOf));
    TallyTotal(Column(cs, CounterpartyOf));
  }

  ghost function Different(xs: seq<string>): set<string> {
    set x | x in xs
  }

  /** The positions of the clauses with that value in that field. */
  ghost function Having(cs: seq<Clause>, field: Clause -> string, value: string): set<nat> {
    set i: nat | i < |cs| && field(cs[i]) == value
  }

  lemma {:induction false} ColumnMultiplicity(cs: seq<Clause>, field: Clause -> string, value: string)
    ensures multiset(Column(cs, field))[value] == |Having(cs, field, value)|
  {
    if cs == [] {
      assert Having(cs, field, value) == {};
    } else {
      var front, last := cs[..|cs| - 1], cs[|cs| - 1];
      ColumnMultiplicity(front, field, value);
      assert cs == front + [last];
      ColumnStep(front, last, field);
      if field(last) == value {
        assert Having(cs, field, value) == Having(front, field, value) + {|front|};
      } else {
        assert Having(cs, field, value) == Having(front, field, value);
      }
    }
  }

  /** Each dictionary counts its own field, the documents are the different
      sources, and the average is that of the scores, rounded. */
  lemma MetadataMeans(cs: seq<Clause>, value: string)
    ensures var m := Describe(cs);
      && m.totalClauses == |cs|
      && m.totalDocuments == |Different(Column(cs, (c: Clause) => c.sourceDocumentId))|
      && Get(m.clauseTypeCounts, value) == |Having(cs, (c: Clause) => c.clauseType, value)|
      && Get(m.contractTypeCounts, value) == |Having(cs, (c: Clause) => c.contractType, value)|
      && Get(m.industryCounts, value) == |Having(cs, (c: Clause) => c.industry, value)|
      && Get(m.counterpartyCounts, value) == |Having(cs, (c: Clause) => c.counterpartyType, value)|
      && (cs == [] ==> m.avgQualityScore == 0.0)
      && (cs != [] ==>
            var average := Sum(seq(|cs|, i requires 0 <= i < |cs| => cs[i].qualityScore)) / |cs| as real;
            average - 0.00005 <= m.avgQualityScore <= average + 0.00005)
  {
    hide TallyOf, Round;
    FieldCount(cs, ClauseTypeOf, (c: Clause) => c.clauseType, value);
    FieldCount(cs, ContractTypeOf, (c: Clause) => c.contractType, value);
    FieldCount(cs, IndustryOf, (c: Clause) => c.industry, value);
    FieldCount(cs, CounterpartyOf, (c: Clause) => c.counterpartyType, value);
    SourcesCounted(cs);
    if cs != [] {
      RoundError(Sum(Quality(cs)) / |cs| as real, Four);
    }
  }

  lemma FieldCount(cs: seq<Clause>, field: Clause -> string, field': Clause -> string, value: string)
    requires forall c :: field(c) == field'(c)
    ensures Get(TallyOf(Column(cs, field)), value) == |Having(cs, field', value)|
  {
    GetIsMultiplicity(Column(cs, field), value);
    ColumnMultiplicity(cs, field, value);
    assert Having(cs, field, value) == Having(cs, field', value);
  }

  lemma SourcesCounted(cs: seq<Clause>)
    ensures (set i | 0 <= i < |cs| :: cs[i].sourceDocumentId)
      == Different(Column(cs, (c: Clause) => c.sourceDocumentId))
  {
    var column := Column(cs, (c: Clause) => c.sourceDocumentId);
    forall d
      ensures d in column <==> exists i :: 0 <= i < |cs| && cs[i].sourceDocumentId == d
    {
      if i :| 0 <= i < |cs| && cs[i].sourceDocumentId == d {
        assert column[i] == d;
      }
    }
  }

  /** The clauses found by type are those of that type, each as often as stored. */
  lemma {:induction false} OfTypeMultiplicity(cs: seq<Clause>, clauseType: string, c: Clause)
    ensures multiset(OfType(cs, clauseType))[c] == if c.clauseType == clauseType then multiset(cs)[c] else 0
  {
    if cs != [] {
      OfTypeMultiplicity(cs[..|cs| - 1], clauseType, c);
      assert cs == cs[..|cs| - 1] + [cs[|cs| - 1]];
    }
  }

  /** The count kept for a clause type is the number of clauses found by it. */
  lemma {:induction false} TypeCountIsLength(cs: seq<Clause>, clauseType: string)
    ensures Get(Describe(cs).clauseTypeCounts, clauseType) == |OfType(cs, clauseType)|
  {
    var column := Column(cs, ClauseTypeOf);
    GetIsMultiplicity(column, clauseType);
    TypeMultiplicity(cs, clauseType);
  }

  lemma {:induction false} TypeMultiplicity(cs: seq<Clause>, clauseType: string)
    ensures multiset(Column(cs, ClauseTypeOf))[clauseType] == |OfType(cs, clauseType)|
  {
    if cs != [] {
      var front, last := cs[..|cs| - 1], cs[|cs| - 1];
      TypeMultiplicity(front, clauseType);
      ColumnStep(front, last, ClauseTypeOf);
      assert cs == front + [last];
    }
  }

  datatype IngestionResult = IngestionResult(
    totalReceived: nat,
    passedQualityFilter: nat,
    duplicatesRemoved: nat,
    stored: nat,
    failed: nat)

  function ResultOf(env: Environment, rel: (Clause, Clause) -> bool, existing: seq<Clause>,
                    batch: Batch): IngestionResult
    requires |batch.ids| == |batch.raws|
  {
    var passed := PassedIn(env, rel, existing, batch);
    UniqueAtKept(passed, rel, |passed|);
    IngestionResult(|batch.raws|, |passed|, |passed| - |Unique(passed, rel)|, |Unique(passed, rel)|,
                    CountBelow(env, rel, existing, batch, Failed, |batch.raws|))
  }

  /** The ledgers of a call: every item received passed, failed or was skipped;
      every clause that passed was stored or removed as a duplicate; and the
      corpus grows by what was stored. */
  lemma LedgersAgree(env: Environment, rel: (Clause, Clause) -> bool, existing: seq<Clause>, batch: Batch)
    requires |batch.ids| == |batch.raws|
    ensures var r := ResultOf(env, rel, existing, batch);
      && r.totalReceived
         == r.passedQualityFilter + r.failed + CountBelow(env, rel, existing, batch, Skipped, |batch.raws|)
      && r.passedQualityFilter == r.stored + r.duplicatesRemoved
      && |StorePrefix(env, rel, existing, batch)| == |existing| + r.stored
  {
    EveryItemIsCounted(env, rel, existing, batch, |batch.raws|);
  }

  function InOrder(corpus: map<string, Clause>, keys: seq<string>): seq<Clause>
    requires forall k :: k in keys ==> k in corpus
  {
    seq(|keys|, i requires 0 <= i < |keys| => corpus[keys[i]])
  }

  class CorpusIngestionPipeline {
    const env: Environment
    const deduplicator: SemanticDeduplicator
    // the corpus dictionary and the order its keys were inserted in
    var corpus: map<string, Clause>
    var keys: seq<string>
    var metadata: Metadata

    ghost predicate Valid()
      reads this, deduplicator
    {
      && deduplicator.Valid()
      && (forall k :: k in corpus <==> k in keys)
      && (forall a, b :: 0 <= a < b < |keys| ==> keys[a] != keys[b])
      && forall k :: k in corpus ==> corpus[k].clauseId == k
    }

    /** The stored clauses, in insertion order. */
    function Clauses(): seq<Clause>
      requires forall k :: k in keys ==> k in corpus
      reads this`corpus, this`keys
    {
      InOrder(corpus, keys)
    }

    function Related(): (Clause, Clause) -> bool {
      Duplicates(deduplicator.Similar(), deduplicator.threshold)
    }

    constructor (env: Environment, deduplicator: SemanticDeduplicator)
      requires deduplicator.Valid()
      ensures Valid() && Clauses() == [] && this.env == env && this.deduplicator == deduplicator
    {
      this.env, this.deduplicator := env, deduplicator;
      corpus, keys := map[], [];
      metadata := Describe([]);
    }

    method ProcessSingleClause(raw: Raw, index: nat, id: string) returns (o: Outcome)
      requires Valid()
      modifies deduplicator`model
      ensures Valid()
      ensures o == OutcomeOf(env, Related(), Clauses(), raw, index, id)
    {
      if env.blank(raw.clauseText) { return Skipped; }
      var text := env.anonymize(raw.clauseText);
      if text.None? { return Failed; }
      var clause := Candidate(env, raw, index, id, text.value);
      if !Constructible(env, clause) { return Failed; }
      var verdict := env.evaluate(clause);
      if verdict.None? { return Failed; }
      clause := clause.(qualityScore := verdict.value.overall);
      if !verdict.value.admitted { return Skipped; }
      var dup, _ := deduplicator.IsDuplicate(clause, Clauses());
      return if dup then Skipped else Passed(clause);
    }

    method Store(clause: Clause)
      requires Valid() && clause.clauseId !in keys
      modifies this`corpus, this`keys
      ensures Valid() && keys == old(keys) + [clause.clauseId]
      ensures Clauses() == old(Clauses()) + [clause]
    {
      corpus := corpus[clause.clauseId := clause];
      keys := keys + [clause.clauseId];
    }

    /** One call: the corpus becomes the stored prefix, and the counters in the
        result are the ledgers of the call. */
    method Ingest(batch: Batch) returns (result: IngestionResult)
      requires Valid() && FreshIds(batch, Clauses())
      modifies this`corpus, this`keys, this`metadata, deduplicator`model
      ensures Valid()
      ensures Clauses() == StorePrefix(env, Related(), old(Clauses()), batch)
      ensures metadata == Describe(Clauses())
      ensures result == ResultOf(env, Related(), old(Clauses()), batch)
    {
      hide IsKept, Describe, CountBelow, PassedBelow, KeptBelow;
      ghost var existing := Clauses();
      var processed, failed := ProcessAll(batch);
      var duplicatesRemoved, stored := 0, 0;
      PassedIsClean(env, Related(), existing, batch, |batch.raws|);
      UniqueAtKept(processed, Related(), |processed|);
      FreshInKeys(existing, batch, processed, keys);
      if processed != [] {
        var report := deduplicator.Deduplicate(processed);
        duplicatesRemoved := report.duplicatesRemoved;
        stored := StoreFront(processed, report.uniqueKept);
      }
      UpdateMetadata();
      result := IngestionResult(|batch.raws|, |processed|, duplicatesRemoved, stored, failed);
    }

    lemma FreshInKeys(existing: seq<Clause>, batch: Batch, processed: seq<Clause>, ks: seq<string>)
      requires FreshIds(batch, existing) && CleanBelow(Related(), existing, batch, |batch.raws|, processed)
      requires |ks| == |existing| && forall e :: 0 <= e < |ks| ==> existing[e].clauseId == ks[e]
      ensures forall p :: 0 <= p < |processed| ==> processed[p].clauseId !in ks
    {
    }

    method ProcessAll(batch: Batch) returns (processed: seq<Clause>, failed: nat)
      requires Valid() && |batch.ids| == |batch.raws|
      modifies deduplicator`model
      ensures Valid()
      ensures processed == PassedIn(env, Related(), Clauses(), batch)
      ensures failed == CountBelow(env, Related(), Clauses(), batch, Failed, |batch.raws|)
    {
      hide OutcomeOf;
      processed, failed := [], 0;
      for i := 0 to |batch.raws|
        invariant Valid()
        invariant processed == PassedBelow(env, Related(), Clauses(), batch, i)
        invariant failed == CountBelow(env, Related(), Clauses(), batch, Failed, i)
      {
        var o := ProcessSingleClause(batch.raws[i], i, batch.ids[i]);
        assert o == OutcomeAt(env, Related(), Clauses(), batch, i);
        assert processed + [] == processed;
        match o
        case Passed(clause) => processed := processed + [clause];
        case Failed => failed := failed + 1;
        case Skipped =>
      }
    }

    /** Stores the clauses whose id is among the first `count` ids. */
    method StoreFront(processed: seq<Clause>, count: nat) returns (stored: nat)
      requires Valid() && count <= |processed|
      requires forall p, q :: 0 <= p < q < |processed| ==> processed[p].clauseId != processed[q].clauseId
      requires forall p :: 0 <= p < |processed| ==> processed[p].clauseId !in keys
      modifies this`corpus, this`keys
      ensures Valid() && stored == count
      ensures Clauses() == old(Clauses()) + processed[..count]
    {
      stored := 0;
      for p := 0 to |processed|
        invariant Valid()
        invariant stored == if p < count then p else count
        invariant Clauses() == old(Clauses()) + processed[..stored]
        invariant forall q :: p <= q < |processed| ==> processed[q].clauseId !in keys
      {
        var clause := processed[p];
        if clause.clauseId in (set q | 0 <= q < count :: processed[q].clauseId) {
          Store(clause);
          stored := stored + 1;
        }
      }
    }

    method UpdateMetadata()
      requires Valid()
      modifies this`metadata
      ensures Valid() && metadata == Describe(Clauses())
    {
      hide Describe;
      metadata := Summarize(Clauses());
    }

    method GetClausesByType(clauseType: string) returns (found: seq<Clause>)
      requires Valid()
      ensures found == OfType(Clauses(), clauseType)
    {
      found := SelectByType(Clauses(), clauseType);
    }
  }

  method SelectByType(clauses: seq<Clause>, clauseType: string) returns (found: seq<Clause>)
    ensures found == OfType(clauses, clauseType)
  {
    found := [];
    for i := 0 to |clauses|
      invariant found == OfType(clauses[..i], clauseType)
    {
      assert clauses[..i + 1][..i] == clauses[..i];
      if clauses[i].clauseType == clauseType {
        found := found + [clauses[i]];
      }
    }
    assert clauses[..|clauses|] == clauses;
  }

  lemma ColumnStep(cs: seq<Clause>, c: Clause, field: Clause -> string)
    ensures Column(cs + [c], field) == Column(cs, field) + [field(c)]
    ensures TallyOf(Column(cs + [c], field)) == Bump(TallyOf(Column(cs, field)), field(c))
  {
    assert Column(cs + [c], field) == Column(cs, field) + [field(c)];
    TallySnoc(Column(cs, field), field(c));
  }

  function BumpAll(t: Counters, c: Clause): Counters {
    Counters(Bump(t.types, c.clauseType), Bump(t.contracts, c.contractType),
             Bump(t.industries, c.industry), Bump(t.counterparties, c.counterpartyType), t.quality + c.qualityScore)
  }

  lemma CountersStep(cs: seq<Clause>, c: Clause)
    ensures CountersOf(cs + [c]) == BumpAll(CountersOf(cs), c)
  {
    hide TallyOf, Column;
    ColumnStep(cs, c, ClauseTypeOf);
    ColumnStep(cs, c, ContractTypeOf);
    ColumnStep(cs, c, IndustryOf);
    ColumnStep(cs, c, CounterpartyOf);
    assert Quality(cs + [c])[..|cs|] == Quality(cs);
  }

  lemma NothingCounted()
    ensures CountersOf([]) == Counters(map[], map[], map[], map[], 0.0)
  {
    var none: seq<Clause> := [];
    assert TallyOf([]) == map[];
    assert Column(none, ClauseTypeOf) == Column(none, ContractTypeOf) == [];
    assert Column(none, IndustryOf) == Column(none, CounterpartyOf) == [];
    assert Quality(none) == [];
  }

  method Summarize(clauses: seq<Clause>) returns (metadata: Metadata)
    ensures metadata == Describe(clauses)
  {
    var counters := CountAll(clauses);
    metadata := Metadata(|clauses|, |set i | 0 <= i < |clauses| :: clauses[i].sourceDocumentId|,
                         counters.types, counters.contracts, counters.industries, counters.counterparties,
                         if clauses == [] then 0.0 else Round(counters.quality / |clauses| as real, Four));
  }

  method CountAll(clauses: seq<Clause>) returns (counters: Counters)
    ensures counters == CountersOf(clauses)
  {
    hide CountersOf, Bump;
    counters := Counters(map[], map[], map[], map[], 0.0);
    NothingCounted();
    for i := 0 to |clauses|
      invariant counters == CountersOf(clauses[..i])
    {
      CountersStep(clauses[..i], clauses[i]);
      assert clauses[..i + 1] == clauses[..i] + [clauses[i]];
      counters := Counters(
        Bump(counters.types, clauses[i].clauseType), Bump(counters.contracts, clauses[i].contractType),
        Bump(counters.industries, clauses[i].industry), Bump(counters.counterparties, clauses[i].counterpartyType),
        counters.quality + clauses[i].qualityScore);
    }
    assert clauses[..|clauses|] == clauses;
  }
}
