/** contract_type_classifier.py, counterparty_detector.py and
    industry_classifier.py: three scoring schemes over match counts, one way to
    pick a winner, and the distribution that goes with it. */
module KeywordClassifiers {
  import opened Prelude
  import opened Fractions
  import opened Rounding

  /** One row of a signal table, with what was found in the text: how often each
      keyword occurs, and which patterns match. */
  datatype Signals = Signals(kind: string, weight: real, counts: seq<nat>, hits: seq<bool>)

  datatype Scheme = Contract | Counterparty | Industry

  function KeywordPoints(scheme: Scheme, s: Signals): real {
    match scheme
    case Contract => s.weight
    case Counterparty => 0.5
    case Industry => 1.0
  }

  /** The industry table has no patterns. */
  function PatternPoints(scheme: Scheme, s: Signals): real {
    match scheme
    case Contract => 3.0 * s.weight
    case Counterparty => 3.0
    case Industry => 0.0
  }

  function KeywordSum(counts: seq<nat>, points: real): real {
    if counts == [] then 0.0 else KeywordSum(counts[..|counts| - 1], points) + counts[|counts| - 1] as real * points
  }

  function PatternSum(hits: seq<bool>, points: real): real {
    if hits == [] then 0.0 else PatternSum(hits[..|hits| - 1], points) + if hits[|hits| - 1] then points else 0.0
  }

  function Score(scheme: Scheme, s: Signals): real {
    KeywordSum(s.counts, KeywordPoints(scheme, s)) + PatternSum(s.hits, PatternPoints(scheme, s))
  }

  datatype Scored = Scored(kind: string, score: real)

  function Scores(scheme: Scheme, table: seq<Signals>): seq<Scored> {
    seq(|table|, i requires 0 <= i < |table| => Scored(table[i].kind, Score(scheme, table[i])))
  }

  /** The entries that are stored in the dictionary of positive scores. */
  function Positive(ss: seq<Scored>): seq<Scored> {
    if ss == [] then []
    else Positive(ss[..|ss| - 1]) + if ss[|ss| - 1].score > 0.0 then [ss[|ss| - 1]] else []
  }

  function TotalScore(ss: seq<Scored>): real {
    if ss == [] then 0.0 else TotalScore(ss[..|ss| - 1]) + ss[|ss| - 1].score
  }

  // ----- scores

  ghost predicate PositiveWeights(table: seq<Signals>) {
    forall i :: 0 <= i < |table| ==> table[i].weight > 0.0
  }

  /** Something in the text speaks for this row. */
  ghost predicate Matches(scheme: Scheme, s: Signals) {
    || (exists i :: 0 <= i < |s.counts| && s.counts[i] > 0)
    || (scheme != Industry && exists i :: 0 <= i < |s.hits| && s.hits[i])
  }

  lemma Points(count: nat, points: real)
    requires points > 0.0
    ensures count as real * points >= 0.0
    ensures count > 0 ==> count as real * points >= points
  {
    Product(0.0, count as real, points);
    if count > 0 {
      Product(1.0, count as real, points);
    }
  }

  lemma {:induction false} KeywordSumSign(counts: seq<nat>, points: real)
    requires points > 0.0
    ensures KeywordSum(counts, points) >= 0.0
    ensures KeywordSum(counts, points) > 0.0 <==> exists i :: 0 <= i < |counts| && counts[i] > 0
  {
    if counts != [] {
      var front, last := counts[..|counts| - 1], counts[|counts| - 1];
      KeywordSumSign(front, points);
      Points(last, points);
      if KeywordSum(front, points) > 0.0 {
        var i :| 0 <= i < |front| && front[i] > 0;
        assert counts[i] > 0;
      }
      if exists i :: 0 <= i < |counts| && counts[i] > 0 {
        var i :| 0 <= i < |counts| && counts[i] > 0;
        assert i < |front| ==> front[i] > 0;
      }
      if last == 0 {
        assert last as real * points == 0.0 * points;
      }
    }
  }

  lemma {:induction false} PatternSumSign(hits: seq<bool>, points: real)
    requires points >= 0.0
    ensures PatternSum(hits, points) >= 0.0
    ensures PatternSum(hits, points) > 0.0 <==> points > 0.0 && exists i :: 0 <= i < |hits| && hits[i]
  {
    if hits != [] {
      var front := hits[..|hits| - 1];
      PatternSumSign(front, points);
      if PatternSum(front, points) > 0.0 {
        var i :| 0 <= i < |front| && front[i];
        assert hits[i];
      }
      if exists i :: 0 <= i < |hits| && hits[i] {
        var i :| 0 <= i < |hits| && hits[i];
        assert i < |front| ==> front[i];
      }
    }
  }

  /** A row scores exactly when something matches. */
  lemma ScoresIffMatches(scheme: Scheme, s: Signals)
    requires s.weight > 0.0
    ensures Score(scheme, s) >= 0.0
    ensures Score(scheme, s) > 0.0 <==> Matches(scheme, s)
  {
    KeywordSumSign(s.counts, KeywordPoints(scheme, s));
    PatternSumSign(s.hits, PatternPoints(scheme, s));
  }

  ghost predicate NonNegative(ss: seq<Scored>) {
    forall i :: 0 <= i < |ss| ==> ss[i].score >= 0.0
  }

  lemma {:induction false} PositiveKeepsTotal(ss: seq<Scored>)
    requires NonNegative(ss)
    ensures TotalScore(Positive(ss)) == TotalScore(ss)
  {
    if ss != [] {
      hide TotalScore, Positive;
      var front, last := ss[..|ss| - 1], ss[|ss| - 1];
      PositiveKeepsTotal(front);
      PositiveSnoc(front, last);
      assert ss == front + [last];
    }
  }

  lemma PositiveSnoc(front: seq<Scored>, last: Scored)
    requires last.score >= 0.0
    ensures TotalScore(front + [last]) == TotalScore(front) + last.score
    ensures TotalScore(Positive(front + [last])) == TotalScore(Positive(front)) + last.score
  {
    assert (front + [last])[..|front|] == front;
    if last.score > 0.0 {
      assert (Positive(front) + [last])[..|Positive(front)|] == Positive(front);
    } else {
      assert Positive(front) + [] == Positive(front);
    }
  }

  lemma {:induction false} PositiveMembers(ss: seq<Scored>)
    ensures forall s :: s in Positive(ss) <==> s in ss && s.score > 0.0
  {
    if ss != [] {
      PositiveMembers(ss[..|ss| - 1]);
      assert ss == ss[..|ss| - 1] + [ss[|ss| - 1]];
    }
  }

  lemma {:induction false} TotalBounds(ss: seq<Scored>)
    requires NonNegative(ss)
    ensures TotalScore(ss) >= 0.0
    ensures forall i :: 0 <= i < |ss| ==> ss[i].score <= TotalScore(ss)
  {
    if ss != [] {
      TotalBounds(ss[..|ss| - 1]);
    }
  }

  function Occurrences(counts: seq<nat>): nat {
    if counts == [] then 0 else Occurrences(counts[..|counts| - 1]) + counts[|counts| - 1]
  }

  ghost function Hits(hits: seq<bool>): set<nat> {
    set i: nat | i < |hits| && hits[i]
  }

  lemma {:induction false} KeywordSumIs(counts: seq<nat>, points: real)
    ensures KeywordSum(counts, points) == Occurrences(counts) as real * points
  {
    if counts != [] {
      var n := |counts| - 1;
      KeywordSumIs(counts[..n], points);
      var k, last := Occurrences(counts[..n]), counts[n];
      assert (k + last) as real * points == k as real * points + last as real * points;
    }
  }

  lemma HitsStep(hits: seq<bool>)
    requires hits != []
    ensures |Hits(hits)| == |Hits(hits[..|hits| - 1])| + if hits[|hits| - 1] then 1 else 0
  {
    var n := |hits| - 1;
    if hits[n] {
      assert Hits(hits) == Hits(hits[..n]) + {n};
    } else {
      assert Hits(hits) == Hits(hits[..n]);
    }
  }

  lemma {:induction false} PatternSumIs(hits: seq<bool>, points: real)
    ensures PatternSum(hits, points) == |Hits(hits)| as real * points
  {
    if hits == [] {
      assert Hits(hits) == {};
    } else {
      var n := |hits| - 1;
      PatternSumIs(hits[..n], points);
      HitsStep(hits);
      hide Hits;
      if hits[n] {
        var k := |Hits(hits[..n])|;
        assert (k + 1) as real * points == k as real * points + points;
      }
    }
  }

  /** A pattern counts for three keywords of the same contract type, for six of a
      counterparty, and for nothing in an industry. */
  lemma ScoreIs(s: Signals)
    ensures var keywords, patterns := Occurrences(s.counts) as real, |Hits(s.hits)| as real;
      && Score(Contract, s) == (keywords + 3.0 * patterns) * s.weight
      && Score(Counterparty, s) == (keywords + 6.0 * patterns) * 0.5
      && Score(Industry, s) == keywords
  {
    KeywordSumIs(s.counts, s.weight);
    KeywordSumIs(s.counts, 0.5);
    KeywordSumIs(s.counts, 1.0);
    PatternSumIs(s.hits, 3.0 * s.weight);
    PatternSumIs(s.hits, 3.0);
    PatternSumIs(s.hits, 0.0);
    var p := |Hits(s.hits)| as real;
    assert p * (3.0 * s.weight) == 3.0 * p * s.weight;
  }

  // ----- picking the winner

  datatype Choice = Choice(kind: string, confidence: real)

  function Cap(scheme: Scheme): real {
    if scheme == Industry then 0.9 else 0.95
  }

  function Default(scheme: Scheme): Choice {
    match scheme
    case Contract => Choice("other", 0.2)
    case Counterparty => Choice("enterprise", 0.3)
    case Industry => Choice("technology", 0.3)
  }

  /** Python's max: the first of the largest. */
  ghost predicate FirstLargest(ss: seq<Scored>, i: nat) {
    && i < |ss|
    && (forall j :: 0 <= j < |ss| ==> ss[j].score <= ss[i].score)
    && forall j :: 0 <= j < i ==> ss[j].score < ss[i].score
  }

  function Confidence(scheme: Scheme, best: real, total: real): real {
    Round(Min(Cap(scheme), best / Max(1.0, total)), Four)
  }

  ghost predicate Chosen(scheme: Scheme, ss: seq<Scored>, blank: bool, c: Choice) {
    if blank then c == Choice(Default(scheme).kind, 0.0)
    else if Positive(ss) == [] then c == Default(scheme)
    else exists i: nat :: ChosenAt(scheme, Positive(ss), i, c)
  }

  ghost predicate ChosenAt(scheme: Scheme, ss: seq<Scored>, i: nat, c: Choice) {
    FirstLargest(ss, i) && c == Choice(ss[i].kind, Confidence(scheme, ss[i].score, TotalScore(ss)))
  }

  /** A winner that is not the default has a row in which something matches. */
  lemma WinnerMatches(scheme: Scheme, table: seq<Signals>, blank: bool, c: Choice)
    requires PositiveWeights(table) && Chosen(scheme, Scores(scheme, table), blank, c)
    ensures blank || Positive(Scores(scheme, table)) == []
      || exists i :: 0 <= i < |table| && table[i].kind == c.kind && Matches(scheme, table[i])
  {
    var ss := Scores(scheme, table);
    PositiveMembers(ss);
    if !blank && Positive(ss) != [] {
      var w: nat :| ChosenAt(scheme, Positive(ss), w, c);
      assert Positive(ss)[w] in Positive(ss);
      var i :| 0 <= i < |ss| && ss[i] == Positive(ss)[w];
      ScoresIffMatches(scheme, table[i]);
    }
  }

  lemma NoneScoresIffNoneMatches(scheme: Scheme, table: seq<Signals>)
    requires PositiveWeights(table)
    ensures Positive(Scores(scheme, table)) == [] <==> forall i :: 0 <= i < |table| ==> !Matches(scheme, table[i])
  {
    var ss := Scores(scheme, table);
    PositiveMembers(ss);
    forall i | 0 <= i < |table|
      ensures Matches(scheme, table[i]) <==> ss[i] in Positive(ss)
    {
      ScoresIffMatches(scheme, table[i]);
    }
    if Positive(ss) != [] {
      assert Positive(ss)[0] in Positive(ss);
      var i :| 0 <= i < |ss| && ss[i] == Positive(ss)[0];
      assert Matches(scheme, table[i]);
    }
  }

  /** A kind whose row lists nothing to look for, like the last contract type,
      is only ever chosen by default: the text is blank or nothing matches. */
  lemma SilentKindIsDefault(scheme: Scheme, table: seq<Signals>, blank: bool, c: Choice)
    requires PositiveWeights(table) && Chosen(scheme, Scores(scheme, table), blank, c)
    requires forall i :: 0 <= i < |table| && table[i].kind == c.kind ==> table[i].counts == [] && table[i].hits == []
    ensures c == if blank then Choice(Default(scheme).kind, 0.0) else Default(scheme)
    ensures !blank ==> forall i :: 0 <= i < |table| ==> !Matches(scheme, table[i])
  {
    hide Positive, Scores;
    WinnerMatches(scheme, table, blank, c);
    NoneScoresIffNoneMatches(scheme, table);
  }

  /** Nothing found: the default kind with a low confidence, none for a blank text. */
  lemma DefaultsAre(scheme: Scheme, ss: seq<Scored>, blank: bool, c: Choice)
    requires Chosen(scheme, ss, blank, c) && (blank || forall s :: s in ss ==> s.score <= 0.0)
    ensures scheme == Contract ==> c == Choice("other", if blank then 0.0 else 0.2)
    ensures scheme == Counterparty ==> c == Choice("enterprise", if blank then 0.0 else 0.3)
    ensures scheme == Industry ==> c == Choice("technology", if blank then 0.0 else 0.3)
  {
    PositiveMembers(ss);
    if Positive(ss) != [] {
      assert Positive(ss)[0] in Positive(ss);
    }
  }

  /** Row i scores, no row scores more, and none before it as much. */
  ghost predicate FirstBest(ss: seq<Scored>, i: nat) {
    && i < |ss| && ss[i].score > 0.0
    && (forall j :: 0 <= j < |ss| ==> ss[j].score <= ss[i].score)
    && forall j :: 0 <= j < i ==> ss[j].score < ss[i].score
  }

  /** Among the rows that score, the first with the largest score is chosen. */
  lemma WinnerIsFirst(scheme: Scheme, ss: seq<Scored>, c: Choice)
    requires Chosen(scheme, ss, false, c) && exists s :: s in ss && s.score > 0.0
    ensures exists i: nat :: FirstBest(ss, i) && ss[i].kind == c.kind
  {
    PositiveMembers(ss);
    var w: nat :| ChosenAt(scheme, Positive(ss), w, c);
    var at := PositiveAt(ss);
    assert Positive(ss)[w] in Positive(ss);
    PlacedFirst(ss, Positive(ss), at, w);
    assert ss[at[w]].kind == c.kind;
  }

  /** The rows that score, and where they stand. */
  ghost predicate Placed(ss: seq<Scored>, scored: seq<Scored>, at: seq<nat>) {
    && |at| == |scored| && (forall v, w :: 0 <= v < w < |at| ==> at[v] < at[w])
    && (forall v :: 0 <= v < |at| ==> at[v] < |ss| && ss[at[v]] == scored[v])
    && forall j: nat :: j < |ss| && ss[j].score > 0.0 ==> j in at
  }

  lemma PlacedFirst(ss: seq<Scored>, scored: seq<Scored>, at: seq<nat>, w: nat)
    requires Placed(ss, scored, at) && FirstLargest(scored, w) && scored[w].score > 0.0
    ensures FirstBest(ss, at[w]) && ss[at[w]] == scored[w]
  {
    forall j: nat | j < |ss| && ss[j].score > 0.0
      ensures ss[j].score <= scored[w].score && (j < at[w] ==> ss[j].score < scored[w].score)
    {
      var v :| 0 <= v < |at| && at[v] == j;
    }
  }

  lemma {:induction false} PositiveAt(ss: seq<Scored>) returns (at: seq<nat>)
    ensures Placed(ss, Positive(ss), at)
  {
    hide Placed;
    at := [];
    if ss == [] {
      NothingPlaced();
    } else {
      var n := |ss| - 1;
      at := PositiveAt(ss[..n]);
      PlacedStep(ss, Positive(ss[..n]), at);
      if ss[n].score > 0.0 {
        at := at + [n];
      } else {
        assert Positive(ss[..n]) + [] == Positive(ss[..n]);
      }
    }
  }

  lemma NothingPlaced()
    ensures Placed([], [], [])
  {
  }

  lemma PlacedStep(ss: seq<Scored>, scored: seq<Scored>, at: seq<nat>)
    requires ss != [] && Placed(ss[..|ss| - 1], scored, at)
    ensures var n := |ss| - 1;
      if ss[n].score > 0.0 then Placed(ss, scored + [ss[n]], at + [n]) else Placed(ss, scored, at)
  {
    var n := |ss| - 1;
    assert forall j: nat :: j < n ==> ss[..n][j] == ss[j];
    if ss[n].score > 0.0 {
      assert forall j: nat :: j in at ==> j in at + [n];
      assert (at + [n])[|at|] == n;
    }
  }

  /** The confidence is the winner's share of the total, or of one if the total is
      less, up to 0.95, and up to 0.9 for an industry; rounded. */
  lemma ConfidenceIs(scheme: Scheme, best: real, total: real)
    ensures var share := if total < 1.0 then best else best / total;
      var cap := if scheme == Industry then 0.9 else 0.95;
      if share >= cap then Confidence(scheme, best, total) == cap
      else share - 0.00005 <= Confidence(scheme, best, total) <= share + 0.00005
  {
    RoundFixes(9000, Four);
    RoundFixes(9500, Four);
    assert 9000 as real * Step(Four) == 0.9 && 9500 as real * Step(Four) == 0.95;
    RoundError(Min(Cap(scheme), best / Max(1.0, total)), Four);
    hide Round;
  }

  method ScoreRow(scheme: Scheme, s: Signals) returns (score: real)
    ensures score == Score(scheme, s)
  {
    score := 0.0;
    for i := 0 to |s.counts|
      invariant score == KeywordSum(s.counts[..i], KeywordPoints(scheme, s))
    {
      assert s.counts[..i + 1][..i] == s.counts[..i];
      score := score + s.counts[i] as real * KeywordPoints(scheme, s);
    }
    assert s.counts[..|s.counts|] == s.counts;
    ghost var keywords := score;
    for i := 0 to |s.hits|
      invariant score == keywords + PatternSum(s.hits[..i], PatternPoints(scheme, s))
    {
      assert s.hits[..i + 1][..i] == s.hits[..i];
      if s.hits[i] {
        score := score + PatternPoints(scheme, s);
      }
    }
    assert s.hits[..|s.hits|] == s.hits;
  }

  method Classify(scheme: Scheme, table: seq<Signals>, blank: bool) returns (c: Choice)
    ensures Chosen(scheme, Scores(scheme, table), blank, c)
  {
    if blank {
      return Choice(Default(scheme).kind, 0.0);
    }
    var scores: seq<Scored> := [];
    ghost var all := Scores(scheme, table);
    for i := 0 to |table|
      invariant scores == Positive(all[..i])
    {
      var score := ScoreRow(scheme, table[i]);
      assert all[..i + 1][..i] == all[..i];
      if score > 0.0 {
        scores := scores + [Scored(table[i].kind, score)];
      }
    }
    assert all[..|table|] == all;
    if scores == [] {
      return Default(scheme);
    }
    var best, total := Largest(scores);
    c := Choice(scores[best].kind, Confidence(scheme, scores[best].score, total));
    assert ChosenAt(scheme, scores, best, c);
  }

  method Largest(ss: seq<Scored>) returns (best: nat, total: real)
    requires ss != []
    ensures FirstLargest(ss, best) && total == TotalScore(ss)
  {
    best, total := 0, ss[0].score;
    assert ss[..1][..0] == [];
    for i := 1 to |ss|
      invariant FirstLargest(ss[..i], best) && total == TotalScore(ss[..i])
    {
      assert ss[..i + 1][..i] == ss[..i];
      total := total + ss[i].score;
      if ss[i].score > ss[best].score {
        best := i;
      }
    }
    assert ss[..|ss|] == ss;
  }

  // ----- the distribution

  function Share(score: real, total: real): real
    requires total > 0.0
  {
    Round(score / total, Four)
  }

  function Shares(ss: seq<Scored>, total: real): seq<Scored>
    requires total > 0.0
  {
    seq(|ss|, i requires 0 <= i < |ss| => Scored(ss[i].kind, Share(ss[i].score, total)))
  }

  /** Contract types and counterparties list every kind, industries only those
      that scored; without any score every kind gets the same number. */
  function Distribution(scheme: Scheme, ss: seq<Scored>, kinds: seq<string>): seq<Scored> {
    var total := TotalScore(ss);
    if total > 0.0 then Shares(if scheme == Industry then Positive(ss) else ss, total)
    else
      var share := if scheme == Industry || kinds == [] then 0.0 else 1.0 / |kinds| as real;
      seq(|kinds|, i requires 0 <= i < |kinds| => Scored(kinds[i], share))
  }

  /** With a score, one entry for each row, for industries each scored row, with
      its share of the total; without, one for each kind, all the same. */
  lemma DistributionIs(scheme: Scheme, ss: seq<Scored>, kinds: seq<string>)
    ensures var dist, rows := Distribution(scheme, ss, kinds), if scheme == Industry then Positive(ss) else ss;
      if TotalScore(ss) > 0.0 then
        && |dist| == |rows|
        && forall i :: 0 <= i < |dist| ==>
          && dist[i].kind == rows[i].kind
          && rows[i].score / TotalScore(ss) - 0.00005 <= dist[i].score <= rows[i].score / TotalScore(ss) + 0.00005
      else
        && |dist| == |kinds|
        && forall i :: 0 <= i < |dist| ==>
          && dist[i].kind == kinds[i]
          && dist[i].score * |kinds| as real == if scheme == Industry then 0.0 else 1.0
  {
    var rows := if scheme == Industry then Positive(ss) else ss;
    hide Round, Positive, TotalScore;
    if TotalScore(ss) > 0.0 {
      forall i | 0 <= i < |rows|
        ensures rows[i].score / TotalScore(ss) - 0.00005 <= Share(rows[i].score, TotalScore(ss))
        ensures Share(rows[i].score, TotalScore(ss)) <= rows[i].score / TotalScore(ss) + 0.00005
      {
        RoundError(rows[i].score / TotalScore(ss), Four);
      }
    } else if kinds != [] {
      OneOver(|kinds|);
    }
  }

  lemma OneOver(n: nat)
    requires n > 0
    ensures 1.0 / n as real * n as real == 1.0
  {
  }

  lemma {:induction false} SharesSum(ss: seq<Scored>, total: real)
    requires total > 0.0
    ensures TotalScore(ss) / total - |ss| as real * 0.00005 <= TotalScore(Shares(ss, total))
    ensures TotalScore(Shares(ss, total)) <= TotalScore(ss) / total + |ss| as real * 0.00005
  {
    hide Round;
    if ss == [] {
      assert 0.0 / total == 0.0;
    } else {
      var front, last := ss[..|ss| - 1], ss[|ss| - 1];
      SharesSum(front, total);
      assert Shares(ss, total)[..|ss| - 1] == Shares(front, total);
      RoundError(last.score / total, Four);
      QuotientAdds(TotalScore(front), last.score, total);
    }
  }

  lemma SharesSumToOne(ss: seq<Scored>, total: real)
    requires TotalScore(ss) == total > 0.0
    ensures 1.0 - |ss| as real * 0.00005 <= TotalScore(Shares(ss, total)) <= 1.0 + |ss| as real * 0.00005
    ensures |Shares(ss, total)| == |ss|
  {
    hide TotalScore;
    SharesSum(ss, total);
    QuotientAdds(total, 0.0, total);
  }

  lemma ShareGrows(x: real, y: real, total: real)
    requires x <= y && total > 0.0
    ensures Share(x, total) <= Share(y, total)
  {
    DivideMonotone(x, y, total);
    RoundMonotone(x / total, y / total, Four);
  }

  lemma ConfidenceBelowShare(scheme: Scheme, best: real, total: real)
    requires 0.0 <= best && 0.0 < total
    ensures Confidence(scheme, best, total) <= Share(best, total)
    ensures total >= 1.0 && best / total <= Cap(scheme) ==> Confidence(scheme, best, total) == Share(best, total)
  {
    Product(total, Max(1.0, total), best);
    CrossMultiply(best, Max(1.0, total), best, total);
    RoundMonotone(Min(Cap(scheme), best / Max(1.0, total)), best / total, Four);
  }

  /** Entry w has the winner's kind, the largest share, and at least the
      winner's confidence. */
  ghost predicate LeadsIn(dist: seq<Scored>, w: nat, c: Choice) {
    && w < |dist| && dist[w].kind == c.kind && c.confidence <= dist[w].score
    && forall j :: 0 <= j < |dist| ==> dist[j].score <= dist[w].score
  }

  /** The winner of a text in which something matches has a share that no other
      kind exceeds, and its confidence is at most that share; the shares of the
      k kinds listed add up to one within k half-steps of rounding. */
  lemma WinnerLeadsItsDistribution(scheme: Scheme, table: seq<Signals>, kinds: seq<string>, c: Choice)
    requires PositiveWeights(table)
    requires exists i :: 0 <= i < |table| && Matches(scheme, table[i])
    requires Chosen(scheme, Scores(scheme, table), false, c)
    ensures var dist := Distribution(scheme, Scores(scheme, table), kinds);
      1.0 - |dist| as real * 0.00005 <= TotalScore(dist) <= 1.0 + |dist| as real * 0.00005
    ensures exists w: nat :: LeadsIn(Distribution(scheme, Scores(scheme, table), kinds), w, c)
  {
    hide Score, Confidence, Matches, Round;
    var ss := Scores(scheme, table);
    ScoresNonNegative(scheme, table);
    PositiveKeepsTotal(ss);
    var total := TotalScore(ss);
    var listed := if scheme == Industry then Positive(ss) else ss;
    assert Distribution(scheme, ss, kinds) == Shares(listed, total);
    SharesSumToOne(listed, total);
    hide Shares, TotalScore, Chosen, Positive;
    WinnerListed(scheme, ss, listed, total, c);
  }

  lemma ScoresNonNegative(scheme: Scheme, table: seq<Signals>)
    requires PositiveWeights(table)
    ensures NonNegative(Scores(scheme, table))
    ensures (exists i :: 0 <= i < |table| && Matches(scheme, table[i])) ==>
      TotalScore(Scores(scheme, table)) > 0.0 && Positive(Scores(scheme, table)) != []
  {
    hide Score, Matches;
    var ss := Scores(scheme, table);
    forall i | 0 <= i < |table|
      ensures ss[i].score >= 0.0 && (Matches(scheme, table[i]) ==> ss[i].score > 0.0)
    {
      ScoresIffMatches(scheme, table[i]);
    }
    TotalBounds(ss);
    PositiveMembers(ss);
    if i :| 0 <= i < |table| && Matches(scheme, table[i]) {
      assert ss[i] in Positive(ss);
    }
  }

  lemma WinnerListed(scheme: Scheme, ss: seq<Scored>, listed: seq<Scored>, total: real, c: Choice)
    requires NonNegative(ss) && total == TotalScore(ss) > 0.0 && Positive(ss) != []
    requires listed == Positive(ss) || listed == ss
    requires Chosen(scheme, ss, false, c)
    ensures exists w: nat :: LeadsIn(Shares(listed, total), w, c)
  {
    hide Share, Confidence, TotalScore, Positive;
    PositiveKeepsTotal(ss);
    PositiveMembers(ss);
    var i: nat :| ChosenAt(scheme, Positive(ss), i, c);
    var winner := Positive(ss)[i];
    assert winner in Positive(ss) && winner in listed;
    var w: nat :| w < |listed| && listed[w] == winner;
    ConfidenceBelowShare(scheme, winner.score, total);
    forall j | 0 <= j < |listed|
      ensures Share(listed[j].score, total) <= Share(winner.score, total)
    {
      assert listed[j] in ss;
      LargestOverAll(ss, i, listed[j]);
      ShareGrows(listed[j].score, winner.score, total);
    }
    assert LeadsIn(Shares(listed, total), w, c);
  }

  lemma LargestOverAll(ss: seq<Scored>, i: nat, s: Scored)
    requires NonNegative(ss) && FirstLargest(Positive(ss), i) && s in ss
    ensures s.score <= Positive(ss)[i].score
  {
    PositiveMembers(ss);
    assert Positive(ss)[i] in Positive(ss);
    if s.score > 0.0 {
      var j :| 0 <= j < |Positive(ss)| && Positive(ss)[j] == s;
    }
  }
}
