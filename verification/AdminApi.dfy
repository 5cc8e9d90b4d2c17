/** admin_api.py: refreshing one segment, and every stale one. */
module AdminApi {
  import opened Freshness

  datatype RefreshResult =
    | NotFound(segmentKey: string)
    | Refreshed(segmentKey: string, previousStatus: Status, newStatus: Status, refreshedAt: int)

  class AdminApi {
    const tracker: FreshnessTracker

    constructor (tracker: FreshnessTracker)
      ensures this.tracker == tracker
    {
      this.tracker := tracker;
    }

    /** This segment alone gets an update time read during the call, and shows
        the status it has by then; the status it had before is reported. */
    method TriggerRefresh(segmentKey: string) returns (result: RefreshResult)
      requires tracker.Valid()
      modifies tracker, tracker.clock, tracker.At(segmentKey)
      ensures tracker.Valid() && old(tracker.clock.now) <= tracker.clock.now && tracker.keys == old(tracker.keys)
      ensures segmentKey !in old(tracker.segments) ==>
        result == NotFound(segmentKey) && tracker.segments == old(tracker.segments)
      ensures segmentKey in old(tracker.segments) ==>
        && RefreshedIn(tracker, old(tracker.segments[segmentKey]), result, old(tracker.clock.now))
        && WasStatus(result.previousStatus, old(tracker.segments[segmentKey]),
                     old(tracker.clock.now), tracker.clock.now)
        && fresh(tracker.segments[segmentKey])
        && tracker.segments == old(tracker.segments)[segmentKey := tracker.segments[segmentKey]]
      ensures result.Refreshed? && tracker.clock.now - old(tracker.clock.now) < GREEN_THRESHOLD_DAYS * DAY ==>
        result.newStatus == Green
    {
      var freshness := tracker.GetStatus(segmentKey);
      if freshness == null {
        return NotFound(segmentKey);
      }
      ghost var seen := tracker.clock.now;
      var now := tracker.clock.UtcNow();
      var updated := tracker.UpdateSegment(
        segmentKey, freshness.clauseType, now, freshness.clauseCount, freshness.description);
      ghost var shown := tracker.clock.now;
      var at := tracker.clock.UtcNow();
      assert freshness.status == StatusAt(seen, freshness.lastUpdated);
      assert updated.Shows(shown);
      result := Refreshed(segmentKey, freshness.status, updated.status, at);
    }

    /** Every segment that one pass finds stale is refreshed and reported, in
        order, and no other; none that is stale when the call begins is left
        out. In a call of less than thirty days, everything ends green. */
    method TriggerAllRefresh() returns (results: seq<RefreshResult>, ghost reading: seq<int>)
      requires tracker.Valid()
      modifies tracker, tracker.clock, tracker.segments.Values
      ensures tracker.Valid() && old(tracker.clock.now) <= tracker.clock.now && tracker.keys == old(tracker.keys)
      ensures tracker.Between(reading, old(tracker.clock.now), tracker.clock.now)
      ensures var stale := Picked(old(tracker.Entries()), reading, STALE);
        && |results| == |stale|
        && (forall q :: 0 <= q < |stale| ==>
          && RefreshedIn(tracker, stale[q], results[q], old(tracker.clock.now))
          && Reports(results[q], stale[q], old(tracker.clock.now), tracker.clock.now))
        && forall k :: k in old(tracker.segments) && !Listed(stale, k) ==>
          k in tracker.segments && tracker.segments[k] == old(tracker.segments)[k]
      ensures forall k ::
        && k in old(tracker.segments)
        && StatusAt(old(tracker.clock.now), old(tracker.segments)[k].lastUpdated) != Green ==>
          exists q :: 0 <= q < |results| && results[q].segmentKey == k
      ensures tracker.clock.now - old(tracker.clock.now) < GREEN_THRESHOLD_DAYS * DAY ==>
        && (forall q :: 0 <= q < |results| ==> results[q].Refreshed? && results[q].newStatus == Green)
        && forall k :: k in tracker.segments ==> tracker.segments[k].status == Green
    {
      hide StatusAt, WasStatus, Picked, ShowsBy, Listed;
      ghost var start, all, before := tracker.clock.now, tracker.Entries(), tracker.segments;
      var stale;
      stale, reading := tracker.GetStaleSegments();
      StaleNow(tracker, stale, reading);
      ghost var found := tracker.clock.now;
      assert forall i :: 0 <= i < |all| ==> all[i].Shows(reading[i]);
      results := RefreshEach(stale);
      ReportsWiden(results, stale, start, found, tracker.clock.now, tracker.clock.now);
      StaleIsReported(before, tracker.keys, reading, start, results);
      if tracker.clock.now - start < GREEN_THRESHOLD_DAYS * DAY {
        forall i | 0 <= i < |all| && !Listed(stale, all[i].segmentKey)
          ensures tracker.segments[all[i].segmentKey] == all[i] && all[i].Shows(reading[i])
        {
          NotListed(stale, all[i]);
        }
        EndsGreen(tracker, all, stale, results, reading, start);
      }
    }

    /** The loop over the stale segments. */
    method RefreshEach(stale: seq<SegmentFreshness>) returns (results: seq<RefreshResult>)
      requires tracker.Valid() && InTracker(tracker, stale)
      requires forall q :: 0 <= q < |stale| ==> StatusAt(tracker.clock.now, stale[q].lastUpdated) != Green
      requires forall p, q :: 0 <= p < q < |stale| ==> stale[p].segmentKey != stale[q].segmentKey
      modifies tracker, tracker.clock, stale
      ensures tracker.Valid() && old(tracker.clock.now) <= tracker.clock.now && tracker.keys == old(tracker.keys)
      ensures |results| == |stale|
      ensures forall q :: 0 <= q < |stale| ==>
        && RefreshedIn(tracker, stale[q], results[q], old(tracker.clock.now))
        && Reports(results[q], stale[q], old(tracker.clock.now), tracker.clock.now)
      ensures forall k :: k in old(tracker.segments) && !Listed(stale, k) ==>
        k in tracker.segments && tracker.segments[k] == old(tracker.segments)[k]
    {
      hide StatusAt, Listed, Reports, WasStatus, FreshnessTracker.Valid, SameData, SegmentFreshness.Shows;
      results := [];
      for j := 0 to |stale|
        invariant tracker.Valid() && old(tracker.clock.now) <= tracker.clock.now && tracker.keys == old(tracker.keys)
        invariant |results| == j
        invariant forall q :: 0 <= q < j ==>
          && RefreshedIn(tracker, stale[q], results[q], old(tracker.clock.now))
          && fresh(tracker.segments[stale[q].segmentKey])
          && Reports(results[q], stale[q], old(tracker.clock.now), tracker.clock.now)
        invariant forall k :: k in old(tracker.segments) && !Listed(stale[..j], k) ==>
          k in tracker.segments && tracker.segments[k] == old(tracker.segments)[k]
      {
        ghost var before := tracker.clock.now;
        NotYet(stale, j);
        var result := TriggerRefresh(stale[j].segmentKey);
        StillStale(stale[j], result, old(tracker.clock.now), before, tracker.clock.now);
        ReportsWiden(results, stale, old(tracker.clock.now), old(tracker.clock.now), before, tracker.clock.now);
        ListedMore(stale, j);
        results := results + [result];
      }
      assert stale[..|stale|] == stale;
    }
  }

  ghost predicate Listed(stale: seq<SegmentFreshness>, segmentKey: string) {
    exists q :: 0 <= q < |stale| && stale[q].segmentKey == segmentKey
  }

  lemma NotYet(stale: seq<SegmentFreshness>, j: nat)
    requires j < |stale| && forall p, q :: 0 <= p < q < |stale| ==> stale[p].segmentKey != stale[q].segmentKey
    ensures !Listed(stale[..j], stale[j].segmentKey)
  {
  }

  lemma ListedMore(stale: seq<SegmentFreshness>, j: nat)
    requires j < |stale|
    ensures forall k :: Listed(stale[..j + 1], k) <==> Listed(stale[..j], k) || k == stale[j].segmentKey
  {
    assert stale[..j + 1] == stale[..j] + [stale[j]];
    forall k
      ensures Listed(stale[..j + 1], k) <==> Listed(stale[..j], k) || k == stale[j].segmentKey
    {
      if Listed(stale[..j], k) {
        var q :| 0 <= q < j && stale[..j][q].segmentKey == k;
        assert stale[..j + 1][q].segmentKey == k;
      }
      assert stale[..j + 1][j].segmentKey == stale[j].segmentKey;
    }
  }

  ghost predicate InTracker(tracker: FreshnessTracker, stale: seq<SegmentFreshness>)
    reads tracker
  {
    forall q :: 0 <= q < |stale| ==>
      stale[q].segmentKey in tracker.segments && tracker.segments[stale[q].segmentKey] == stale[q]
  }

  /** A successful report on a segment that was not green. */
  ghost predicate Reports(result: RefreshResult, f: SegmentFreshness, low: int, high: int) {
    && result.Refreshed? && result.segmentKey == f.segmentKey && result.previousStatus != Green
    && WasStatus(result.previousStatus, f, low, high)
  }

  /** What was stale when it was found is stale at every later moment. */
  lemma StillStale(f: SegmentFreshness, result: RefreshResult, since: int, low: int, high: int)
    requires since <= low && StatusAt(since, f.lastUpdated) != Green
    requires result.Refreshed? && result.segmentKey == f.segmentKey && WasStatus(result.previousStatus, f, low, high)
    ensures Reports(result, f, since, high)
  {
    var t :| low <= t <= high && result.previousStatus == StatusAt(t, f.lastUpdated);
    StatusWorsens(since, t, f.lastUpdated);
  }

  lemma ReportsWiden(results: seq<RefreshResult>, stale: seq<SegmentFreshness>, earlier: int, low: int, high: int,
                     later: int)
    requires |results| <= |stale| && earlier <= low && high <= later
    requires forall q :: 0 <= q < |results| ==> Reports(results[q], stale[q], low, high)
    ensures forall q :: 0 <= q < |results| ==> Reports(results[q], stale[q], earlier, later)
  {
  }

  lemma StaleNow(tracker: FreshnessTracker, stale: seq<SegmentFreshness>, reading: seq<int>)
    requires tracker.Valid() && |reading| == |tracker.keys|
    requires forall i :: 0 <= i < |reading| ==> reading[i] <= tracker.clock.now
    requires stale == Picked(tracker.Entries(), reading, STALE)
    ensures InTracker(tracker, stale)
    ensures forall q :: 0 <= q < |stale| ==> StatusAt(tracker.clock.now, stale[q].lastUpdated) != Green
    ensures forall p, q :: 0 <= p < q < |stale| ==> stale[p].segmentKey != stale[q].segmentKey
  {
    hide Picked, StatusAt;
    var all := tracker.Entries();
    PickedAreWanted(all, reading, STALE);
    forall q | 0 <= q < |stale|
      ensures StatusAt(tracker.clock.now, stale[q].lastUpdated) != Green && stale[q] in all
    {
      assert stale[q] in stale;
      var i :| 0 <= i < |all| && all[i] == stale[q];
      StatusWorsens(reading[i], tracker.clock.now, stale[q].lastUpdated);
    }
  }

  /** Whatever is stale when the call begins is among the segments it picks. */
  lemma StaleAtStartIsPicked(all: seq<SegmentFreshness>, reading: seq<int>, start: int, i: nat)
    requires |reading| == |all| && i < |all| && start <= reading[i]
    requires forall p, q :: 0 <= p < q < |all| ==> all[p].segmentKey != all[q].segmentKey
    requires StatusAt(start, all[i].lastUpdated) != Green
    ensures all[i] in Picked(all, reading, STALE)
  {
    PickedAreWanted(all, reading, STALE);
    StatusWorsens(start, reading[i], all[i].lastUpdated);
  }

  lemma StaleIsReported(segments: map<string, SegmentFreshness>, keys: seq<string>, reading: seq<int>, start: int,
                        results: seq<RefreshResult>)
    requires |reading| == |keys| && forall i :: 0 <= i < |keys| ==> start <= reading[i]
    requires forall k :: k in segments <==> k in keys
    requires forall p, q :: 0 <= p < q < |keys| ==> keys[p] != keys[q]
    requires forall k :: k in segments ==> segments[k].segmentKey == k
    requires var stale := Picked(EntriesOf(segments, keys), reading, STALE);
      |results| == |stale| && forall q :: 0 <= q < |stale| ==> results[q].segmentKey == stale[q].segmentKey
    ensures forall k :: k in segments && StatusAt(start, segments[k].lastUpdated) != Green ==>
      exists q :: 0 <= q < |results| && results[q].segmentKey == k
  {
    hide StatusAt, Picked;
    var all := EntriesOf(segments, keys);
    forall k | k in segments && StatusAt(start, segments[k].lastUpdated) != Green
      ensures exists q :: 0 <= q < |results| && results[q].segmentKey == k
    {
      var i :| 0 <= i < |keys| && keys[i] == k;
      assert all[i] == segments[k];
      StaleAtStartIsPicked(all, reading, start, i);
      var q :| 0 <= q < |results| && Picked(all, reading, STALE)[q] == all[i];
      assert results[q].segmentKey == k;
    }
  }

  /** Less than thirty days after the call began, a refreshed segment shows
      green, and so does the report on it. */
  lemma RefreshedIsGreen(tracker: FreshnessTracker, f: SegmentFreshness, result: RefreshResult, since: int)
    requires RefreshedIn(tracker, f, result, since) && tracker.clock.now - since < GREEN_THRESHOLD_DAYS * DAY
    ensures result.newStatus == Green && tracker.segments[f.segmentKey].status == Green
  {
    var g := tracker.segments[f.segmentKey];
    var t :| g.lastUpdated <= t <= tracker.clock.now && g.Shows(t);
    StaysGreen(t, g.lastUpdated);
  }

  lemma EndsGreen(tracker: FreshnessTracker, all: seq<SegmentFreshness>, stale: seq<SegmentFreshness>,
                  results: seq<RefreshResult>, reading: seq<int>, since: int)
    requires tracker.Valid() && |all| == |reading| == |tracker.keys|
    requires stale == Picked(all, reading, STALE) && |results| == |stale|
    requires tracker.clock.now - since < GREEN_THRESHOLD_DAYS * DAY
    requires forall p, q :: 0 <= p < q < |all| ==> all[p].segmentKey != all[q].segmentKey
    requires forall i :: 0 <= i < |all| ==> all[i].segmentKey == tracker.keys[i]
    requires forall q :: 0 <= q < |stale| ==> RefreshedIn(tracker, stale[q], results[q], since)
    requires forall i :: 0 <= i < |all| && !Listed(stale, all[i].segmentKey) ==>
      tracker.segments[all[i].segmentKey] == all[i] && all[i].Shows(reading[i])
    ensures forall q :: 0 <= q < |results| ==> results[q].Refreshed? && results[q].newStatus == Green
    ensures forall k :: k in tracker.segments ==> tracker.segments[k].status == Green
  {
    hide Picked, StatusAt, RefreshedIn;
    forall q | 0 <= q < |stale|
      ensures results[q].Refreshed? && results[q].newStatus == Green && stale[q].segmentKey in tracker.segments
      ensures tracker.segments[stale[q].segmentKey].status == Green
    {
      RefreshedIsReported(tracker, stale[q], results[q], since);
      RefreshedIsGreen(tracker, stale[q], results[q], since);
    }
    PickedAreWanted(all, reading, STALE);
    forall k | k in tracker.segments
      ensures tracker.segments[k].status == Green
    {
      var i :| 0 <= i < |tracker.keys| && tracker.keys[i] == k;
      if Listed(stale, k) {
        var q :| 0 <= q < |stale| && stale[q].segmentKey == k;
      } else {
        NotListed(stale, all[i]);
      }
    }
  }

  lemma RefreshedIsReported(tracker: FreshnessTracker, f: SegmentFreshness, result: RefreshResult, since: int)
    requires RefreshedIn(tracker, f, result, since)
    ensures result.Refreshed? && f.segmentKey in tracker.segments
  {
  }

  lemma NotListed(stale: seq<SegmentFreshness>, f: SegmentFreshness)
    requires !Listed(stale, f.segmentKey)
    ensures f !in stale
  {
  }

  /** The status the segment shows at some moment of the interval. */
  ghost predicate WasStatus(status: Status, f: SegmentFreshness, low: int, high: int) {
    exists t :: low <= t <= high && status == StatusAt(t, f.lastUpdated)
  }

  /** The segment has an update time read since then and a status computed since
      then, which the report carries with a moment since; its other data are as
      before. */
  ghost predicate RefreshedIn(tracker: FreshnessTracker, f: SegmentFreshness, result: RefreshResult, since: int)
    reads tracker, tracker.clock, tracker.At(f.segmentKey)
  {
    && f.segmentKey in tracker.segments
    && since <= tracker.segments[f.segmentKey].lastUpdated
    && ShowsBy(tracker.segments[f.segmentKey], tracker.clock.now)
    && SameData(tracker.segments[f.segmentKey], f)
    && result.Refreshed? && result.segmentKey == f.segmentKey
    && result.newStatus == tracker.segments[f.segmentKey].status
    && tracker.segments[f.segmentKey].lastUpdated <= result.refreshedAt <= tracker.clock.now
  }

  /** It shows the status of some moment since its update. */
  ghost predicate ShowsBy(f: SegmentFreshness, now: int)
    reads f
  {
    exists t :: f.lastUpdated <= t <= now && f.Shows(t)
  }

  predicate SameData(f: SegmentFreshness, g: SegmentFreshness) {
    && f.segmentKey == g.segmentKey && f.clauseType == g.clauseType
    && f.clauseCount == g.clauseCount && f.description == g.description
  }
}
