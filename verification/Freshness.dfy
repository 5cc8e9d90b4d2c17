/** freshness.py over a clock that moves between readings. */
module Freshness {
  import opened Fractions
  import opened Rounding

  // microseconds
  const DAY := 86_400_000_000

  const GREEN_THRESHOLD_DAYS := 30
  const AMBER_THRESHOLD_DAYS := 90

  datatype Status = Green | Amber | Red

  const STALE := {Amber, Red}

  function ClassifyFreshness(days: int): Status {
    if days < GREEN_THRESHOLD_DAYS then Green
    else if days < AMBER_THRESHOLD_DAYS then Amber
    else Red
  }

  /** timedelta.days, which rounds down. */
  function Days(now: int, updated: int): int {
    (now - updated) / DAY
  }

  function StatusAt(now: int, updated: int): Status {
    ClassifyFreshness(Days(now, updated))
  }

  function Rank(s: Status): nat {
    match s
    case Green => 0
    case Amber => 1
    case Red => 2
  }

  /** Green for the first thirty days, red from the ninetieth on. */
  lemma StatusByAge(now: int, updated: int)
    ensures StatusAt(now, updated) == Green <==> now - updated < 30 * DAY
    ensures StatusAt(now, updated) == Red <==> now - updated >= 90 * DAY
    ensures Days(now, updated) * DAY <= now - updated < (Days(now, updated) + 1) * DAY
  {
  }

  /** Without an update, a status only gets worse. */
  lemma StatusWorsens(t: int, t': int, updated: int)
    requires t <= t'
    ensures Rank(StatusAt(t, updated)) <= Rank(StatusAt(t', updated))
  {
    assert Days(t, updated) <= Days(t', updated);
  }

  lemma StaysGreen(now: int, updated: int)
    requires now - updated < GREEN_THRESHOLD_DAYS * DAY
    ensures StatusAt(now, updated) == Green
  {
  }

  /** From green to red takes more than sixty days. */
  lemma GreenToRed(t: int, t': int, updated: int)
    requires StatusAt(t, updated) == Green && StatusAt(t', updated) == Red
    ensures t' - t > 60 * DAY
  {
  }

  // ----- counting statuses read at different moments

  function CountAt(updated: seq<int>, reading: seq<int>, status: Status): nat
    requires |updated| == |reading|
  {
    if updated == [] then 0
    else
      var n := |updated| - 1;
      CountAt(updated[..n], reading[..n], status) + if StatusAt(reading[n], updated[n]) == status then 1 else 0
  }

  /** The segments that have one of these statuses, each at its own reading. */
  function Picked(all: seq<SegmentFreshness>, reading: seq<int>, wanted: set<Status>): seq<SegmentFreshness>
    requires |all| == |reading|
  {
    if all == [] then []
    else
      var n := |all| - 1;
      Picked(all[..n], reading[..n], wanted)
      + if StatusAt(reading[n], all[n].lastUpdated) in wanted then [all[n]] else []
  }

  lemma PickedOneMore(all: seq<SegmentFreshness>, reading: seq<int>, wanted: set<Status>, i: nat)
    requires |all| == |reading| && i < |all|
    ensures Picked(all[..i + 1], reading[..i + 1], wanted) ==
      Picked(all[..i], reading[..i], wanted)
      + if StatusAt(reading[i], all[i].lastUpdated) in wanted then [all[i]] else []
  {
    hide StatusAt;
    assert all[..i + 1][..i] == all[..i] && reading[..i + 1][..i] == reading[..i];
  }

  function EntriesOf(segments: map<string, SegmentFreshness>, keys: seq<string>): seq<SegmentFreshness>
    requires forall k :: k in keys ==> k in segments
  {
    seq(|keys|, i requires 0 <= i < |keys| => segments[keys[i]])
  }

  function Stamps(all: seq<SegmentFreshness>): seq<int> {
    seq(|all|, i requires 0 <= i < |all| => all[i].lastUpdated)
  }

  lemma {:induction false} PickedCount(all: seq<SegmentFreshness>, reading: seq<int>, status: Status)
    requires |all| == |reading|
    ensures |Picked(all, reading, {status})| == CountAt(Stamps(all), reading, status)
  {
    hide StatusAt;
    if all != [] {
      var n := |all| - 1;
      PickedCount(all[..n], reading[..n], status);
      assert Stamps(all[..n]) == Stamps(all)[..n];
    }
  }

  lemma {:induction false} PickedAmong(all: seq<SegmentFreshness>, reading: seq<int>, wanted: set<Status>)
    requires |all| == |reading|
    ensures forall f :: f in Picked(all, reading, wanted) ==> f in all
  {
    hide StatusAt;
    if all != [] {
      PickedAmong(all[..|all| - 1], reading[..|all| - 1], wanted);
    }
  }

  lemma {:induction false} PickedIff(all: seq<SegmentFreshness>, reading: seq<int>, wanted: set<Status>)
    requires |all| == |reading| && forall i, j :: 0 <= i < j < |all| ==> all[i].segmentKey != all[j].segmentKey
    ensures forall i :: 0 <= i < |all| ==>
      (all[i] in Picked(all, reading, wanted) <==> StatusAt(reading[i], all[i].lastUpdated) in wanted)
  {
    hide StatusAt;
    if all != [] {
      var n := |all| - 1;
      PickedIff(all[..n], reading[..n], wanted);
      PickedAmong(all[..n], reading[..n], wanted);
      assert forall i :: 0 <= i < n ==> all[..n][i] == all[i] && reading[..n][i] == reading[i];
      assert all[n] !in all[..n];
    }
  }

  ghost predicate KeysDiffer(fs: seq<SegmentFreshness>) {
    forall i, j :: 0 <= i < j < |fs| ==> fs[i].segmentKey != fs[j].segmentKey
  }

  lemma {:induction false} PickedDiffer(all: seq<SegmentFreshness>, reading: seq<int>, wanted: set<Status>)
    requires |all| == |reading| && KeysDiffer(all)
    ensures KeysDiffer(Picked(all, reading, wanted))
  {
    hide StatusAt;
    if all != [] {
      var n := |all| - 1;
      assert forall i :: 0 <= i < n ==> all[..n][i] == all[i];
      PickedDiffer(all[..n], reading[..n], wanted);
      PickedAmong(all[..n], reading[..n], wanted);
      var front := Picked(all[..n], reading[..n], wanted);
      forall j | 0 <= j < |front|
        ensures front[j].segmentKey != all[n].segmentKey
      {
        assert front[j] in front;
        var k :| 0 <= k < n && all[..n][k] == front[j];
      }
    }
  }

  /** Segments with different keys: the wanted ones are picked, once each, and
      no others. */
  lemma PickedAreWanted(all: seq<SegmentFreshness>, reading: seq<int>, wanted: set<Status>)
    requires |all| == |reading| && forall i, j :: 0 <= i < j < |all| ==> all[i].segmentKey != all[j].segmentKey
    ensures var picked := Picked(all, reading, wanted);
      && (forall f :: f in picked ==> f in all)
      && (forall i :: 0 <= i < |all| ==> (all[i] in picked <==> StatusAt(reading[i], all[i].lastUpdated) in wanted))
      && forall i, j :: 0 <= i < j < |picked| ==> picked[i].segmentKey != picked[j].segmentKey
  {
    hide StatusAt, Picked;
    PickedAmong(all, reading, wanted);
    PickedIff(all, reading, wanted);
    PickedDiffer(all, reading, wanted);
  }

  /** How often one segment is counted when green, amber and red are read at
      the moments g, a and r. */
  function TimesCounted(updated: int, g: int, a: int, r: int): nat {
    (if StatusAt(g, updated) == Green then 1 else 0) +
    (if StatusAt(a, updated) == Amber then 1 else 0) +
    (if StatusAt(r, updated) == Red then 1 else 0)
  }

  /** The status changes between two of the three readings, so that the segment
      is seen under both. */
  predicate SeenTwice(updated: int, g: int, a: int, r: int) {
    || (StatusAt(g, updated) == Green && (StatusAt(a, updated) == Amber || StatusAt(r, updated) == Red))
    || (StatusAt(a, updated) == Amber && StatusAt(r, updated) == Red)
  }

  ghost predicate InSequence(updated: seq<int>, g: seq<int>, a: seq<int>, r: seq<int>) {
    && |updated| == |g| == |a| == |r|
    && forall i :: 0 <= i < |updated| ==> g[i] <= a[i] <= r[i]
  }

  lemma TimesCountedBounds(updated: int, g: int, a: int, r: int)
    requires g <= a <= r
    ensures 1 <= TimesCounted(updated, g, a, r) <= 3
    ensures r - g < 60 * DAY ==> TimesCounted(updated, g, a, r) <= 2
    ensures TimesCounted(updated, g, a, r) == 1 <==> !SeenTwice(updated, g, a, r)
    ensures StatusAt(g, updated) == StatusAt(r, updated) ==> !SeenTwice(updated, g, a, r)
  {
    StatusWorsens(g, a, updated);
    StatusWorsens(a, r, updated);
    if StatusAt(g, updated) == Green && StatusAt(r, updated) == Red {
      GreenToRed(g, r, updated);
    }
  }

  /** Three counts read one after another never miss a segment; they agree with
      the total exactly when no segment is seen under two statuses. */
  lemma {:induction false} CountsCover(updated: seq<int>, g: seq<int>, a: seq<int>, r: seq<int>)
    requires InSequence(updated, g, a, r)
    ensures var counted := CountAt(updated, g, Green) + CountAt(updated, a, Amber) + CountAt(updated, r, Red);
      && |updated| <= counted <= 3 * |updated|
      && (counted == |updated| <==> forall i :: 0 <= i < |updated| ==> !SeenTwice(updated[i], g[i], a[i], r[i]))
      && ((forall i :: 0 <= i < |updated| ==> r[i] - g[i] < 60 * DAY) ==> counted <= 2 * |updated|)
    ensures CountAt(updated, g, Green) <= |updated| && CountAt(updated, a, Amber) <= |updated|
  {
    if updated != [] {
      var n := |updated| - 1;
      CountsCover(updated[..n], g[..n], a[..n], r[..n]);
      TimesCountedBounds(updated[n], g[n], a[n], r[n]);
      assert forall i :: 0 <= i < n ==>
        SeenTwice(updated[i], g[i], a[i], r[i]) == SeenTwice(updated[..n][i], g[..n][i], a[..n][i], r[..n][i]);
      assert forall i :: 0 <= i < n ==> r[..n][i] - g[..n][i] == r[i] - g[i];
    }
  }

  /** Without a boundary crossed during the call, the counts add up. */
  lemma NoCrossingAddsUp(updated: seq<int>, g: seq<int>, a: seq<int>, r: seq<int>)
    requires InSequence(updated, g, a, r)
    requires forall i :: 0 <= i < |updated| ==> StatusAt(g[i], updated[i]) == StatusAt(r[i], updated[i])
    ensures CountAt(updated, g, Green) + CountAt(updated, a, Amber) + CountAt(updated, r, Red) == |updated|
  {
    forall i | 0 <= i < |updated|
      ensures !SeenTwice(updated[i], g[i], a[i], r[i])
    {
      TimesCountedBounds(updated[i], g[i], a[i], r[i]);
    }
    CountsCover(updated, g, a, r);
  }

  /** One segment, three statuses: counted three times when the call drags on. */
  lemma CountedThreeTimes()
    ensures TimesCounted(0, 0, 30 * DAY, 90 * DAY) == 3
  {
  }

  function Score(green: nat, amber: nat, total: nat): real {
    Round((green as real + amber as real * 0.5) / (if total < 1 then 1 else total) as real, Four)
  }

  lemma ScoreBound(green: nat, amber: nat, total: nat)
    requires green <= total && amber <= total
    ensures 0.0 <= Score(green, amber, total) <= 1.5
  {
    var n := if total < 1 then 1 else total;
    var x := green as real + amber as real * 0.5;
    assert x <= 1.5 * n as real;
    CrossMultiply(x, n as real, 1.5, 1.0);
    CrossMultiply(0.0, 1.0, x, n as real);
    RoundMonotone(x / n as real, 1.5, Four);
    RoundSign(x / n as real, Four);
    RoundFixes(15000, Four);
    assert 15000 as real * Step(Four) == 1.5;
  }

  /** A green segment counts as one, an amber one as a half, a red one as
      nothing, out of all of them; rounded to four places. */
  lemma ScoreIs(green: nat, amber: nat, total: nat)
    ensures total > 0 ==>
      var share := (2 * green + amber) as real / (2 * total) as real;
      share - 0.00005 <= Score(green, amber, total) <= share + 0.00005
    ensures green == amber == total == 0 ==> Score(green, amber, total) == 0.0
  {
    if total > 0 {
      var x, n := green as real + amber as real * 0.5, total as real;
      assert (2 * green + amber) as real == 2.0 * x && (2 * total) as real == 2.0 * n;
      Halves(x, n);
      RoundError(x / n, Four);
    } else if green == amber == 0 {
      RoundFixes(0, Four);
    }
  }

  lemma Halves(x: real, n: real)
    requires n > 0.0
    ensures 2.0 * x / (2.0 * n) == x / n
  {
    var q := x / n;
    assert q * (2.0 * n) == 2.0 * x;
  }

  // ----- the clock

  class Clock {
    var now: int

    constructor (start: int)
      ensures now == start
    {
      now := start;
    }

    /** Each reading is at least the one before. */
    method UtcNow() returns (t: int)
      modifies this
      ensures old(now) <= t == now
    {
      t :| now <= t;
      now := t;
    }
  }

  // ----- the tracker

  class SegmentFreshness {
    const segmentKey: string
    const clauseType: string
    const lastUpdated: int
    const clauseCount: nat
    const description: string
    var daysSinceUpdate: int
    var status: Status

    constructor (segmentKey: string, clauseType: string, days: int, status: Status, lastUpdated: int,
                 clauseCount: nat, description: string)
      ensures this.segmentKey == segmentKey && this.clauseType == clauseType && this.lastUpdated == lastUpdated
      ensures this.clauseCount == clauseCount && this.description == description
      ensures this.daysSinceUpdate == days && this.status == status
    {
      this.segmentKey, this.clauseType, this.lastUpdated := segmentKey, clauseType, lastUpdated;
      this.clauseCount, this.description := clauseCount, description;
      this.daysSinceUpdate, this.status := days, status;
    }

    ghost predicate Shows(now: int)
      reads this
    {
      daysSinceUpdate == Days(now, lastUpdated) && status == StatusAt(now, lastUpdated)
    }
  }

  datatype StaleRow = StaleRow(segmentKey: string, clauseType: string, days: int, status: Status)

  datatype Summary = Summary(total: nat, green: nat, amber: nat, red: nat, score: real, stale: seq<StaleRow>)

  class FreshnessTracker {
    const clock: Clock
    // the segment dictionary and the order its keys were inserted in
    var segments: map<string, SegmentFreshness>
    var keys: seq<string>

    ghost predicate Valid()
      reads this
    {
      && (forall k :: k in segments <==> k in keys)
      && (forall i, j :: 0 <= i < j < |keys| ==> keys[i] != keys[j])
      && forall k :: k in segments ==> segments[k].segmentKey == k
    }

    /** The update times of the segments, in order. */
    ghost function Updated(): seq<int>
      requires Valid()
      reads this
    {
      Stamps(Entries())
    }

    /** One reading for each segment, none outside the interval. */
    ghost predicate Between(reading: seq<int>, low: int, high: int)
      reads this
    {
      |reading| == |keys| && forall i :: 0 <= i < |keys| ==> low <= reading[i] <= high
    }

    /** Every segment shows its status as of its reading. */
    ghost predicate Shown(reading: seq<int>)
      requires Valid() && |reading| == |keys|
      reads this, segments.Values
    {
      forall i :: 0 <= i < |keys| ==> segments[keys[i]].Shows(reading[i])
    }

    constructor (clock: Clock)
      ensures Valid() && this.clock == clock && segments == map[] && keys == []
    {
      this.clock := clock;
      segments, keys := map[], [];
    }

    method UpdateSegment(segmentKey: string, clauseType: string, lastUpdated: int, clauseCount: nat,
                         description: string)
      returns (f: SegmentFreshness)
      requires Valid()
      modifies this, clock
      ensures Valid() && fresh(f) && old(clock.now) <= clock.now
      ensures segments == old(segments)[segmentKey := f]
      ensures keys == if segmentKey in old(keys) then old(keys) else old(keys) + [segmentKey]
      ensures f.segmentKey == segmentKey && f.clauseType == clauseType && f.lastUpdated == lastUpdated
      ensures f.clauseCount == clauseCount && f.description == description && f.Shows(clock.now)
    {
      var now := clock.UtcNow();
      var days := Days(now, lastUpdated);
      f := new SegmentFreshness(
        segmentKey, clauseType, days, ClassifyFreshness(days), lastUpdated, clauseCount, description);
      if segmentKey !in segments {
        keys := keys + [segmentKey];
      }
      segments := segments[segmentKey := f];
    }

    /** The object that a key stands for, if any. */
    ghost function At(segmentKey: string): set<SegmentFreshness>
      reads this
    {
      if segmentKey in segments then {segments[segmentKey]} else {}
    }

    /** Touches no other segment. */
    method GetStatus(segmentKey: string) returns (f: SegmentFreshness?)
      requires Valid()
      modifies clock, At(segmentKey)
      ensures old(clock.now) <= clock.now
      ensures segmentKey !in segments ==> f == null
      ensures segmentKey in segments ==> f == segments[segmentKey] && f.Shows(clock.now)
    {
      if segmentKey !in segments {
        return null;
      }
      f := segments[segmentKey];
      var now := clock.UtcNow();
      f.daysSinceUpdate := Days(now, f.lastUpdated);
      f.status := ClassifyFreshness(f.daysSinceUpdate);
    }

    /** One pass over all segments, each with its own reading of the clock. */
    method GetAllStatuses() returns (ghost reading: seq<int>)
      requires Valid()
      modifies clock, segments.Values
      ensures old(clock.now) <= clock.now && Between(reading, old(clock.now), clock.now) && Shown(reading)
    {
      reading := [];
      for i := 0 to |keys|
        invariant |reading| == i && old(clock.now) <= clock.now
        invariant forall j :: 0 <= j < i ==>
          old(clock.now) <= reading[j] <= clock.now && segments[keys[j]].Shows(reading[j])
      {
        var f := segments[keys[i]];
        var now := clock.UtcNow();
        f.daysSinceUpdate := Days(now, f.lastUpdated);
        f.status := ClassifyFreshness(f.daysSinceUpdate);
        reading := reading + [now];
      }
    }

    /** The tracked segments, in order. */
    ghost function Entries(): seq<SegmentFreshness>
      requires Valid()
      reads this
    {
      EntriesOf(segments, keys)
    }

    method GetSegmentsByStatus(status: Status) returns (found: seq<SegmentFreshness>, ghost reading: seq<int>)
      requires Valid()
      modifies clock, segments.Values
      ensures old(clock.now) <= clock.now && Between(reading, old(clock.now), clock.now) && Shown(reading)
      ensures found == Picked(Entries(), reading, {status})
    {
      reading := GetAllStatuses();
      found := Select({status}, reading);
    }

    /** The segments amber or red, in order, as one pass finds them. */
    method GetStaleSegments() returns (stale: seq<SegmentFreshness>, ghost reading: seq<int>)
      requires Valid()
      modifies clock, segments.Values
      ensures old(clock.now) <= clock.now && Between(reading, old(clock.now), clock.now) && Shown(reading)
      ensures stale == Picked(Entries(), reading, STALE)
    {
      reading := GetAllStatuses();
      stale := Select(STALE, reading);
    }

    /** The list comprehensions over the statuses just computed. */
    method Select(wanted: set<Status>, ghost reading: seq<int>) returns (found: seq<SegmentFreshness>)
      requires Valid() && |reading| == |keys| && Shown(reading)
      ensures found == Picked(Entries(), reading, wanted)
    {
      hide StatusAt, Days;
      found := [];
      for i := 0 to |keys|
        invariant found == Picked(Entries()[..i], reading[..i], wanted)
      {
        PickedOneMore(Entries(), reading, wanted, i);
        var f := segments[keys[i]];
        assert f.Shows(reading[i]) && f == Entries()[i];
        assert found + [] == found;
        if f.status in wanted {
          found := found + [f];
        }
      }
      assert Entries()[..|keys|] == Entries() && reading[..|keys|] == reading;
    }

    method CountByStatus(status: Status) returns (count: nat, ghost reading: seq<int>)
      requires Valid()
      modifies clock, segments.Values
      ensures old(clock.now) <= clock.now && Between(reading, old(clock.now), clock.now)
      ensures count == CountAt(Updated(), reading, status)
    {
      var found;
      found, reading := GetSegmentsByStatus(status);
      PickedCount(Entries(), reading, status);
      count := |found|;
    }

    /** Five passes, so one segment may be counted under two or three statuses. */
    method GetFreshnessSummary()
      returns (s: Summary, ghost g: seq<int>, ghost a: seq<int>, ghost r: seq<int>, ghost w: seq<int>)
      requires Valid()
      modifies clock, segments.Values
      ensures old(clock.now) <= clock.now
      ensures InSequence(Updated(), g, a, r)
      ensures Between(g, old(clock.now), clock.now) && Between(r, old(clock.now), clock.now)
      ensures s.total == |keys| && s.green == CountAt(Updated(), g, Green)
      ensures s.amber == CountAt(Updated(), a, Amber) && s.red == CountAt(Updated(), r, Red)
      ensures s.score == Score(s.green, s.amber, s.total) && 0.0 <= s.score <= 1.5
      ensures s.total <= s.green + s.amber + s.red <= 3 * s.total
      ensures s.green + s.amber + s.red == s.total
        <==> forall i :: 0 <= i < |keys| ==> !SeenTwice(Updated()[i], g[i], a[i], r[i])
      ensures clock.now - old(clock.now) < 60 * DAY ==> s.green + s.amber + s.red <= 2 * s.total
      ensures Between(w, old(clock.now), clock.now) && s.stale == RowsOf(Entries(), w)
    {
      hide CountAt, Picked, Score, StatusAt, SeenTwice, Rows, RowsOf, InSequence, Between, Valid;
      ghost var low := clock.now;
      ghost var first := GetAllStatuses();
      var total := |keys|;
      var green, amber, red, stale;
      ghost var before := clock.now;
      green, g := CountByStatus(Green);
      ghost var afterGreen := clock.now;
      amber, a := CountByStatus(Amber);
      ghost var afterAmber := clock.now;
      red, r := CountByStatus(Red);
      ghost var afterRed := clock.now;
      stale, w := GetStaleSegments();
      CountsInOneCall(g, a, r, before, afterGreen, afterAmber, afterRed);
      ScoreBound(green, amber, total);
      WiderInterval(g, before, afterGreen, low, clock.now);
      WiderInterval(r, afterAmber, afterRed, low, clock.now);
      WiderInterval(w, afterRed, clock.now, low, clock.now);
      s := Summary(total, green, amber, red, Score(green, amber, total), Rows(stale));
      ShownInRows(Entries(), w);
    }

    lemma WiderInterval(reading: seq<int>, low: int, high: int, earlier: int, later: int)
      requires Between(reading, low, high) && earlier <= low && high <= later
      ensures Between(reading, earlier, later)
    {
    }

    /** Three passes, each after the one before. */
    lemma CountsInOneCall(g: seq<int>, a: seq<int>, r: seq<int>, t0: int, t1: int, t2: int, t3: int)
      requires Valid() && Between(g, t0, t1) && Between(a, t1, t2) && Between(r, t2, t3)
      ensures InSequence(Updated(), g, a, r)
      ensures var counted :=
          CountAt(Updated(), g, Green) + CountAt(Updated(), a, Amber) + CountAt(Updated(), r, Red);
        && |keys| <= counted <= 3 * |keys|
        && (counted == |keys| <==> forall i :: 0 <= i < |keys| ==> !SeenTwice(Updated()[i], g[i], a[i], r[i]))
        && (t3 - t0 < 60 * DAY ==> counted <= 2 * |keys|)
      ensures CountAt(Updated(), g, Green) <= |keys| && CountAt(Updated(), a, Amber) <= |keys|
    {
      hide CountAt, SeenTwice;
      CountsCover(Updated(), g, a, r);
    }

    method RemoveSegment(segmentKey: string) returns (removed: bool)
      requires Valid()
      modifies this
      ensures Valid() && removed == (segmentKey in old(segments))
      ensures segments == old(segments) - {segmentKey}
      ensures !removed ==> keys == old(keys)
      ensures removed ==>
        exists i :: 0 <= i < |old(keys)| && old(keys)[i] == segmentKey && keys == Without(old(keys), i)
    {
      removed := segmentKey in segments;
      if removed {
        var i: nat :| i < |keys| && keys[i] == segmentKey;
        WithoutOne(keys, i);
        WithoutOneDistinct(keys, i);
        keys := Without(keys, i);
      }
      segments := segments - {segmentKey};
    }
  }

  function Without(keys: seq<string>, i: nat): seq<string>
    requires i < |keys|
  {
    keys[..i] + keys[i + 1..]
  }

  lemma WithoutOne(keys: seq<string>, i: nat)
    requires i < |keys| && forall a, b :: 0 <= a < b < |keys| ==> keys[a] != keys[b]
    ensures forall k :: k in Without(keys, i) <==> k in keys && k != keys[i]
  {
    forall k | k in keys && k != keys[i]
      ensures k in Without(keys, i)
    {
      var j :| 0 <= j < |keys| && keys[j] == k;
      if j > i {
        assert keys[i + 1..][j - i - 1] == k;
      }
    }
  }

  lemma WithoutOneDistinct(keys: seq<string>, i: nat)
    requires i < |keys| && forall a, b :: 0 <= a < b < |keys| ==> keys[a] != keys[b]
    ensures var rest := Without(keys, i); forall a, b :: 0 <= a < b < |rest| ==> rest[a] != rest[b]
  {
  }

  function Rows(stale: seq<SegmentFreshness>): seq<StaleRow>
    reads stale
  {
    if stale == [] then []
    else
      var f := stale[|stale| - 1];
      Rows(stale[..|stale| - 1]) + [StaleRow(f.segmentKey, f.clauseType, f.daysSinceUpdate, f.status)]
  }

  /** One row for each segment stale at its reading, as of that reading. */
  function RowsOf(all: seq<SegmentFreshness>, reading: seq<int>): seq<StaleRow>
    requires |all| == |reading|
  {
    if all == [] then []
    else
      var n := |all| - 1;
      var f, status := all[n], StatusAt(reading[n], all[n].lastUpdated);
      RowsOf(all[..n], reading[..n])
      + if status in STALE then [StaleRow(f.segmentKey, f.clauseType, Days(reading[n], f.lastUpdated), status)] else []
  }

  ghost predicate RowFor(row: StaleRow, f: SegmentFreshness, now: int) {
    && row.segmentKey == f.segmentKey && row.clauseType == f.clauseType
    && row.days * DAY <= now - f.lastUpdated < (row.days + 1) * DAY
    && row.status == if now - f.lastUpdated < 90 * DAY then Amber else Red
  }

  /** The rows are those of the segments at least thirty days old when read. */
  lemma {:induction false} RowsOfIff(all: seq<SegmentFreshness>, reading: seq<int>, row: StaleRow)
    requires |all| == |reading|
    ensures row in RowsOf(all, reading) <==>
      exists i :: 0 <= i < |all| && reading[i] - all[i].lastUpdated >= 30 * DAY && RowFor(row, all[i], reading[i])
  {
    if all != [] {
      var n := |all| - 1;
      RowsOfIff(all[..n], reading[..n], row);
      OneRow(all[n], reading[n], row);
      hide StatusAt, Days, RowFor;
      assert forall i :: 0 <= i < n ==> all[..n][i] == all[i] && reading[..n][i] == reading[i];
    }
  }

  lemma OneRow(f: SegmentFreshness, now: int, row: StaleRow)
    ensures StatusAt(now, f.lastUpdated) in STALE <==> now - f.lastUpdated >= 30 * DAY
    ensures now - f.lastUpdated >= 30 * DAY ==>
      (RowFor(row, f, now) <==>
        row == StaleRow(f.segmentKey, f.clauseType, Days(now, f.lastUpdated), StatusAt(now, f.lastUpdated)))
  {
    StatusByAge(now, f.lastUpdated);
    SameDays(now - f.lastUpdated, row.days, Days(now, f.lastUpdated));
  }

  lemma SameDays(age: int, d: int, e: int)
    requires e * DAY <= age < (e + 1) * DAY
    ensures d * DAY <= age < (d + 1) * DAY <==> d == e
  {
  }

  lemma {:induction false} ShownInRows(all: seq<SegmentFreshness>, reading: seq<int>)
    requires |all| == |reading| && forall i :: 0 <= i < |all| ==> all[i].Shows(reading[i])
    ensures Rows(Picked(all, reading, STALE)) == RowsOf(all, reading)
  {
    hide StatusAt, Days;
    if all != [] {
      var n := |all| - 1;
      ShownInRows(all[..n], reading[..n]);
      assert Picked(all, reading, STALE)
        == Picked(all[..n], reading[..n], STALE) + if all[n].status in STALE then [all[n]] else [];
      var before := Picked(all[..n], reading[..n], STALE);
      RowsSnoc(before, all[n]);
      assert before + [] == before;
    }
  }

  lemma RowsSnoc(stale: seq<SegmentFreshness>, f: SegmentFreshness)
    ensures Rows(stale + [f]) == Rows(stale) + [StaleRow(f.segmentKey, f.clauseType, f.daysSinceUpdate, f.status)]
  {
    assert (stale + [f])[..|stale|] == stale;
  }
}
