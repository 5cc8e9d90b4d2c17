/** anonymizer.py: replacing named entities from right to left, against one
    left-to-right rewrite of the original text; and the bookkeeping around it. */
module Anonymizer {
  import opened Prelude
  import opened Fractions

  /** An entity reported by the recogniser, with character offsets. */
  datatype Entity = Entity(kind: string, start: nat, end: nat)

  /** An entity the anonymizer records. */
  datatype Span = Span(kind: string, start: nat, end: nat, confidence: real)

  const NER_LABELS := {"PERSON", "ORG", "GPE", "DATE", "MONEY"}

  function SpanOf(e: Entity): Span {
    Span(e.kind, e.start, e.end, if e.kind == "PERSON" then 0.8 else 0.6)
  }

  function SpansOf(ents: seq<Entity>): seq<Span> {
    seq(|ents|, i requires 0 <= i < |ents| => SpanOf(ents[i]))
  }

  function Wanted(ents: seq<Entity>): seq<Span> {
    if ents == [] then []
    else
      var last := ents[|ents| - 1];
      Wanted(ents[..|ents| - 1]) + if last.kind in NER_LABELS then [SpanOf(last)] else []
  }

  /** Non-empty spans inside the text, in order and without overlaps. */
  ghost predicate InOrder(spans: seq<Span>, length: nat) {
    && (forall i :: 0 <= i < |spans| ==> spans[i].start < spans[i].end <= length)
    && forall i, j :: 0 <= i < j < |spans| ==> spans[i].end <= spans[j].start
  }

  lemma {:induction false} WantedInOrder(ents: seq<Entity>, length: nat)
    requires InOrder(SpansOf(ents), length)
    ensures InOrder(Wanted(ents), length)
    ensures forall s :: s in Wanted(ents) ==> s in SpansOf(ents)
  {
    if ents != [] {
      var front, last := ents[..|ents| - 1], ents[|ents| - 1];
      assert SpansOf(ents) == SpansOf(front) + [SpanOf(last)];
      assert forall i :: 0 <= i < |front| ==> SpansOf(front)[i] == SpansOf(ents)[i];
      WantedInOrder(front, length);
      forall i | 0 <= i < |Wanted(front)|
        ensures Wanted(front)[i].end <= last.start
      {
        assert Wanted(front)[i] in SpansOf(front);
        var k :| 0 <= k < |front| && SpansOf(front)[k] == Wanted(front)[i];
        assert SpansOf(ents)[k].end <= SpansOf(ents)[|front|].start;
      }
    }
  }

  predicate Occurs(needle: string, hay: string) {
    exists i :: 0 <= i <= |hay| - |needle| && OccursAt(needle, hay, i)
  }

  predicate OccursAt(needle: string, hay: string, i: nat)
    requires i + |needle| <= |hay|
  {
    hay[i..i + |needle|] == needle
  }

  function Label(mask: string, kind: string): string {
    mask + "(" + kind + ")"
  }

  /** A span is replaced unless its original text already shows the mask. */
  predicate Replaced(text: string, mask: string, s: Span)
    requires s.start <= s.end <= |text|
  {
    !Occurs(mask, text[s.start..s.end])
  }

  function Written(text: string, mask: string, s: Span): string
    requires s.start <= s.end <= |text|
  {
    if Replaced(text, mask, s) then Label(mask, s.kind) else text[s.start..s.end]
  }

  /** The text from `from` on, read once from left to right: gaps copied,
      spans written as their labels. */
  function Rewrite(text: string, mask: string, spans: seq<Span>, from: nat): string
    requires InOrder(spans, |text|) && from <= |text|
    requires spans != [] ==> from <= spans[0].start
    decreases |spans|
  {
    if spans == [] then text[from..]
    else
      var s := spans[0];
      text[from..s.start] + Written(text, mask, s) + Rewrite(text, mask, spans[1..], s.end)
  }

  // ----- sorting by start

  predicate Before(descending: bool, x: Span, y: Span) {
    if descending then x.start > y.start else x.start < y.start
  }

  /** Stable insertion: x, which came earlier, goes before its equals. */
  function Insert(x: Span, sorted: seq<Span>, descending: bool): seq<Span> {
    if sorted == [] then [x]
    else if Before(descending, sorted[0], x) then [sorted[0]] + Insert(x, sorted[1..], descending)
    else [x] + sorted
  }

  function Sorted(spans: seq<Span>, descending: bool): (r: seq<Span>)
    ensures |r| == |spans|
  {
    if spans == [] then []
    else
      InsertKeeps(spans[0], Sorted(spans[1..], descending), descending);
      Insert(spans[0], Sorted(spans[1..], descending), descending)
  }

  lemma {:induction false} InsertKeeps(x: Span, sorted: seq<Span>, descending: bool)
    ensures multiset(Insert(x, sorted, descending)) == multiset{x} + multiset(sorted)
    ensures |Insert(x, sorted, descending)| == |sorted| + 1
  {
    if sorted != [] {
      assert sorted == [sorted[0]] + sorted[1..];
      if Before(descending, sorted[0], x) {
        InsertKeeps(x, sorted[1..], descending);
      }
    }
  }

  lemma {:induction false} SortedIsRearrangement(spans: seq<Span>, descending: bool)
    ensures multiset(Sorted(spans, descending)) == multiset(spans)
  {
    if spans != [] {
      SortedIsRearrangement(spans[1..], descending);
      InsertKeeps(spans[0], Sorted(spans[1..], descending), descending);
      assert spans == [spans[0]] + spans[1..];
    }
  }

  ghost predicate Ordered(spans: seq<Span>, descending: bool) {
    forall i, j :: 0 <= i < j < |spans| ==> !Before(descending, spans[j], spans[i])
  }

  lemma {:induction false} InsertOrdered(x: Span, sorted: seq<Span>, descending: bool)
    requires Ordered(sorted, descending)
    ensures Ordered(Insert(x, sorted, descending), descending)
    ensures forall y :: y in Insert(x, sorted, descending) ==> y == x || y in sorted
  {
    if sorted != [] && Before(descending, sorted[0], x) {
      var rest := Insert(x, sorted[1..], descending);
      InsertOrdered(x, sorted[1..], descending);
      forall j | 0 <= j < |rest|
        ensures !Before(descending, rest[j], sorted[0])
      {
        assert rest[j] in rest;
      }
    }
  }

  lemma {:induction false} SortedIsOrdered(spans: seq<Span>, descending: bool)
    ensures Ordered(Sorted(spans, descending), descending)
  {
    if spans != [] {
      SortedIsOrdered(spans[1..], descending);
      InsertOrdered(spans[0], Sorted(spans[1..], descending), descending);
    }
  }

  function Reverse(spans: seq<Span>): (r: seq<Span>)
    ensures |r| == |spans|
    ensures forall i :: 0 <= i < |spans| ==> r[i] == spans[|spans| - 1 - i]
  {
    if spans == [] then [] else Reverse(spans[1..]) + [spans[0]]
  }

  lemma {:induction false} InsertLast(x: Span, sorted: seq<Span>)
    requires forall i :: 0 <= i < |sorted| ==> sorted[i].start > x.start
    ensures Insert(x, sorted, true) == sorted + [x]
  {
    if sorted != [] {
      InsertLast(x, sorted[1..]);
    }
  }

  /** Spans in order, sorted by descending start, are the spans reversed. */
  lemma {:induction false} SortedIsReverse(spans: seq<Span>, length: nat)
    requires InOrder(spans, length)
    ensures Sorted(spans, true) == Reverse(spans)
  {
    hide Insert;
    if spans != [] {
      SortedIsReverse(spans[1..], length);
      var rest := Reverse(spans[1..]);
      forall i | 0 <= i < |rest|
        ensures rest[i].start > spans[0].start
      {
        assert rest[i] == spans[1..][|rest| - 1 - i];
      }
      InsertLast(spans[0], rest);
    }
  }

  // ----- the rewriting loop

  lemma Split(text: string, from: nat, p: nat, to: nat)
    requires from <= p <= to <= |text|
    ensures text[from..to] == text[from..p] + text[p..to]
  {
  }

  lemma Reassociate(a: string, b: string, c: string, d: string)
    ensures (a + b) + c + d == a + (b + c + d)
  {
  }

  /** Moving the starting point inside the first gap copies part of the gap. */
  lemma RewriteFrom(text: string, mask: string, spans: seq<Span>, from: nat, p: nat)
    requires InOrder(spans, |text|) && from <= p <= |text|
    requires spans != [] ==> p <= spans[0].start
    ensures Rewrite(text, mask, spans, from) == text[from..p] + Rewrite(text, mask, spans, p)
  {
    hide Replaced, Written;
    if spans == [] {
      Split(text, from, p, |text|);
    } else {
      var s := spans[0];
      Split(text, from, p, s.start);
      Reassociate(text[from..p], text[p..s.start], Written(text, mask, s), Rewrite(text, mask, spans[1..], s.end));
    }
  }

  function ReplacedOf(text: string, mask: string, spans: seq<Span>): seq<Span>
    requires InOrder(spans, |text|)
  {
    if spans == [] then []
    else (if Replaced(text, mask, spans[0]) then [spans[0]] else []) + ReplacedOf(text, mask, spans[1..])
  }

  method ApplyNer(text: string, mask: string, ents: seq<Entity>) returns (anonymized: string, entities: seq<Span>)
    requires InOrder(SpansOf(ents), |text|)
    ensures InOrder(Wanted(ents), |text|)
    ensures anonymized == Rewrite(text, mask, Wanted(ents), 0)
    ensures entities == Reverse(ReplacedOf(text, mask, Wanted(ents)))
    ensures Relabelled(text, mask, ents, anonymized)
    ensures RestStays(text, mask, ents, anonymized)
    ensures RecordsThem(text, mask, ents, entities)
  {
    WantedInOrder(ents, |text|);
    NerMeans(text, mask, ents);
    hide Relabelled, RestStays, RecordsThem, Rewrite, ReplacedOf, Wanted;
    var spans := SelectSpans(ents);
    SortedIsReverse(spans, |text|);
    anonymized, entities := ReplaceBackwards(text, mask, spans, Sorted(spans, true));
  }

  method SelectSpans(ents: seq<Entity>) returns (spans: seq<Span>)
    ensures spans == Wanted(ents)
  {
    spans := [];
    for i := 0 to |ents|
      invariant spans == Wanted(ents[..i])
    {
      assert ents[..i + 1][..i] == ents[..i];
      if ents[i].kind in NER_LABELS {
        var confidence := if ents[i].kind == "PERSON" then 0.8 else 0.6;
        spans := spans + [Span(ents[i].kind, ents[i].start, ents[i].end, confidence)];
      }
    }
    assert ents[..|ents|] == ents;
  }

  method ReplaceBackwards(text: string, mask: string, ghost spans: seq<Span>, backwards: seq<Span>)
    returns (anonymized: string, entities: seq<Span>)
    requires InOrder(spans, |text|) && backwards == Reverse(spans)
    ensures anonymized == Rewrite(text, mask, spans, 0)
    ensures entities == Reverse(ReplacedOf(text, mask, spans))
  {
    hide Rewrite, ReplacedOf, Occurs;
    anonymized, entities := text, [];
    NothingDone(text, mask);
    ghost var done: seq<Span> := [];
    for i := 0 to |backwards|
      invariant done == spans[|spans| - i..] && InOrder(done, |text|)
      invariant anonymized == Rewrite(text, mask, done, 0)
      invariant entities == Reverse(ReplacedOf(text, mask, done))
    {
      var s := backwards[i];
      assert spans[|spans| - i - 1..] == [s] + done;
      BeforeLastSpan(text, mask, s, done, anonymized);
      done := [s] + done;
      if Occurs(mask, anonymized[s.start..s.end]) {
        continue;
      }
      entities := entities + [s];
      anonymized := anonymized[..s.start] + Label(mask, s.kind) + anonymized[s.end..];
    }
    assert done == spans;
  }

  lemma NothingDone(text: string, mask: string)
    ensures Rewrite(text, mask, [], 0) == text
    ensures Reverse(ReplacedOf(text, mask, [])) == []
  {
  }

  /** Everything up to the end of the next span is still the original text, so
      the mask test sees the original. */
  lemma UntouchedBefore(text: string, mask: string, s: Span, done: seq<Span>, anonymized: string)
    requires s.start < s.end <= |text| && InOrder(done, |text|) && (done != [] ==> s.end <= done[0].start)
    requires anonymized == Rewrite(text, mask, done, 0)
    ensures s.end <= |anonymized| && anonymized[..s.end] == text[..s.end]
    ensures anonymized[s.start..s.end] == text[s.start..s.end]
    ensures anonymized[s.end..] == Rewrite(text, mask, done, s.end)
    ensures text[0..s.start] == anonymized[..s.start]
  {
    RewriteFrom(text, mask, done, 0, s.end);
    hide Rewrite;
    var tail := Rewrite(text, mask, done, s.end);
    assert anonymized == text[..s.end] + tail;
    forall k | 0 <= k < s.end
      ensures anonymized[k] == text[k]
    {
    }
  }

  /** Replacing the next span extends the rewrite by that span. */
  lemma BeforeLastSpan(text: string, mask: string, s: Span, done: seq<Span>, anonymized: string)
    requires InOrder([s] + done, |text|) && InOrder(done, |text|) && s.start < s.end <= |text|
    requires anonymized == Rewrite(text, mask, done, 0)
    ensures s.end <= |anonymized|
    ensures anonymized[s.start..s.end] == text[s.start..s.end]
    ensures Rewrite(text, mask, [s] + done, 0) ==
      if !Occurs(mask, text[s.start..s.end])
      then anonymized[..s.start] + Label(mask, s.kind) + anonymized[s.end..]
      else anonymized
    ensures Reverse(ReplacedOf(text, mask, [s] + done)) ==
      Reverse(ReplacedOf(text, mask, done)) + if !Occurs(mask, text[s.start..s.end]) then [s] else []
  {
    hide Occurs;
    assert ([s] + done)[1..] == done && ([s] + done)[0] == s;
    if done != [] {
      assert ([s] + done)[1] == done[0];
    }
    UntouchedBefore(text, mask, s, done, anonymized);
    assert anonymized == anonymized[..s.start] + anonymized[s.start..s.end] + anonymized[s.end..];
    ReverseCons(s, ReplacedOf(text, mask, done));
  }

  lemma ReverseCons(s: Span, spans: seq<Span>)
    ensures Reverse([s] + spans) == Reverse(spans) + [s]
    ensures Reverse([] + spans) == Reverse(spans) + []
  {
    assert ([s] + spans)[1..] == spans;
    assert [] + spans == spans;
  }

  // ----- what the rewrite does, position by position

  /** How far the character at position i has moved. */
  function Shift(text: string, mask: string, spans: seq<Span>, i: nat): int
    requires InOrder(spans, |text|)
  {
    if spans == [] then 0
    else
      var s := spans[0];
      (if s.end <= i then |Written(text, mask, s)| - (s.end - s.start) else 0) + Shift(text, mask, spans[1..], i)
  }

  predicate Inside(spans: seq<Span>, i: nat) {
    exists k :: 0 <= k < |spans| && spans[k].start <= i < spans[k].end
  }

  lemma {:induction false} NoShiftBefore(text: string, mask: string, spans: seq<Span>, i: nat)
    requires InOrder(spans, |text|) && (spans != [] ==> i <= spans[0].start)
    ensures Shift(text, mask, spans, i) == 0
  {
    if spans != [] {
      NoShiftBefore(text, mask, spans[1..], i);
    }
  }

  /** The length is the original length plus what each replacement adds. */
  lemma {:induction false} RewriteLength(text: string, mask: string, spans: seq<Span>, from: nat)
    requires InOrder(spans, |text|) && from <= |text|
    requires spans != [] ==> from <= spans[0].start
    ensures |Rewrite(text, mask, spans, from)| == |text| - from + Shift(text, mask, spans, |text|)
    decreases |spans|
  {
    if spans != [] {
      RewriteLength(text, mask, spans[1..], spans[0].end);
    }
  }

  lemma InsideLater(spans: seq<Span>, i: nat)
    requires spans != [] && !Inside(spans, i)
    ensures !Inside(spans[1..], i) && !(spans[0].start <= i < spans[0].end)
  {
    forall k | 0 <= k < |spans[1..]|
      ensures !(spans[1..][k].start <= i < spans[1..][k].end)
    {
      assert spans[k + 1] == spans[1..][k];
    }
  }

  lemma AfterHead(head: string, tail: string, at: nat, length: nat)
    requires at + length <= |tail|
    ensures (head + tail)[|head| + at..|head| + at + length] == tail[at..at + length]
  {
  }

  /** Every character outside the spans survives, moved by its shift. */
  lemma {:induction false} OutsideIsVerbatim(text: string, mask: string, spans: seq<Span>, from: nat, i: nat)
    requires InOrder(spans, |text|) && from <= i < |text|
    requires spans != [] ==> from <= spans[0].start
    requires !Inside(spans, i)
    ensures 0 <= i - from + Shift(text, mask, spans, i) < |Rewrite(text, mask, spans, from)|
    ensures Rewrite(text, mask, spans, from)[i - from + Shift(text, mask, spans, i)] == text[i]
    decreases |spans|
  {
    hide Written, Inside;
    if spans != [] {
      var s, rest := spans[0], spans[1..];
      InsideLater(spans, i);
      var head := text[from..s.start] + Written(text, mask, s);
      var tail := Rewrite(text, mask, rest, s.end);
      if i < s.start {
        NoShiftBefore(text, mask, spans, i);
        assert (head + tail)[i - from] == text[from..s.start][i - from];
      } else {
        OutsideIsVerbatim(text, mask, rest, s.end, i);
        AfterHead(head, tail, i - s.end + Shift(text, mask, rest, i), 1);
        assert (head + tail)[|head| + (i - s.end + Shift(text, mask, rest, i))] == text[i];
      }
    }
  }

  /** Every span appears as it was written, at its shifted start. */
  lemma {:induction false} SpanIsLabelled(text: string, mask: string, spans: seq<Span>, from: nat, k: nat)
    requires InOrder(spans, |text|) && from <= |text| && k < |spans|
    requires from <= spans[0].start
    ensures ShowsAt(Rewrite(text, mask, spans, from), spans[k].start - from + Shift(text, mask, spans, spans[k].start),
                    Written(text, mask, spans[k]))
    decreases |spans|
  {
    hide Written, ShowsAt;
    var s, rest := spans[0], spans[1..];
    var gap, tail := text[from..s.start], Rewrite(text, mask, rest, s.end);
    if k == 0 {
      NoShiftBefore(text, mask, spans, s.start);
      ShowsHere(gap, Written(text, mask, s), tail);
    } else {
      assert rest[k - 1] == spans[k] && s.end <= spans[k].start;
      SpanIsLabelled(text, mask, rest, s.end, k - 1);
      ShowsLater(gap + Written(text, mask, s), tail,
                 spans[k].start - s.end + Shift(text, mask, rest, spans[k].start), Written(text, mask, spans[k]));
    }
  }

  lemma ShowsHere(gap: string, part: string, tail: string)
    ensures ShowsAt(gap + part + tail, |gap|, part)
  {
  }

  lemma ShowsLater(head: string, tail: string, at: int, part: string)
    requires ShowsAt(tail, at, part)
    ensures ShowsAt(head + tail, |head| + at, part)
  {
    AfterHead(head, tail, at, |part|);
  }

  predicate ShowsAt(s: string, at: int, part: string) {
    0 <= at <= at + |part| <= |s| && s[at..at + |part|] == part
  }

  // ----- what happens to each entity of the recogniser

  ghost predicate Holds(mask: string, part: string) {
    exists before, after :: part == before + mask + after
  }

  lemma OccursIff(mask: string, part: string)
    ensures Occurs(mask, part) <==> Holds(mask, part)
  {
    if Occurs(mask, part) {
      var i :| 0 <= i <= |part| - |mask| && OccursAt(mask, part, i);
      assert part == part[..i] + mask + part[i + |mask|..];
    }
    if Holds(mask, part) {
      var before, after :| part == before + mask + after;
      assert OccursAt(mask, part, |before|);
    }
  }

  /** An entity that has to go: one of the five kinds, and its text does not
      hold the mask already. */
  ghost predicate MustGo(text: string, mask: string, e: Entity) {
    && (e.kind == "PERSON" || e.kind == "ORG" || e.kind == "GPE" || e.kind == "DATE" || e.kind == "MONEY")
    && e.start <= e.end <= |text|
    && !Holds(mask, text[e.start..e.end])
  }

  /** The character is in no entity that has to go. */
  ghost predicate Untouched(text: string, mask: string, ents: seq<Entity>, j: nat) {
    forall i :: 0 <= i < |ents| && MustGo(text, mask, ents[i]) ==> !(ents[i].start <= j < ents[i].end)
  }

  ghost predicate Records(s: Span, e: Entity) {
    && s.kind == e.kind && s.start == e.start && s.end == e.end
    && s.confidence == if e.kind == "PERSON" then 0.8 else 0.6
  }

  lemma {:induction false} WantedIff(ents: seq<Entity>, s: Span)
    ensures s in Wanted(ents) <==> exists i :: 0 <= i < |ents| && ents[i].kind in NER_LABELS && Records(s, ents[i])
  {
    if ents != [] {
      WantedIff(ents[..|ents| - 1], s);
    }
  }

  lemma {:induction false} ReplacedOfIff(text: string, mask: string, spans: seq<Span>, s: Span)
    requires InOrder(spans, |text|)
    ensures s in ReplacedOf(text, mask, spans) <==> s in spans && !Holds(mask, text[s.start..s.end])
  {
    hide Occurs, Holds;
    if spans != [] {
      ReplacedOfIff(text, mask, spans[1..], s);
      OccursIff(mask, text[spans[0].start..spans[0].end]);
    }
  }

  /** The record says which entities had to go, and no others. */
  lemma RecordedIff(text: string, mask: string, ents: seq<Entity>, s: Span)
    requires InOrder(SpansOf(ents), |text|) && InOrder(Wanted(ents), |text|)
    ensures s in Reverse(ReplacedOf(text, mask, Wanted(ents)))
      <==> exists i :: 0 <= i < |ents| && MustGo(text, mask, ents[i]) && Records(s, ents[i])
  {
    hide Holds, Wanted, ReplacedOf;
    var replaced := ReplacedOf(text, mask, Wanted(ents));
    ReplacedOfIff(text, mask, Wanted(ents), s);
    WantedIff(ents, s);
    assert s in Reverse(replaced) <==> s in replaced by {
      assert forall k :: 0 <= k < |replaced| ==> Reverse(replaced)[|replaced| - 1 - k] == replaced[k];
    }
    forall i | 0 <= i < |ents|
      ensures ents[i].start <= ents[i].end <= |text|
    {
      assert SpansOf(ents)[i] == SpanOf(ents[i]);
    }
  }

  lemma WrittenIs(text: string, mask: string, s: Span)
    requires s.start <= s.end <= |text|
    ensures Written(text, mask, s) ==
      if Holds(mask, text[s.start..s.end]) then text[s.start..s.end] else Label(mask, s.kind)
  {
    OccursIff(mask, text[s.start..s.end]);
  }

  lemma MustGoIsWanted(text: string, mask: string, ents: seq<Entity>, i: nat) returns (k: nat)
    requires i < |ents| && MustGo(text, mask, ents[i])
    ensures k < |Wanted(ents)| && Records(Wanted(ents)[k], ents[i]) && !Holds(mask, text[ents[i].start..ents[i].end])
  {
    hide Holds, Wanted;
    WantedIff(ents, SpanOf(ents[i]));
    k :| 0 <= k < |Wanted(ents)| && Wanted(ents)[k] == SpanOf(ents[i]);
  }

  /** An entity that has to go shows as the mask and its kind. */
  lemma LabelShows(text: string, mask: string, ents: seq<Entity>, i: nat)
    requires InOrder(Wanted(ents), |text|) && i < |ents| && MustGo(text, mask, ents[i])
    ensures var spans := Wanted(ents);
      ShowsAt(Rewrite(text, mask, spans, 0), ents[i].start + Shift(text, mask, spans, ents[i].start),
              Label(mask, ents[i].kind))
  {
    hide Holds, Wanted, Rewrite, Shift, ShowsAt, Written, MustGo, Label;
    var spans := Wanted(ents);
    var k := MustGoIsWanted(text, mask, ents, i);
    WrittenIs(text, mask, spans[k]);
    SpanIsLabelled(text, mask, spans, 0, k);
  }

  lemma UntouchedHolds(text: string, mask: string, ents: seq<Entity>, k: nat, j: nat)
    requires InOrder(Wanted(ents), |text|) && Untouched(text, mask, ents, j) && k < |Wanted(ents)|
    requires Wanted(ents)[k].start <= j < Wanted(ents)[k].end
    ensures Holds(mask, text[Wanted(ents)[k].start..Wanted(ents)[k].end])
  {
    hide Holds, Wanted;
    WantedIff(ents, Wanted(ents)[k]);
    var i :| 0 <= i < |ents| && ents[i].kind in NER_LABELS && Records(Wanted(ents)[k], ents[i]);
  }

  /** A character in no entity that has to go is still there. */
  lemma CharacterStays(text: string, mask: string, ents: seq<Entity>, j: nat)
    requires InOrder(Wanted(ents), |text|) && j < |text|
    requires Untouched(text, mask, ents, j)
    ensures var spans := Wanted(ents);
      ShowsAt(Rewrite(text, mask, spans, 0), j + Shift(text, mask, spans, j), [text[j]])
  {
    hide Holds, Wanted, Rewrite, Shift, Written, Untouched, ShowsAt;
    var spans := Wanted(ents);
    if Inside(spans, j) {
      var k :| 0 <= k < |spans| && spans[k].start <= j < spans[k].end;
      UntouchedHolds(text, mask, ents, k, j);
      WrittenIs(text, mask, spans[k]);
      SpanIsLabelled(text, mask, spans, 0, k);
      SameShift(text, mask, spans, k, j);
      ShowsPart(Rewrite(text, mask, spans, 0), spans[k].start + Shift(text, mask, spans, j),
                text[spans[k].start..spans[k].end], j - spans[k].start);
    } else {
      OutsideIsVerbatim(text, mask, spans, 0, j);
      ShowsOne(Rewrite(text, mask, spans, 0), j + Shift(text, mask, spans, j), text[j]);
    }
  }

  lemma ShowsOne(s: string, at: nat, c: char)
    requires at < |s| && s[at] == c
    ensures ShowsAt(s, at, [c])
  {
  }

  lemma ShowsPart(s: string, at: int, part: string, i: nat)
    requires ShowsAt(s, at, part) && i < |part|
    ensures ShowsAt(s, at + i, [part[i]])
  {
  }

  /** Inside a span every character moves as its start does. */
  lemma {:induction false} SameShift(text: string, mask: string, spans: seq<Span>, k: nat, j: nat)
    requires InOrder(spans, |text|) && k < |spans| && spans[k].start <= j < spans[k].end
    ensures Shift(text, mask, spans, j) == Shift(text, mask, spans, spans[k].start)
    decreases |spans|
  {
    hide Written;
    if k > 0 {
      SameShift(text, mask, spans[1..], k - 1, j);
    } else {
      NoShiftBefore(text, mask, spans[1..], spans[0].start);
      NoShiftBefore(text, mask, spans[1..], j);
    }
  }

  /** Every entity that has to go shows as the mask and its kind. */
  ghost predicate Relabelled(text: string, mask: string, ents: seq<Entity>, anonymized: string)
    requires InOrder(Wanted(ents), |text|)
  {
    forall i :: 0 <= i < |ents| && MustGo(text, mask, ents[i]) ==>
      ShowsAt(anonymized, ents[i].start + Shift(text, mask, Wanted(ents), ents[i].start),
              mask + "(" + ents[i].kind + ")")
  }

  /** Every character in none of them is still there. */
  ghost predicate RestStays(text: string, mask: string, ents: seq<Entity>, anonymized: string)
    requires InOrder(Wanted(ents), |text|)
  {
    forall j :: 0 <= j < |text| && Untouched(text, mask, ents, j) ==>
      ShowsAt(anonymized, j + Shift(text, mask, Wanted(ents), j), [text[j]])
  }

  /** They are recorded, and nothing else is. */
  ghost predicate RecordsThem(text: string, mask: string, ents: seq<Entity>, entities: seq<Span>) {
    forall s :: s in entities <==> exists i :: 0 <= i < |ents| && MustGo(text, mask, ents[i]) && Records(s, ents[i])
  }

  lemma NerMeans(text: string, mask: string, ents: seq<Entity>)
    requires InOrder(SpansOf(ents), |text|) && InOrder(Wanted(ents), |text|)
    ensures Relabelled(text, mask, ents, Rewrite(text, mask, Wanted(ents), 0))
    ensures RestStays(text, mask, ents, Rewrite(text, mask, Wanted(ents), 0))
    ensures RecordsThem(text, mask, ents, Reverse(ReplacedOf(text, mask, Wanted(ents))))
  {
    hide MustGo, ShowsAt, Records, Rewrite, Shift, ReplacedOf, Wanted, Untouched;
    var spans := Wanted(ents);
    forall i | 0 <= i < |ents| && MustGo(text, mask, ents[i])
      ensures ShowsAt(Rewrite(text, mask, spans, 0), ents[i].start + Shift(text, mask, spans, ents[i].start),
                      mask + "(" + ents[i].kind + ")")
    {
      LabelShows(text, mask, ents, i);
    }
    forall j | 0 <= j < |text| && Untouched(text, mask, ents, j)
      ensures ShowsAt(Rewrite(text, mask, spans, 0), j + Shift(text, mask, spans, j), [text[j]])
    {
      CharacterStays(text, mask, ents, j);
    }
    forall s
      ensures s in Reverse(ReplacedOf(text, mask, spans)) <==>
        exists i :: 0 <= i < |ents| && MustGo(text, mask, ents[i]) && Records(s, ents[i])
    {
      RecordedIff(text, mask, ents, s);
    }
  }

  // ----- the whole call

  datatype AnonymizationResult = AnonymizationResult(
    anonymizedText: string,
    piiFound: bool,
    piiEntities: seq<Span>,
    confidence: real,
    replacementsMade: nat)

  function Confidences(spans: seq<Span>): seq<real> {
    seq(|spans|, i requires 0 <= i < |spans| => spans[i].confidence)
  }

  function HighCount(spans: seq<Span>): (n: nat)
    ensures n <= |spans|
  {
    if spans == [] then 0
    else HighCount(spans[..|spans| - 1]) + if spans[|spans| - 1].confidence >= 0.8 then 1 else 0
  }

  function ComputeConfidence(spans: seq<Span>): real {
    if spans == [] then 1.0
    else
      var average := Sum(Confidences(spans)) / |spans| as real;
      var ratio := HighCount(spans) as real / |spans| as real;
      Weighted(average, ratio)
  }

  function Weighted(average: real, ratio: real): real {
    average * (0.5 + 0.5 * ratio)
  }

  lemma {:induction false} SumBounds(xs: seq<real>, low: real, high: real)
    requires forall i :: 0 <= i < |xs| ==> low <= xs[i] <= high
    ensures low * |xs| as real <= Sum(xs) <= high * |xs| as real
  {
    if xs != [] {
      var n := |xs| - 1;
      SumBounds(xs[..n], low, high);
      assert low * (n + 1) as real == low * n as real + low;
      assert high * (n + 1) as real == high * n as real + high;
    }
  }

  /** With every confidence in [low, high], the overall one is in [low/2, high]. */
  lemma ConfidenceBounds(spans: seq<Span>, low: real, high: real)
    requires spans != [] && 0.0 <= low <= high
    requires forall i :: 0 <= i < |spans| ==> low <= spans[i].confidence <= high
    ensures low / 2.0 <= ComputeConfidence(spans) <= high
  {
    hide Weighted, Sum;
    AverageBounds(Confidences(spans), low, high);
    ProperFraction(HighCount(spans), |spans|);
    var average, ratio := Sum(Confidences(spans)) / |spans| as real, HighCount(spans) as real / |spans| as real;
    WeightedBounds(average, ratio);
  }

  lemma AverageBounds(xs: seq<real>, low: real, high: real)
    requires xs != [] && forall i :: 0 <= i < |xs| ==> low <= xs[i] <= high
    ensures low <= Sum(xs) / |xs| as real <= high
  {
    SumBounds(xs, low, high);
    CrossMultiply(low, 1.0, Sum(xs), |xs| as real);
    CrossMultiply(Sum(xs), |xs| as real, high, 1.0);
  }

  lemma WeightedBounds(average: real, ratio: real)
    requires 0.0 <= average && 0.0 <= ratio <= 1.0
    ensures average / 2.0 <= Weighted(average, ratio) <= average
  {
    var f := 0.5 + 0.5 * ratio;
    Product(0.5, f, average);
    Product(f, 1.0, average);
  }

  /** Twice the confidence times the square of the number of entities is the sum of
      their confidences times the number of entities and of those at 0.8 or more. */
  lemma ConfidenceIs(spans: seq<Span>)
    requires spans != []
    ensures var n, high := |spans| as real, |set i | 0 <= i < |spans| && spans[i].confidence >= 0.8|;
      2.0 * ComputeConfidence(spans) * (n * n) ==
        Sum(seq(|spans|, i requires 0 <= i < |spans| => spans[i].confidence)) * (n + high as real)
  {
    hide Sum;
    HighCountIs(spans);
    var n, h, total := |spans| as real, HighCount(spans) as real, Sum(Confidences(spans));
    assert Confidences(spans) == seq(|spans|, i requires 0 <= i < |spans| => spans[i].confidence);
    Unweighted(total, h, n);
  }

  lemma {:induction false} HighCountIs(spans: seq<Span>)
    ensures HighCount(spans) == |set i | 0 <= i < |spans| && spans[i].confidence >= 0.8|
  {
    var high := set i | 0 <= i < |spans| && spans[i].confidence >= 0.8;
    if spans == [] {
      assert high == {};
    } else {
      var n := |spans| - 1;
      HighCountIs(spans[..n]);
      var before := set i | 0 <= i < |spans[..n]| && spans[..n][i].confidence >= 0.8;
      assert high == before + if spans[n].confidence >= 0.8 then {n} else {};
    }
  }

  lemma Unweighted(total: real, h: real, n: real)
    requires n > 0.0
    ensures 2.0 * Weighted(total / n, h / n) * (n * n) == total * (n + h)
  {
    var average, ratio := total / n, h / n;
    calc {
      2.0 * Weighted(average, ratio) * (n * n);
    ==
      (average * n) * (n + ratio * n);
    == { assert average * n == total && ratio * n == h; }
      total * (n + h);
    }
  }

  /** The regular-expression pass is not modelled: it is the text and the
      entities it yields. The recogniser runs on its text, when installed. */
  method Anonymize(text: string, mask: string, blank: bool, regexText: string, regexEntities: seq<Span>,
                   ents: Option<seq<Entity>>)
    returns (r: AnonymizationResult)
    requires ents.Some? ==> InOrder(SpansOf(ents.value), |regexText|)
    ensures blank ==> r == AnonymizationResult(text, false, [], 1.0, 0)
    ensures !blank ==> r.replacementsMade == |r.piiEntities| && r.piiFound == (r.piiEntities != [])
    ensures !blank ==> Ordered(r.piiEntities, false)
    ensures !blank ==> r.confidence == ComputeConfidence(r.piiEntities)
    ensures !blank && ents.None? ==> r.anonymizedText == regexText && multiset(r.piiEntities) == multiset(regexEntities)
    ensures !blank && ents.Some? ==> InOrder(Wanted(ents.value), |regexText|)
    ensures !blank && ents.Some? ==>
      && r.anonymizedText == Rewrite(regexText, mask, Wanted(ents.value), 0)
      && multiset(r.piiEntities) == multiset(regexEntities + Reverse(ReplacedOf(regexText, mask, Wanted(ents.value))))
      && Relabelled(regexText, mask, ents.value, r.anonymizedText)
      && RestStays(regexText, mask, ents.value, r.anonymizedText)
  {
    hide Relabelled, RestStays, RecordsThem, Rewrite, ReplacedOf, Wanted;
    if blank {
      return AnonymizationResult(text, false, [], 1.0, 0);
    }
    var anonymized, entities, replacements := regexText, regexEntities, |regexEntities|;
    if ents.Some? {
      var nerEntities;
      anonymized, nerEntities := ApplyNer(anonymized, mask, ents.value);
      entities := entities + nerEntities;
      replacements := replacements + |nerEntities|;
    }
    SortedIsRearrangement(entities, false);
    SortedIsOrdered(entities, false);
    entities := Sorted(entities, false);
    r := AnonymizationResult(anonymized, |entities| > 0, entities, ComputeConfidence(entities), replacements);
  }

  /** Confidences below one: the result is fully confident exactly when no
      entity was recorded. */
  lemma FullConfidenceMeansNothingFound(spans: seq<Span>)
    requires forall i :: 0 <= i < |spans| ==> 0.6 <= spans[i].confidence <= 0.9
    ensures ComputeConfidence(spans) == 1.0 <==> spans == []
    ensures 0.3 <= ComputeConfidence(spans) <= 1.0
  {
    if spans != [] {
      ConfidenceBounds(spans, 0.6, 0.9);
    }
  }
}
