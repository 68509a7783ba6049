/**
 * Release prediction of the story manager: the average interval between a story's dated
 * chapters, the next-chapter estimate of the schedule view and the predicted calendar events.
 * Dates are whole seconds; the average is kept as an exact fraction of seconds.
 */
module Prediction {
  import opened Wrappers
  import opened Text
  import opened Store

  type Pos = n: int | n >= 1 witness 1

  /** The exact number of seconds `num / den`. */
  datatype Q = Q(num: int, den: Pos)

  /** `q` is at or after the instant `t`. */
  predicate AtOrAfter(q: Q, t: int) { q.num >= t * q.den }

  predicate Sorted(d: seq<int>) { forall i, j :: 0 <= i < j < |d| ==> d[i] <= d[j] }

  /** The published dates of story `sid`'s chapters that have one, in table order. */
  function DatesOf(chs: seq<Chapter>, sid: nat): (d: seq<int>)
    ensures |d| <= |chs|
    ensures forall x :: x in d <==> exists i :: 0 <= i < |chs| && chs[i].storyId == sid && chs[i].publishedDate == Some(x)
    decreases |chs|
  {
    if chs == [] then []
    else
      var c := chs[|chs| - 1];
      var rest := DatesOf(chs[..|chs| - 1], sid);
      assert forall i :: 0 <= i < |chs| - 1 ==> chs[..|chs| - 1][i] == chs[i];
      if c.storyId == sid && c.publishedDate.Some? then rest + [c.publishedDate.value] else rest
  }

  /** The dates of all but the last chapter, then the last chapter's date if it is one of the
      story's dated chapters. */
  lemma DatesOfUnfold(chs: seq<Chapter>, sid: nat)
    requires chs != []
    ensures var c := chs[|chs| - 1];
      DatesOf(chs, sid) == DatesOf(chs[..|chs| - 1], sid) + (if c.storyId == sid && c.publishedDate.Some? then [c.publishedDate.value] else [])
  {
  }

  /** One date per dated chapter of the story, in table order, duplicates kept: the dates of a
      concatenation are those of its parts, and one chapter gives its date or nothing. */
  lemma {:induction false} DatesOfAppend(a: seq<Chapter>, b: seq<Chapter>, sid: nat)
    ensures DatesOf(a + b, sid) == DatesOf(a, sid) + DatesOf(b, sid)
    ensures |b| == 1 ==> DatesOf(b, sid) == if b[0].storyId == sid && b[0].publishedDate.Some? then [b[0].publishedDate.value] else []
    decreases |b|
  {
    if b == [] {
      assert a + b == a;
    } else {
      var n := |b| - 1;
      var ab := a + b;
      assert ab[..|ab| - 1] == a + b[..n] && ab[|ab| - 1] == b[n];
      DatesOfAppend(a, b[..n], sid);
      DatesOfUnfold(ab, sid);
      DatesOfUnfold(b, sid);
      var tail := if b[n].storyId == sid && b[n].publishedDate.Some? then [b[n].publishedDate.value] else [];
      AppendAssoc(DatesOf(a, sid), DatesOf(b[..n], sid), tail);
      if |b| == 1 {
        assert b[..n] == [];
      }
    }
  }

  /** `[a] + s` is sorted when `s` is and `a` is at most its first element. */
  lemma ConsSorted(a: int, s: seq<int>)
    requires Sorted(s) && (s == [] || a <= s[0])
    ensures Sorted([a] + s)
  {
    var t := [a] + s;
    forall i, j | 0 <= i < j < |t|
      ensures t[i] <= t[j]
    {
      if i > 0 {
        assert t[i] == s[i - 1] && t[j] == s[j - 1];
      } else {
        assert t[j] == s[j - 1] && s[0] <= s[j - 1];
      }
    }
  }

  /** `x` put into `d` before the first larger element. */
  function Insert(x: int, d: seq<int>): (r: seq<int>)
    ensures |r| == |d| + 1 && multiset(r) == multiset(d) + multiset{x}
    ensures r[0] == x || (d != [] && r[0] == d[0])
    decreases |d|
  {
    if d == [] then [x]
    else if x <= d[0] then [x] + d
    else
      assert d == [d[0]] + d[1..];
      [d[0]] + Insert(x, d[1..])
  }

  /** Inserting into a sorted list keeps it sorted. */
  lemma {:induction false} InsertSorted(x: int, d: seq<int>)
    requires Sorted(d)
    ensures Sorted(Insert(x, d))
    decreases |d|
  {
    if d != [] {
      if x <= d[0] {
        ConsSorted(x, d);
      } else {
        assert Sorted(d[1..]);
        InsertSorted(x, d[1..]);
        var rest := Insert(x, d[1..]);
        assert d[0] <= rest[0] by {
          if |d| > 1 { assert d[0] <= d[1]; }
        }
        ConsSorted(d[0], rest);
      }
    }
  }

  /** The dates in ascending order (`sorted(...)`, or the query's `order_by`). */
  function SortDates(d: seq<int>): (r: seq<int>)
    ensures |r| == |d|
    ensures Sorted(r) && multiset(r) == multiset(d)
    decreases |d|
  {
    if d == [] then []
    else
      assert d == d[..|d| - 1] + [d[|d| - 1]];
      InsertSorted(d[|d| - 1], SortDates(d[..|d| - 1]));
      Insert(d[|d| - 1], SortDates(d[..|d| - 1]))
  }

  /** The gaps between consecutive dates. */
  function Intervals(d: seq<int>): (r: seq<int>)
    ensures |r| == if |d| >= 1 then |d| - 1 else 0
    ensures forall i :: 0 <= i < |r| ==> r[i] == d[i + 1] - d[i]
    decreases |d|
  {
    if |d| < 2 then []
    else Intervals(d[..|d| - 1]) + [d[|d| - 1] - d[|d| - 2]]
  }

  function Sum(xs: seq<int>): int
    decreases |xs|
  {
    if xs == [] then 0 else Sum(xs[..|xs| - 1]) + xs[|xs| - 1]
  }

  /** The gaps add up to the distance from the first date to the last. */
  lemma {:induction false} Telescoping(d: seq<int>)
    requires |d| >= 1
    ensures Sum(Intervals(d)) == d[|d| - 1] - d[0]
    decreases |d|
  {
    if |d| >= 2 {
      var init := d[..|d| - 1];
      Telescoping(init);
      assert Intervals(d)[..|Intervals(d)| - 1] == Intervals(init);
    }
  }

  /** `sum(intervals) / len(intervals)`, exactly. */
  function AverageInterval(d: seq<int>): (avg: Q)
    requires |d| >= 2
    ensures avg.den == |d| - 1
  {
    Q(Sum(Intervals(d)), |d| - 1)
  }

  /** The average interval is the span divided by the number of gaps, and is never negative
      for sorted dates. */
  lemma AverageIsSpan(d: seq<int>)
    requires |d| >= 2
    ensures AverageInterval(d) == Q(d[|d| - 1] - d[0], |d| - 1)
    ensures Sorted(d) ==> AverageInterval(d).num >= 0
  {
    Telescoping(d);
  }

  /** The schedule view of a story. */
  datatype Schedule =
    | Unpredicted(storyTitle: string)
    | Predicted(storyTitle: string, prediction: Q, avgIntervalDays: Q, historyCount: nat)

  /** `get_story_schedule`: nothing for a missing story; no prediction with fewer than two dated
      chapters; otherwise the last date plus the average interval. */
  function StorySchedule(db: Db, storyId: nat): (r: Option<Schedule>)
    ensures r.None? <==> StoryPos(db.stories, storyId).None?
    ensures r.Some? && r.value.Predicted? ==> r.value.historyCount >= 2
    ensures r.Some? ==> (r.value.Predicted? <==> |DatesOf(db.chapters, storyId)| >= 2)
    ensures r.Some? ==> r.value.storyTitle == db.stories[StoryPos(db.stories, storyId).value].title
    ensures r.Some? && r.value.Predicted? ==>
      var avg := AverageInterval(SortDates(DatesOf(db.chapters, storyId)));
      r.value.historyCount == |DatesOf(db.chapters, storyId)| && r.value.avgIntervalDays == Q(avg.num, avg.den * 86400)
  {
    match StoryPos(db.stories, storyId)
    case None => None
    case Some(k) =>
      var title := db.stories[k].title;
      var d := SortDates(DatesOf(db.chapters, storyId));
      if |d| < 2 then Some(Unpredicted(title))
      else
        var avg := AverageInterval(d);
        var last := d[|d| - 1];
        Some(Predicted(title, Q(last * avg.den + avg.num, avg.den), Q(avg.num, avg.den * 86400), |d|))
  }

  /** The predicted next chapter is the last date plus the span over the number of gaps, and
      never earlier than the latest dated chapter. */
  lemma SchedulePrediction(db: Db, storyId: nat)
    requires StorySchedule(db, storyId).Some? && StorySchedule(db, storyId).value.Predicted?
    ensures var d := SortDates(DatesOf(db.chapters, storyId));
      var p := StorySchedule(db, storyId).value.prediction;
      && |d| >= 2 && p.den == |d| - 1
      && p.num == d[|d| - 1] * (|d| - 1) + (d[|d| - 1] - d[0])
      && AtOrAfter(p, d[|d| - 1])
  {
    var d := SortDates(DatesOf(db.chapters, storyId));
    assert |d| >= 2;
    var n, last := |d| - 1, d[|d| - 1];
    AverageIsSpan(d);
    var p := StorySchedule(db, storyId).value.prediction;
    assert p.num == last * n + (last - d[0]) && p.den == n;
    assert d[0] <= last;
    SpanAhead(d[0], last, n);
  }

  /** The last date plus a non-negative span, over `n` gaps, is at or after the last date. */
  lemma SpanAhead(first: int, last: int, n: Pos)
    requires first <= last
    ensures AtOrAfter(Q(last * n + (last - first), n), last)
  {
  }

  /** The calendar's roll-forward loop as written, run for at most `fuel` rounds: `None` when it
      has not stopped by then. All values are scaled by the average's denominator. */
  function RollForwardAsWritten(next: int, step: int, now: int, fuel: nat): (r: Option<int>)
    ensures r.Some? ==> r.value >= now && (r.value == next || r.value - step < now)
    ensures !(next < now) ==> r == Some(next)
    decreases fuel
  {
    if !(next < now) then Some(next)
    else if fuel == 0 then None
    else RollForwardAsWritten(next + step, step, now, fuel - 1)
  }

  /** With a zero average and a first estimate in the past the loop never stops, however long it runs. */
  lemma {:induction false} RollForwardHangs(next: int, now: int, fuel: nat)
    requires next < now
    ensures RollForwardAsWritten(next, 0, now, fuel).None?
    decreases fuel
  {
    if fuel > 0 {
      RollForwardHangs(next, now, fuel - 1);
    }
  }

  /** Two chapters dated at the same second, both before `now`: the calendar never returns. */
  lemma EqualDatesHang(fuel: nat)
    ensures var avg := AverageInterval([100, 100]);
      avg.num == 0 && RollForwardAsWritten(100 * avg.den + avg.num, avg.num, 200 * avg.den, fuel).None?
  {
    var avg := AverageInterval([100, 100]);
    AverageIsSpan([100, 100]);
    RollForwardHangs(100, 200, fuel);
  }

  /** The number of steps from `next` to the first slot at or after `now`: the least whole
      number of steps that covers the distance. */
  function Steps(next: int, step: int, now: int): (k: nat)
    requires next < now && step > 0
    ensures k * step >= now - next && (k - 1) * step < now - next
  {
    var k := (now - next + step - 1) / step;
    assert k * step >= now - next;
    assert (k - 1) * step < now - next;
    k
  }

  /** The first slot at or after `now` on the cadence `next, next + step, ...`; none when the
      cadence cannot reach `now` (a step that is not positive). */
  function FirstSlot(next: int, step: int, now: int): (r: Option<int>)
    ensures r.None? <==> next < now && step <= 0
    ensures r.Some? ==> r.value >= now
    ensures r.Some? ==> r.value == next || (step > 0 && r.value - step < now)
  {
    if next >= now then Some(next)
    else if step <= 0 then None
    else Some(next + Steps(next, step, now) * step)
  }

  /** Two whole numbers of steps that both just cover a distance are the same. */
  lemma Unique(a: int, b: int, step: int, dist: int)
    requires step > 0
    requires a * step >= dist && (a - 1) * step < dist
    requires b * step >= dist && (b - 1) * step < dist
    ensures a == b
  {
    MulMono(a, b - 1, step);
    MulMono(b, a - 1, step);
  }

  /** Multiplying by a positive step keeps the order. */
  lemma MulMono(x: int, y: int, step: int)
    requires step > 0
    ensures x <= y ==> x * step <= y * step
  {
    if x <= y {
      assert y * step - x * step == (y - x) * step;
    }
  }

  /** One step along the cadence before `now` leads to the same first slot. */
  lemma FirstSlotShift(next: int, step: int, now: int)
    requires next < now && step > 0
    ensures FirstSlot(next, step, now) == FirstSlot(next + step, step, now)
  {
    var k := Steps(next, step, now);
    if next + step >= now {
      Unique(k, 1, step, now - next);
    } else {
      var k' := Steps(next + step, step, now);
      assert (k' + 1) * step == k' * step + step;
      Unique(k, k' + 1, step, now - next);
      assert next + k * step == next + step + k' * step;
    }
  }

  /** Wherever the loop as written stops, it stops at the first slot. */
  lemma {:induction false} AsWrittenFindsFirstSlot(next: int, step: int, now: int, fuel: nat)
    requires RollForwardAsWritten(next, step, now, fuel).Some?
    ensures FirstSlot(next, step, now) == RollForwardAsWritten(next, step, now, fuel)
    decreases fuel
  {
    if next < now {
      if step <= 0 {
        NoProgress(next, step, now, fuel);
      } else {
        AsWrittenFindsFirstSlot(next + step, step, now, fuel - 1);
        FirstSlotShift(next, step, now);
      }
    }
  }

  /** A step that is not positive never reaches `now`. */
  lemma {:induction false} NoProgress(next: int, step: int, now: int, fuel: nat)
    requires next < now && step <= 0
    ensures RollForwardAsWritten(next, step, now, fuel).None?
    decreases fuel
  {
    if fuel > 0 {
      NoProgress(next + step, step, now, fuel - 1);
    }
  }

  /** The roll-forward with the hang removed: a cadence that cannot reach `now` gives no slot. */
  method RollForward(next: int, step: int, now: int) returns (r: Option<int>)
    ensures r == FirstSlot(next, step, now)
  {
    if next < now && step <= 0 {
      return None;
    }
    var slot := next;
    ghost var k := 0;
    while slot < now
      invariant slot == next + k * step && k >= 0
      invariant k > 0 ==> slot - step < now
      decreases now - slot
    {
      slot := slot + step;
      k := k + 1;
    }
    if next < now {
      Unique(k, Steps(next, step, now), step, now - next);
    }
    r := Some(slot);
  }

  /** `count` slots from `start`, each `step` after the previous one, all over `den`. */
  function Cadence(start: int, step: int, den: Pos, count: nat): (r: seq<Q>)
    ensures |r| == count
    ensures forall i :: 0 <= i < |r| ==> r[i].den == den
    ensures count > 0 ==> r[0].num == start
    ensures forall i :: 0 <= i < |r| - 1 ==> r[i + 1].num == r[i].num + step
    ensures step >= 0 ==> forall i :: 0 <= i < |r| ==> r[i].num >= start
    decreases count
  {
    if count == 0 then []
    else [Q(start, den)] + Cadence(start + step, step, den, count - 1)
  }

  /** The five predicted instants of the calendar for sorted dates, starting at the first slot
      at or after `now`: none with fewer than two dates or a cadence that cannot reach `now`. */
  function Predictions(d: seq<int>, now: int): (r: seq<Q>)
    requires Sorted(d)
    ensures |r| == 0 || |r| == 5
    ensures |d| < 2 ==> r == []
    ensures forall i :: 0 <= i < |r| ==> AtOrAfter(r[i], now)
    ensures forall i :: 0 <= i < |r| - 1 ==> r[i + 1].den == r[i].den && r[i + 1].num - r[i].num == AverageInterval(d).num
    ensures |d| >= 2 ==> var avg := AverageInterval(d); var first := d[|d| - 1] * avg.den + avg.num;
      (r == [] <==> first < now * avg.den && avg.num <= 0)
      && (r != [] ==> r[0] == Q(FirstSlot(first, avg.num, now * avg.den).value, avg.den))
  {
    if |d| < 2 then []
    else
      var avg := AverageInterval(d);
      AverageIsSpan(d);
      var first := d[|d| - 1] * avg.den + avg.num;
      match FirstSlot(first, avg.num, now * avg.den)
      case None => []
      case Some(slot) => Cadence(slot, avg.num, avg.den, 5)
  }

  /** The colour of a dated chapter's event. */
  const PastColor := "#3788d8"
  /** The colour of a predicted chapter's event. */
  const PredictedColor := "#28a745"

  /** A calendar event: a dated chapter or a predicted one. */
  datatype Event = Event(title: string, start: Q, color: string, url: string, allDay: bool)

  /** The blue events of a story's dated chapters, in table order. */
  function PastEvents(s: Story, chs: seq<Chapter>): (r: seq<Event>)
    ensures |r| <= |chs|
    ensures forall i :: 0 <= i < |r| ==> r[i].color == PastColor && !r[i].allDay
    decreases |chs|
  {
    if chs == [] then []
    else
      var c := chs[|chs| - 1];
      var rest := PastEvents(s, chs[..|chs| - 1]);
      if c.storyId == s.id && c.publishedDate.Some? then rest + [PastEvent(s, c)]
      else rest
  }

  /** The blue event of one dated chapter of the story. */
  function PastEvent(s: Story, c: Chapter): (e: Event)
    requires c.publishedDate.Some?
    ensures e.title == s.title + " - " + c.title && e.start == Q(c.publishedDate.value, 1)
    ensures e.color == PastColor && e.url == "/story/" + NatToString(s.id) && !e.allDay
  {
    Event(s.title + " - " + c.title, Q(c.publishedDate.value, 1), PastColor, "/story/" + NatToString(s.id), false)
  }

  /** The events of all but the last chapter, then the last chapter's event if it has one. */
  lemma PastEventsUnfold(s: Story, chs: seq<Chapter>)
    requires chs != []
    ensures var c := chs[|chs| - 1];
      PastEvents(s, chs) == PastEvents(s, chs[..|chs| - 1]) + (if c.storyId == s.id && c.publishedDate.Some? then [PastEvent(s, c)] else [])
  {
  }

  /** One event per dated chapter of the story, in table order: the events of a concatenation
      are those of its parts, and one chapter gives its event or nothing. */
  lemma {:induction false} PastEventsAppend(s: Story, a: seq<Chapter>, b: seq<Chapter>)
    ensures PastEvents(s, a + b) == PastEvents(s, a) + PastEvents(s, b)
    ensures |b| == 1 ==> PastEvents(s, b) == if b[0].storyId == s.id && b[0].publishedDate.Some? then [PastEvent(s, b[0])] else []
    decreases |b|
  {
    if b == [] {
      assert a + b == a;
    } else {
      var n := |b| - 1;
      var ab := a + b;
      assert ab[..|ab| - 1] == a + b[..n] && ab[|ab| - 1] == b[n];
      PastEventsAppend(s, a, b[..n]);
      PastEventsUnfold(s, ab);
      PastEventsUnfold(s, b);
      var tail := if b[n].storyId == s.id && b[n].publishedDate.Some? then [PastEvent(s, b[n])] else [];
      AppendAssoc(PastEvents(s, a), PastEvents(s, b[..n]), tail);
      if |b| == 1 {
        assert b[..n] == [];
      }
    }
  }

  /** The green, all-day events of a story's predicted chapters. */
  function PredictedEvents(s: Story, p: seq<Q>): (r: seq<Event>)
    ensures |r| == |p|
    ensures forall i :: 0 <= i < |r| ==> r[i].start == p[i] && r[i].color == PredictedColor && r[i].allDay
  {
    seq(|p|, i requires 0 <= i < |p| => Event(s.title + " - Predicted", p[i], PredictedColor, "/story/" + NatToString(s.id), true))
  }

  /** Every predicted event of `es` is at or after `now`. */
  predicate PredictionsAhead(es: seq<Event>, now: int)
  {
    forall i :: 0 <= i < |es| && es[i].color == PredictedColor ==> AtOrAfter(es[i].start, now)
  }

  lemma AheadConcat(a: seq<Event>, b: seq<Event>, now: int)
    requires PredictionsAhead(a, now) && PredictionsAhead(b, now)
    ensures PredictionsAhead(a + b, now)
  {
    forall i | 0 <= i < |a + b| && (a + b)[i].color == PredictedColor
      ensures AtOrAfter((a + b)[i].start, now)
    {
      if i >= |a| {
        assert (a + b)[i] == b[i - |a|];
      }
    }
  }

  /** The events of one monitored story: its dated chapters, then its predictions. */
  function StoryEvents(s: Story, chs: seq<Chapter>, now: int): (r: seq<Event>)
    ensures PredictionsAhead(r, now)
    ensures r == PastEvents(s, chs) + PredictedEvents(s, Predictions(SortDates(DatesOf(chs, s.id)), now))
  {
    var past := PastEvents(s, chs);
    var predicted := PredictedEvents(s, Predictions(SortDates(DatesOf(chs, s.id)), now));
    assert PastColor != PredictedColor by { assert PastColor[1] != PredictedColor[1]; }
    assert PredictionsAhead(past, now);
    AheadConcat(past, predicted, now);
    past + predicted
  }

  /** `get_calendar_events`: for each monitored story in table order, its dated chapters and then
      its predictions. */
  function CalendarEvents(sts: seq<Story>, chs: seq<Chapter>, now: int): (r: seq<Event>)
    ensures PredictionsAhead(r, now)
    decreases |sts|
  {
    if sts == [] then []
    else
      var s := sts[|sts| - 1];
      var rest := CalendarEvents(sts[..|sts| - 1], chs, now);
      if !s.isMonitored then rest
      else
        var mine := StoryEvents(s, chs, now);
        AheadConcat(rest, mine, now);
        rest + mine
  }

  /** The calendar of all but the last story, then the last story's events if it is monitored. */
  lemma CalendarEventsUnfold(sts: seq<Story>, chs: seq<Chapter>, now: int)
    requires sts != []
    ensures var s := sts[|sts| - 1];
      CalendarEvents(sts, chs, now) == CalendarEvents(sts[..|sts| - 1], chs, now) + (if s.isMonitored then StoryEvents(s, chs, now) else [])
  {
  }

  /** The calendar goes story by story in table order: the calendar of a concatenation is that
      of its parts, and one story gives its own events when it is monitored and nothing
      otherwise. */
  lemma {:induction false} CalendarEventsAppend(a: seq<Story>, b: seq<Story>, chs: seq<Chapter>, now: int)
    ensures CalendarEvents(a + b, chs, now) == CalendarEvents(a, chs, now) + CalendarEvents(b, chs, now)
    ensures |b| == 1 ==> CalendarEvents(b, chs, now) == if b[0].isMonitored then StoryEvents(b[0], chs, now) else []
    decreases |b|
  {
    if b == [] {
      assert a + b == a;
    } else {
      var n := |b| - 1;
      var ab := a + b;
      assert ab[..|ab| - 1] == a + b[..n] && ab[|ab| - 1] == b[n];
      CalendarEventsAppend(a, b[..n], chs, now);
      CalendarEventsUnfold(ab, chs, now);
      CalendarEventsUnfold(b, chs, now);
      var tail := if b[n].isMonitored then StoryEvents(b[n], chs, now) else [];
      AppendAssoc(CalendarEvents(a, chs, now), CalendarEvents(b[..n], chs, now), tail);
      if |b| == 1 {
        assert b[..n] == [];
      }
    }
  }
}
