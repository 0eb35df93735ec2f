/** The progress of a learner through one lesson. */
module VideoProgress {
  import opened Wrappers

  const MAX_SAFE_INTEGER := 9_007_199_254_740_991
  const COMPLETION_THRESHOLD := 90
  const MAX_ADVANCE := 5

  datatype Row = Row(
    percent: int, watched: int, duration: Option<int>, lastPosition: int, maxWatched: int, documentPercent: int)

  const EMPTY_ROW := Row(0, 0, None, 0, 0, 0)

  /** What the player reports; each part may be missing. */
  datatype Input = Input(watched: Option<real>, duration: Option<real>, lastPosition: Option<real>, documentPercent: Option<int>)

  datatype Lesson = Lesson(isVideo: bool, durationMinutes: Option<int>)

  datatype ProgressStatus = NotStarted | InProgress | Completed

  function Min(a: int, b: int): int { if a <= b then a else b }

  function Max(a: int, b: int): int { if a <= b then b else a }

  /** `Math.round`: halves are rounded up. */
  function Round(x: real): int {
    (x + 0.5).Floor
  }

  /** `Math.round(100 * part / whole)` in exact arithmetic. */
  function Percent(part: int, whole: int): int
    requires whole > 0
  {
    (200 * part + whole) / (2 * whole)
  }

  function Or(x: Option<real>, otherwise: int): int {
    if x.Some? then Round(x.value) else otherwise
  }

  function Duration(lesson: Lesson, previous: Row, input: Input): nat {
    Max(0, Or(input.duration, if previous.duration.Some? then previous.duration.value
                              else (if lesson.durationMinutes.Some? then lesson.durationMinutes.value else 0) * 60))
  }

  /** A duration of 0 limits nothing. */
  function Cap(duration: nat): int {
    if duration > 0 then duration else MAX_SAFE_INTEGER
  }

  function VideoValues(lesson: Lesson, previous: Row, input: Input): Row {
    var duration := Duration(lesson, previous, input);
    var requested := Min(Cap(duration), Max(0, Or(input.lastPosition, previous.lastPosition)));
    var canAdvance := requested <= previous.maxWatched + MAX_ADVANCE;
    var position := if canAdvance then requested else previous.lastPosition;
    var watched := if canAdvance then Min(Cap(duration), Max(Max(previous.watched, Or(input.watched, requested)), requested))
                   else previous.watched;
    Row(if duration > 0 then Min(100, Percent(watched, duration)) else previous.percent,
        watched, Some(duration), position, Max(previous.maxWatched, position), previous.documentPercent)
  }

  function DocumentValues(previous: Row, input: Input): Row {
    var percent := Min(100, Max(previous.documentPercent, if input.documentPercent.Some? then input.documentPercent.value else previous.documentPercent));
    previous.(percent := percent, documentPercent := percent)
  }

  function Values(lesson: Lesson, previous: Row, input: Input): Row {
    if lesson.isVideo then VideoValues(lesson, previous, input) else DocumentValues(previous, input)
  }

  predicate IsCompleted(lesson: Lesson, row: Row) {
    if lesson.isVideo then row.duration.Some? && row.duration.value > 0 && row.percent >= COMPLETION_THRESHOLD
    else row.documentPercent >= COMPLETION_THRESHOLD
  }

  function StatusOf(lesson: Lesson, row: Row): ProgressStatus {
    if IsCompleted(lesson, row) then Completed else if row.percent > 0 then InProgress else NotStarted
  }

  /** The progress row of one learner and lesson, written by each update. */
  class LearningProgress {
    var row: Option<Row>
    var status: ProgressStatus

    constructor ()
      ensures row == None && status == NotStarted
    {
      row, status := None, NotStarted;
    }

    method UpdateLessonProgress(lesson: Lesson, input: Input)
      modifies this
      ensures row == Some(Values(lesson, if old(row).Some? then old(row).value else EMPTY_ROW, input))
      ensures status == StatusOf(lesson, row.value)
    {
      var previous := if row.Some? then row.value else EMPTY_ROW;
      var next;
      var completed;
      if lesson.isVideo {
        next := VideoValues(lesson, previous, input);
        completed := next.duration.value > 0 && next.percent >= COMPLETION_THRESHOLD;
      } else {
        next := DocumentValues(previous, input);
        completed := next.documentPercent >= COMPLETION_THRESHOLD;
      }
      row := Some(next);
      status := if completed then Completed else if next.percent > 0 then InProgress else NotStarted;
    }
  }

  // ----- Runs

  datatype Update = Update(lesson: Lesson, input: Input)

  function Run(row: Row, updates: seq<Update>): Row
    decreases |updates|
  {
    if updates == [] then row else Run(Values(updates[0].lesson, row, updates[0].input), updates[1..])
  }

  ghost predicate Valid(row: Row) {
    && 0 <= row.lastPosition <= row.maxWatched && 0 <= row.watched
    && 0 <= row.percent <= 100 && 0 <= row.documentPercent <= 100
    && (row.duration.Some? ==> 0 <= row.duration.value)
  }

  lemma PercentBounds(part: nat, whole: nat)
    requires whole > 0
    ensures 0 <= Percent(part, whole)
  {
  }

  lemma {:induction false} PercentMonotone(a: int, b: int, whole: nat)
    requires whole > 0 && a <= b
    ensures Percent(a, whole) <= Percent(b, whole)
  {
    Quotient(200 * a + whole, 200 * b + whole, 2 * whole);
  }

  lemma Quotient(x: int, y: int, k: nat)
    requires k > 0 && x <= y
    ensures x / k <= y / k
  {
    var p, q := x / k, y / k;
    assert x == p * k + x % k && y == q * k + y % k;
    Scale(q + 1, p, k);
    assert (q + 1) * k == q * k + k;
  }

  lemma Scale(a: int, b: int, k: nat)
    ensures a <= b ==> a * k <= b * k
  {
  }

  lemma StepKeepsValid(row: Row, u: Update)
    requires Valid(row)
    ensures var next := Values(u.lesson, row, u.input);
            && Valid(next)
            && row.maxWatched <= next.maxWatched <= row.maxWatched + MAX_ADVANCE
            && row.documentPercent <= next.documentPercent
  {
    hide Percent, Round;
    if u.lesson.isVideo {
      var next := VideoValues(u.lesson, row, u.input);
      if next.duration.value > 0 {
        PercentBounds(next.watched, next.duration.value);
      }
    }
  }

  /** Over every run from a valid row the position never passes the furthest point watched, that point never
      falls and moves at most 5 seconds per update, and percentages stay in 0..100. */
  lemma {:induction false} RunKeepsValid(row: Row, updates: seq<Update>)
    requires Valid(row)
    ensures var last := Run(row, updates);
            && Valid(last)
            && row.maxWatched <= last.maxWatched <= row.maxWatched + MAX_ADVANCE * |updates|
            && row.documentPercent <= last.documentPercent
    decreases |updates|
  {
    hide Values;
    if updates != [] {
      StepKeepsValid(row, updates[0]);
      RunKeepsValid(Values(updates[0].lesson, row, updates[0].input), updates[1..]);
    }
  }

  /** Every update of the run leaves the same positive duration. */
  ghost predicate FixedDuration(row: Row, updates: seq<Update>, duration: nat)
    decreases |updates|
  {
    updates != [] ==>
      && updates[0].lesson.isVideo && Duration(updates[0].lesson, row, updates[0].input) == duration
      && FixedDuration(Values(updates[0].lesson, row, updates[0].input), updates[1..], duration)
  }

  /** The row has so far been updated with this duration only. */
  ghost predicate Within(row: Row, duration: nat) {
    && Valid(row) && duration > 0 && row.watched <= duration
    && row.percent == Min(100, Percent(row.watched, duration))
  }

  lemma StepUnderFixedDuration(row: Row, u: Update, duration: nat)
    requires Within(row, duration) && u.lesson.isVideo && Duration(u.lesson, row, u.input) == duration
    ensures var next := Values(u.lesson, row, u.input);
            Within(next, duration) && row.watched <= next.watched && row.percent <= next.percent
  {
    StepKeepsValid(row, u);
    hide Percent, Round;
    PercentMonotone(row.watched, Values(u.lesson, row, u.input).watched, duration);
  }

  /** With a fixed positive duration neither the time watched nor the percentage ever falls. */
  lemma {:induction false} RunUnderFixedDuration(row: Row, updates: seq<Update>, duration: nat)
    requires Within(row, duration) && FixedDuration(row, updates, duration)
    ensures var last := Run(row, updates);
            Within(last, duration) && row.watched <= last.watched && row.percent <= last.percent
    decreases |updates|
  {
    hide Values, Percent;
    if updates != [] {
      StepUnderFixedDuration(row, updates[0], duration);
      RunUnderFixedDuration(Values(updates[0].lesson, row, updates[0].input), updates[1..], duration);
    }
  }

  /** Rounding puts the completion mark at 89.5 percent of the duration. */
  lemma CompletionMark(watched: nat, duration: nat)
    requires duration > 0
    ensures Min(100, Percent(watched, duration)) >= COMPLETION_THRESHOLD <==> 200 * watched >= 179 * duration
  {
    var x, k := 200 * watched + duration, 2 * duration;
    assert x == (x / k) * k + x % k;
    Scale(90, x / k, k);
    Scale(x / k + 1, 90, k);
    assert (x / k + 1) * k == (x / k) * k + k;
    assert 90 * k == 180 * duration;
  }

  /** From an empty row, under a fixed positive duration: a lesson is completed exactly once 200 times the
      time watched reaches 179 times the duration, and completion is never lost. */
  lemma CompletionIsKept(first: seq<Update>, more: seq<Update>, duration: nat)
    requires duration > 0 && first != [] && FixedDuration(EMPTY_ROW, first, duration)
    requires FixedDuration(Run(EMPTY_ROW, first), more, duration)
    ensures var row := Run(EMPTY_ROW, first);
            var later := Run(row, more);
            && (row.percent >= COMPLETION_THRESHOLD <==> 200 * row.watched >= 179 * duration)
            && (row.percent >= COMPLETION_THRESHOLD ==> later.percent >= COMPLETION_THRESHOLD)
  {
    hide Percent;
    EmptyWithin(duration);
    RunUnderFixedDuration(EMPTY_ROW, first, duration);
    RunUnderFixedDuration(Run(EMPTY_ROW, first), more, duration);
    CompletionMark(Run(EMPTY_ROW, first).watched, duration);
  }

  lemma EmptyWithin(duration: nat)
    requires duration > 0
    ensures Within(EMPTY_ROW, duration)
  {
    assert duration / (2 * duration) == 0;
  }

  // ----- When completion is lost

  /** The furthest that the update claims, as far as the position it reports is believed. */
  function Claimed(lesson: Lesson, previous: Row, input: Input): int {
    var requested := Min(Cap(Duration(lesson, previous, input)), Max(0, Or(input.lastPosition, previous.lastPosition)));
    if requested <= previous.maxWatched + MAX_ADVANCE then Max(Or(input.watched, requested), requested) else 0
  }

  /** What the update has to say for the lesson to be completed after it: the duration it leaves is positive, and the
    time watched before, or the time it claims, is 89.5 percent of that duration. */
  predicate Completes(lesson: Lesson, previous: Row, input: Input) {
    var duration := Duration(lesson, previous, input);
    duration > 0 && 200 * Max(previous.watched, Claimed(lesson, previous, input)) >= 179 * duration
  }

  lemma WatchedAfter(lesson: Lesson, row: Row, input: Input)
    requires Valid(row) && lesson.isVideo
    ensures var next := Values(lesson, row, input);
            var far := Max(row.watched, Claimed(lesson, row, input));
            && 0 <= next.watched
            && (next.watched == far || next.watched == Cap(Duration(lesson, row, input)) < far || next.watched == row.watched == far)
            && next.duration == Some(Duration(lesson, row, input))
  {
    hide Round, Percent;
  }

  /** From any row, completed or not, an update leaves the lesson completed exactly when it says enough.  So it takes
    completion away exactly when the duration it leaves is 0, or too long for what has been watched. */
  lemma CompletedAfterIff(lesson: Lesson, row: Row, input: Input)
    requires Valid(row) && lesson.isVideo
    ensures IsCompleted(lesson, Values(lesson, row, input)) <==> Completes(lesson, row, input)
    ensures var d := Duration(lesson, row, input);
            IsCompleted(lesson, Values(lesson, row, input)) <==> d > 0 && 200 * Values(lesson, row, input).watched >= 179 * d
  {
    WatchedAfter(lesson, row, input);
    var next, duration := Values(lesson, row, input), Duration(lesson, row, input);
    if duration > 0 {
      CompletionMark(next.watched, duration);
    }
    hide Claimed, Duration, Or;
  }

  /** Every update of the run is of this video lesson. */
  predicate OfVideo(lesson: Lesson, updates: seq<Update>) {
    lesson.isVideo && forall u <- updates :: u.lesson == lesson
  }

  lemma {:induction false} RunSnoc(row: Row, updates: seq<Update>, u: Update)
    ensures Run(row, updates + [u]) == Values(u.lesson, Run(row, updates), u.input)
    decreases |updates|
  {
    hide Values;
    if updates == [] {
      assert [u][1..] == [];
    } else {
      assert (updates + [u])[1..] == updates[1..] + [u];
      RunSnoc(Values(updates[0].lesson, row, updates[0].input), updates[1..], u);
    }
  }

  /** Over a run, the lesson is completed after each update exactly as that update decides. */
  lemma CompletedInRunIff(lesson: Lesson, row: Row, updates: seq<Update>, k: nat)
    requires Valid(row) && OfVideo(lesson, updates) && k < |updates|
    ensures IsCompleted(lesson, Run(row, updates[..k + 1])) <==> Completes(lesson, Run(row, updates[..k]), updates[k].input)
  {
    assert updates[..k + 1] == updates[..k] + [updates[k]] && updates[k] in updates;
    RunSnoc(row, updates[..k], updates[k]);
    RunKeepsValid(row, updates[..k]);
    CompletedAfterIff(lesson, Run(row, updates[..k]), updates[k].input);
  }

  /** A completed lesson stays completed throughout a run exactly when every update says enough. */
  lemma NeverLostIff(lesson: Lesson, row: Row, updates: seq<Update>)
    requires Valid(row) && OfVideo(lesson, updates) && IsCompleted(lesson, row)
    ensures (forall k :: 0 <= k <= |updates| ==> IsCompleted(lesson, Run(row, updates[..k])))
       <==> (forall k :: 0 <= k < |updates| ==> Completes(lesson, Run(row, updates[..k]), updates[k].input))
  {
    forall k | 0 <= k < |updates|
      ensures IsCompleted(lesson, Run(row, updates[..k + 1])) <==> Completes(lesson, Run(row, updates[..k]), updates[k].input)
    {
      CompletedInRunIff(lesson, row, updates, k);
    }
    assert updates[..0] == [] && Run(row, []) == row;
    hide Completes, IsCompleted, Run;
    if forall k :: 0 <= k < |updates| ==> Completes(lesson, Run(row, updates[..k]), updates[k].input) {
      forall k | 0 <= k <= |updates| ensures IsCompleted(lesson, Run(row, updates[..k])) {
        if k > 0 {
          assert Completes(lesson, Run(row, updates[..k - 1]), updates[k - 1].input);
          assert updates[..(k - 1) + 1] == updates[..k];
        }
      }
    }
    if forall k :: 0 <= k <= |updates| ==> IsCompleted(lesson, Run(row, updates[..k])) {
      forall k | 0 <= k < |updates| ensures Completes(lesson, Run(row, updates[..k]), updates[k].input) {
        assert IsCompleted(lesson, Run(row, updates[..k + 1]));
      }
    }
  }

  /** A longer duration reported later takes completion away again. */
  lemma LongerDurationLosesCompletion()
    ensures var lesson := Lesson(true, None);
            var full := Update(lesson, Input(None, Some(5.0), Some(5.0), None));
            var longer := Update(lesson, Input(None, Some(10.0), None, None));
            && IsCompleted(lesson, Run(EMPTY_ROW, [full]))
            && !IsCompleted(lesson, Run(EMPTY_ROW, [full, longer]))
  {
    var lesson := Lesson(true, None);
    var full := Update(lesson, Input(None, Some(5.0), Some(5.0), None));
    var longer := Update(lesson, Input(None, Some(10.0), None, None));
    assert Round(5.0) == 5 && Round(10.0) == 10;
    var row := Values(lesson, EMPTY_ROW, full.input);
    assert row == Row(100, 5, Some(5), 5, 5, 0);
    assert Values(lesson, row, longer.input) == Row(50, 5, Some(10), 5, 5, 0);
    assert [full, longer][1..] == [longer] && [longer][1..] == [] && [full][1..] == [];
    assert Run(EMPTY_ROW, [full]) == row;
    assert Run(row, [longer]) == Values(lesson, row, longer.input);
  }

  // ----- An update, part by part

  /** The whole number nearest to `x`, the upper one when two are as near. */
  predicate Nearest(n: int, x: real) {
    n as real - 0.5 <= x < n as real + 0.5
  }

  /** The number reported, rounded, or the one to use when nothing is reported. */
  predicate Reported(n: int, report: Option<real>, otherwise: int) {
    if report.Some? then Nearest(n, report.value) else n == otherwise
  }

  /** `n` is `x`, brought to the nearest end of the range if outside it. */
  predicate Clamped(n: int, x: int, low: int, high: int) {
    low <= n <= high && (n == x || (n == low && x < low) || (n == high && x > high))
  }

  lemma OrIsReported(report: Option<real>, otherwise: int)
    ensures Reported(Or(report, otherwise), report, otherwise)
  {
  }

  /** The duration reported, or the one on record, or the minutes of the lesson times 60; never below 0. */
  lemma DurationTold(lesson: Lesson, previous: Row, input: Input)
    requires lesson.isVideo
    ensures var next := Values(lesson, previous, input);
            && next.duration.Some? && next.duration.value >= 0
            && (input.duration.Some? && input.duration.value >= 0.5 ==> Nearest(next.duration.value, input.duration.value))
            && (input.duration.Some? && input.duration.value < 0.5 ==> next.duration.value == 0)
            && (input.duration.None? && previous.duration.Some? && previous.duration.value >= 0 ==> next.duration == previous.duration)
            && (input.duration.None? && previous.duration.None? && lesson.durationMinutes.Some? && lesson.durationMinutes.value >= 0 ==>
                next.duration.value == lesson.durationMinutes.value * 60)
            && (input.duration.None? && previous.duration.None? && lesson.durationMinutes.None? ==> next.duration.value == 0)
  {
    hide Percent;
  }

  /** The largest value a position or a time watched can take: the duration, or for an unknown one the largest safe integer. */
  predicate LimitOf(limit: int, next: Row) {
    next.duration.Some? && limit == if next.duration.value > 0 then next.duration.value else 9_007_199_254_740_991
  }

  /** The position asked for is the one reported or the last one, within 0 and the limit.  It is taken when it lies at most 5
    seconds past the furthest point, and then the time watched is the greatest of the old one, the one reported and the
    position, up to the limit; otherwise both stay. */
  lemma VideoTold(lesson: Lesson, previous: Row, input: Input) returns (limit: int, reported: int, asked: int, claimed: int)
    requires lesson.isVideo
    ensures var next := Values(lesson, previous, input);
            && LimitOf(limit, next)
            && Reported(reported, input.lastPosition, previous.lastPosition) && Clamped(asked, reported, 0, limit)
            && Reported(claimed, input.watched, asked)
            && next.lastPosition == (if asked <= previous.maxWatched + 5 then asked else previous.lastPosition)
            && (asked > previous.maxWatched + 5 ==> next.watched == previous.watched)
            && (asked <= previous.maxWatched + 5 ==>
                  && next.watched <= limit
                  && (next.watched == limit || (next.watched >= previous.watched && next.watched >= claimed && next.watched >= asked))
                  && (next.watched == previous.watched || next.watched == claimed || next.watched == asked
                      || (next.watched == limit && (limit < previous.watched || limit < claimed))))
            && next.maxWatched >= previous.maxWatched && next.maxWatched >= next.lastPosition
            && (next.maxWatched == previous.maxWatched || next.maxWatched == next.lastPosition)
            && next.documentPercent == previous.documentPercent
  {
    hide Percent, Round;
    var duration := Duration(lesson, previous, input);
    limit := Cap(duration);
    reported := Or(input.lastPosition, previous.lastPosition);
    asked := Min(limit, Max(0, reported));
    claimed := Or(input.watched, asked);
    OrIsReported(input.lastPosition, previous.lastPosition);
    OrIsReported(input.watched, asked);
  }

  /** The percentage is the time watched over the duration, rounded to the nearest and at most 100; without a duration it stays. */
  lemma PercentTold(lesson: Lesson, previous: Row, input: Input)
    requires lesson.isVideo
    ensures var next := Values(lesson, previous, input);
            && next.duration.Some?
            && var d := next.duration.value;
               if d <= 0 then next.percent == previous.percent
               else
                 && next.percent <= 100
                 && (next.percent == 100 || 0 <= 200 * next.watched + d - 2 * d * next.percent < 2 * d)
                 && (next.percent == 100 ==> 200 * next.watched >= 199 * d)
  {
    var next := Values(lesson, previous, input);
    var d := next.duration.value;
    if d > 0 {
      PercentNearest(next.watched, d);
    }
    hide Percent, Round;
  }

  lemma PercentNearest(watched: int, d: nat)
    requires d > 0
    ensures 0 <= 200 * watched + d - 2 * d * Percent(watched, d) < 2 * d
    ensures Percent(watched, d) >= 100 <==> 200 * watched >= 199 * d
  {
    var x, k := 200 * watched + d, 2 * d;
    assert x == (x / k) * k + x % k;
    Scale(100, x / k, k);
    Scale(x / k + 1, 100, k);
    assert (x / k + 1) * k == (x / k) * k + k;
    assert 100 * k == 200 * d;
  }

  /** A document keeps the greatest percentage reported so far, up to 100, and nothing else changes. */
  lemma DocumentTold(lesson: Lesson, previous: Row, input: Input)
    requires !lesson.isVideo
    ensures var next := Values(lesson, previous, input);
            && next.percent == next.documentPercent <= 100
            && (next.documentPercent == 100 || (previous.documentPercent <= next.documentPercent
                  && (input.documentPercent.Some? ==> input.documentPercent.value <= next.documentPercent)))
            && (next.documentPercent == previous.documentPercent || input.documentPercent == Some(next.documentPercent)
                || (next.documentPercent == 100 && (previous.documentPercent > 100 || (input.documentPercent.Some? && input.documentPercent.value > 100))))
            && next == previous.(percent := next.percent, documentPercent := next.documentPercent)
  {
  }

  /** Completed from 90 percent on, for a video only with a duration; else in progress above 0 percent. */
  lemma StatusTold(lesson: Lesson, row: Row)
    ensures StatusOf(lesson, row) == Completed <==>
            (if lesson.isVideo then row.duration.Some? && row.duration.value > 0 && row.percent >= 90 else row.documentPercent >= 90)
    ensures StatusOf(lesson, row) == InProgress <==> StatusOf(lesson, row) != Completed && row.percent > 0
  {
  }
}
