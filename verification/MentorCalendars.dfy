/** What every run of the booking protocol keeps: calendars without double bookings, histories that
  account for each booking, and agreement of both parties to every accepted time. */
module MentorCalendars {
  import opened Wrappers
  import opened Sorting
  import opened MentorBookings

  // ----- One booking

  /** The transitions the protocol has. */
  predicate Allowed(from: Status, to: Status) {
    match to
    case Requested => false
    case Accepted => IsProposal(from)
    case RescheduleRequested => from == Accepted
    case Rejected => IsProposal(from)
    case Cancelled => IsCancellable(from)
    case Completed => from == Accepted
  }

  /** One line of a history follows another: an allowed transition, which keeps the time or records the time it replaces. */
  predicate Continues(p: Change, q: Change) {
    && q.from == Some(p.to) && Allowed(p.to, q.to)
    && if q.to == RescheduleRequested then q.previous == Some((p.start, p.end))
       else q.previous.None? && q.start == p.start && q.end == p.end
  }

  /** The history leads, by allowed transitions of its participants, from the request to the current state. */
  ghost predicate HistoryOk(b: Booking) {
    && b.history != []
    && b.history[0].from.None? && b.history[0].to == Requested && b.history[0].actor == b.student
    && (forall i :: 0 < i < |b.history| ==> Continues(b.history[i - 1], b.history[i]))
    && (forall c <- b.history :: Participates(b, c.actor))
    && var last := b.history[|b.history| - 1];
       last.to == b.status && last.start == b.start && last.end == b.end
  }

  /** One more line that leads to the booking's new state. */
  lemma HistoryGrows(b: Booking, m: Booking, line: Change)
    requires HistoryOk(b) && m.history == b.history + [line] && m.student == b.student && m.mentor == b.mentor
    requires Continues(b.history[|b.history| - 1], line) && Participates(b, line.actor)
    requires line.to == m.status && line.start == m.start && line.end == m.end
    ensures HistoryOk(m)
  {
    hide Continues;
    forall i | 0 < i < |m.history| ensures Continues(m.history[i - 1], m.history[i]) {
      if i < |b.history| {
        assert m.history[i - 1] == b.history[i - 1] && m.history[i] == b.history[i];
      }
    }
  }

  /** Line `k` accepts, and the line before it proposed, the booking's present time, each by one of the parties. */
  ghost predicate AgreedAt(b: Booking, k: nat) {
    && 0 < k < |b.history|
    && b.history[k].to == Accepted && IsProposal(b.history[k - 1].to)
    && b.history[k - 1].actor == b.pendingBy && b.history[k].actor != b.pendingBy && Participates(b, b.history[k].actor)
    && b.history[k - 1].start == b.start && b.history[k - 1].end == b.end
  }

  /** The latest proposal in the history is by `pendingBy`, and an accepted time has been agreed. */
  ghost predicate ProposalOk(b: Booking) {
    && Participates(b, b.pendingBy)
    && (IsProposal(b.status) ==> b.history != [] && b.history[|b.history| - 1].actor == b.pendingBy)
    && (b.status == Accepted || b.status == Completed ==> exists k: nat :: AgreedAt(b, k))
  }

  ghost predicate BookingOk(b: Booking) {
    && 15 * MINUTE <= b.end - b.start <= 240 * MINUTE
    && HistoryOk(b) && ProposalOk(b)
  }

  /** No two accepted bookings of one mentor profile, or of one student, overlap. */
  ghost predicate Apart(a: Booking, b: Booking) {
    a.status == Accepted && b.status == Accepted && SharesParty(a, b) ==> !Overlaps(a, b.start, b.end)
  }

  ghost predicate Valid(s: Store) {
    && (forall b <- s.bookings :: BookingOk(b))
    && (forall i, j :: 0 <= i < j < |s.bookings| ==> Apart(s.bookings[i], s.bookings[j]))
  }

  lemma MovedOk(b: Booking, to: Status, actor: nat)
    requires BookingOk(b) && Allowed(b.status, to) && Participates(b, actor) && to != RescheduleRequested
    requires to == Accepted ==> actor != b.pendingBy
    ensures BookingOk(Moved(b, to, actor))
  {
    var m := Moved(b, to, actor);
    HistoryGrows(b, m, m.history[|b.history|]);
    if to == Accepted {
      assert AgreedAt(m, |b.history|);
    } else if to == Completed {
      var k: nat :| AgreedAt(b, k);
      assert AgreedAt(m, k);
    }
  }

  lemma RescheduledOk(b: Booking, start: int, end: int, actor: nat)
    requires BookingOk(b) && b.status == Accepted && Participates(b, actor) && 15 * MINUTE <= end - start <= 240 * MINUTE
    ensures BookingOk(Rescheduled(b, start, end, actor))
  {
    var m := Rescheduled(b, start, end, actor);
    HistoryGrows(b, m, m.history[|b.history|]);
  }

  // ----- The whole table

  lemma PutKeepsValid(s: Store, id: nat, b: Booking)
    requires Valid(s) && id < |s.bookings| && BookingOk(b)
    requires b.status != Accepted || (b.start == s.bookings[id].start && b.end == s.bookings[id].end && b.profile == s.bookings[id].profile
                                      && b.student == s.bookings[id].student && !HasConflict(s, id))
    ensures Valid(Put(s, id, b))
  {
    hide BookingOk;
    var s' := Put(s, id, b);
    forall i, j | 0 <= i < j < |s'.bookings| ensures Apart(s'.bookings[i], s'.bookings[j]) {
      assert Apart(s.bookings[i], s.bookings[j]);
    }
  }

  lemma StepKeepsValid(s: Store, op: Op)
    requires Valid(s)
    ensures Valid(Step(s, op))
  {
    hide HistoryOk, ProposalOk;
    match op
    case CreateOp(student, profile, p, now) =>
      if Create(s, student, profile, p, now).1.Success? {
        CreatedOk(s, student, profile, p, now);
      }
    case AcceptOp(actor, id) =>
      if Accept(s, actor, id).1.Success? {
        MovedOk(s.bookings[id], Accepted, actor);
        PutKeepsValid(s, id, Moved(s.bookings[id], Accepted, actor));
      }
    case RejectOp(actor, id) =>
      if Reject(s, actor, id).1.Success? {
        MovedOk(s.bookings[id], Rejected, actor);
        PutKeepsValid(s, id, Moved(s.bookings[id], Rejected, actor));
      }
    case CancelOp(actor, id) =>
      if Cancel(s, actor, id).1.Success? {
        MovedOk(s.bookings[id], Cancelled, actor);
        PutKeepsValid(s, id, Moved(s.bookings[id], Cancelled, actor));
      }
    case RescheduleOp(actor, id, p, now) =>
      if Reschedule(s, actor, id, p, now).1.Success? {
        RescheduledOk(s.bookings[id], p.start.value, p.end.value, actor);
        PutKeepsValid(s, id, Rescheduled(s.bookings[id], p.start.value, p.end.value, actor));
      }
    case CompleteOp(actor, isInstructor, id) =>
      if Complete(s, actor, isInstructor, id).1.Success? {
        MovedOk(s.bookings[id], Completed, actor);
        PutKeepsValid(s, id, Moved(s.bookings[id], Completed, actor));
      }
    case LeaveOp(_, _) =>
    case MentorsOp(_) =>
  }

  lemma CreatedOk(s: Store, student: nat, profile: nat, p: Proposal, now: int)
    requires Valid(s) && Create(s, student, profile, p, now).1.Success?
    ensures Valid(Create(s, student, profile, p, now).0)
  {
    var s' := Create(s, student, profile, p, now).0;
    var n := |s.bookings|;
    assert BookingOk(s'.bookings[n]);
    hide BookingOk;
    forall i, j | 0 <= i < j < |s'.bookings| ensures Apart(s'.bookings[i], s'.bookings[j]) {
      if j < n {
        assert Apart(s.bookings[i], s.bookings[j]);
      }
    }
  }

  lemma {:induction false} RunKeepsValid(s: Store, ops: seq<Op>)
    requires Valid(s)
    ensures Valid(Run(s, ops))
    decreases |ops|
  {
    hide Step, Valid;
    if ops != [] {
      StepKeepsValid(s, ops[0]);
      RunKeepsValid(Step(s, ops[0]), ops[1..]);
    }
  }

  /** In every reachable state, accepted bookings of one mentor profile or of one student never overlap. */
  lemma NoDoubleBooking(mentors: map<nat, Mentor>, ops: seq<Op>, i: nat, j: nat)
    requires i < |Run(Store(mentors, [], {}), ops).bookings| && j < |Run(Store(mentors, [], {}), ops).bookings| && i != j
    ensures var s := Run(Store(mentors, [], {}), ops);
            var a, b := s.bookings[i], s.bookings[j];
            a.status == Accepted && b.status == Accepted && (a.profile == b.profile || a.student == b.student) ==>
              a.end <= b.start || b.end <= a.start
  {
    hide BookingOk;
    RunKeepsValid(Store(mentors, [], {}), ops);
    var s := Run(Store(mentors, [], {}), ops);
    assert i < j ==> Apart(s.bookings[i], s.bookings[j]);
    assert j < i ==> Apart(s.bookings[j], s.bookings[i]);
  }

  /** A time is accepted only after one party proposed it and the other agreed; someone who books
      a session with themselves never gets it accepted. */
  lemma BothPartiesAgreed(mentors: map<nat, Mentor>, ops: seq<Op>, i: nat)
    requires i < |Run(Store(mentors, [], {}), ops).bookings|
    ensures var b := Run(Store(mentors, [], {}), ops).bookings[i];
            && (b.status == Accepted || b.status == Completed ==>
                b.student != b.mentor
                && exists k: nat :: AgreedAt(b, k) && {b.history[k - 1].actor, b.history[k].actor} == {b.student, b.mentor})
            && 15 * MINUTE <= b.end - b.start <= 240 * MINUTE
  {
    RunKeepsValid(Store(mentors, [], {}), ops);
    hide Run;
    var b := Run(Store(mentors, [], {}), ops).bookings[i];
    assert BookingOk(b);
    if b.status == Accepted || b.status == Completed {
      var k: nat :| AgreedAt(b, k);
      assert {b.history[k - 1].actor, b.history[k].actor} == {b.student, b.mentor};
    }
  }

  /** A settled booking: rejected, cancelled or completed. */
  predicate Settled(b: Booking) {
    b.status == Rejected || b.status == Cancelled || b.status == Completed
  }

  /** Settled bookings never change, parties never change, and histories only grow. */
  lemma {:induction false} RunOnlyAppends(s: Store, ops: seq<Op>, i: nat)
    requires i < |s.bookings|
    ensures var s' := Run(s, ops);
            && i < |s'.bookings|
            && s.bookings[i].history <= s'.bookings[i].history
            && s'.bookings[i].student == s.bookings[i].student && s'.bookings[i].profile == s.bookings[i].profile && s'.bookings[i].mentor == s.bookings[i].mentor
            && (Settled(s.bookings[i]) ==> s'.bookings[i] == s.bookings[i])
    decreases |ops|
  {
    if ops != [] {
      StepOnlyAppends(s, ops[0], i);
      hide Step;
      RunOnlyAppends(Step(s, ops[0]), ops[1..], i);
    }
  }

  lemma StepOnlyAppends(s: Store, op: Op, i: nat)
    requires i < |s.bookings|
    ensures var s' := Step(s, op);
            && i < |s'.bookings|
            && s.bookings[i].history <= s'.bookings[i].history
            && s'.bookings[i].student == s.bookings[i].student && s'.bookings[i].profile == s.bookings[i].profile && s'.bookings[i].mentor == s.bookings[i].mentor
            && (Settled(s.bookings[i]) ==> s'.bookings[i] == s.bookings[i])
  {
    hide HasConflict, EndedParticipants, Fits, CheckTime;
  }

  /** A participant can accept a booking exactly when it is an open proposal of the other party and, accepted, leaves
    the calendars free of double bookings. */
  lemma AcceptIff(s: Store, actor: nat, id: nat)
    requires Valid(s) && id < |s.bookings|
    ensures var b := s.bookings[id];
            Accept(s, actor, id).1.Success? <==>
            && Participates(b, actor) && IsProposal(b.status) && actor != b.pendingBy
            && Valid(Put(s, id, Moved(b, Accepted, actor)))
  {
    var b := s.bookings[id];
    var t := Put(s, id, Moved(b, Accepted, actor));
    hide BookingOk;
    if Participates(b, actor) && IsProposal(b.status) && actor != b.pendingBy {
      if HasConflict(s, id) {
        var i :| 0 <= i < |s.bookings| && i != id && s.bookings[i].status == Accepted
          && Overlaps(s.bookings[i], b.start, b.end) && SharesParty(s.bookings[i], b);
        assert t.bookings[i] == s.bookings[i];
        assert !Apart(t.bookings[i], t.bookings[id]) && !Apart(t.bookings[id], t.bookings[i]);
      } else {
        StepKeepsValid(s, AcceptOp(actor, id));
      }
    }
  }

  /** A session is completed only after both of its participants have joined and left it. */
  lemma CompletedOnlyAttended(s: Store, actor: nat, isInstructor: bool, id: nat)
    requires id < |s.bookings|
    ensures Complete(s, actor, isInstructor, id).1.Success? <==>
            && s.bookings[id].status == Accepted && actor == s.bookings[id].mentor && isInstructor
            && s.bookings[id].student != s.bookings[id].mentor
            && (id, s.bookings[id].student) in s.left && (id, s.bookings[id].mentor) in s.left
  {
    var b := s.bookings[id];
    var there := set u | u in {b.student, b.mentor} && (id, u) in s.left;
    if b.student in there && b.mentor in there {
      assert there == {b.student, b.mentor};
    } else if b.student in there {
      assert there == {b.student};
    } else if b.mentor in there {
      assert there == {b.mentor};
    } else {
      assert there == {};
    }
  }

  // ----- How much fits into a calendar

  datatype Interval = Interval(start: int, end: int)

  function IntervalOf(): Booking -> Interval { (b: Booking) => Interval(b.start, b.end) }

  function TotalLength(intervals: seq<Interval>): int {
    if intervals == [] then 0 else intervals[0].end - intervals[0].start + TotalLength(intervals[1..])
  }

  lemma {:induction false} TotalWithout(intervals: seq<Interval>, i: nat)
    requires i < |intervals|
    ensures TotalLength(intervals) == intervals[i].end - intervals[i].start + TotalLength(Without(intervals, i))
  {
    if i > 0 {
      TotalWithout(intervals[1..], i - 1);
      assert Without(intervals, i)[1..] == Without(intervals[1..], i - 1);
    } else {
      assert Without(intervals, 0) == intervals[1..];
    }
  }

  predicate DisjointIntervals(a: Interval, b: Interval) {
    a.end <= b.start || b.end <= a.start
  }

  ghost predicate Packed(intervals: seq<Interval>, from: int, to: int) {
    && (forall i :: 0 <= i < |intervals| ==> from <= intervals[i].start < intervals[i].end <= to)
    && (forall i, j :: 0 <= i < j < |intervals| ==> DisjointIntervals(intervals[i], intervals[j]))
  }

  lemma {:induction false} LastToStart(intervals: seq<Interval>) returns (k: nat)
    requires intervals != []
    ensures k < |intervals| && forall i :: 0 <= i < |intervals| ==> intervals[i].start <= intervals[k].start
  {
    k := 0;
    if |intervals| > 1 {
      var m := LastToStart(intervals[1..]);
      k := if intervals[0].start > intervals[1..][m].start then 0 else m + 1;
      assert forall i :: 0 < i < |intervals| ==> intervals[i].start == intervals[1..][i - 1].start;
    }
  }

  /** Disjoint intervals inside a window are together no longer than the window. */
  lemma {:induction false} PackedLength(intervals: seq<Interval>, from: int, to: int)
    requires from <= to && Packed(intervals, from, to)
    ensures TotalLength(intervals) <= to - from
    decreases |intervals|
  {
    if intervals != [] {
      var k := LastToStart(intervals);
      var rest := Without(intervals, k);
      TotalWithout(intervals, k);
      PackedWithout(intervals, from, to, k);
      PackedLength(rest, from, intervals[k].start);
    }
  }

  lemma PackedWithout(intervals: seq<Interval>, from: int, to: int, k: nat)
    requires Packed(intervals, from, to) && k < |intervals|
    requires forall i :: 0 <= i < |intervals| ==> intervals[i].start <= intervals[k].start
    ensures |Without(intervals, k)| == |intervals| - 1
    ensures Packed(Without(intervals, k), from, intervals[k].start)
  {
    var rest := Without(intervals, k);
    forall i | 0 <= i < |rest| ensures from <= rest[i].start < rest[i].end <= intervals[k].start {
      var j := if i < k then i else i + 1;
      assert rest[i] == intervals[j];
      assert j < k ==> DisjointIntervals(intervals[j], intervals[k]);
      assert k < j ==> DisjointIntervals(intervals[k], intervals[j]);
    }
    forall i, j | 0 <= i < j < |rest| ensures DisjointIntervals(rest[i], rest[j]) {
      var i', j' := if i < k then i else i + 1, if j < k then j else j + 1;
      assert DisjointIntervals(intervals[i'], intervals[j']);
    }
  }

  lemma {:induction false} CountByLength(intervals: seq<Interval>, least: int)
    requires forall i :: 0 <= i < |intervals| ==> least <= intervals[i].end - intervals[i].start
    ensures least * |intervals| <= TotalLength(intervals)
  {
    if intervals != [] {
      CountByLength(intervals[1..], least);
      assert least * |intervals| == least + least * (|intervals| - 1);
    }
  }

  /** A mentor's accepted bookings that lie inside a window. */
  function AcceptedWithin(profile: nat, from: int, to: int): Booking -> bool {
    (b: Booking) => b.profile == profile && b.status == Accepted && from <= b.start && b.end <= to
  }

  function Calendar(s: Store, profile: nat, from: int, to: int): seq<Interval> {
    Map(Select(s.bookings, AcceptedWithin(profile, from, to)), IntervalOf())
  }

  function ApartAsIntervals(): (Booking, Booking) -> bool {
    (a: Booking, b: Booking) => DisjointIntervals(Interval(a.start, a.end), Interval(b.start, b.end))
  }

  lemma {:induction false} MapAt(bookings: seq<Booking>, i: nat)
    requires i < |bookings|
    ensures Map(bookings, IntervalOf())[i] == Interval(bookings[i].start, bookings[i].end)
  {
    if i > 0 {
      MapAt(bookings[1..], i - 1);
    }
  }

  lemma CalendarPacked(s: Store, profile: nat, from: int, to: int)
    requires Valid(s)
    ensures Packed(Calendar(s, profile, from, to), from, to)
    ensures forall x <- Calendar(s, profile, from, to) :: 15 * MINUTE <= x.end - x.start
  {
    hide HistoryOk, ProposalOk;
    var p := AcceptedWithin(profile, from, to);
    var chosen := Select(s.bookings, p);
    var calendar := Calendar(s, profile, from, to);
    forall i, j | 0 <= i < j < |s.bookings| && p(s.bookings[i]) && p(s.bookings[j]) ensures ApartAsIntervals()(s.bookings[i], s.bookings[j]) {
      assert Apart(s.bookings[i], s.bookings[j]);
    }
    SelectPairs(s.bookings, p, ApartAsIntervals());
    forall i | 0 <= i < |calendar|
      ensures calendar[i] == Interval(chosen[i].start, chosen[i].end) && from <= calendar[i].start < calendar[i].end <= to
      ensures 15 * MINUTE <= calendar[i].end - calendar[i].start
    {
      MapAt(chosen, i);
      assert chosen[i] in chosen;
      assert BookingOk(chosen[i]);
    }
    forall i, j | 0 <= i < j < |calendar| ensures DisjointIntervals(calendar[i], calendar[j]) {
      assert ApartAsIntervals()(chosen[i], chosen[j]);
    }
  }

  /** In every reachable state, a mentor's accepted bookings inside a window of T minutes last at most
      T minutes together, and there are at most T / 15 of them. */
  lemma CalendarBound(mentors: map<nat, Mentor>, ops: seq<Op>, profile: nat, from: int, minutes: nat)
    ensures var calendar := Calendar(Run(Store(mentors, [], {}), ops), profile, from, from + minutes * MINUTE);
            && TotalLength(calendar) <= minutes * MINUTE
            && |calendar| <= minutes / 15
  {
    RunKeepsValid(Store(mentors, [], {}), ops);
    hide Run, Valid, Calendar;
    var s := Run(Store(mentors, [], {}), ops);
    var to := from + minutes * MINUTE;
    var calendar := Calendar(s, profile, from, to);
    CalendarPacked(s, profile, from, to);
    PackedLength(calendar, from, to);
    CountByLength(calendar, 15 * MINUTE);
  }
}
