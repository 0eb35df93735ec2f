/** The booking protocol between a student and a mentor. */
module MentorBookings {
  import opened Wrappers

  const MINUTE := 60_000

  datatype Status = Requested | Accepted | RescheduleRequested | Rejected | Cancelled | Completed

  /** A line of the status history; `from` is absent in the first one, `previous` holds the time a rescheduling replaces. */
  datatype Change = Change(from: Option<Status>, to: Status, actor: nat, previous: Option<(int, int)>, start: int, end: int)

  /** `pendingBy` is the user who made the latest proposal. */
  datatype Booking = Booking(
    profile: nat, mentor: nat, student: nat, start: int, end: int, status: Status, pendingBy: nat, history: seq<Change>)

  /** Local weekday and minute of an instant in the mentor's time zone. */
  datatype LocalTime = LocalTime(dayOfWeek: int, minute: int)

  datatype Slot = Slot(dayOfWeek: int, startMinute: int, endMinute: int)

  datatype Mentor = Mentor(userId: nat, bookable: bool, slots: seq<Slot>)

  /** A proposed time; `None` is a date that could not be read. */
  datatype Proposal = Proposal(start: Option<int>, end: Option<int>, localStart: LocalTime, localEnd: LocalTime)

  /** Bookings by id, an id being a position in the table; `left` holds who has joined and left the session of which booking. */
  datatype Store = Store(mentors: map<nat, Mentor>, bookings: seq<Booking>, left: set<(nat, nat)>)

  datatype Error = BadTime | NotInFuture | BadDuration | MentorNotFound | Unavailable | BookingNotFound | WrongStatus | OwnProposal | Overlap | NotMentor | NotAttended

  function CheckTime(p: Proposal, now: int): Option<Error> {
    if p.start.None? || p.end.None? || p.start.value >= p.end.value then Some(BadTime)
    else if p.start.value <= now then Some(NotInFuture)
    else if p.end.value - p.start.value < 15 * MINUTE || p.end.value - p.start.value > 240 * MINUTE then Some(BadDuration)
    else None
  }

  predicate Fits(p: Proposal, slots: seq<Slot>) {
    && p.localStart.dayOfWeek == p.localEnd.dayOfWeek
    && exists slot <- slots :: slot.dayOfWeek == p.localStart.dayOfWeek && p.localStart.minute >= slot.startMinute && p.localEnd.minute <= slot.endMinute
  }

  predicate IsProposal(status: Status) { status == Requested || status == RescheduleRequested }

  predicate IsCancellable(status: Status) { IsProposal(status) || status == Accepted }

  predicate Participates(b: Booking, actor: nat) { actor == b.student || actor == b.mentor }

  predicate Overlaps(b: Booking, start: int, end: int) { b.start < end && start < b.end }

  predicate SharesParty(a: Booking, b: Booking) { a.profile == b.profile || a.student == b.student }

  predicate HasConflict(s: Store, id: nat)
    requires id < |s.bookings|
  {
    var b := s.bookings[id];
    exists i :: 0 <= i < |s.bookings| && i != id && s.bookings[i].status == Accepted
      && Overlaps(s.bookings[i], b.start, b.end) && SharesParty(s.bookings[i], b)
  }

  /** The booking moves to a new status, leaving a line in its history. */
  function Moved(b: Booking, to: Status, actor: nat): Booking {
    b.(status := to, history := b.history + [Change(Some(b.status), to, actor, None, b.start, b.end)])
  }

  /** The booking gets a new time, which the other party has yet to accept. */
  function Rescheduled(b: Booking, start: int, end: int, actor: nat): Booking {
    b.(start := start, end := end, pendingBy := actor, status := RescheduleRequested,
       history := b.history + [Change(Some(b.status), RescheduleRequested, actor, Some((b.start, b.end)), start, end)])
  }

  function Put(s: Store, id: nat, b: Booking): Store
    requires id < |s.bookings|
  {
    s.(bookings := s.bookings[id := b])
  }

  predicate Found(s: Store, actor: nat, id: nat) {
    id < |s.bookings| && Participates(s.bookings[id], actor)
  }

  // ----- Transactions

  function Create(s: Store, student: nat, profile: nat, p: Proposal, now: int): (Store, Result<nat, Error>) {
    if CheckTime(p, now).Some? then (s, Failure(CheckTime(p, now).value))
    else if profile !in s.mentors || !s.mentors[profile].bookable then (s, Failure(MentorNotFound))
    else if !Fits(p, s.mentors[profile].slots) then (s, Failure(Unavailable))
    else
      var start, end := p.start.value, p.end.value;
      var b := Booking(profile, s.mentors[profile].userId, student, start, end, Requested, student, [Change(None, Requested, student, None, start, end)]);
      (s.(bookings := s.bookings + [b]), Success(|s.bookings|))
  }

  function Accept(s: Store, actor: nat, id: nat): (Store, Result<Status, Error>) {
    if !Found(s, actor, id) then (s, Failure(BookingNotFound))
    else if !IsProposal(s.bookings[id].status) then (s, Failure(WrongStatus))
    else if s.bookings[id].pendingBy == actor then (s, Failure(OwnProposal))
    else if HasConflict(s, id) then (s, Failure(Overlap))
    else (Put(s, id, Moved(s.bookings[id], Accepted, actor)), Success(Accepted))
  }

  function Reject(s: Store, actor: nat, id: nat): (Store, Result<Status, Error>) {
    if !Found(s, actor, id) then (s, Failure(BookingNotFound))
    else if !IsProposal(s.bookings[id].status) then (s, Failure(WrongStatus))
    else if s.bookings[id].pendingBy == actor then (s, Failure(OwnProposal))
    else (Put(s, id, Moved(s.bookings[id], Rejected, actor)), Success(Rejected))
  }

  function Cancel(s: Store, actor: nat, id: nat): (Store, Result<Status, Error>) {
    if !Found(s, actor, id) then (s, Failure(BookingNotFound))
    else if !IsCancellable(s.bookings[id].status) then (s, Failure(WrongStatus))
    else (Put(s, id, Moved(s.bookings[id], Cancelled, actor)), Success(Cancelled))
  }

  function Reschedule(s: Store, actor: nat, id: nat, p: Proposal, now: int): (Store, Result<Status, Error>) {
    if CheckTime(p, now).Some? then (s, Failure(CheckTime(p, now).value))
    else if !Found(s, actor, id) then (s, Failure(BookingNotFound))
    else if s.bookings[id].status != Accepted then (s, Failure(WrongStatus))
    else if s.bookings[id].profile !in s.mentors || !Fits(p, s.mentors[s.bookings[id].profile].slots) then (s, Failure(Unavailable))
    else (Put(s, id, Rescheduled(s.bookings[id], p.start.value, p.end.value, actor)), Success(RescheduleRequested))
  }

  /** How many of the two participants have joined and left. */
  function EndedParticipants(s: Store, id: nat): nat
    requires id < |s.bookings|
  {
    |set u | u in {s.bookings[id].student, s.bookings[id].mentor} && (id, u) in s.left|
  }

  function Complete(s: Store, actor: nat, isInstructor: bool, id: nat): (Store, Result<Status, Error>) {
    if !Found(s, actor, id) then (s, Failure(BookingNotFound))
    else if s.bookings[id].mentor != actor || !isInstructor then (s, Failure(NotMentor))
    else if s.bookings[id].status != Accepted then (s, Failure(WrongStatus))
    else if EndedParticipants(s, id) != 2 then (s, Failure(NotAttended))
    else (Put(s, id, Moved(s.bookings[id], Completed, actor)), Success(Completed))
  }

  class MentorBookingsService {
    var mentors: map<nat, Mentor>
    var bookings: seq<Booking>
    var left: set<(nat, nat)>

    function State(): Store
      reads this
    {
      Store(mentors, bookings, left)
    }

    constructor (mentors: map<nat, Mentor>)
      ensures State() == Store(mentors, [], {})
    {
      this.mentors, bookings, left := mentors, [], {};
    }

    method CreateBooking(student: nat, profile: nat, p: Proposal, now: int) returns (r: Result<nat, Error>)
      modifies this`bookings
      ensures (State(), r) == Create(old(State()), student, profile, p, now)
    {
      var error := CheckTime(p, now);
      if error.Some? {
        return Failure(error.value);
      }
      if profile !in mentors || !mentors[profile].bookable {
        return Failure(MentorNotFound);
      }
      if !Fits(p, mentors[profile].slots) {
        return Failure(Unavailable);
      }
      var start, end := p.start.value, p.end.value;
      bookings := bookings + [Booking(profile, mentors[profile].userId, student, start, end, Requested, student,
                                      [Change(None, Requested, student, None, start, end)])];
      r := Success(|bookings| - 1);
    }

    /** The update and history line that every transition writes. */
    method Transition(id: nat, to: Status, actor: nat)
      requires id < |bookings|
      modifies this`bookings
      ensures bookings == old(bookings)[id := Moved(old(bookings)[id], to, actor)]
    {
      var b := bookings[id];
      var line := Change(Some(b.status), to, actor, None, b.start, b.end);
      bookings := bookings[id := b.(status := to, history := b.history + [line])];
    }

    method AcceptBooking(actor: nat, id: nat) returns (r: Result<Status, Error>)
      modifies this`bookings
      ensures (State(), r) == Accept(old(State()), actor, id)
    {
      if !Found(State(), actor, id) {
        return Failure(BookingNotFound);
      }
      if !IsProposal(bookings[id].status) {
        return Failure(WrongStatus);
      }
      if bookings[id].pendingBy == actor {
        return Failure(OwnProposal);
      }
      if HasConflict(State(), id) {
        return Failure(Overlap);
      }
      Transition(id, Accepted, actor);
      r := Success(Accepted);
    }

    method RejectBooking(actor: nat, id: nat) returns (r: Result<Status, Error>)
      modifies this`bookings
      ensures (State(), r) == Reject(old(State()), actor, id)
    {
      if !Found(State(), actor, id) {
        return Failure(BookingNotFound);
      }
      if !IsProposal(bookings[id].status) {
        return Failure(WrongStatus);
      }
      if bookings[id].pendingBy == actor {
        return Failure(OwnProposal);
      }
      Transition(id, Rejected, actor);
      r := Success(Rejected);
    }

    method CancelBooking(actor: nat, id: nat) returns (r: Result<Status, Error>)
      modifies this`bookings
      ensures (State(), r) == Cancel(old(State()), actor, id)
    {
      if !Found(State(), actor, id) {
        return Failure(BookingNotFound);
      }
      if !IsCancellable(bookings[id].status) {
        return Failure(WrongStatus);
      }
      Transition(id, Cancelled, actor);
      r := Success(Cancelled);
    }

    method RescheduleBooking(actor: nat, id: nat, p: Proposal, now: int) returns (r: Result<Status, Error>)
      modifies this`bookings
      ensures (State(), r) == Reschedule(old(State()), actor, id, p, now)
    {
      var error := CheckTime(p, now);
      if error.Some? {
        return Failure(error.value);
      }
      if !Found(State(), actor, id) {
        return Failure(BookingNotFound);
      }
      if bookings[id].status != Accepted {
        return Failure(WrongStatus);
      }
      if bookings[id].profile !in mentors || !Fits(p, mentors[bookings[id].profile].slots) {
        return Failure(Unavailable);
      }
      var b := bookings[id];
      var line := Change(Some(b.status), RescheduleRequested, actor, Some((b.start, b.end)), p.start.value, p.end.value);
      bookings := bookings[id := b.(start := p.start.value, end := p.end.value, pendingBy := actor,
                                    status := RescheduleRequested, history := b.history + [line])];
      r := Success(RescheduleRequested);
    }

    method CompleteBooking(actor: nat, isInstructor: bool, id: nat) returns (r: Result<Status, Error>)
      modifies this`bookings
      ensures (State(), r) == Complete(old(State()), actor, isInstructor, id)
    {
      if !Found(State(), actor, id) {
        return Failure(BookingNotFound);
      }
      if bookings[id].mentor != actor || !isInstructor {
        return Failure(NotMentor);
      }
      if bookings[id].status != Accepted {
        return Failure(WrongStatus);
      }
      if EndedParticipants(State(), id) != 2 {
        return Failure(NotAttended);
      }
      Transition(id, Completed, actor);
      r := Success(Completed);
    }
  }

  // ----- Runs

  datatype Op =
    | CreateOp(student: nat, profile: nat, p: Proposal, now: int)
    | AcceptOp(actor: nat, id: nat)
    | RejectOp(actor: nat, id: nat)
    | CancelOp(actor: nat, id: nat)
    | RescheduleOp(actor: nat, id: nat, p: Proposal, now: int)
    | CompleteOp(actor: nat, isInstructor: bool, id: nat)
    | LeaveOp(id: nat, user: nat)
    | MentorsOp(mentors: map<nat, Mentor>)

  function Step(s: Store, op: Op): Store {
    match op
    case CreateOp(student, profile, p, now) => Create(s, student, profile, p, now).0
    case AcceptOp(actor, id) => Accept(s, actor, id).0
    case RejectOp(actor, id) => Reject(s, actor, id).0
    case CancelOp(actor, id) => Cancel(s, actor, id).0
    case RescheduleOp(actor, id, p, now) => Reschedule(s, actor, id, p, now).0
    case CompleteOp(actor, isInstructor, id) => Complete(s, actor, isInstructor, id).0
    case LeaveOp(id, user) => s.(left := s.left + {(id, user)})
    case MentorsOp(mentors) => s.(mentors := mentors)
  }

  function Run(s: Store, ops: seq<Op>): Store
    decreases |ops|
  {
    if ops == [] then s else Run(Step(s, ops[0]), ops[1..])
  }
}
