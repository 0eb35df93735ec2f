/** When each step of the booking protocol is allowed, and what it writes, in terms of the rows alone. */
module MentorOutcomes {
  import opened Wrappers
  import opened MentorBookings
  import opened MentorCalendars

  // ----- The conditions

  /** Two readable instants, the first after now, from 15 minutes to 4 hours apart. */
  predicate ProperTime(p: Proposal, now: int) {
    p.start.Some? && p.end.Some? && now < p.start.value && 900_000 <= p.end.value - p.start.value <= 14_400_000
  }

  /** Start and end lie on one local day, within one of the mentor's slots of that day. */
  predicate WithinSlot(p: Proposal, slots: seq<Slot>) {
    exists slot <- slots ::
      && p.localStart.dayOfWeek == slot.dayOfWeek && p.localEnd.dayOfWeek == slot.dayOfWeek
      && slot.startMinute <= p.localStart.minute && p.localEnd.minute <= slot.endMinute
  }

  lemma TimeIff(p: Proposal, now: int)
    ensures CheckTime(p, now).None? <==> ProperTime(p, now)
    ensures CheckTime(p, now) == Some(NotInFuture) <==>
            p.start.Some? && p.end.Some? && p.start.value < p.end.value && p.start.value <= now
  {
  }

  lemma SlotIff(p: Proposal, slots: seq<Slot>)
    ensures Fits(p, slots) <==> WithinSlot(p, slots)
  {
    if slot :| slot in slots && slot.dayOfWeek == p.localStart.dayOfWeek && p.localStart.minute >= slot.startMinute && p.localEnd.minute <= slot.endMinute {
    }
  }

  /** The actor is the student or the mentor of this booking. */
  predicate Mine(s: Store, actor: nat, id: nat) {
    id < |s.bookings| && (s.bookings[id].student == actor || s.bookings[id].mentor == actor)
  }

  /** A proposal made by the other party waits for the actor's answer. */
  predicate Answerable(s: Store, actor: nat, id: nat) {
    && Mine(s, actor, id) && s.bookings[id].pendingBy != actor
    && (s.bookings[id].status == Requested || s.bookings[id].status == RescheduleRequested)
  }

  /** No other accepted booking of the mentor's profile or of the student has an instant in common with this one. */
  ghost predicate Clear(s: Store, id: nat)
    requires id < |s.bookings|
  {
    var b := s.bookings[id];
    forall i :: 0 <= i < |s.bookings| && i != id && s.bookings[i].status == Accepted
                && (s.bookings[i].profile == b.profile || s.bookings[i].student == b.student)
                ==> s.bookings[i].end <= b.start || b.end <= s.bookings[i].start
  }

  lemma ClearIff(s: Store, id: nat)
    requires id < |s.bookings|
    ensures HasConflict(s, id) <==> !Clear(s, id)
  {
  }

  /** Only this booking changes: its status, and one more line of history that names the actor and keeps the time. */
  predicate OnlyMoved(s: Store, t: Store, id: nat, to: Status, actor: nat)
    requires id < |s.bookings|
  {
    var b := s.bookings[id];
    t == s.(bookings := s.bookings[id := b.(status := to, history := b.history + [Change(Some(b.status), to, actor, None, b.start, b.end)])])
  }

  // ----- The operations

  /** A booking is requested exactly at a proper time, of a mentor who takes bookings, within one of the mentor's slots; it
    is a proposal of the student's to the mentor of the profile. */
  lemma CreateTold(s: Store, student: nat, profile: nat, p: Proposal, now: int)
    ensures var (t, r) := Create(s, student, profile, p, now);
            && (r.Success? <==> ProperTime(p, now) && profile in s.mentors && s.mentors[profile].bookable && WithinSlot(p, s.mentors[profile].slots))
            && (r == Failure(NotInFuture) <==> p.start.Some? && p.end.Some? && p.start.value < p.end.value && p.start.value <= now)
            && (r.Failure? ==> t == s)
            && (r.Success? ==>
                  && r.value == |s.bookings|
                  && var start, end := p.start.value, p.end.value;
                     t == s.(bookings := s.bookings + [
                       Booking(profile, s.mentors[profile].userId, student, start, end, Requested, student,
                               [Change(None, Requested, student, None, start, end)])]))
  {
    TimeIff(p, now);
    if profile in s.mentors {
      SlotIff(p, s.mentors[profile].slots);
    }
    hide Fits, WithinSlot, CheckTime;
  }

  /** A proposal is accepted exactly by the other party and when no other accepted booking is in the way. */
  lemma AcceptTold(s: Store, actor: nat, id: nat)
    ensures var (t, r) := Accept(s, actor, id);
            && (r.Success? <==> Answerable(s, actor, id) && Clear(s, id))
            && (r == Failure(Overlap) <==> Answerable(s, actor, id) && !Clear(s, id))
            && (r.Failure? ==> t == s) && (r.Success? ==> OnlyMoved(s, t, id, Accepted, actor))
  {
    if id < |s.bookings| {
      ClearIff(s, id);
    }
    hide HasConflict, Clear;
  }

  /** A proposal is rejected exactly by the other party. */
  lemma RejectTold(s: Store, actor: nat, id: nat)
    ensures var (t, r) := Reject(s, actor, id);
            && (r.Success? <==> Answerable(s, actor, id))
            && (r == Failure(OwnProposal) <==>
                (Mine(s, actor, id) && s.bookings[id].pendingBy == actor
                 && (s.bookings[id].status == Requested || s.bookings[id].status == RescheduleRequested)))
            && (r.Failure? ==> t == s) && (r.Success? ==> OnlyMoved(s, t, id, Rejected, actor))
  {
  }

  /** Either party cancels a proposal, its own included, or an accepted booking, and nothing else. */
  lemma CancelTold(s: Store, actor: nat, id: nat)
    ensures var (t, r) := Cancel(s, actor, id);
            && (r.Success? <==> Mine(s, actor, id) && s.bookings[id].status != Rejected && s.bookings[id].status != Cancelled
                                && s.bookings[id].status != Completed)
            && (r.Failure? ==> t == s) && (r.Success? ==> OnlyMoved(s, t, id, Cancelled, actor))
  {
  }

  /** Either party moves an accepted booking to another proper time within a slot of the mentor's; it becomes a proposal of
    that party's, and the history keeps the time it replaces. */
  lemma RescheduleTold(s: Store, actor: nat, id: nat, p: Proposal, now: int)
    ensures var (t, r) := Reschedule(s, actor, id, p, now);
            && (r.Success? <==>
                (ProperTime(p, now) && Mine(s, actor, id) && s.bookings[id].status == Accepted
                 && s.bookings[id].profile in s.mentors && WithinSlot(p, s.mentors[s.bookings[id].profile].slots)))
            && (r.Failure? ==> t == s)
            && (r.Success? ==>
                  var b, start, end := s.bookings[id], p.start.value, p.end.value;
                  t == s.(bookings := s.bookings[id :=
                    Booking(b.profile, b.mentor, b.student, start, end, RescheduleRequested, actor,
                            b.history + [Change(Some(Accepted), RescheduleRequested, actor, Some((b.start, b.end)), start, end)])]))
  {
    TimeIff(p, now);
    if id < |s.bookings| && s.bookings[id].profile in s.mentors {
      SlotIff(p, s.mentors[s.bookings[id].profile].slots);
    }
    hide Fits, WithinSlot, CheckTime;
  }

  /** A session is completed exactly by its mentor, an instructor, once accepted and once both of its two participants have
    joined and left. */
  lemma CompleteTold(s: Store, actor: nat, isInstructor: bool, id: nat)
    ensures var (t, r) := Complete(s, actor, isInstructor, id);
            && (r.Success? <==>
                (id < |s.bookings| && s.bookings[id].mentor == actor && isInstructor && s.bookings[id].status == Accepted
                 && s.bookings[id].student != actor && (id, s.bookings[id].student) in s.left && (id, actor) in s.left))
            && (r.Failure? ==> t == s) && (r.Success? ==> OnlyMoved(s, t, id, Completed, actor))
  {
    if id < |s.bookings| {
      CompletedOnlyAttended(s, actor, isInstructor, id);
    }
    hide EndedParticipants;
  }
}
