/** Entitlement values and the window in which a use of a metered grant is counted. */
module UsageWindows {
  import opened Wrappers
  import opened Calendar

  datatype ValueType = Flag | Metered | Unlimited

  datatype ResetPeriod = NoReset | CalendarMonth | MembershipTerm

  datatype Facts = Facts(valueType: ValueType, reset: ResetPeriod, flag: Option<bool>, quota: Option<int>)

  predicate MatchesSemantics(f: Facts) {
    || (f.valueType == Flag && f.reset == NoReset && f.flag.Some? && f.quota.None?)
    || (f.valueType == Metered && f.flag.None? && f.quota.Some? && f.quota.value > 0)
    || (f.valueType == Unlimited && f.reset == NoReset && f.flag.None? && f.quota.None?)
  }

  datatype Window = Window(startsAt: int, endsAt: Option<int>)

  predicate Contains(w: Window, at: int) {
    w.startsAt <= at && (w.endsAt.Some? ==> at < w.endsAt.value)
  }

  /** `entitlementUsageWindow`. */
  function UsageWindow(reset: ResetPeriod, startsAt: int, endsAt: Option<int>, at: int): Window {
    if reset != CalendarMonth then Window(startsAt, endsAt)
    else
      var monthStart := DateUtc(UtcFullYear(at), UtcMonth(at), 1);
      var nextMonth := DateUtc(UtcFullYear(at), UtcMonth(at) + 1, 1);
      Window(if monthStart < startsAt then startsAt else monthStart,
             if endsAt.Some? && endsAt.value < nextMonth then endsAt else Some(nextMonth))
  }

  /** The years that `Date.UTC` takes to mean 1900 to 1999. */
  predicate InFirstCentury(at: int) {
    0 <= UtcFullYear(at) <= 99
  }

  /** The month whose window an instant is given. */
  function MonthRead(at: int): int {
    MonthOf(at) + if InFirstCentury(at) then 12 * 1900 else 0
  }

  lemma MonthWindow(startsAt: int, endsAt: Option<int>, at: int)
    ensures var mi := MonthRead(at);
            UsageWindow(CalendarMonth, startsAt, endsAt, at) ==
            Window(if MonthInstant(mi) < startsAt then startsAt else MonthInstant(mi),
                   if endsAt.Some? && endsAt.value < MonthInstant(mi + 1) then endsAt else Some(MonthInstant(mi + 1)))
  {
    hide MonthStart;
    assert MonthOf(at) == 12 * UtcFullYear(at) + UtcMonth(at);
  }

  /** Every instant of a grant lies in its own window, unless it lies in years 0 to 99 of a monthly grant. */
  lemma OwnWindow(reset: ResetPeriod, startsAt: int, endsAt: Option<int>, at: int)
    requires Contains(Window(startsAt, endsAt), at)
    ensures Contains(UsageWindow(reset, startsAt, endsAt, at), at) <==> reset != CalendarMonth || !InFirstCentury(at)
  {
    if reset == CalendarMonth {
      hide MonthStart;
      MonthWindow(startsAt, endsAt, at);
      MonthOfBounds(at);
      if InFirstCentury(at) {
        MonthInstantMonotone(MonthOf(at) + 1, MonthOf(at) + 12 * 1900);
      }
    }
  }

  ghost predicate Disjoint(v: Window, w: Window) {
    forall t: int :: !(Contains(v, t) && Contains(w, t))
  }

  lemma ReadNoEarlier(at: int)
    ensures at < MonthInstant(MonthRead(at) + 1)
    ensures MonthInstant(MonthRead(at)) <= at <==> !InFirstCentury(at)
  {
    hide MonthStart, MonthOfDay;
    MonthOfBounds(at);
    if InFirstCentury(at) {
      MonthInstantMonotone(MonthOf(at) + 1, MonthOf(at) + 12 * 1900);
      MonthInstantMonotone(MonthOf(at) + 1, MonthRead(at) + 1);
    }
  }

  lemma EarlierMonthEarlierWindow(startsAt: int, endsAt: Option<int>, s: int, t: int)
    requires Contains(Window(startsAt, endsAt), s) && Contains(Window(startsAt, endsAt), t) && MonthRead(s) < MonthRead(t)
    ensures var v := UsageWindow(CalendarMonth, startsAt, endsAt, s);
            var w := UsageWindow(CalendarMonth, startsAt, endsAt, t);
            v != w && Disjoint(v, w) && Disjoint(w, v)
  {
    hide MonthStart, MonthOfDay, UsageWindow, MonthRead;
    MonthWindow(startsAt, endsAt, s);
    MonthWindow(startsAt, endsAt, t);
    ReadNoEarlier(s);
    ReadNoEarlier(t);
    MonthInstantMonotone(MonthRead(s) + 1, MonthRead(t));
    MonthInstantMonotone(MonthRead(s), MonthRead(t));
  }

  /** Monthly windows never reach outside the grant, overlap only when they are the same, and are the same for two
    instants exactly when these are read as the same month: when they share a month, or lie 1900 years apart, the
    earlier one in years 0 to 99. */
  lemma MonthlyWindowsTile(startsAt: int, endsAt: Option<int>, s: int, t: int)
    requires Contains(Window(startsAt, endsAt), s) && Contains(Window(startsAt, endsAt), t)
    ensures var v := UsageWindow(CalendarMonth, startsAt, endsAt, s);
            var w := UsageWindow(CalendarMonth, startsAt, endsAt, t);
            && startsAt <= v.startsAt
            && v.endsAt.Some? && (endsAt.Some? ==> v.endsAt.value <= endsAt.value)
            && (v != w ==> Disjoint(v, w))
            && (v == w <==> MonthRead(s) == MonthRead(t))
            && (InFirstCentury(s) == InFirstCentury(t) ==> (v == w <==> MonthOf(s) == MonthOf(t)))
  {
    MonthWindow(startsAt, endsAt, s);
    MonthWindow(startsAt, endsAt, t);
    hide MonthStart, MonthOfDay, UsageWindow, Disjoint;
    if MonthRead(s) < MonthRead(t) {
      EarlierMonthEarlierWindow(startsAt, endsAt, s, t);
    } else if MonthRead(t) < MonthRead(s) {
      EarlierMonthEarlierWindow(startsAt, endsAt, t, s);
    }
  }
}
