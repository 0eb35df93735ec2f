/** Membership terms: calendar-month arithmetic, change of plan, and prices. */
module MembershipTerms {
  import opened Wrappers
  import opened Calendar

  /** The value inside a `Date` object. */
  datatype DateValue = Valid(time: int) | InvalidDate

  predicate InRange(d: DateValue) {
    d.Valid? ==> -MAX_TIME <= d.time <= MAX_TIME
  }

  function TimeClip(t: int): DateValue {
    if -MAX_TIME <= t <= MAX_TIME then Valid(t) else InvalidDate
  }

  /** The mutable `Date` object that the month arithmetic works on; `None` stands for NaN. */
  class DateObject {
    var value: DateValue

    constructor (v: DateValue)
      ensures value == v
    {
      value := v;
    }

    method SetUtcDate(date: Option<int>)
      modifies this
      ensures value == if old(value).InvalidDate? || date.None? then InvalidDate
                       else TimeClip(MakeDate(MonthStart(MonthOf(old(value).time)) + date.value - 1, TimeWithinDay(old(value).time)))
    {
      if value.InvalidDate? || date.None? {
        value := InvalidDate;
      } else {
        var t := value.time;
        value := TimeClip(MakeDate(MonthStart(MonthOf(t)) + date.value - 1, TimeWithinDay(t)));
      }
    }

    method SetUtcMonth(month: Option<int>)
      modifies this
      ensures value == if old(value).InvalidDate? || month.None? then InvalidDate
                       else TimeClip(MakeDate(MakeDay(UtcFullYear(old(value).time), month.value, UtcDate(old(value).time)), TimeWithinDay(old(value).time)))
    {
      if value.InvalidDate? || month.None? {
        value := InvalidDate;
      } else {
        var t := value.time;
        value := TimeClip(MakeDate(MakeDay(UtcFullYear(t), month.value, UtcDate(t)), TimeWithinDay(t)));
      }
    }
  }

  function Min(a: int, b: int): int { if a <= b then a else b }

  function Max(a: int, b: int): int { if a <= b then b else a }

  /** The last day that the source's lookup through `Date.UTC` finds: wrong for February of year 0 only. */
  function LastDay(mi: int): (n: int)
    ensures 28 <= n <= 31
  {
    if mi == 1 then 28 else MonthLength(mi)
  }

  function LastDayInstant(mi: int): int {
    DateUtc(mi / 12, mi % 12 + 1, 0)
  }

  /** `Date.UTC` reads years 0 to 99 as 1900 to 1999. */
  function ReadMonth(mi: int): int {
    if 0 <= mi / 12 <= 99 then mi + 12 * 1900 else mi
  }

  lemma LookedUpMonth(mi: int)
    ensures LastDayInstant(mi) == MakeDate(MonthStart(ReadMonth(mi)) + MonthLength(ReadMonth(mi)) - 1, 0)
  {
    var read := ReadMonth(mi);
    MonthsAbut(read);
    assert mi == 12 * (mi / 12) + mi % 12;
  }

  lemma ReadMonthLength(mi: int)
    ensures MonthLength(ReadMonth(mi)) == LastDay(mi)
  {
    var y, m := mi / 12, mi % 12;
    if 0 <= y <= 99 {
      assert (mi + 12 * 1900) / 12 == y + 1900 && (mi + 12 * 1900) % 12 == m;
      assert (1900 + y) % 4 == y % 4;
      assert y != 0 ==> IsLeap(1900 + y) == IsLeap(y);
    }
  }

  lemma LookedUpLastDay(mi: int)
    ensures UtcDate(LastDayInstant(mi)) == LastDay(mi)
  {
    LookedUpMonth(mi);
    ReadMonthLength(mi);
    hide MonthStart, LastDay, LastDayInstant, ReadMonth, IsLeap, DaysInMonth;
    PartsOfDate(ReadMonth(mi), MonthLength(ReadMonth(mi)), 0);
  }

  /** Where a term of `months` months from `start` ends, ignoring the range of `Date`. */
  function AddMonths(start: int, months: int): int {
    var target := MonthOf(start) + months;
    MakeDate(MonthStart(target) + Min(UtcDate(start), LastDay(target)) - 1, TimeWithinDay(start))
  }

  /** Every `Date` the computation passes through is within the range of `Date`. */
  predicate StaysInRange(start: int, months: int) {
    && -MAX_TIME <= MakeDate(MonthStart(MonthOf(start)), TimeWithinDay(start))
    && MakeDate(MonthStart(MonthOf(start) + months + 1) - 1, 0) <= MAX_TIME
  }

  lemma FirstOfMonth(start: int)
    ensures var first := MakeDate(MonthStart(MonthOf(start)), TimeWithinDay(start));
            MonthOf(first) == MonthOf(start) && UtcDate(first) == 1 && TimeWithinDay(first) == TimeWithinDay(start) && first <= start
  {
    PartsOfDate(MonthOf(start), 1, TimeWithinDay(start));
    DateParts(start);
  }

  lemma TwentiethCenturyInRange(mi: int)
    requires 12 * 1900 <= mi < 12 * 2000
    ensures -MAX_DAY < MonthStart(mi) < MAX_DAY - 31
  {
    hide MonthStart;
    YearStart(1900);
    MonthSpan(12 * 1900, mi - 12 * 1900);
  }

  lemma FirstCenturyInRange(mi: int)
    requires 0 <= mi <= 1200
    ensures -MAX_DAY < MonthStart(mi) < MAX_DAY
  {
    hide MonthStart;
    YearStart(0);
    MonthSpan(0, mi);
  }

  lemma LastDayInstantRange(mi: int)
    requires -MAX_DAY <= MonthStart(mi)
    ensures (-MAX_TIME <= LastDayInstant(mi) <= MAX_TIME) == (MakeDate(MonthStart(mi + 1) - 1, 0) <= MAX_TIME)
  {
    hide MonthStart, MonthLength;
    MonthsAbut(mi);
    LookedUpMonth(mi);
    if ReadMonth(mi) != mi {
      TwentiethCenturyInRange(ReadMonth(mi));
      FirstCenturyInRange(mi + 1);
    }
  }

  /** The range of `Date` ends on 13 September 275760, which is not the last day of a month. */
  lemma RangeEndsInsideMonth(mi: int)
    requires MonthStart(mi) - 1 <= MAX_DAY
    ensures MonthStart(mi) <= MAX_DAY
  {
    hide MonthStart;
    var september := 12 * 275760 + 8;
    YearStart(275760);
    Quarter(275760, 0);
    Quarter(275760, 1);
    MonthsAbut(september - 2);
    MonthsAbut(september - 1);
    assert MonthStart(september) == MAX_DAY - 12;
    if september < mi {
      MonthStartMonotone(september, mi);
    } else {
      MonthStartMonotone(mi, september);
    }
  }

  /** `addCalendarMonths`: refused for a bad start or length, otherwise the term's end or an Invalid Date. */
  method AddCalendarMonths(start: DateValue, months: int) returns (r: Result<DateValue, string>)
    requires InRange(start)
    ensures r.Failure? <==> months <= 0 || start.InvalidDate?
    ensures r.Success? ==> r.value == if StaysInRange(start.time, months) then Valid(AddMonths(start.time, months)) else InvalidDate
  {
    hide MonthStart, MonthLength, MonthOfDay;
    if months <= 0 || start.InvalidDate? {
      return Failure("A valid start and positive whole-month duration are required.");
    }
    var result := new DateObject(start);
    var t := start.time;
    var originalDay := UtcDate(t);
    result.SetUtcDate(Some(1));
    FirstOfMonth(t);
    if result.value.InvalidDate? {
      result.SetUtcMonth(None);
    } else {
      var month := UtcMonth(result.value.time);
      assert MonthOf(result.value.time) == MonthOf(t);
      result.SetUtcMonth(Some(month + months));
      assert 12 * UtcFullYear(t) + month + months == MonthOf(t) + months;
    }
    ghost var target := MonthOf(t) + months;
    PartsOfDate(target, 1, TimeWithinDay(t));
    if result.value.InvalidDate? {
      // getUTCFullYear() and getUTCMonth() are NaN, and so are the last day and the minimum.
      assert !StaysInRange(t, months) by {
        MonthsAbut(target);
        if -MAX_TIME <= MakeDate(MonthStart(MonthOf(t)), TimeWithinDay(t)) {
          TargetInRange(t, months);
        }
      }
      result.SetUtcDate(None);
    } else {
      var lastDay := TimeClip(DateUtc(UtcFullYear(result.value.time), UtcMonth(result.value.time) + 1, 0));
      assert MonthOf(result.value.time) == target;
      TargetInRange(t, months);
      LastDayInstantRange(target);
      if lastDay.InvalidDate? {
        result.SetUtcDate(None);
      } else {
        LookedUpLastDay(target);
        result.SetUtcDate(Some(Min(originalDay, UtcDate(lastDay.time))));
        AddMonthsInRange(t, months);
      }
    }
    r := Success(result.value);
  }

  lemma TargetInRange(t: int, months: int)
    requires months > 0
    requires -MAX_TIME <= MakeDate(MonthStart(MonthOf(t)), TimeWithinDay(t))
    ensures -MAX_DAY <= MonthStart(MonthOf(t) + months)
  {
    MonthStartMonotone(MonthOf(t), MonthOf(t) + months);
  }

  lemma AddMonthsInRange(t: int, months: int)
    requires months > 0 && StaysInRange(t, months)
    ensures -MAX_TIME <= AddMonths(t, months) <= MAX_TIME
  {
    TargetInRange(t, months);
    AddMonthsInTarget(t, months);
    RangeEndsInsideMonth(MonthOf(t) + months + 1);
  }

  lemma AddMonthsInTarget(t: int, n: int)
    ensures var target := MonthOf(t) + n;
            MakeDate(MonthStart(target), 0) <= AddMonths(t, n) < MakeDate(MonthStart(target + 1), 0)
  {
    MonthsAbut(MonthOf(t) + n);
    LastDayFits(MonthOf(t) + n);
  }

  lemma LastDayFits(mi: int)
    ensures LastDay(mi) <= MonthLength(mi)
  {
    assert MonthLength(1) == 29;
  }

  // ----- Laws of the month arithmetic

  lemma AddMonthsParts(t: int, n: int)
    ensures var r := AddMonths(t, n);
            && MonthOf(r) == MonthOf(t) + n
            && UtcDate(r) == Min(UtcDate(t), LastDay(MonthOf(t) + n))
            && TimeWithinDay(r) == TimeWithinDay(t)
  {
    var target := MonthOf(t) + n;
    LastDayFits(target);
    DateParts(t);
    PartsOfDate(target, Min(UtcDate(t), LastDay(target)), TimeWithinDay(t));
  }

  /** The day is clamped to the last day of the target month, unless that is February of year 0. */
  lemma ClampExact(t: int, n: int)
    ensures UtcDate(AddMonths(t, n)) == Min(UtcDate(t), MonthLength(MonthOf(t) + n))
            <==> !(MonthOf(t) + n == 1 && UtcDate(t) > 28)
  {
    AddMonthsParts(t, n);
    assert MonthLength(1) == 29;
  }

  /** Two starts whose days clamp to the same day, the earlier one later in its day. */
  predicate ClampedOutOfOrder(s: int, t: int, n: int) {
    && MonthOf(s) == MonthOf(t)
    && LastDay(MonthOf(s) + n) <= UtcDate(s) < UtcDate(t)
    && TimeWithinDay(t) < TimeWithinDay(s)
  }

  /** A later start gives a later end, except when clamping drops the days apart but keeps the time of day. */
  lemma AddMonthsMonotoneIff(s: int, t: int, n: int)
    requires s <= t
    ensures AddMonths(s, n) <= AddMonths(t, n) <==> !ClampedOutOfOrder(s, t, n)
  {
    MonthOfMonotone(s, t);
    if MonthOf(s) < MonthOf(t) {
      AddMonthsInTarget(s, n);
      AddMonthsInTarget(t, n);
      MonthInstantMonotone(MonthOf(s) + n + 1, MonthOf(t) + n);
    } else {
      SameMonthMonotone(s, t, LastDay(MonthOf(s) + n), MonthStart(MonthOf(s) + n));
    }
  }

  lemma SameMonthMonotone(s: int, t: int, last: int, first: int)
    requires s <= t && MonthOf(s) == MonthOf(t)
    ensures MakeDate(first + Min(UtcDate(s), last) - 1, TimeWithinDay(s)) <= MakeDate(first + Min(UtcDate(t), last) - 1, TimeWithinDay(t))
            <==> !(last <= UtcDate(s) < UtcDate(t) && TimeWithinDay(t) < TimeWithinDay(s))
  {
    DateParts(s);
    DateParts(t);
  }

  /** 30 January 1970 23:00 comes before 31 January 1970 01:00, but one month later the order is reversed. */
  lemma AddMonthsNotMonotone()
    ensures exists s, t :: s < t && AddMonths(t, 1) < AddMonths(s, 1)
  {
    var hour := 3_600_000;
    var s, t := MakeDate(29, 23 * hour), MakeDate(30, hour);
    assert MonthStart(EPOCH_MONTH) == 0 && MonthLength(EPOCH_MONTH) == 31 && LastDay(EPOCH_MONTH + 1) == 28;
    PartsOfDate(EPOCH_MONTH, 30, 23 * hour);
    PartsOfDate(EPOCH_MONTH, 31, hour);
    AddMonthsMonotoneIff(s, t, 1);
  }

  /** A term of n months spans between 28n and 31n days. */
  lemma AddMonthsSpan(t: int, n: nat)
    requires n > 0
    ensures 28 * n * MS_PER_DAY <= AddMonths(t, n) - t <= 31 * n * MS_PER_DAY
  {
    var mi, d := MonthOf(t), UtcDate(t);
    var last := LastDay(mi + n);
    DateParts(t);
    MonthSpan(mi, n);
    MonthSpan(mi + 1, n - 1);
    MonthsAbut(mi);
    var days := MonthStart(mi + n) - MonthStart(mi) + Min(d, last) - d;
    assert AddMonths(t, n) - t == days * MS_PER_DAY;
    assert 28 * n <= days <= 31 * n;
  }

  /** Two terms in a row end no later than one term of the same total length. */
  lemma AddMonthsCompose(t: int, a: nat, b: nat)
    ensures AddMonths(AddMonths(t, a), b) <= AddMonths(t, a + b)
    ensures AddMonths(AddMonths(t, a), b) == AddMonths(t, a + b) <==>
            Min(UtcDate(t), LastDay(MonthOf(t) + a + b)) <= LastDay(MonthOf(t) + a)
    ensures UtcDate(t) <= 28 ==> AddMonths(AddMonths(t, a), b) == AddMonths(t, a + b)
  {
    AddMonthsParts(t, a);
    assert MonthOf(t) + a + b == MonthOf(t) + (a + b);
  }

  // ----- Changes of membership

  datatype Action = Purchase | Renew | Upgrade | Downgrade

  datatype Term = Term(startsAt: int, endsAt: int, activatesImmediately: bool)

  /** `resolveMembershipChange` for a positive number of months and dates away from the ends of the range of `Date`. */
  function ResolveMembershipChange(action: Action, months: int, paymentAt: int, activeExpiresAt: Option<int>): Term {
    var activeExpiry := if activeExpiresAt.Some? && activeExpiresAt.value > paymentAt then activeExpiresAt else None;
    var startsAt :=
      if action == Renew && activeExpiry.Some? then activeExpiry.value
      else if action == Downgrade && activeExpiry.Some? then activeExpiry.value
      else paymentAt;
    Term(startsAt, AddMonths(startsAt, months), action != Downgrade)
  }

  /** A renewal paid at a time, for some months. */
  datatype Payment = Payment(at: int, months: nat)

  /** The terms that renewals buy when each starts from the end of the one before. */
  function Renewals(payments: seq<Payment>, expiry: Option<int>): (terms: seq<Term>)
    ensures |terms| == |payments|
  {
    if payments == [] then []
    else
      var term := ResolveMembershipChange(Renew, payments[0].months, payments[0].at, expiry);
      [term] + Renewals(payments[1..], Some(term.endsAt))
  }

  function TotalMonths(payments: seq<Payment>): nat {
    if payments == [] then 0 else payments[0].months + TotalMonths(payments[1..])
  }

  /** Each renewal is paid before the term it continues has run out. */
  predicate InTime(payments: seq<Payment>, expiry: int) {
    payments == [] || (payments[0].at < expiry && InTime(payments[1..], AddMonths(expiry, payments[0].months)))
  }

  /** Renewing in time, piece by piece, never ends later than one purchase of all the months at once. */
  lemma {:induction false} RenewalsNoLater(payments: seq<Payment>, expiry: int)
    requires payments != [] && InTime(payments, expiry)
    requires forall p <- payments :: p.months > 0
    ensures var last := Renewals(payments, Some(expiry))[|payments| - 1].endsAt;
            && expiry < last <= AddMonths(expiry, TotalMonths(payments))
            && (UtcDate(expiry) <= 28 ==> last == AddMonths(expiry, TotalMonths(payments)))
    decreases |payments|
  {
    hide MonthStart, MonthLength, MonthOfDay;
    var next := AddMonths(expiry, payments[0].months);
    AddMonthsSpan(expiry, payments[0].months);
    var rest := payments[1..];
    assert Renewals(payments, Some(expiry))[1..] == Renewals(rest, Some(next));
    if rest != [] {
      RenewalsNoLater(rest, next);
      AddMonthsParts(expiry, payments[0].months);
      AddMonthsCompose(expiry, payments[0].months, TotalMonths(rest));
    }
  }

  // ----- Prices

  datatype PriceError = NegativeBase | BadMonths | NotExactlyOneMode | NegativePrice | BadDiscount

  function CalculateDurationPrice(base: int, months: int, price: Option<int>, discountPercent: Option<int>): Result<int, PriceError> {
    if base < 0 then Failure(NegativeBase)
    else if months <= 0 then Failure(BadMonths)
    else if price.Some? == discountPercent.Some? then Failure(NotExactlyOneMode)
    else if price.Some? then (if price.value < 0 then Failure(NegativePrice) else Success(price.value))
    else if discountPercent.value < 0 || discountPercent.value > 100 then Failure(BadDiscount)
    else Success(base * months * (100 - discountPercent.value) / 100)
  }

  /** A discounted price is the exact price rounded down, and never above the undiscounted one. */
  lemma DiscountedPrice(base: int, months: int, d: int)
    requires base >= 0 && months > 0 && 0 <= d <= 100
    ensures var r := CalculateDurationPrice(base, months, None, Some(d));
            && r.Success?
            && 100 * r.value <= base * months * (100 - d) < 100 * (r.value + 1)
            && 0 <= r.value <= base * months
            && (d == 0 ==> r.value == base * months)
            && (d == 100 ==> r.value == 0)
  {
    Product(0, base, months, months);
    Product(0, base * months, 100 - d, 100);
    Product(base * months, base * months, 100 - d, 100);
  }

  /** Splitting a discounted duration in two never costs more, and saves at most one unit. */
  lemma DiscountedPriceSplit(base: int, m: int, n: int, d: int)
    requires base >= 0 && m > 0 && n > 0 && 0 <= d <= 100
    ensures var whole := CalculateDurationPrice(base, m + n, None, Some(d));
            var first := CalculateDurationPrice(base, m, None, Some(d));
            var second := CalculateDurationPrice(base, n, None, Some(d));
            && whole.Success? && first.Success? && second.Success?
            && first.value + second.value <= whole.value <= first.value + second.value + 1
  {
    assert base * (m + n) * (100 - d) == base * m * (100 - d) + base * n * (100 - d);
  }

  /** A longer duration or a smaller discount never costs less. */
  lemma DiscountedPriceMonotone(base: int, m: int, n: int, c: int, d: int)
    requires base >= 0 && 0 < m <= n && 0 <= d <= c <= 100
    ensures CalculateDurationPrice(base, m, None, Some(c)).value <= CalculateDurationPrice(base, n, None, Some(d)).value
  {
    Product(base, base, m, n);
    Product(base * m, base * n, 100 - c, 100 - d);
  }

  lemma Product(a: int, b: int, x: int, y: int)
    requires 0 <= a <= b && 0 <= x <= y
    ensures a * x <= b * y
  {
    assert a * x <= b * x <= b * y;
  }
}
