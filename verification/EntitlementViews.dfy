/** What callers of the entitlement engine can rely on: when a use succeeds, which grant it
  charges, that the three views agree, that replays are inert, and a bound over a grant's life. */
module EntitlementViews {
  import opened Wrappers
  import opened Calendar
  import opened Sorting
  import opened UsageWindows
  import opened Entitlements
  import opened EntitlementLaws

  // ----- When a use succeeds, and what it charges

  /** A grant can bear a use exactly when it is unmetered and enabled, or has that much quota left in the window. */
  lemma ChargeableMeaning(s: Store, g: Grant, quantity: int, at: int)
    requires MatchesSemantics(g.facts) && quantity > 0
    ensures CanCharge(s, g, quantity, at) <==>
            match g.facts.valueType
            case Flag => g.facts.flag == Some(true)
            case Unlimited => true
            case Metered => UsedAt(s, g, at) + quantity <= g.facts.quota.value
  {
    hide UsedAt, WindowOf;
  }

  predicate WellFormedCall(request: Request, key: string) {
    0 < request.quantity <= MAX_QUANTITY && ValidKey(key)
  }

  lemma PrecedesIsPreorder()
    ensures TotalPreorder(Precedes)
  {
  }

  lemma PrecedesReflexive(g: Grant)
    ensures Precedes(g, g)
  {
  }

  lemma ConsumeFresh(s: Store, userId: nat, request: Request, key: string, at: int, early: set<nat>)
    requires WellFormedCall(request, key) && FindUsage(s.usage, userId, key).None?
    ensures var chosen := FirstChargeable(s, ActiveGrants(s, userId, request.code, at, early), request.quantity, at);
            Consume(s, userId, request, key, at, early) ==
            if chosen.None? then (s, Failure(Exhausted))
            else (s.(usage := s.usage + [UsageRow(s, chosen.value, userId, key, request, at)]),
                  Success(ReceiptOf(UsageRow(s, chosen.value, userId, key, request, at), request.code, false)))
  {
    hide UsageRow, ReceiptOf, FirstChargeable, ActiveGrants, FindUsage, ValidKey;
  }

  /** The scan in expiry order finds the chargeable grant that comes first of all, if there is one. */
  lemma EarliestCharged(s: Store, userId: nat, code: string, quantity: int, at: int, early: set<nat>)
    ensures var chosen := FirstChargeable(s, ActiveGrants(s, userId, code, at, early), quantity, at);
            && (chosen.Some? <==> exists g <- s.grants :: VisibleTo(userId, code, at, early)(g) && CanCharge(s, g, quantity, at))
            && (chosen.Some? ==>
                  && chosen.value in s.grants && VisibleTo(userId, code, at, early)(chosen.value) && CanCharge(s, chosen.value, quantity, at)
                  && forall h <- s.grants :: VisibleTo(userId, code, at, early)(h) && CanCharge(s, h, quantity, at) ==> Precedes(chosen.value, h))
  {
    hide CanCharge, Precedes, Sort, Select, FirstChargeable;
    var candidates := ActiveGrants(s, userId, code, at, early);
    ActiveGrantsAreRows(s, userId, code, at, early);
    FirstChargeableIsFirst(s, candidates, quantity, at);
    var chosen := FirstChargeable(s, candidates, quantity, at);
    if chosen.Some? {
      PrecedesIsPreorder();
      SortSorts(s.grants, Precedes);
      SelectKeepsOrder(Sort(s.grants, Precedes), VisibleTo(userId, code, at, early), Precedes);
      var i :| 0 <= i < |candidates| && candidates[i] == chosen.value && forall j :: 0 <= j < i ==> !CanCharge(s, candidates[j], quantity, at);
      assert candidates[i] in candidates;
      forall h <- s.grants | VisibleTo(userId, code, at, early)(h) && CanCharge(s, h, quantity, at) ensures Precedes(chosen.value, h) {
        assert h in candidates;
        var j :| 0 <= j < |candidates| && candidates[j] == h;
        assert i <= j;
        PrecedesReflexive(h);
      }
    }
  }

  /** A use with a fresh key succeeds iff some active grant of the code can bear it, and then exactly one
      row is added: it charges the earliest-expiring such grant, in that grant's current window. */
  lemma ConsumeOutcome(s: Store, userId: nat, request: Request, key: string, at: int, early: set<nat>)
    requires WellFormedCall(request, key) && FindUsage(s.usage, userId, key).None?
    ensures var (s', r) := Consume(s, userId, request, key, at, early);
            && (r.Success? <==> exists g <- s.grants :: VisibleTo(userId, request.code, at, early)(g) && CanCharge(s, g, request.quantity, at))
            && (r.Failure? ==> s' == s && r.error == Exhausted)
            && (r.Success? ==>
                exists g <- s.grants ::
                  && VisibleTo(userId, request.code, at, early)(g) && CanCharge(s, g, request.quantity, at)
                  && (forall h <- s.grants :: VisibleTo(userId, request.code, at, early)(h) && CanCharge(s, h, request.quantity, at) ==> Precedes(g, h))
                  && s' == s.(usage := s.usage + [UsageRow(s, g, userId, key, request, at)])
                  && r.value == ReceiptOf(UsageRow(s, g, userId, key, request, at), request.code, false))
  {
    ConsumeFresh(s, userId, request, key, at, early);
    EarliestCharged(s, userId, request.code, request.quantity, at, early);
    hide *;
  }

  lemma {:induction false} FirstAllowedFinds(s: Store, grants: seq<Grant>, at: int)
    ensures var f := FirstAllowed(s, grants, at);
            && (f.Some? <==> exists g <- grants :: GrantDecision(s, g, at).allowed)
            && (f.Some? ==> f.value.allowed)
  {
    hide GrantDecision;
    if grants != [] {
      FirstAllowedFinds(s, grants[1..], at);
      assert forall g :: g in grants <==> g == grants[0] || g in grants[1..];
    }
  }

  /** A service is shown as allowed exactly when using one unit of it would succeed. */
  lemma ResolveIffConsumeOne(s: Store, userId: nat, code: string, key: string, at: int, early: set<nat>)
    requires Valid(s) && ValidKey(key) && FindUsage(s.usage, userId, key).None?
    ensures var a := Resolve(s, userId, code, at, early);
            (a.Decided? && a.decision.allowed) <==> Consume(s, userId, Request(code, 1), key, at, early).1.Success?
  {
    ConsumeOutcome(s, userId, Request(code, 1), key, at, early);
    var candidates := ActiveGrants(s, userId, code, at, early);
    ActiveGrantsAreRows(s, userId, code, at, early);
    FirstAllowedFinds(s, candidates, at);
    forall g <- s.grants ensures GrantDecision(s, g, at).allowed == CanCharge(s, g, 1, at) {
    }
    if candidates != [] {
      assert candidates[0] in candidates;
    }
  }

  // ----- The list and the single view

  function Entry(items: seq<Decision>, code: string): Option<Decision> {
    if items == [] then None
    else if items[0].code == code then Some(items[0])
    else Entry(items[1..], code)
  }

  ghost predicate DistinctCodes(items: seq<Decision>) {
    forall i, j :: 0 <= i < j < |items| ==> items[i].code != items[j].code
  }

  lemma {:induction false} EntryOfPut(items: seq<Decision>, d: Decision, code: string)
    ensures Entry(PutEntry(items, d), code) ==
            if code != d.code then Entry(items, code)
            else if Entry(items, code).None? || (!Entry(items, code).value.allowed && d.allowed) then Some(d)
            else Entry(items, code)
  {
    if items != [] {
      if items[0].code == d.code {
        assert (PutEntry(items, d))[1..] == items[1..];
      } else {
        assert (PutEntry(items, d))[1..] == PutEntry(items[1..], d);
        EntryOfPut(items[1..], d, code);
      }
    }
  }

  lemma {:induction false} PutKeepsDistinct(items: seq<Decision>, d: Decision)
    requires DistinctCodes(items)
    ensures DistinctCodes(PutEntry(items, d))
    ensures forall e <- PutEntry(items, d) :: e.code == d.code || e in items
  {
    if items != [] && items[0].code != d.code {
      PutKeepsDistinct(items[1..], d);
      var rest := PutEntry(items[1..], d);
      forall e <- rest ensures e.code != items[0].code {
        if e.code != d.code {
          assert e in items[1..];
        }
      }
    }
  }

  function Best(s: Store, grants: seq<Grant>, at: int): Option<Decision> {
    if grants == [] then None
    else if FirstAllowed(s, grants, at).Some? then FirstAllowed(s, grants, at)
    else Some(GrantDecision(s, grants[0], at))
  }

  lemma {:induction false} FirstAllowedConcat(s: Store, a: seq<Grant>, b: seq<Grant>, at: int)
    ensures FirstAllowed(s, a + b, at) == if FirstAllowed(s, a, at).Some? then FirstAllowed(s, a, at) else FirstAllowed(s, b, at)
  {
    hide GrantDecision;
    if a == [] {
      assert a + b == b;
    } else {
      assert (a + b)[1..] == a[1..] + b;
      FirstAllowedConcat(s, a[1..], b, at);
    }
  }

  function OfCode(code: string): Grant -> bool { (g: Grant) => g.code == code }

  lemma {:induction false} ListedEntry(s: Store, grants: seq<Grant>, at: int, code: string)
    ensures Entry(Listed(s, grants, at), code) == Best(s, Select(grants, OfCode(code)), at)
    ensures DistinctCodes(Listed(s, grants, at))
  {
    if grants != [] {
      var n := |grants| - 1;
      var g := grants[n];
      ListedEntry(s, grants[..n], at, code);
      EntryOfPut(Listed(s, grants[..n], at), GrantDecision(s, g, at), code);
      PutKeepsDistinct(Listed(s, grants[..n], at), GrantDecision(s, g, at));
      SelectConcat(grants[..n], [g], OfCode(code));
      assert grants == grants[..n] + [g];
      BestOfAppend(s, Select(grants[..n], OfCode(code)), g, at, code);
    }
  }

  lemma BestOfAppend(s: Store, grants: seq<Grant>, g: Grant, at: int, code: string)
    ensures var d := GrantDecision(s, g, at);
            var best := Best(s, grants, at);
            Best(s, grants + Select([g], OfCode(code)), at) ==
            if code != d.code then best
            else if best.None? || (!best.value.allowed && d.allowed) then Some(d)
            else best
  {
    if g.code == code {
      FirstAllowedConcat(s, grants, [g], at);
      FirstAllowedFinds(s, grants, at);
      assert Select([g], OfCode(code)) == [g];
      if grants != [] {
        assert (grants + [g])[0] == grants[0];
        assert grants[0] in grants;
      } else {
        assert grants + [g] == [g];
      }
    } else {
      assert Select([g], OfCode(code)) == [];
      assert grants + [] == grants;
    }
  }

  lemma ActiveGrantsOfCode(s: Store, userId: nat, code: string, at: int, early: set<nat>)
    requires code != ""
    ensures Select(ActiveGrants(s, userId, "", at, early), OfCode(code)) == ActiveGrants(s, userId, code, at, early)
  {
    var rows := Sort(s.grants, Precedes);
    SelectBoth(rows, VisibleTo(userId, "", at, early), OfCode(code), VisibleTo(userId, code, at, early));
  }

  lemma {:induction false} SelectBoth<T(!new)>(rows: seq<T>, p: T -> bool, q: T -> bool, both: T -> bool)
    requires forall x <- rows :: both(x) <==> p(x) && q(x)
    ensures Select(Select(rows, p), q) == Select(rows, both)
  {
    if rows != [] {
      SelectBoth(rows[1..], p, q, both);
      assert rows[0] in rows;
      if p(rows[0]) {
        assert Select(rows, p)[1..] == Select(rows[1..], p);
      }
    }
  }

  /** The list entry for a code is the single view of that code, for every code a definition can have;
      the blank code agrees only while nothing is active, because the single view then looks at every code. */
  lemma ListAgreesWithResolve(s: Store, userId: nat, code: string, at: int, early: set<nat>)
    requires forall g <- s.grants :: g.code != ""
    ensures var items := Listed(s, ActiveGrants(s, userId, "", at, early), at);
            var single := Resolve(s, userId, code, at, early);
            && DistinctCodes(items)
            && (Entry(items, code) == (if single.Decided? then Some(single.decision) else None)
                <==> code != "" || ActiveGrants(s, userId, "", at, early) == [])
  {
    var all := ActiveGrants(s, userId, "", at, early);
    ListedEntry(s, all, at, code);
    if code != "" {
      ActiveGrantsOfCode(s, userId, code, at, early);
    } else {
      ActiveGrantsAreRows(s, userId, "", at, early);
      NothingOfBlankCode(all);
    }
  }

  lemma {:induction false} NothingOfBlankCode(grants: seq<Grant>)
    requires forall g <- grants :: g.code != ""
    ensures Select(grants, OfCode("")) == []
  {
    if grants != [] {
      assert grants[0] in grants;
      NothingOfBlankCode(grants[1..]);
    }
  }

  // ----- Exactly once

  lemma {:induction false} UsageOnlyGrows(s: Store, ops: seq<Op>)
    ensures s.usage <= Run(s, ops).usage
    decreases |ops|
  {
    if ops != [] {
      UsageOnlyGrows(Step(s, ops[0]), ops[1..]);
    }
  }

  lemma {:induction false} FindUsageStable(usage: seq<Usage>, longer: seq<Usage>, userId: nat, key: string)
    requires usage <= longer && FindUsage(usage, userId, key).Some?
    ensures FindUsage(longer, userId, key) == FindUsage(usage, userId, key)
  {
    if !(usage[0].userId == userId && usage[0].key == key) {
      FindUsageStable(usage[1..], longer[1..], userId, key);
    }
  }

  lemma {:induction false} FindAppended(usage: seq<Usage>, u: Usage)
    requires FindUsage(usage, u.userId, u.key).None?
    ensures FindUsage(usage + [u], u.userId, u.key) == Some(u)
  {
    if usage != [] {
      assert (usage + [u])[1..] == usage[1..] + [u];
      FindAppended(usage[1..], u);
    }
  }

  /** A successful use is on record under its key, with the receipt it returned. */
  lemma ConsumeRecords(s: Store, userId: nat, request: Request, key: string, at: int, early: set<nat>)
    requires Consume(s, userId, request, key, at, early).1.Success?
    ensures var (s', r) := Consume(s, userId, request, key, at, early);
            var found := FindUsage(s'.usage, userId, key);
            found.Some? && found.value.request == request && ReceiptOf(found.value, request.code, r.value.replayed) == r.value
  {
    hide CanCharge, GrantDecision, ActiveGrants;
    var existing := FindUsage(s.usage, userId, key);
    if existing.None? {
      var g := FirstChargeable(s, ActiveGrants(s, userId, request.code, at, early), request.quantity, at).value;
      FindAppended(s.usage, UsageRow(s, g, userId, key, request, at));
    }
  }

  /** A replay, however much later, changes nothing and returns the original receipt;
      the same key with another request changes nothing and is refused. */
  lemma ReplayIsInert(s: Store, userId: nat, request: Request, key: string, at: int, early: set<nat>,
                      between: seq<Op>, again: Request, at': int, early': set<nat>)
    requires Consume(s, userId, request, key, at, early).1.Success?
    ensures var (s1, r) := Consume(s, userId, request, key, at, early);
            var later := Run(s1, between);
            var (after, r') := Consume(later, userId, again, key, at', early');
            && after == later
            && (again == request ==> r' == Success(r.value.(replayed := true)))
            && (again != request ==> r'.Failure?)
  {
    ConsumeRecords(s, userId, request, key, at, early);
    hide CanCharge, GrantDecision, ActiveGrants;
    var s1 := Consume(s, userId, request, key, at, early).0;
    UsageOnlyGrows(s1, between);
    FindUsageStable(s1.usage, Run(s1, between).usage, userId, key);
  }

  lemma {:induction false} RunConcat(s: Store, a: seq<Op>, b: seq<Op>)
    ensures Run(s, a + b) == Run(Run(s, a), b)
    decreases |a|
  {
    hide Step;
    if a == [] {
      assert a + b == b;
    } else {
      assert (a + b)[1..] == a[1..] + b;
      RunConcat(Step(s, a[0]), a[1..], b);
    }
  }

  /** Inserting replays, or reuses of the key, anywhere after a successful use leaves the final state unchanged. */
  lemma ReplaysAnywhere(s: Store, userId: nat, request: Request, key: string, at: int, early: set<nat>,
                        between: seq<Op>, again: Request, at': int, early': set<nat>, rest: seq<Op>)
    requires Consume(s, userId, request, key, at, early).1.Success?
    ensures var first := ConsumeOp(userId, request, key, at, early);
            var replay := ConsumeOp(userId, again, key, at', early');
            Run(s, [first] + between + [replay] + rest) == Run(s, [first] + between + rest)
  {
    var first := ConsumeOp(userId, request, key, at, early);
    var replay := ConsumeOp(userId, again, key, at', early');
    ReplayIsInert(s, userId, request, key, at, early, between, again, at', early');
    hide Consume;
    RunConcat(s, [first] + between, rest);
    RunConcat(s, [first] + between + [replay], rest);
    RunConcat(s, [first] + between, [replay]);
    RunConcat(s, [first], between);
    var later := Run(s, [first] + between);
    assert Run(s, [first]) == Step(s, first);
    assert Run(later, [replay]) == Step(later, replay);
  }

  // ----- Provisioning

  /** The grant of a row, or one that its keys do not allow beside it, is in the table. */
  predicate Provided(grants: seq<Grant>, src: Source, row: PlanRow) {
    exists h <- grants :: Collide(NewGrant(src, row, None), h)
  }

  lemma {:induction false} RowsProvided(grants: seq<Grant>, src: Source, rows: seq<PlanRow>)
    ensures var after := InsertRows(grants, src, rows);
            && grants <= after
            && (forall row <- rows :: Provided(after, src, row))
            && (forall g <- after :: g in grants || exists row <- rows :: g == NewGrant(src, row, None))
    decreases |rows|
  {
    if rows != [] {
      var g := NewGrant(src, rows[0], None);
      var more := InsertUnlessDuplicate(grants, g);
      RowsProvided(more, src, rows[1..]);
      var after := InsertRows(grants, src, rows);
      assert after == InsertRows(more, src, rows[1..]);
      assert Collide(g, g) && (more == grants || g in more);
      var h :| h in more && Collide(g, h);
      assert h in after;
      hide InsertRows, NewGrant, Collide;
      forall row <- rows ensures Provided(after, src, row) {
        assert row == rows[0] || row in rows[1..];
      }
      forall x <- after ensures x in grants || exists row <- rows :: x == NewGrant(src, row, None) {
        assert x in more ==> x in grants || x == NewGrant(src, rows[0], None);
      }
    }
  }

  lemma {:induction false} NothingLeftToProvide(grants: seq<Grant>, src: Source, rows: seq<PlanRow>)
    requires forall row <- rows :: Provided(grants, src, row)
    ensures InsertRows(grants, src, rows) == grants
    decreases |rows|
  {
    if rows != [] {
      assert rows[0] in rows && forall row <- rows[1..] :: row in rows;
      NothingLeftToProvide(grants, src, rows[1..]);
    }
  }

  /** Provisioning a plan version leaves every grant there was, adds grants of its rows only, leaves no row unprovided,
    and done a second time adds nothing. */
  lemma ProvisionOnce(s: Store, src: Source, rows: seq<PlanRow>)
    requires Provision(s, src, rows).1.Success?
    ensures var t := Provision(s, src, rows).0;
            && s.grants <= t.grants
            && (forall row <- rows :: Provided(t.grants, src, row))
            && (forall g <- t.grants :: g in s.grants || exists row <- rows :: g == NewGrant(src, row, None))
            && Provision(t, src, rows) == (t, Success(0))
  {
    RowsProvided(s.grants, src, rows);
    NothingLeftToProvide(Provision(s, src, rows).0.grants, src, rows);
    hide InsertRows, Provided, NewGrant;
  }

  // ----- Over the life of a monthly grant

  function TotalUsed(usage: seq<Usage>, scope: set<nat>): int {
    if usage == [] then 0
    else
      var last := usage[|usage| - 1];
      TotalUsed(usage[..|usage| - 1], scope) + if last.grantId in scope then last.quantity else 0
  }

  function WindowOfMonth(g: Grant, mi: int): Window {
    UsageWindow(CalendarMonth, g.startsAt, g.endsAt, MonthInstant(mi))
  }

  lemma WindowOfItsMonth(g: Grant, at: int)
    requires g.facts.reset == CalendarMonth
    ensures WindowOf(g, at) == WindowOfMonth(g, MonthOf(at))
  {
    hide MonthStart, MonthOfDay;
    MonthOfBounds(at);
    MonthInstantMonotone(MonthOf(at), MonthOf(at) + 1);
    MonthOfUnique(MonthInstant(MonthOf(at)), MonthOf(at));
  }

  /** The usage recorded in the windows of `n` months from `lo` on. */
  function UsedInMonths(usage: seq<Usage>, scope: set<nat>, g: Grant, lo: int, n: nat): int {
    if n == 0 then 0 else UsedInMonths(usage, scope, g, lo, n - 1) + Used(usage, scope, WindowOfMonth(g, lo + n - 1))
  }

  lemma {:induction false} UsedInMonthsAppend(usage: seq<Usage>, u: Usage, scope: set<nat>, g: Grant, lo: int, n: nat)
    requires u.quantity > 0
    ensures UsedInMonths(usage, scope, g, lo, n) <= UsedInMonths(usage + [u], scope, g, lo, n)
    ensures u.grantId in scope && (exists mi :: lo <= mi < lo + n && u.window == WindowOfMonth(g, mi)) ==>
            UsedInMonths(usage, scope, g, lo, n) + u.quantity <= UsedInMonths(usage + [u], scope, g, lo, n)
    decreases n
  {
    hide Used, WindowOfMonth;
    if n > 0 {
      UsedInMonthsAppend(usage, u, scope, g, lo, n - 1);
      UsedAppend(usage, u, scope, WindowOfMonth(g, lo + n - 1));
    }
  }

  lemma {:induction false} TotalWithinMonths(usage: seq<Usage>, scope: set<nat>, g: Grant, lo: int, n: nat)
    requires forall u <- usage :: u.quantity > 0
    requires forall u <- usage :: u.grantId in scope ==> exists mi :: lo <= mi < lo + n && u.window == WindowOfMonth(g, mi)
    ensures TotalUsed(usage, scope) <= UsedInMonths(usage, scope, g, lo, n)
  {
    hide Used, WindowOfMonth;
    if usage == [] {
      NothingUsed(scope, g, lo, n);
    } else {
      var k := |usage| - 1;
      assert usage[k] in usage && usage == usage[..k] + [usage[k]];
      TotalWithinMonths(usage[..k], scope, g, lo, n);
      UsedInMonthsAppend(usage[..k], usage[k], scope, g, lo, n);
    }
  }

  lemma {:induction false} NothingUsed(scope: set<nat>, g: Grant, lo: int, n: nat)
    ensures UsedInMonths([], scope, g, lo, n) == 0
  {
    hide WindowOfMonth;
    if n > 0 {
      NothingUsed(scope, g, lo, n - 1);
    }
  }

  lemma {:induction false} MonthsWithinQuota(s: Store, g: Grant, lo: int, n: nat)
    requires WithinQuota(s) && g in s.grants && g.facts.valueType == Metered && g.facts.quota.Some?
    ensures UsedInMonths(s.usage, Scope(s.grants, g), g, lo, n) <= g.facts.quota.value * n
  {
    hide Used, WindowOfMonth;
    if n > 0 {
      MonthsWithinQuota(s, g, lo, n - 1);
    }
  }

  /** The month of the last recorded use of these grants, or `lo` if there is none later. */
  function LastMonth(usage: seq<Usage>, scope: set<nat>, lo: int): (hi: int)
    ensures lo <= hi && forall u <- usage :: u.grantId in scope ==> MonthOf(u.createdAt) <= hi
    ensures hi == lo || exists u <- usage :: u.grantId in scope && MonthOf(u.createdAt) == hi
  {
    if usage == [] then lo
    else
      var last := usage[|usage| - 1];
      var before := LastMonth(usage[..|usage| - 1], scope, lo);
      assert forall u :: u in usage <==> u in usage[..|usage| - 1] || u == last;
      if last.grantId in scope && MonthOf(last.createdAt) > before then MonthOf(last.createdAt) else before
  }

  /** Over a whole life, a monthly grant, together with its pool, yields at most its quota times the number of UTC
      months from its start to its last use, which is never after its end. */
  lemma LifetimeUse(ops: seq<Op>, g: Grant)
    requires g in Run(EMPTY, ops).grants && g.facts.valueType == Metered && g.facts.reset == CalendarMonth
    ensures var s := Run(EMPTY, ops);
            var lo := MonthOf(g.startsAt);
            var hi := LastMonth(s.usage, Scope(s.grants, g), lo);
            && g.facts.quota.Some? && lo <= hi && (g.endsAt.Some? ==> hi <= MonthOf(g.endsAt.value - 1))
            && TotalUsed(s.usage, {g.id}) <= TotalUsed(s.usage, Scope(s.grants, g)) <= g.facts.quota.value * (hi - lo + 1)
  {
    EmptyIsValid();
    hide *;
    RunKeepsValid(EMPTY, ops);
    LifetimeUseWhenValid(Run(EMPTY, ops), g);
  }

  lemma EmptyIsValid()
    ensures Valid(EMPTY)
  {
  }

  lemma LifetimeUseWhenValid(s: Store, g: Grant)
    requires Valid(s) && g in s.grants && g.facts.valueType == Metered && g.facts.reset == CalendarMonth
    ensures var lo := MonthOf(g.startsAt);
            var hi := LastMonth(s.usage, Scope(s.grants, g), lo);
            && g.facts.quota.Some? && lo <= hi && (g.endsAt.Some? ==> hi <= MonthOf(g.endsAt.value - 1))
            && TotalUsed(s.usage, {g.id}) <= TotalUsed(s.usage, Scope(s.grants, g)) <= g.facts.quota.value * (hi - lo + 1)
  {
    hide Used, WindowOfMonth, WindowOf, MonthOf, TotalUsed, UsedInMonths, RemainingExact, LastMonth;
    var scope := Scope(s.grants, g);
    var lo := MonthOf(g.startsAt);
    var hi := LastMonth(s.usage, scope, lo);
    forall u <- s.usage
      ensures u.quantity > 0
      ensures u.grantId in scope ==> exists mi :: lo <= mi < lo + (hi - lo + 1) && u.window == WindowOfMonth(g, mi)
      ensures u.grantId in scope && g.endsAt.Some? ==> MonthOf(u.createdAt) <= MonthOf(g.endsAt.value - 1)
    {
      assert Accounted(s.grants, u);
      if u.grantId in scope {
        MonthOfUse(s, g, u);
      }
    }
    if g.endsAt.Some? {
      StartsBeforeEnd(s, g);
    }
    assert g.id in scope;
    hide Valid, Scope;
    TotalWithinMonths(s.usage, scope, g, lo, hi - lo + 1);
    assert Valid(s) ==> WithinQuota(s);
    MonthsWithinQuota(s, g, lo, hi - lo + 1);
    TotalMonotone(s.usage, {g.id}, scope);
  }

  lemma StartsBeforeEnd(s: Store, g: Grant)
    requires Valid(s) && g in s.grants && g.endsAt.Some?
    ensures MonthOf(g.startsAt) <= MonthOf(g.endsAt.value - 1)
  {
    hide MonthOf, WithinQuota, RemainingExact, PoolRowsOk, UsageRowsOk;
    MonthOfMonotone(g.startsAt, g.endsAt.value - 1);
  }

  lemma MonthOfUse(s: Store, g: Grant, u: Usage)
    requires Valid(s) && g in s.grants && u in s.usage && u.grantId in Scope(s.grants, g)
    requires g.facts.reset == CalendarMonth
    ensures MonthOf(g.startsAt) <= MonthOf(u.createdAt)
    ensures g.endsAt.Some? ==> MonthOf(u.createdAt) <= MonthOf(g.endsAt.value - 1)
    ensures u.window == WindowOfMonth(g, MonthOf(u.createdAt))
  {
    hide MonthOf, WithinQuota, RemainingExact, WindowOfMonth, UsageWindow, PoolRowsOk;
    assert Accounted(s.grants, u);
    var h :| h in s.grants && h.id == u.grantId && h.userId == u.userId && u.quantity > 0
      && u.window == WindowOf(h, u.createdAt) && Contains(Window(h.startsAt, h.endsAt), u.createdAt);
    ScopeFacts(s, g, h);
    WindowOfItsMonth(g, u.createdAt);
    MonthOfMonotone(g.startsAt, u.createdAt);
    if g.endsAt.Some? {
      MonthOfMonotone(u.createdAt, g.endsAt.value - 1);
    }
  }

  lemma {:induction false} TotalMonotone(usage: seq<Usage>, a: set<nat>, b: set<nat>)
    requires a <= b
    requires forall u <- usage :: u.quantity > 0
    ensures TotalUsed(usage, a) <= TotalUsed(usage, b)
  {
    if usage != [] {
      assert usage[|usage| - 1] in usage;
      TotalMonotone(usage[..|usage| - 1], a, b);
    }
  }
}
