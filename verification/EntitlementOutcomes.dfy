/** What each entitlement operation answers and writes, in terms of the rows alone: the conditions and the
  order are written out here once more, independently of the queries that the operations use. */
module EntitlementOutcomes {
  import opened Wrappers
  import opened Calendar
  import opened Sorting
  import opened UsageWindows
  import opened Entitlements
  import opened EntitlementLaws
  import opened EntitlementViews

  // ----- The rows, read directly

  /** An active row of the user that has started and not ended, of the code asked for (a blank code asks for all). */
  predicate Open(g: Grant, userId: nat, code: string, at: int, early: set<nat>) {
    && g.userId == userId && g.active
    && g.startsAt <= at && (g.endsAt.None? || at < g.endsAt.value)
    && (code == "" || g.code == code)
    && (g.sourceType != "UNVERIFIED_RECEIPT_ACCESS" || (g.pool.Some? && g.id in early))
  }

  /** `a` ends no later than `b`; rows that end together go by creation, then by id. */
  predicate NoLater(a: Grant, b: Grant) {
    && (b.endsAt.Some? ==> a.endsAt.Some? && a.endsAt.value <= b.endsAt.value)
    && (a.endsAt == b.endsAt ==> a.createdAt <= b.createdAt && (a.createdAt == b.createdAt ==> a.id <= b.id))
  }

  function Later(a: int, b: int): int { if a < b then b else a }

  /** The whole term of a grant, or for a monthly one the part of it in the month read at the instant. */
  function PeriodOf(g: Grant, at: int): Window {
    if g.facts.reset != CalendarMonth then Window(g.startsAt, g.endsAt)
    else
      var nextMonth := MonthInstant(MonthRead(at) + 1);
      Window(Later(g.startsAt, MonthInstant(MonthRead(at))),
             Some(if g.endsAt.Some? && g.endsAt.value < nextMonth then g.endsAt.value else nextMonth))
  }

  /** A use of the grant itself, or of one that draws on the same pool. */
  ghost predicate CountsAgainst(grants: seq<Grant>, g: Grant, u: Usage) {
    u.grantId == g.id || (g.pool.Some? && exists h <- grants :: h.pool == g.pool && h.id == u.grantId)
  }

  ghost function Spent(grants: seq<Grant>, usage: seq<Usage>, g: Grant, w: Window): int {
    if usage == [] then 0
    else (if usage[0].window == w && CountsAgainst(grants, g, usage[0]) then usage[0].quantity else 0) + Spent(grants, usage[1..], g, w)
  }

  ghost function Left(s: Store, g: Grant, at: int): int
    requires g.facts.quota.Some?
  {
    g.facts.quota.value - Spent(s.grants, s.usage, g, PeriodOf(g, at))
  }

  ghost predicate Bears(s: Store, g: Grant, quantity: int, at: int) {
    match g.facts.valueType
    case Flag => g.facts.flag == Some(true)
    case Unlimited => true
    case Metered => g.facts.quota.Some? && quantity <= Left(s, g, at)
  }

  // ----- The queries find just these rows

  lemma {:induction false} SpentAppend(grants: seq<Grant>, usage: seq<Usage>, u: Usage, g: Grant, w: Window)
    ensures Spent(grants, usage + [u], g, w) ==
            Spent(grants, usage, g, w) + if u.window == w && CountsAgainst(grants, g, u) then u.quantity else 0
  {
    hide CountsAgainst;
    if usage == [] {
      assert [u][1..] == [] && [] + [u] == [u];
    } else {
      assert (usage + [u])[1..] == usage[1..] + [u];
      SpentAppend(grants, usage[1..], u, g, w);
    }
  }

  /** The quota used is the sum of the quantities that count against the grant in the window. */
  lemma {:induction false} UsedIsSpent(grants: seq<Grant>, usage: seq<Usage>, g: Grant, w: Window)
    requires g in grants
    ensures Used(usage, Scope(grants, g), w) == Spent(grants, usage, g, w)
  {
    if usage != [] {
      var n := |usage| - 1;
      UsedIsSpent(grants, usage[..n], g, w);
      SpentAppend(grants, usage[..n], usage[n], g, w);
      assert usage[..n] + [usage[n]] == usage;
      assert usage[n].grantId in Scope(grants, g) <==> CountsAgainst(grants, g, usage[n]);
    }
  }

  lemma PeriodIsWindow(g: Grant, at: int)
    ensures WindowOf(g, at) == PeriodOf(g, at)
  {
    hide MonthInstant, MonthRead;
    if g.facts.reset == CalendarMonth {
      MonthWindow(g.startsAt, g.endsAt, at);
    }
  }

  lemma OpenIsVisible(g: Grant, userId: nat, code: string, at: int, early: set<nat>)
    ensures VisibleTo(userId, code, at, early)(g) <==> Open(g, userId, code, at, early)
  {
  }

  /** The query returns the open rows and no others, those that end first in front. */
  lemma ActiveGrantsInOrder(s: Store, userId: nat, code: string, at: int, early: set<nat>)
    ensures var found := ActiveGrants(s, userId, code, at, early);
            && (forall g :: g in found <==> g in s.grants && Open(g, userId, code, at, early))
            && (forall i, j :: 0 <= i < j < |found| ==> NoLater(found[i], found[j]))
  {
    var found := ActiveGrants(s, userId, code, at, early);
    ActiveGrantsAreRows(s, userId, code, at, early);
    forall g ensures g in found <==> g in s.grants && Open(g, userId, code, at, early) {
      OpenIsVisible(g, userId, code, at, early);
    }
    PrecedesIsPreorder();
    SortSorts(s.grants, Precedes);
    SelectKeepsOrder(Sort(s.grants, Precedes), VisibleTo(userId, code, at, early), Precedes);
    assert Sorted(found, Precedes);
    hide ActiveGrants;
    forall i, j | 0 <= i < j < |found| ensures NoLater(found[i], found[j]) {
      assert Precedes(found[i], found[j]);
    }
  }

  lemma DecisionOf(s: Store, g: Grant, at: int)
    requires g in s.grants && MatchesSemantics(g.facts)
    ensures var d := GrantDecision(s, g, at);
            && d.code == g.code && d.window == PeriodOf(g, at)
            && d.allowed == Bears(s, g, 1, at)
            && d.remaining == if g.facts.valueType == Metered then Some(Later(0, Left(s, g, at))) else None
  {
    PeriodIsWindow(g, at);
    UsedIsSpent(s.grants, s.usage, g, PeriodOf(g, at));
    hide WindowOf, PeriodOf, Used, Spent, Scope;
  }

  lemma BearsIsCanCharge(s: Store, g: Grant, quantity: int, at: int)
    requires g in s.grants && MatchesSemantics(g.facts) && quantity > 0
    ensures CanCharge(s, g, quantity, at) <==> Bears(s, g, quantity, at)
  {
    DecisionOf(s, g, at);
    hide GrantDecision, PeriodOf, Left;
  }

  // ----- Consumption

  /** A use with a key on record is answered from the record; any other needs an open grant that can bear it. */
  ghost predicate Usable(s: Store, userId: nat, request: Request, key: string, at: int, early: set<nat>) {
    if exists u <- s.usage :: u.userId == userId && u.key == key
    then exists u <- s.usage :: u.userId == userId && u.key == key && u.request == request
    else exists g <- s.grants :: Open(g, userId, request.code, at, early) && Bears(s, g, request.quantity, at)
  }

  predicate QuantityOk(quantity: int) {
    1 <= quantity <= 9_223_372_036_854_775_807
  }

  predicate KeyOk(key: string) {
    && 8 <= |key| <= 128
    && forall i :: 0 <= i < |key| ==>
         'A' <= key[i] <= 'Z' || 'a' <= key[i] <= 'z' || '0' <= key[i] <= '9' || key[i] == '.' || key[i] == '_' || key[i] == ':' || key[i] == '-'
  }

  lemma KeyOkIff(key: string)
    ensures ValidKey(key) <==> KeyOk(key)
  {
    forall c: char ensures c in "._:-" <==> c == '.' || c == '_' || c == ':' || c == '-' {
    }
    if KeyOk(key) {
      forall c <- key ensures KeyCharacter(c) {
      }
    }
    if ValidKey(key) {
      forall i | 0 <= i < |key| ensures KeyCharacter(key[i]) {
      }
    }
  }

  lemma OnRecord(s: Store, userId: nat, key: string)
    requires UsageRowsOk(s)
    ensures var found := FindUsage(s.usage, userId, key);
            && (found.Some? <==> exists u <- s.usage :: u.userId == userId && u.key == key)
            && (found.Some? ==> found.value in s.usage && forall u <- s.usage :: u.userId == userId && u.key == key ==> u == found.value)
  {
    FindUsageSound(s.usage, userId, key);
  }

  /** What a use of a key on record, or of a new one, comes to. */
  lemma ConsumeRecorded(s: Store, userId: nat, request: Request, key: string, at: int, early: set<nat>)
    requires UsageRowsOk(s) && QuantityOk(request.quantity) && KeyOk(key)
    requires exists u <- s.usage :: u.userId == userId && u.key == key
    ensures var (s', r) := Consume(s, userId, request, key, at, early);
            && s' == s && (r.Failure? ==> r.error == KeyReused)
            && (r.Success? <==> exists u <- s.usage :: u.userId == userId && u.key == key && u.request == request)
            && (r.Success? ==>
                  exists u <- s.usage :: u.userId == userId && u.key == key && u.request == request
                    && r.value == Receipt(request.code, u.quantity, u.remainingAfter, true, u.window))
  {
    KeyOkIff(key);
    OnRecord(s, userId, key);
    hide UsageRowsOk, FindUsage, ValidKey, KeyOk, ActiveGrants, FirstChargeable, UsageRow;
  }

  lemma OpenAndBears(s: Store, userId: nat, code: string, quantity: int, at: int, early: set<nat>, g: Grant)
    requires GrantRowsOk(s.grants) && g in s.grants && quantity > 0
    ensures VisibleTo(userId, code, at, early)(g) && CanCharge(s, g, quantity, at) <==> Open(g, userId, code, at, early) && Bears(s, g, quantity, at)
  {
    OpenIsVisible(g, userId, code, at, early);
    BearsIsCanCharge(s, g, quantity, at);
    hide VisibleTo, CanCharge, Open, Bears;
  }

  /** The row that a charge of `g` adds. */
  predicate Charges(u: Usage, g: Grant, userId: nat, request: Request, key: string, at: int) {
    && u.grantId == g.id && u.userId == userId && u.key == key && u.request == request
    && u.quantity == request.quantity && u.createdAt == at && u.window == PeriodOf(g, at)
  }

  lemma RowCharges(s: Store, g: Grant, userId: nat, key: string, request: Request, at: int)
    requires g in s.grants && MatchesSemantics(g.facts) && request.quantity > 0 && CanCharge(s, g, request.quantity, at)
    ensures var u := UsageRow(s, g, userId, key, request, at);
            && Charges(u, g, userId, request, key, at)
            && u.remainingAfter == (if g.facts.valueType == Metered then Some(Left(s, g, at) - request.quantity) else None)
  {
    DecisionOf(s, g, at);
    hide GrantDecision, PeriodOf, Left;
  }

  lemma SomeoneBears(s: Store, userId: nat, code: string, quantity: int, at: int, early: set<nat>)
    requires GrantRowsOk(s.grants) && quantity > 0
    ensures (exists g <- s.grants :: VisibleTo(userId, code, at, early)(g) && CanCharge(s, g, quantity, at))
            <==> (exists g <- s.grants :: Open(g, userId, code, at, early) && Bears(s, g, quantity, at))
  {
    forall g <- s.grants
      ensures VisibleTo(userId, code, at, early)(g) && CanCharge(s, g, quantity, at) <==> Open(g, userId, code, at, early) && Bears(s, g, quantity, at)
    {
      OpenAndBears(s, userId, code, quantity, at, early, g);
    }
    hide *;
  }

  /** The grant that the scan charges: it ends first among the open grants that can bear the use. */
  lemma FirstToEndIsCharged(s: Store, userId: nat, request: Request, key: string, at: int, early: set<nat>) returns (g: Grant)
    requires Valid(s) && WellFormedCall(request, key) && FindUsage(s.usage, userId, key).None?
    requires Consume(s, userId, request, key, at, early).1.Success?
    ensures g in s.grants && Open(g, userId, request.code, at, early) && Bears(s, g, request.quantity, at)
    ensures forall h <- s.grants :: Open(h, userId, request.code, at, early) && Bears(s, h, request.quantity, at) ==> NoLater(g, h)
    ensures var u := UsageRow(s, g, userId, key, request, at);
            && Consume(s, userId, request, key, at, early) == (s.(usage := s.usage + [u]), Success(ReceiptOf(u, request.code, false)))
            && Charges(u, g, userId, request, key, at)
            && u.remainingAfter == (if g.facts.valueType == Metered then Some(Left(s, g, at) - request.quantity) else None)
  {
    ConsumeFresh(s, userId, request, key, at, early);
    EarliestCharged(s, userId, request.code, request.quantity, at, early);
    hide Consume, FindUsage, FirstChargeable, ActiveGrants, UsageRow, CanCharge, VisibleTo, ReceiptOf, PoolRowsOk, UsageRowsOk, WithinQuota,
         RemainingExact, Open, Bears, Left, Charges, ValidKey, NoLater, Precedes;
    g := FirstChargeable(s, ActiveGrants(s, userId, request.code, at, early), request.quantity, at).value;
    OpenAndBears(s, userId, request.code, request.quantity, at, early, g);
    RowCharges(s, g, userId, key, request, at);
    forall h <- s.grants | Open(h, userId, request.code, at, early) && Bears(s, h, request.quantity, at) ensures NoLater(g, h) {
      OpenAndBears(s, userId, request.code, request.quantity, at, early, h);
      PrecedesMeans(g, h);
    }
  }

  lemma PrecedesMeans(g: Grant, h: Grant)
    requires Precedes(g, h)
    ensures NoLater(g, h)
  {
  }

  /** A use with a new key succeeds exactly when an open grant can bear it.  It adds one row, charged to the grant that
    ends first among those, in its period, and leaves what remained less the quantity. */
  lemma ConsumeWrites(s: Store, userId: nat, request: Request, key: string, at: int, early: set<nat>)
    requires Valid(s) && QuantityOk(request.quantity) && KeyOk(key) && forall u <- s.usage :: u.userId != userId || u.key != key
    ensures var (s', r) := Consume(s, userId, request, key, at, early);
            && (r.Success? <==> exists g <- s.grants :: Open(g, userId, request.code, at, early) && Bears(s, g, request.quantity, at))
            && (r.Failure? ==> s' == s && r.error == Exhausted)
            && (r.Success? ==>
                  exists g <- s.grants, u ::
                       && Open(g, userId, request.code, at, early) && Bears(s, g, request.quantity, at)
                       && (forall h <- s.grants :: Open(h, userId, request.code, at, early) && Bears(s, h, request.quantity, at) ==> NoLater(g, h))
                       && s' == s.(usage := s.usage + [u])
                       && Charges(u, g, userId, request, key, at)
                       && u.remainingAfter == (if g.facts.valueType == Metered then Some(Left(s, g, at) - request.quantity) else None)
                       && r.value == Receipt(request.code, request.quantity, u.remainingAfter, false, PeriodOf(g, at)))
  {
    KeyOkIff(key);
    OnRecord(s, userId, key);
    ConsumeOutcome(s, userId, request, key, at, early);
    SomeoneBears(s, userId, request.code, request.quantity, at, early);
    hide Consume, FindUsage, UsageRow, CanCharge, VisibleTo, Valid, Open, Bears, Left, ValidKey, NoLater, PeriodOf;
    if Consume(s, userId, request, key, at, early).1.Success? {
      var g := FirstToEndIsCharged(s, userId, request, key, at, early);
      var u := UsageRow(s, g, userId, key, request, at);
      assert Charges(u, g, userId, request, key, at);
    }
  }

  /** A use is refused for its quantity, for its key, for a key on record with another request, or because no open
    grant can bear it, in this order and for no other reason; a refusal writes nothing. */
  lemma ConsumeSucceedsIff(s: Store, userId: nat, request: Request, key: string, at: int, early: set<nat>)
    requires Valid(s)
    ensures var (s', r) := Consume(s, userId, request, key, at, early);
            && (r.Success? <==> QuantityOk(request.quantity) && KeyOk(key) && Usable(s, userId, request, key, at, early))
            && (r == Failure(InvalidQuantity) <==> !QuantityOk(request.quantity))
            && (r == Failure(InvalidKey) <==> QuantityOk(request.quantity) && !KeyOk(key))
            && (r == Failure(KeyReused) <==>
                (QuantityOk(request.quantity) && KeyOk(key)
                 && (exists u <- s.usage :: u.userId == userId && u.key == key) && !Usable(s, userId, request, key, at, early)))
            && (r.Failure? ==> s' == s)
  {
    if !QuantityOk(request.quantity) || !KeyOk(key) {
      ConsumeRefused(s, userId, request, key, at, early);
    } else if exists u <- s.usage :: u.userId == userId && u.key == key {
      ConsumeRecorded(s, userId, request, key, at, early);
      hide Consume, Valid, Open, Bears, KeyOk;
    } else {
      ConsumeWrites(s, userId, request, key, at, early);
      hide Consume, Valid, Open, Bears, KeyOk, Charges, NoLater, PeriodOf, Left;
    }
  }

  lemma ConsumeRefused(s: Store, userId: nat, request: Request, key: string, at: int, early: set<nat>)
    requires !QuantityOk(request.quantity) || !KeyOk(key)
    ensures Consume(s, userId, request, key, at, early) == (s, Failure(if !QuantityOk(request.quantity) then InvalidQuantity else InvalidKey))
  {
    KeyOkIff(key);
    hide ValidKey, KeyOk, FindUsage, FirstChargeable, ActiveGrants;
  }

  // ----- The views

  /** A decision about a grant: allowed when it can bear one unit, with what is left in its period. */
  ghost predicate Tells(s: Store, g: Grant, at: int, d: Decision) {
    && d.code == g.code && d.allowed == Bears(s, g, 1, at)
    && (d.remaining.Some? <==> g.facts.valueType == Metered)
    && (d.remaining.Some? ==> g.facts.quota.Some? && d.remaining.value == Later(0, Left(s, g, at)))
    && d.window == PeriodOf(g, at)
  }

  lemma DecisionTells(s: Store, g: Grant, at: int)
    requires g in s.grants && MatchesSemantics(g.facts)
    ensures Tells(s, g, at, GrantDecision(s, g, at))
  {
    DecisionOf(s, g, at);
    hide GrantDecision, PeriodOf, Left;
  }

  lemma {:induction false} FirstAllowedIs(s: Store, grants: seq<Grant>, at: int)
    requires FirstAllowed(s, grants, at).Some?
    ensures exists i :: 0 <= i < |grants| && FirstAllowed(s, grants, at) == Some(GrantDecision(s, grants[i], at))
                        && GrantDecision(s, grants[i], at).allowed
                        && forall j :: 0 <= j < i ==> !GrantDecision(s, grants[j], at).allowed
  {
    hide GrantDecision;
    if !GrantDecision(s, grants[0], at).allowed {
      FirstAllowedIs(s, grants[1..], at);
      var i :| 0 <= i < |grants[1..]| && FirstAllowed(s, grants[1..], at) == Some(GrantDecision(s, grants[1..][i], at))
        && GrantDecision(s, grants[1..][i], at).allowed && forall j :: 0 <= j < i ==> !GrantDecision(s, grants[1..][j], at).allowed;
      assert grants[i + 1] == grants[1..][i];
      forall j | 0 <= j < i + 1 ensures !GrantDecision(s, grants[j], at).allowed {
        if j > 0 {
          assert grants[j] == grants[1..][j - 1];
        }
      }
    }
  }

  /** The row that the single view speaks of: the first to end of those that can bear one unit, else of all open rows. */
  ghost predicate Shown(s: Store, g: Grant, userId: nat, code: string, at: int, early: set<nat>) {
    && g in s.grants && Open(g, userId, code, at, early)
    && (Bears(s, g, 1, at) ==> forall h <- s.grants :: Open(h, userId, code, at, early) && Bears(s, h, 1, at) ==> NoLater(g, h))
    && (!Bears(s, g, 1, at) ==> forall h <- s.grants :: Open(h, userId, code, at, early) ==> !Bears(s, h, 1, at) && NoLater(g, h))
  }

  lemma NoLaterReflexive(g: Grant)
    ensures NoLater(g, g)
  {
  }

  lemma InFrontIsShown(s: Store, userId: nat, code: string, at: int, early: set<nat>, found: seq<Grant>, i: nat)
    requires forall g :: g in found <==> g in s.grants && Open(g, userId, code, at, early)
    requires forall i, j :: 0 <= i < j < |found| ==> NoLater(found[i], found[j])
    requires i < |found|
    requires Bears(s, found[i], 1, at) ==> forall j :: 0 <= j < i ==> !Bears(s, found[j], 1, at)
    requires !Bears(s, found[i], 1, at) ==> i == 0 && forall h <- found :: !Bears(s, h, 1, at)
    ensures Shown(s, found[i], userId, code, at, early)
  {
    hide Open, Bears, NoLater;
    assert found[i] in found;
    forall h <- s.grants | Open(h, userId, code, at, early) && Bears(s, h, 1, at) == Bears(s, found[i], 1, at) ensures NoLater(found[i], h) {
      assert h in found;
      var j :| 0 <= j < |found| && found[j] == h;
      NoLaterReflexive(h);
      assert i <= j;
    }
  }

  /** The single view: denied exactly when no open row has the code, and otherwise the decision about the row shown. */
  lemma ResolveShows(s: Store, userId: nat, code: string, at: int, early: set<nat>)
    requires forall g <- s.grants :: MatchesSemantics(g.facts)
    ensures var a := Resolve(s, userId, code, at, early);
            && (a == Denied(code) <==> forall g <- s.grants :: !Open(g, userId, code, at, early))
            && (a.Decided? ==> exists g :: Shown(s, g, userId, code, at, early) && Tells(s, g, at, a.decision))
  {
    var found := ActiveGrants(s, userId, code, at, early);
    ActiveGrantsInOrder(s, userId, code, at, early);
    FirstAllowedFinds(s, found, at);
    hide Open, Bears, NoLater, Tells, GrantDecision, ActiveGrants, Shown;
    forall g <- found ensures Tells(s, g, at, GrantDecision(s, g, at)) && GrantDecision(s, g, at).allowed == Bears(s, g, 1, at) {
      DecisionTells(s, g, at);
      DecisionOf(s, g, at);
    }
    if found == [] {
    } else if FirstAllowed(s, found, at).Some? {
      FirstAllowedIs(s, found, at);
      var i :| 0 <= i < |found| && FirstAllowed(s, found, at) == Some(GrantDecision(s, found[i], at))
        && GrantDecision(s, found[i], at).allowed && forall j :: 0 <= j < i ==> !GrantDecision(s, found[j], at).allowed;
      forall j | 0 <= j < i ensures !Bears(s, found[j], 1, at) {
        assert found[j] in found;
      }
      assert found[i] in found;
      InFrontIsShown(s, userId, code, at, early, found, i);
    } else {
      assert found[0] in found;
      InFrontIsShown(s, userId, code, at, early, found, 0);
    }
  }

  function Codes(items: seq<Decision>): seq<string> {
    Map(items, (d: Decision) => d.code)
  }

  /** Each code of the rows once, where it comes up first. */
  function FirstCodes(grants: seq<Grant>): seq<string> {
    if grants == [] then []
    else
      var before := FirstCodes(grants[..|grants| - 1]);
      var code := grants[|grants| - 1].code;
      if code in before then before else before + [code]
  }

  lemma {:induction false} CodesOfPut(items: seq<Decision>, d: Decision)
    ensures Codes(PutEntry(items, d)) == if d.code in Codes(items) then Codes(items) else Codes(items) + [d.code]
  {
    if items == [] {
      assert [d][1..] == [];
    } else if items[0].code == d.code {
      assert PutEntry(items, d)[1..] == items[1..];
    } else {
      assert PutEntry(items, d)[1..] == PutEntry(items[1..], d);
      CodesOfPut(items[1..], d);
      assert ([items[0].code] + Codes(items[1..])) + [d.code] == [items[0].code] + (Codes(items[1..]) + [d.code]);
    }
  }

  /** The list has one entry for each code of the user's open rows, in the order in which these come up. */
  lemma {:induction false} ListedInOrder(s: Store, grants: seq<Grant>, at: int)
    ensures Codes(Listed(s, grants, at)) == FirstCodes(grants)
  {
    hide Codes, GrantDecision;
    if grants == [] {
      CodesOfNothing();
    } else {
      var n := |grants| - 1;
      ListedInOrder(s, grants[..n], at);
      CodesOfPut(Listed(s, grants[..n], at), GrantDecision(s, grants[n], at));
      DecisionCode(s, grants[n], at);
    }
  }

  lemma CodesOfNothing()
    ensures Codes([]) == []
  {
  }

  lemma DecisionCode(s: Store, g: Grant, at: int)
    ensures GrantDecision(s, g, at).code == g.code
  {
  }

  // ----- Provisioning

  predicate SourceOk(src: Source) {
    && 2 <= |src.sourceType| <= 64 && 'A' <= src.sourceType[0] <= 'Z'
    && (forall i :: 0 <= i < |src.sourceType| ==> 'A' <= src.sourceType[i] <= 'Z' || '0' <= src.sourceType[i] <= '9' || src.sourceType[i] == '_')
    && 1 <= |src.sourceId| <= 128
    && (src.endsAt.None? || src.startsAt < src.endsAt.value)
  }

  /** A flag has its value and no quota, a metered service a positive quota and no flag, an unlimited one neither. */
  predicate FactsOk(f: Facts) {
    match f.valueType
    case Flag => f.flag.Some? && f.quota.None? && f.reset == NoReset
    case Metered => f.flag.None? && f.quota.Some? && f.quota.value >= 1
    case Unlimited => f.flag.None? && f.quota.None? && f.reset == NoReset
  }

  lemma SourceOkIff(src: Source)
    ensures ValidSource(src) <==> SourceOk(src)
  {
    var t := src.sourceType;
    if SourceOk(src) {
      forall c <- t ensures 'A' <= c <= 'Z' || '0' <= c <= '9' || c == '_' {
        var i :| 0 <= i < |t| && t[i] == c;
      }
    }
    if ValidSource(src) {
      forall i | 0 <= i < |t| ensures 'A' <= t[i] <= 'Z' || '0' <= t[i] <= '9' || t[i] == '_' {
        assert t[i] in t;
      }
    }
  }

  /** The keys of the grant table: an id is used once, and so is a source for a user and a code. */
  predicate SameKeys(g: Grant, id: nat, src: Source, code: string) {
    g.id == id || (g.userId == src.userId && g.code == code && g.sourceType == src.sourceType && g.sourceId == src.sourceId)
  }

  predicate GrantOf(g: Grant, src: Source, row: PlanRow, pool: Option<nat>) {
    && g.id == row.id && g.code == row.code && g.facts == row.facts && g.pool == pool && g.active
    && g.userId == src.userId && g.sourceType == src.sourceType && g.sourceId == src.sourceId
    && g.startsAt == src.startsAt && g.endsAt == src.endsAt && g.createdAt == src.createdAt
  }

  lemma NewGrantIs(src: Source, row: PlanRow, pool: Option<nat>, g: Grant)
    ensures g == NewGrant(src, row, pool) <==> GrantOf(g, src, row, pool)
    ensures Collide(NewGrant(src, row, pool), g) <==> SameKeys(g, row.id, src, row.code)
  {
  }

  /** Provisioning succeeds exactly for a well-formed source and well-formed rows.  It keeps every grant in place and adds,
    active and for the source's term, a grant of every row whose keys are free, and no other. */
  lemma ProvisionWrites(s: Store, src: Source, rows: seq<PlanRow>)
    ensures var (s', r) := Provision(s, src, rows);
            && (r.Success? <==> SourceOk(src) && forall row <- rows :: FactsOk(row.facts))
            && (r == Failure(InvalidSource) <==> !SourceOk(src))
            && (r.Failure? ==> s' == s)
            && s'.usage == s.usage && s'.pools == s.pools && s.grants <= s'.grants
            && (r.Success? ==>
                  && r.value == |s'.grants| - |s.grants|
                  && (forall i :: |s.grants| <= i < |s'.grants| ==> ForSomeRow(s'.grants[i], src, rows))
                  && (forall row <- rows :: exists g <- s'.grants :: SameKeys(g, row.id, src, row.code)))
  {
    SourceOkIff(src);
    if r: nat :| Provision(s, src, rows).1 == Success(r) {
      ProvisionOnce(s, src, rows);
      var t := Provision(s, src, rows).0;
      ProvisionAdds(s.grants, src, rows);
      hide InsertRows, ValidSource, SourceOk, GrantOf, SameKeys;
      forall row <- rows ensures exists g <- t.grants :: SameKeys(g, row.id, src, row.code) {
        assert Provided(t.grants, src, row);
        var g :| g in t.grants && Collide(NewGrant(src, row, None), g);
        NewGrantIs(src, row, None, g);
      }
    }
  }

  ghost predicate ForSomeRow(g: Grant, src: Source, rows: seq<PlanRow>) {
    exists row <- rows :: GrantOf(g, src, row, None)
  }

  ghost predicate AddedForRows(before: seq<Grant>, after: seq<Grant>, src: Source, rows: seq<PlanRow>) {
    before <= after && forall i :: |before| <= i < |after| ==> ForSomeRow(after[i], src, rows)
  }

  lemma AddedThenMore(before: seq<Grant>, more: seq<Grant>, after: seq<Grant>, src: Source, rows: seq<PlanRow>)
    requires rows != [] && AddedForRows(more, after, src, rows[1..])
    requires more == before || more == before + [NewGrant(src, rows[0], None)]
    ensures AddedForRows(before, after, src, rows)
  {
    forall i | |before| <= i < |after| ensures ForSomeRow(after[i], src, rows) {
      if i < |more| {
        assert after[i] == more[i] == NewGrant(src, rows[0], None) && rows[0] in rows;
      } else {
        assert ForSomeRow(after[i], src, rows[1..]);
        var row :| row in rows[1..] && GrantOf(after[i], src, row, None);
        assert row in rows;
      }
    }
  }

  lemma {:induction false} ProvisionAdds(grants: seq<Grant>, src: Source, rows: seq<PlanRow>)
    ensures AddedForRows(grants, InsertRows(grants, src, rows), src, rows)
    decreases |rows|
  {
    if rows != [] {
      var more := InsertUnlessDuplicate(grants, NewGrant(src, rows[0], None));
      ProvisionAdds(more, src, rows[1..]);
      AddedThenMore(grants, more, InsertRows(grants, src, rows), src, rows);
    }
  }

  /** In every reachable table the keys are unique. */
  lemma KeysStayUnique(ops: seq<Op>, i: nat, j: nat)
    requires i < j < |Run(EMPTY, ops).grants|
    ensures var g := Run(EMPTY, ops).grants[i];
            var h := Run(EMPTY, ops).grants[j];
            g.id != h.id && (g.userId != h.userId || g.code != h.code || g.sourceType != h.sourceType || g.sourceId != h.sourceId)
  {
    EmptyIsValid();
    RunKeepsValid(EMPTY, ops);
    hide Run, PoolRowsOk, UsageRowsOk, WithinQuota, RemainingExact;
  }

  // ----- Pools

  ghost predicate OnePoolPerLine(pools: seq<Pool>) {
    forall i, j :: 0 <= i < j < |pools| ==> pools[i].orderLineId != pools[j].orderLineId || pools[i].code != pools[j].code
  }

  predicate PoolOf(p: Pool, src: Source, row: PlanRow, orderLineId: nat) {
    && p.orderLineId == orderLineId && p.code == row.code && p.userId == src.userId && p.facts == row.facts
    && p.startsAt == src.startsAt && p.endsAt == src.endsAt
  }

  /** The pool of the line and code is there with the same facts, or there is none and the id is free. */
  ghost predicate PoolReady(s: Store, src: Source, row: PlanRow, orderLineId: nat, poolId: nat) {
    if exists p <- s.pools :: p.orderLineId == orderLineId && p.code == row.code
    then exists p <- s.pools :: PoolOf(p, src, row, orderLineId)
    else forall p <- s.pools :: p.id != poolId
  }

  lemma {:induction false} FindPoolFinds(pools: seq<Pool>, orderLineId: nat, code: string)
    ensures var f := FindPool(pools, orderLineId, code);
            && (f.Some? <==> exists p <- pools :: p.orderLineId == orderLineId && p.code == code)
            && (f.Some? ==> f.value in pools && f.value.orderLineId == orderLineId && f.value.code == code)
  {
    if pools != [] {
      FindPoolFinds(pools[1..], orderLineId, code);
      assert forall p :: p in pools <==> p == pools[0] || p in pools[1..];
    }
  }

  lemma {:induction false} FindPoolAppend(pools: seq<Pool>, p: Pool)
    requires forall q <- pools :: q.orderLineId != p.orderLineId || q.code != p.code
    ensures FindPool(pools + [p], p.orderLineId, p.code) == Some(p)
  {
    if pools != [] {
      assert pools[0] in pools && (pools + [p])[1..] == pools[1..] + [p];
      FindPoolAppend(pools[1..], p);
    }
  }

  /** The stored pool, which agrees with the request on every fact, is an old one or the only new one. */
  lemma PoolWrites(s: Store, src: Source, row: PlanRow, orderLineId: nat, poolId: nat)
    requires OnePoolPerLine(s.pools)
    ensures var (pools, r) := EnsurePool(s.pools, Pool(poolId, orderLineId, src.userId, row.code, row.facts, src.startsAt, src.endsAt));
            && (r.Success? <==> PoolReady(s, src, row, orderLineId, poolId))
            && (r.Success? ==>
                  && (exists p <- pools :: p.id == r.value && PoolOf(p, src, row, orderLineId))
                  && (pools == s.pools || exists p :: pools == s.pools + [p] && p.id == poolId && PoolOf(p, src, row, orderLineId)))
            && (r.Failure? ==> pools == s.pools && r.error == PoolMismatch)
  {
    var p := Pool(poolId, orderLineId, src.userId, row.code, row.facts, src.startsAt, src.endsAt);
    FindPoolFinds(s.pools, orderLineId, row.code);
    if exists q <- s.pools :: q.orderLineId == orderLineId && q.code == row.code {
      var stored := FindPool(s.pools, orderLineId, row.code).value;
      forall q <- s.pools | q.orderLineId == orderLineId && q.code == row.code ensures q == stored {
      }
      assert WithPool(s.pools, p) == s.pools;
    } else if exists q <- s.pools :: q.id == poolId {
      assert WithPool(s.pools, p) == s.pools;
    } else {
      FindPoolAppend(s.pools, p);
      assert WithPool(s.pools, p) == s.pools + [p];
    }
  }

  /** A pooled grant is added exactly for a well-formed source and row, a pool that is ready, and free keys. */
  lemma PooledWrites(s: Store, src: Source, row: PlanRow, orderLineId: nat, poolId: nat)
    requires OnePoolPerLine(s.pools)
    ensures var (s', r) := ProvisionPooled(s, src, row, orderLineId, poolId);
            && (r.Success? <==>
                  (SourceOk(src) && FactsOk(row.facts) && PoolReady(s, src, row, orderLineId, poolId)
                   && forall g <- s.grants :: !SameKeys(g, row.id, src, row.code)))
            && (r.Failure? ==> s' == s)
            && (r.Success? ==>
                  && s'.usage == s.usage && s.pools <= s'.pools && |s'.grants| == |s.grants| + 1 && s.grants <= s'.grants
                  && GrantOf(s'.grants[|s.grants|], src, row, Some(r.value))
                  && exists p <- s'.pools :: p.id == r.value && PoolOf(p, src, row, orderLineId))
  {
    SourceOkIff(src);
    PoolWrites(s, src, row, orderLineId, poolId);
    hide EnsurePool, PoolReady, SourceOk, ValidSource, PoolOf;
    forall h <- s.grants ensures forall pool: nat :: Collide(NewGrant(src, row, Some(pool)), h) <==> SameKeys(h, row.id, src, row.code) {
      forall pool: nat ensures Collide(NewGrant(src, row, Some(pool)), h) <==> SameKeys(h, row.id, src, row.code) {
        NewGrantIs(src, row, Some(pool), h);
      }
    }
  }

  lemma {:induction false} OnePoolPerLineKept(s: Store, ops: seq<Op>)
    requires OnePoolPerLine(s.pools)
    ensures OnePoolPerLine(Run(s, ops).pools)
    decreases |ops|
  {
    if ops != [] {
      OnePoolPerLineKept(Step(s, ops[0]), ops[1..]);
    }
  }
}
