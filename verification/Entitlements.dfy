/** The metered entitlement engine: the rows it keeps and what each operation does to them.

  Rows are never deleted.  `Store` is the content of the three tables; `Step` is
  one committed transaction.  A refused operation leaves every table as it was.
*/
module Entitlements {
  import opened Wrappers
  import opened Sorting
  import opened UsageWindows

  const MAX_QUANTITY := 9_223_372_036_854_775_807
  const EARLY_ACCESS := "UNVERIFIED_RECEIPT_ACCESS"

  /** A grant row; `code` names its definition. */
  datatype Grant = Grant(
    id: nat, userId: nat, code: string, sourceType: string, sourceId: string, facts: Facts,
    pool: Option<nat>, active: bool, startsAt: int, endsAt: Option<int>, createdAt: int)

  datatype Pool = Pool(id: nat, orderLineId: nat, userId: nat, code: string, facts: Facts, startsAt: int, endsAt: Option<int>)

  /** What the request hash identifies. */
  datatype Request = Request(code: string, quantity: int)

  datatype Usage = Usage(
    grantId: nat, userId: nat, key: string, request: Request, quantity: int,
    window: Window, remainingAfter: Option<int>, createdAt: int)

  datatype Store = Store(grants: seq<Grant>, pools: seq<Pool>, usage: seq<Usage>)

  datatype Error = InvalidQuantity | InvalidKey | KeyReused | Exhausted | InvalidSource | Rejected | PoolMismatch

  // ----- Queries

  /** Earliest expiry first, grants without expiry last, then by creation and id. */
  predicate Precedes(a: Grant, b: Grant) {
    if a.endsAt != b.endsAt then a.endsAt.Some? && (b.endsAt.None? || a.endsAt.value < b.endsAt.value)
    else a.createdAt < b.createdAt || (a.createdAt == b.createdAt && a.id <= b.id)
  }

  predicate Current(g: Grant, at: int) {
    g.active && Contains(Window(g.startsAt, g.endsAt), at)
  }

  /** The rows a query finds: a blank code asks for every code, and an early-access grant
      counts only when pooled and backed by one of the effects in `early`. */
  function VisibleTo(userId: nat, code: string, at: int, early: set<nat>): Grant -> bool {
    (g: Grant) =>
      && g.userId == userId && Current(g, at) && (code != "" ==> g.code == code)
      && (g.sourceType == EARLY_ACCESS ==> g.pool.Some? && g.id in early)
  }

  function ActiveGrants(s: Store, userId: nat, code: string, at: int, early: set<nat>): seq<Grant> {
    Select(Sort(s.grants, Precedes), VisibleTo(userId, code, at, early))
  }

  /** The grants whose usage counts against the same quota as `g`. */
  function Scope(grants: seq<Grant>, g: Grant): set<nat> {
    if g.pool.Some? then set h | h in grants && h.pool == g.pool :: h.id else {g.id}
  }

  function Used(usage: seq<Usage>, scope: set<nat>, w: Window): int {
    if usage == [] then 0
    else
      var last := usage[|usage| - 1];
      Used(usage[..|usage| - 1], scope, w) + if last.grantId in scope && last.window == w then last.quantity else 0
  }

  function WindowOf(g: Grant, at: int): Window {
    UsageWindow(g.facts.reset, g.startsAt, g.endsAt, at)
  }

  function UsedAt(s: Store, g: Grant, at: int): int {
    Used(s.usage, Scope(s.grants, g), WindowOf(g, at))
  }

  datatype Decision = Decision(code: string, allowed: bool, remaining: Option<int>, window: Window)

  function GrantDecision(s: Store, g: Grant, at: int): Decision {
    if g.facts.valueType == Metered && g.facts.quota.Some? then
      var available := g.facts.quota.value - UsedAt(s, g, at);
      Decision(g.code, available > 0, Some(if available > 0 then available else 0), WindowOf(g, at))
    else
      Decision(g.code, g.facts.valueType != Flag || g.facts.flag == Some(true), None, WindowOf(g, at))
  }

  // ----- Consumption

  predicate KeyCharacter(c: char) {
    'A' <= c <= 'Z' || 'a' <= c <= 'z' || '0' <= c <= '9' || c in "._:-"
  }

  predicate ValidKey(key: string) {
    8 <= |key| <= 128 && forall c <- key :: KeyCharacter(c)
  }

  function FindUsage(usage: seq<Usage>, userId: nat, key: string): Option<Usage> {
    if usage == [] then None
    else if usage[0].userId == userId && usage[0].key == key then Some(usage[0])
    else FindUsage(usage[1..], userId, key)
  }

  predicate CanCharge(s: Store, g: Grant, quantity: int, at: int) {
    var d := GrantDecision(s, g, at);
    d.allowed && (d.remaining.Some? ==> quantity <= d.remaining.value)
  }

  function FirstChargeable(s: Store, grants: seq<Grant>, quantity: int, at: int): Option<Grant> {
    if grants == [] then None
    else if CanCharge(s, grants[0], quantity, at) then Some(grants[0])
    else FirstChargeable(s, grants[1..], quantity, at)
  }

  function UsageRow(s: Store, g: Grant, userId: nat, key: string, request: Request, at: int): Usage {
    var d := GrantDecision(s, g, at);
    Usage(g.id, userId, key, request, request.quantity, d.window,
          if d.remaining.Some? then Some(d.remaining.value - request.quantity) else None, at)
  }

  datatype Receipt = Receipt(code: string, consumed: int, remaining: Option<int>, replayed: bool, window: Window)

  function ReceiptOf(u: Usage, code: string, replayed: bool): Receipt {
    Receipt(code, u.quantity, u.remainingAfter, replayed, u.window)
  }

  /** `consume`, with `code` already trimmed and upper-cased. */
  function Consume(s: Store, userId: nat, request: Request, key: string, at: int, early: set<nat>): (Store, Result<Receipt, Error>) {
    if request.quantity <= 0 || request.quantity > MAX_QUANTITY then (s, Failure(InvalidQuantity))
    else if !ValidKey(key) then (s, Failure(InvalidKey))
    else
      var existing := FindUsage(s.usage, userId, key);
      if existing.Some? then
        if existing.value.request != request then (s, Failure(KeyReused))
        else (s, Success(ReceiptOf(existing.value, request.code, true)))
      else
        var chosen := FirstChargeable(s, ActiveGrants(s, userId, request.code, at, early), request.quantity, at);
        if chosen.None? then (s, Failure(Exhausted))
        else
          var u := UsageRow(s, chosen.value, userId, key, request, at);
          (s.(usage := s.usage + [u]), Success(ReceiptOf(u, request.code, false)))
  }

  // ----- Provisioning and revocation

  datatype PlanRow = PlanRow(id: nat, code: string, facts: Facts)

  datatype Source = Source(userId: nat, sourceType: string, sourceId: string, startsAt: int, endsAt: Option<int>, createdAt: int)

  predicate ValidSourceType(t: string) {
    && 2 <= |t| <= 64 && 'A' <= t[0] <= 'Z'
    && forall c <- t :: 'A' <= c <= 'Z' || '0' <= c <= '9' || c == '_'
  }

  predicate ValidSource(src: Source) {
    && ValidSourceType(src.sourceType) && 1 <= |src.sourceId| <= 128
    && (src.endsAt.Some? ==> src.startsAt < src.endsAt.value)
  }

  function NewGrant(src: Source, row: PlanRow, pool: Option<nat>): Grant {
    Grant(row.id, src.userId, row.code, src.sourceType, src.sourceId, row.facts, pool, true, src.startsAt, src.endsAt, src.createdAt)
  }

  /** Two rows that the table's keys do not allow together. */
  predicate Collide(g: Grant, h: Grant) {
    g.id == h.id || (g.userId == h.userId && g.code == h.code && g.sourceType == h.sourceType && g.sourceId == h.sourceId)
  }

  function InsertUnlessDuplicate(grants: seq<Grant>, g: Grant): seq<Grant> {
    if exists h <- grants :: Collide(g, h) then grants else grants + [g]
  }

  function InsertRows(grants: seq<Grant>, src: Source, rows: seq<PlanRow>): (r: seq<Grant>)
    ensures |grants| <= |r|
    decreases |rows|
  {
    if rows == [] then grants
    else InsertRows(InsertUnlessDuplicate(grants, NewGrant(src, rows[0], None)), src, rows[1..])
  }

  /** `provisionFromPlanVersion` for the rows configured for the plan version. */
  function Provision(s: Store, src: Source, rows: seq<PlanRow>): (Store, Result<nat, Error>) {
    if !ValidSource(src) then (s, Failure(InvalidSource))
    else if exists row <- rows :: !MatchesSemantics(row.facts) then (s, Failure(Rejected))
    else
      var grants := InsertRows(s.grants, src, rows);
      (s.(grants := grants), Success(|grants| - |s.grants|))
  }

  function FindPool(pools: seq<Pool>, orderLineId: nat, code: string): Option<Pool> {
    if pools == [] then None
    else if pools[0].orderLineId == orderLineId && pools[0].code == code then Some(pools[0])
    else FindPool(pools[1..], orderLineId, code)
  }

  function WithPool(pools: seq<Pool>, p: Pool): seq<Pool> {
    if exists q <- pools :: q.id == p.id || (q.orderLineId == p.orderLineId && q.code == p.code) then pools else pools + [p]
  }

  /** `ensureReceiptQuotaPool`: insert unless present, read back, and compare every fact. */
  function EnsurePool(pools: seq<Pool>, p: Pool): (seq<Pool>, Result<nat, Error>) {
    var stored := FindPool(WithPool(pools, p), p.orderLineId, p.code);
    if stored.None? || stored.value.(id := p.id) != p then (pools, Failure(PoolMismatch))
    else (WithPool(pools, p), Success(stored.value.id))
  }

  /** A grant that draws on the quota pool of an order line. */
  function ProvisionPooled(s: Store, src: Source, row: PlanRow, orderLineId: nat, poolId: nat): (Store, Result<nat, Error>) {
    if !ValidSource(src) then (s, Failure(InvalidSource))
    else if !MatchesSemantics(row.facts) then (s, Failure(Rejected))
    else
      var (pools, pool) := EnsurePool(s.pools, Pool(poolId, orderLineId, src.userId, row.code, row.facts, src.startsAt, src.endsAt));
      if pool.Failure? then (s, Failure(pool.error))
      else
        var g := NewGrant(src, row, Some(pool.value));
        if exists h <- s.grants :: Collide(g, h) then (s, Failure(Rejected))
        else (s.(pools := pools, grants := s.grants + [g]), Success(pool.value))
  }

  function RevokeGrants(grants: seq<Grant>, ids: set<nat>): (r: seq<Grant>)
    ensures |r| == |grants|
    ensures forall i :: 0 <= i < |grants| ==> r[i] == grants[i].(active := grants[i].active && grants[i].id !in ids)
  {
    if grants == [] then []
    else [grants[0].(active := grants[0].active && grants[0].id !in ids)] + RevokeGrants(grants[1..], ids)
  }

  // ----- Runs

  datatype Op =
    | ProvisionOp(src: Source, rows: seq<PlanRow>)
    | PooledOp(src: Source, row: PlanRow, orderLineId: nat, poolId: nat)
    | RevokeOp(ids: set<nat>)
    | ConsumeOp(userId: nat, request: Request, key: string, at: int, early: set<nat>)

  function Step(s: Store, op: Op): Store {
    match op
    case ProvisionOp(src, rows) => Provision(s, src, rows).0
    case PooledOp(src, row, orderLineId, poolId) => ProvisionPooled(s, src, row, orderLineId, poolId).0
    case RevokeOp(ids) => s.(grants := RevokeGrants(s.grants, ids))
    case ConsumeOp(userId, request, key, at, early) => Consume(s, userId, request, key, at, early).0
  }

  function Run(s: Store, ops: seq<Op>): Store
    decreases |ops|
  {
    if ops == [] then s else Run(Step(s, ops[0]), ops[1..])
  }

  const EMPTY := Store([], [], [])

  // ----- The service

  /** Entries kept in order of first insertion, one per code: the `Map` of `listForUser`. */
  function PutEntry(items: seq<Decision>, d: Decision): seq<Decision> {
    if items == [] then [d]
    else if items[0].code == d.code then (if !items[0].allowed && d.allowed then [d] else [items[0]]) + items[1..]
    else [items[0]] + PutEntry(items[1..], d)
  }

  datatype Answer = Denied(code: string) | Decided(decision: Decision)

  function FirstAllowed(s: Store, grants: seq<Grant>, at: int): Option<Decision> {
    if grants == [] then None
    else if GrantDecision(s, grants[0], at).allowed then Some(GrantDecision(s, grants[0], at))
    else FirstAllowed(s, grants[1..], at)
  }

  function Resolve(s: Store, userId: nat, code: string, at: int, early: set<nat>): Answer {
    var grants := ActiveGrants(s, userId, code, at, early);
    if grants == [] then Denied(code)
    else
      var found := FirstAllowed(s, grants, at);
      Decided(if found.Some? then found.value else GrantDecision(s, grants[0], at))
  }

  function Listed(s: Store, grants: seq<Grant>, at: int): seq<Decision> {
    if grants == [] then []
    else PutEntry(Listed(s, grants[..|grants| - 1], at), GrantDecision(s, grants[|grants| - 1], at))
  }

  class EntitlementService {
    var grants: seq<Grant>
    var pools: seq<Pool>
    var usage: seq<Usage>

    function State(): Store
      reads this
    {
      Store(grants, pools, usage)
    }

    constructor ()
      ensures State() == EMPTY
    {
      grants, pools, usage := [], [], [];
    }

    method ConsumeQuota(userId: nat, request: Request, key: string, at: int, early: set<nat>) returns (r: Result<Receipt, Error>)
      modifies this`usage
      ensures (State(), r) == Consume(old(State()), userId, request, key, at, early)
    {
      if request.quantity <= 0 || request.quantity > MAX_QUANTITY {
        return Failure(InvalidQuantity);
      }
      if !ValidKey(key) {
        return Failure(InvalidKey);
      }
      var existing := FindUsage(usage, userId, key);
      if existing.Some? {
        if existing.value.request != request {
          return Failure(KeyReused);
        }
        return Success(ReceiptOf(existing.value, request.code, true));
      }
      var candidates := ActiveGrants(State(), userId, request.code, at, early);
      for i := 0 to |candidates|
        invariant usage == old(usage)
        invariant FirstChargeable(State(), candidates, request.quantity, at) == FirstChargeable(State(), candidates[i..], request.quantity, at)
      {
        var grant := candidates[i];
        var decision := GrantDecision(State(), grant, at);
        if !decision.allowed { continue; }
        if decision.remaining.Some? && decision.remaining.value < request.quantity { continue; }
        var row := Usage(grant.id, userId, key, request, request.quantity, decision.window,
                         if decision.remaining.Some? then Some(decision.remaining.value - request.quantity) else None, at);
        usage := usage + [row];
        return Success(ReceiptOf(row, request.code, false));
      }
      r := Failure(Exhausted);
    }

    method ListForUser(userId: nat, at: int, early: set<nat>) returns (items: seq<Decision>)
      ensures items == Listed(State(), ActiveGrants(State(), userId, "", at, early), at)
    {
      var candidates := ActiveGrants(State(), userId, "", at, early);
      items := [];
      for i := 0 to |candidates|
        invariant items == Listed(State(), candidates[..i], at)
      {
        assert candidates[..i + 1][..i] == candidates[..i];
        items := PutEntry(items, GrantDecision(State(), candidates[i], at));
      }
      assert candidates[..|candidates|] == candidates;
    }

    method ProvisionFromPlanVersion(src: Source, rows: seq<PlanRow>) returns (r: Result<nat, Error>)
      modifies this`grants
      ensures (State(), r) == Provision(old(State()), src, rows)
    {
      if !ValidSource(src) {
        return Failure(InvalidSource);
      }
      if exists row <- rows :: !MatchesSemantics(row.facts) {
        return Failure(Rejected);
      }
      var before: nat := |grants|;
      for i := 0 to |rows|
        invariant before <= |grants|
        invariant InsertRows(old(grants), src, rows) == InsertRows(grants, src, rows[i..])
      {
        grants := InsertUnlessDuplicate(grants, NewGrant(src, rows[i], None));
        assert rows[i..][1..] == rows[i + 1..];
      }
      r := Success(|grants| - before);
    }

    method EnsureReceiptQuotaPool(p: Pool) returns (r: Result<nat, Error>)
      modifies this`pools
      ensures (pools, r) == EnsurePool(old(pools), p)
    {
      var before := pools;
      if !exists q <- pools :: q.id == p.id || (q.orderLineId == p.orderLineId && q.code == p.code) {
        pools := pools + [p];
      }
      var stored := FindPool(pools, p.orderLineId, p.code);
      if stored.None? || stored.value.(id := p.id) != p {
        pools := before;
        return Failure(PoolMismatch);
      }
      r := Success(stored.value.id);
    }

    method GrantFromPool(src: Source, row: PlanRow, orderLineId: nat, poolId: nat) returns (r: Result<nat, Error>)
      modifies this`pools, this`grants
      ensures (State(), r) == ProvisionPooled(old(State()), src, row, orderLineId, poolId)
    {
      if !ValidSource(src) {
        return Failure(InvalidSource);
      }
      if !MatchesSemantics(row.facts) {
        return Failure(Rejected);
      }
      var before := pools;
      r := EnsureReceiptQuotaPool(Pool(poolId, orderLineId, src.userId, row.code, row.facts, src.startsAt, src.endsAt));
      if r.Failure? {
        return;
      }
      var g := NewGrant(src, row, Some(r.value));
      if exists h <- grants :: Collide(g, h) {
        pools := before;
        return Failure(Rejected);
      }
      grants := grants + [g];
    }

    method Revoke(ids: set<nat>)
      modifies this`grants
      ensures State() == Step(old(State()), RevokeOp(ids))
    {
      grants := RevokeGrants(grants, ids);
    }
  }
}
