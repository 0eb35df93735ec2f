/** What every run of the entitlement engine keeps: quotas, remaining amounts, pools, and exactly-once consumption. */
module EntitlementLaws {
  import opened Wrappers
  import opened Calendar
  import opened Sorting
  import opened UsageWindows
  import opened Entitlements

  // ----- The invariant

  ghost predicate GrantRowsOk(grants: seq<Grant>) {
    && (forall i, j :: 0 <= i < j < |grants| ==> !Collide(grants[i], grants[j]))
    && (forall g <- grants :: MatchesSemantics(g.facts) && (g.endsAt.Some? ==> g.startsAt < g.endsAt.value))
  }

  predicate DrawsOn(g: Grant, p: Pool) {
    g.userId == p.userId && g.code == p.code && g.facts == p.facts && g.startsAt == p.startsAt && g.endsAt == p.endsAt
  }

  ghost predicate PoolRowsOk(s: Store) {
    && (forall i, j :: 0 <= i < j < |s.pools| ==> s.pools[i].id != s.pools[j].id)
    && (forall g <- s.grants :: g.pool.Some? ==> exists p <- s.pools :: p.id == g.pool.value && DrawsOn(g, p))
  }

  /** The usage row was written for an existing grant of its user, inside the grant, in the grant's window. */
  ghost predicate Accounted(grants: seq<Grant>, u: Usage) {
    exists g <- grants :: g.id == u.grantId && g.userId == u.userId && u.quantity > 0
      && u.window == WindowOf(g, u.createdAt) && Contains(Window(g.startsAt, g.endsAt), u.createdAt)
  }

  ghost predicate UsageRowsOk(s: Store) {
    && (forall u <- s.usage :: Accounted(s.grants, u))
    && (forall i, j :: 0 <= i < j < |s.usage| ==> s.usage[i].userId != s.usage[j].userId || s.usage[i].key != s.usage[j].key)
  }

  ghost predicate WithinQuota(s: Store) {
    forall g, w :: g in s.grants && g.facts.valueType == Metered && g.facts.quota.Some? ==>
      Used(s.usage, Scope(s.grants, g), w) <= g.facts.quota.value
  }

  /** The quota left in a window of a metered grant; nothing for other grants. */
  function Remainder(usage: seq<Usage>, scope: set<nat>, g: Grant, w: Window): Option<int> {
    if g.facts.valueType == Metered && g.facts.quota.Some? then Some(g.facts.quota.value - Used(usage, scope, w)) else None
  }

  /** Each row records what was left in its window once it was written. */
  ghost predicate RemainingExact(s: Store) {
    forall i, g :: 0 <= i < |s.usage| && g in s.grants && g.id == s.usage[i].grantId ==>
      s.usage[i].remainingAfter == Remainder(s.usage[..i + 1], Scope(s.grants, g), g, s.usage[i].window)
  }

  ghost predicate Valid(s: Store) {
    GrantRowsOk(s.grants) && PoolRowsOk(s) && UsageRowsOk(s) && WithinQuota(s) && RemainingExact(s)
  }

  // ----- Frames: what leaves recorded usage as it was

  lemma {:induction false} UsedSameScope(usage: seq<Usage>, a: set<nat>, b: set<nat>, w: Window)
    requires forall u <- usage :: u.grantId in a <==> u.grantId in b
    ensures Used(usage, a, w) == Used(usage, b, w)
  {
    if usage != [] {
      assert usage[|usage| - 1] in usage;
      UsedSameScope(usage[..|usage| - 1], a, b, w);
    }
  }

  lemma {:induction false} UsedNone(usage: seq<Usage>, scope: set<nat>, w: Window)
    requires forall u <- usage :: u.grantId !in scope
    ensures Used(usage, scope, w) == 0
  {
    if usage != [] {
      assert usage[|usage| - 1] in usage;
      UsedNone(usage[..|usage| - 1], scope, w);
    }
  }

  lemma UsedAppend(usage: seq<Usage>, u: Usage, scope: set<nat>, w: Window)
    ensures Used(usage + [u], scope, w) == Used(usage, scope, w) + if u.grantId in scope && u.window == w then u.quantity else 0
  {
    assert (usage + [u])[..|usage|] == usage;
  }

  lemma SameId(grants: seq<Grant>, g: Grant, h: Grant)
    requires GrantRowsOk(grants) && g in grants && h in grants && g.id == h.id
    ensures g == h
  {
  }

  /** Members of one pool share quota, window facts, and therefore what has been used. */
  lemma PoolMembersAgree(s: Store, g: Grant, h: Grant)
    requires PoolRowsOk(s) && g in s.grants && h in s.grants && g.pool.Some? && g.pool == h.pool
    ensures g.facts == h.facts && g.startsAt == h.startsAt && g.endsAt == h.endsAt && g.userId == h.userId && g.code == h.code
    ensures Scope(s.grants, g) == Scope(s.grants, h)
  {
    var p :| p in s.pools && p.id == g.pool.value && DrawsOn(g, p);
    var q :| q in s.pools && q.id == h.pool.value && DrawsOn(h, q);
    assert p == q;
  }

  /** A usage row counted for `g` was written for a grant with the facts of `g`. */
  lemma ScopeFacts(s: Store, g: Grant, h: Grant)
    requires GrantRowsOk(s.grants) && PoolRowsOk(s) && g in s.grants && h in s.grants && h.id in Scope(s.grants, g)
    ensures g.facts == h.facts && g.startsAt == h.startsAt && g.endsAt == h.endsAt && Scope(s.grants, g) == Scope(s.grants, h)
  {
    if g.pool.Some? {
      var k :| k in s.grants && k.pool == g.pool && k.id == h.id;
      SameId(s.grants, k, h);
      PoolMembersAgree(s, g, h);
    } else {
      SameId(s.grants, g, h);
    }
  }

  // ----- Consumption keeps the invariant

  lemma {:induction false} FirstChargeableIsFirst(s: Store, grants: seq<Grant>, quantity: int, at: int)
    ensures var c := FirstChargeable(s, grants, quantity, at);
            && (c.None? <==> forall g <- grants :: !CanCharge(s, g, quantity, at))
            && (c.Some? ==> exists i :: 0 <= i < |grants| && grants[i] == c.value && CanCharge(s, c.value, quantity, at)
                                        && forall j :: 0 <= j < i ==> !CanCharge(s, grants[j], quantity, at))
  {
    if grants != [] && !CanCharge(s, grants[0], quantity, at) {
      FirstChargeableIsFirst(s, grants[1..], quantity, at);
      var c := FirstChargeable(s, grants[1..], quantity, at);
      if c.Some? {
        var i :| 0 <= i < |grants[1..]| && grants[1..][i] == c.value && forall j :: 0 <= j < i ==> !CanCharge(s, grants[1..][j], quantity, at);
        forall j | 0 <= j < i + 1 ensures !CanCharge(s, grants[j], quantity, at) {
          if j > 0 {
            assert grants[j] == grants[1..][j - 1];
          }
        }
        assert grants[i + 1] == c.value;
      }
      assert forall g :: g in grants <==> g == grants[0] || g in grants[1..];
    }
  }

  lemma ActiveGrantsAreRows(s: Store, userId: nat, code: string, at: int, early: set<nat>)
    ensures forall g :: g in ActiveGrants(s, userId, code, at, early) <==> g in s.grants && VisibleTo(userId, code, at, early)(g)
  {
    SortMembers(s.grants, Precedes);
  }

  /** One more row within the remaining quota. */
  lemma ChargeKeepsQuota(s: Store, g: Grant, u: Usage)
    requires GrantRowsOk(s.grants) && PoolRowsOk(s) && WithinQuota(s) && g in s.grants
    requires u.grantId == g.id
    requires g.facts.valueType == Metered && g.facts.quota.Some? ==>
             Used(s.usage, Scope(s.grants, g), u.window) + u.quantity <= g.facts.quota.value
    ensures WithinQuota(s.(usage := s.usage + [u]))
  {
    var s' := s.(usage := s.usage + [u]);
    forall h, w | h in s'.grants && h.facts.valueType == Metered && h.facts.quota.Some?
      ensures Used(s'.usage, Scope(s'.grants, h), w) <= h.facts.quota.value
    {
      UsedAppend(s.usage, u, Scope(s.grants, h), w);
      if g.id in Scope(s.grants, h) {
        ScopeFacts(s, h, g);
      }
    }
  }

  lemma ChargeKeepsRemaining(s: Store, g: Grant, u: Usage)
    requires GrantRowsOk(s.grants) && RemainingExact(s) && g in s.grants && u.grantId == g.id
    requires u.remainingAfter == Remainder(s.usage + [u], Scope(s.grants, g), g, u.window)
    ensures RemainingExact(s.(usage := s.usage + [u]))
  {
    hide Remainder, Scope;
    var s' := s.(usage := s.usage + [u]);
    forall i, h | 0 <= i < |s'.usage| && h in s'.grants && h.id == s'.usage[i].grantId
      ensures s'.usage[i].remainingAfter == Remainder(s'.usage[..i + 1], Scope(s'.grants, h), h, s'.usage[i].window)
    {
      if i < |s.usage| {
        assert s'.usage[..i + 1] == s.usage[..i + 1];
      } else {
        SameId(s.grants, g, h);
        assert s'.usage[..i + 1] == s.usage + [u];
      }
    }
  }

  lemma {:induction false} FindUsageSound(usage: seq<Usage>, userId: nat, key: string)
    ensures var f := FindUsage(usage, userId, key);
            && (f.Some? ==> f.value in usage && f.value.userId == userId && f.value.key == key)
            && (f.None? ==> forall u <- usage :: u.userId != userId || u.key != key)
  {
    if usage != [] {
      FindUsageSound(usage[1..], userId, key);
      assert forall u :: u in usage <==> u == usage[0] || u in usage[1..];
    }
  }

  /** The row written when `g` is charged. */
  lemma ChargedRow(s: Store, g: Grant, userId: nat, key: string, request: Request, at: int)
    requires g in s.grants && CanCharge(s, g, request.quantity, at) && request.quantity > 0 && MatchesSemantics(g.facts)
    ensures var u := UsageRow(s, g, userId, key, request, at);
            && u.grantId == g.id && u.userId == userId && u.key == key && u.quantity == request.quantity
            && u.window == WindowOf(g, at) && u.createdAt == at
            && u.remainingAfter == Remainder(s.usage + [u], Scope(s.grants, g), g, u.window)
            && (g.facts.valueType == Metered && g.facts.quota.Some? ==>
                Used(s.usage, Scope(s.grants, g), u.window) + u.quantity <= g.facts.quota.value)
  {
    hide WindowOf;
    var u := UsageRow(s, g, userId, key, request, at);
    assert g.id in Scope(s.grants, g);
    UsedAppend(s.usage, u, Scope(s.grants, g), u.window);
  }

  lemma ConsumeCharges(s: Store, userId: nat, request: Request, key: string, at: int, early: set<nat>)
    returns (g: Grant)
    requires Consume(s, userId, request, key, at, early).0 != s
    ensures g in s.grants && VisibleTo(userId, request.code, at, early)(g) && CanCharge(s, g, request.quantity, at)
    ensures request.quantity > 0 && FindUsage(s.usage, userId, key).None?
    ensures Consume(s, userId, request, key, at, early).0 == s.(usage := s.usage + [UsageRow(s, g, userId, key, request, at)])
  {
    hide CanCharge, UsageRow;
    var candidates := ActiveGrants(s, userId, request.code, at, early);
    FirstChargeableIsFirst(s, candidates, request.quantity, at);
    ActiveGrantsAreRows(s, userId, request.code, at, early);
    g := FirstChargeable(s, candidates, request.quantity, at).value;
    assert g in candidates;
  }

  lemma ConsumeKeepsValid(s: Store, userId: nat, request: Request, key: string, at: int, early: set<nat>)
    requires Valid(s)
    ensures Valid(Consume(s, userId, request, key, at, early).0)
  {
    hide Consume, UsageRow, CanCharge, Used, WindowOf, Remainder, Scope;
    if Consume(s, userId, request, key, at, early).0 != s {
      var g := ConsumeCharges(s, userId, request, key, at, early);
      var u := UsageRow(s, g, userId, key, request, at);
      ChargedRow(s, g, userId, key, request, at);
      FindUsageSound(s.usage, userId, key);
      ChargeKeepsQuota(s, g, u);
      ChargeKeepsRemaining(s, g, u);
      assert Accounted(s.grants, u);
    }
  }

  // ----- Provisioning and revocation keep the invariant

  lemma InsertKeepsUsage(s: Store, g: Grant, w: Window, h: Grant)
    requires UsageRowsOk(s) && h in s.grants && forall k <- s.grants :: k.id != g.id
    ensures Used(s.usage, Scope(s.grants + [g], h), w) == Used(s.usage, Scope(s.grants, h), w)
  {
    forall u <- s.usage ensures u.grantId in Scope(s.grants + [g], h) <==> u.grantId in Scope(s.grants, h) {
      assert Accounted(s.grants, u);
    }
    UsedSameScope(s.usage, Scope(s.grants + [g], h), Scope(s.grants, h), w);
  }

  /** What a fresh grant finds already used: nothing, or what its pool has used. */
  lemma FreshGrantWithinQuota(s: Store, g: Grant, w: Window)
    requires Valid(s) && forall k <- s.grants :: k.id != g.id
    requires g.facts.valueType == Metered && MatchesSemantics(g.facts)
    requires g.pool.Some? ==> forall h <- s.grants :: h.pool == g.pool ==> h.facts == g.facts
    ensures Used(s.usage, Scope(s.grants + [g], g), w) <= g.facts.quota.value
  {
    var scope := Scope(s.grants + [g], g);
    if h :| h in s.grants && g.pool.Some? && h.pool == g.pool {
      InsertKeepsUsage(s, g, w, h);
      assert scope == Scope(s.grants + [g], h);
    } else {
      forall u <- s.usage ensures u.grantId !in scope {
        assert Accounted(s.grants, u);
      }
      UsedNone(s.usage, scope, w);
    }
  }

  lemma InsertKeepsValid(s: Store, g: Grant)
    requires Valid(s) && (forall h <- s.grants :: !Collide(g, h))
    requires MatchesSemantics(g.facts) && (g.endsAt.Some? ==> g.startsAt < g.endsAt.value)
    requires g.pool.Some? ==> exists p <- s.pools :: p.id == g.pool.value && DrawsOn(g, p)
    ensures Valid(s.(grants := s.grants + [g]))
  {
    var s' := s.(grants := s.grants + [g]);
    assert PoolRowsOk(s');
    forall u <- s'.usage ensures Accounted(s'.grants, u) {
      var h :| h in s.grants && h.id == u.grantId && h.userId == u.userId && u.quantity > 0
        && u.window == WindowOf(h, u.createdAt) && Contains(Window(h.startsAt, h.endsAt), u.createdAt);
      assert h in s'.grants;
    }
    forall h, w | h in s'.grants && h.facts.valueType == Metered && h.facts.quota.Some?
      ensures Used(s'.usage, Scope(s'.grants, h), w) <= h.facts.quota.value
    {
      if h in s.grants {
        InsertKeepsUsage(s, g, w, h);
      } else {
        forall k <- s.grants | g.pool.Some? && k.pool == g.pool ensures k.facts == g.facts {
          assert k in s'.grants && g in s'.grants;
          PoolMembersAgree(s', k, g);
        }
        FreshGrantWithinQuota(s, g, w);
      }
    }
    InsertKeepsRemaining(s, g);
  }

  lemma InsertKeepsRemaining(s: Store, g: Grant)
    requires Valid(s) && forall h <- s.grants :: h.id != g.id
    ensures RemainingExact(s.(grants := s.grants + [g]))
  {
    hide Scope, Used, WindowOf;
    var s' := s.(grants := s.grants + [g]);
    forall i, h | 0 <= i < |s'.usage| && h in s'.grants && h.id == s'.usage[i].grantId
      ensures s'.usage[i].remainingAfter == Remainder(s'.usage[..i + 1], Scope(s'.grants, h), h, s'.usage[i].window)
    {
      assert Accounted(s.grants, s.usage[i]);
      assert h in s.grants;
      var prefix := s.(usage := s.usage[..i + 1]);
      assert forall u <- prefix.usage :: u in s.usage;
      InsertKeepsUsage(prefix, g, s.usage[i].window, h);
    }
  }

  lemma {:induction false} InsertRowsKeepsValid(s: Store, src: Source, rows: seq<PlanRow>)
    requires Valid(s) && ValidSource(src) && forall row <- rows :: MatchesSemantics(row.facts)
    ensures Valid(s.(grants := InsertRows(s.grants, src, rows)))
    decreases |rows|
  {
    if rows == [] {
      assert s.(grants := s.grants) == s;
    } else {
      var g := NewGrant(src, rows[0], None);
      var s1 := s.(grants := InsertUnlessDuplicate(s.grants, g));
      assert rows[0] in rows;
      if !exists h <- s.grants :: Collide(g, h) {
        InsertKeepsValid(s, g);
      }
      InsertRowsKeepsValid(s1, src, rows[1..]);
    }
  }

  lemma {:induction false} FindPoolSound(pools: seq<Pool>, orderLineId: nat, code: string)
    ensures var f := FindPool(pools, orderLineId, code);
            f.Some? ==> f.value in pools && f.value.orderLineId == orderLineId && f.value.code == code
  {
    if pools != [] {
      FindPoolSound(pools[1..], orderLineId, code);
    }
  }

  lemma PoolsGrow(s: Store, pools: seq<Pool>)
    requires Valid(s) && s.pools <= pools
    requires forall i, j :: 0 <= i < j < |pools| ==> pools[i].id != pools[j].id
    ensures Valid(s.(pools := pools))
  {
    forall g <- s.grants | g.pool.Some? ensures exists q <- pools :: q.id == g.pool.value && DrawsOn(g, q) {
      var q :| q in s.pools && q.id == g.pool.value && DrawsOn(g, q);
      assert q in pools;
    }
  }

  lemma PooledKeepsValid(s: Store, src: Source, row: PlanRow, orderLineId: nat, poolId: nat)
    requires Valid(s)
    ensures Valid(ProvisionPooled(s, src, row, orderLineId, poolId).0)
  {
    hide Used, Scope, Remainder, WindowOf, UsageRowsOk, GrantRowsOk, WithinQuota, RemainingExact;
    var p := Pool(poolId, orderLineId, src.userId, row.code, row.facts, src.startsAt, src.endsAt);
    var (pools, pool) := EnsurePool(s.pools, p);
    var s1 := s.(pools := pools);
    if ProvisionPooled(s, src, row, orderLineId, poolId).1.Success? {
      FindPoolSound(pools, orderLineId, row.code);
      PoolsGrow(s, pools);
      var g := NewGrant(src, row, Some(pool.value));
      var stored := FindPool(pools, orderLineId, row.code).value;
      assert stored in s1.pools && stored.id == g.pool.value && DrawsOn(g, stored);
      InsertKeepsValid(s1, g);
    }
  }

  lemma RevokeKeepsScope(grants: seq<Grant>, ids: set<nat>, i: nat)
    requires i < |grants|
    ensures Scope(RevokeGrants(grants, ids), RevokeGrants(grants, ids)[i]) == Scope(grants, grants[i])
  {
    var after := RevokeGrants(grants, ids);
    if grants[i].pool.Some? {
      forall id | id in Scope(grants, grants[i]) ensures id in Scope(after, after[i]) {
        var k :| 0 <= k < |grants| && grants[k].pool == grants[i].pool && grants[k].id == id;
        assert after[k] in after && after[k].pool == after[i].pool && after[k].id == id;
      }
      forall id | id in Scope(after, after[i]) ensures id in Scope(grants, grants[i]) {
        var k :| 0 <= k < |after| && after[k].pool == after[i].pool && after[k].id == id;
        assert grants[k] in grants && grants[k].pool == grants[i].pool && grants[k].id == id;
      }
    }
  }

  /** A row after revocation is a row from before, with the same facts and scope. */
  lemma RevokedRow(grants: seq<Grant>, ids: set<nat>, g: Grant) returns (h: Grant)
    requires g in RevokeGrants(grants, ids)
    ensures h in grants && g == h.(active := g.active)
    ensures Scope(RevokeGrants(grants, ids), g) == Scope(grants, h)
  {
    var i :| 0 <= i < |RevokeGrants(grants, ids)| && RevokeGrants(grants, ids)[i] == g;
    RevokeKeepsScope(grants, ids, i);
    h := grants[i];
  }

  lemma RevokeKeepsRows(s: Store, ids: set<nat>)
    requires Valid(s)
    ensures var s' := Step(s, RevokeOp(ids)); GrantRowsOk(s'.grants) && PoolRowsOk(s') && UsageRowsOk(s')
  {
    hide Used, WindowOf, Scope;
    var s' := Step(s, RevokeOp(ids));
    forall g <- s'.grants | g.pool.Some? ensures exists p <- s'.pools :: p.id == g.pool.value && DrawsOn(g, p) {
      var h := RevokedRow(s.grants, ids, g);
    }
    forall u <- s'.usage ensures Accounted(s'.grants, u) {
      RevokeKeepsAccount(s.grants, ids, u);
    }
  }

  lemma RevokeKeepsAccount(grants: seq<Grant>, ids: set<nat>, u: Usage)
    requires Accounted(grants, u)
    ensures Accounted(RevokeGrants(grants, ids), u)
  {
    var i :| 0 <= i < |grants| && grants[i].id == u.grantId && grants[i].userId == u.userId && u.quantity > 0
      && u.window == WindowOf(grants[i], u.createdAt) && Contains(Window(grants[i].startsAt, grants[i].endsAt), u.createdAt);
    assert RevokeGrants(grants, ids)[i] in RevokeGrants(grants, ids);
  }

  lemma RevokeKeepsQuota(s: Store, ids: set<nat>)
    requires WithinQuota(s)
    ensures WithinQuota(s.(grants := RevokeGrants(s.grants, ids)))
  {
    hide Used, Scope;
    var after := RevokeGrants(s.grants, ids);
    forall g, w | g in after && g.facts.valueType == Metered && g.facts.quota.Some?
      ensures Used(s.usage, Scope(after, g), w) <= g.facts.quota.value
    {
      var h := RevokedRow(s.grants, ids, g);
    }
  }

  lemma RevokeKeepsRemaining(s: Store, ids: set<nat>)
    requires RemainingExact(s)
    ensures RemainingExact(s.(grants := RevokeGrants(s.grants, ids)))
  {
    hide Used, Scope, RevokeGrants;
    var after := RevokeGrants(s.grants, ids);
    forall i, g | 0 <= i < |s.usage| && g in after && g.id == s.usage[i].grantId
      ensures s.usage[i].remainingAfter == Remainder(s.usage[..i + 1], Scope(after, g), g, s.usage[i].window)
    {
      var h := RevokedRow(s.grants, ids, g);
    }
  }

  lemma RevokeKeepsValid(s: Store, ids: set<nat>)
    requires Valid(s)
    ensures Valid(Step(s, RevokeOp(ids)))
  {
    RevokeKeepsRows(s, ids);
    RevokeKeepsQuota(s, ids);
    RevokeKeepsRemaining(s, ids);
  }

  lemma StepKeepsValid(s: Store, op: Op)
    requires Valid(s)
    ensures Valid(Step(s, op))
  {
    match op
    case ProvisionOp(src, rows) =>
      if Provision(s, src, rows).1.Success? {
        InsertRowsKeepsValid(s, src, rows);
      }
    case PooledOp(src, row, orderLineId, poolId) => PooledKeepsValid(s, src, row, orderLineId, poolId);
    case RevokeOp(ids) => RevokeKeepsValid(s, ids);
    case ConsumeOp(userId, request, key, at, early) => ConsumeKeepsValid(s, userId, request, key, at, early);
  }

  /** Over every run, quotas hold per grant and per pool, and each recorded remainder is exact. */
  lemma {:induction false} RunKeepsValid(s: Store, ops: seq<Op>)
    requires Valid(s)
    ensures Valid(Run(s, ops))
    decreases |ops|
  {
    if ops != [] {
      StepKeepsValid(s, ops[0]);
      RunKeepsValid(Step(s, ops[0]), ops[1..]);
    }
  }

  /** Over every run from the empty store, what is used in any window of any metered grant, revoked
      or not, and in any window of its pool, is at most the quota. */
  lemma QuotaNeverExceeded(ops: seq<Op>, g: Grant, w: Window)
    requires g in Run(EMPTY, ops).grants && g.facts.valueType == Metered
    ensures var s := Run(EMPTY, ops);
            && g.facts.quota.Some?
            && 0 <= Used(s.usage, {g.id}, w) <= Used(s.usage, Scope(s.grants, g), w) <= g.facts.quota.value
  {
    assert Valid(EMPTY);
    RunKeepsValid(EMPTY, ops);
    var s := Run(EMPTY, ops);
    forall u <- s.usage ensures u.quantity > 0 {
      assert Accounted(s.grants, u);
    }
    assert g.id in Scope(s.grants, g);
    UsedMonotone(s.usage, {g.id}, Scope(s.grants, g), w);
  }

  lemma {:induction false} UsedMonotone(usage: seq<Usage>, a: set<nat>, b: set<nat>, w: Window)
    requires a <= b && forall u <- usage :: u.quantity > 0
    ensures 0 <= Used(usage, a, w) <= Used(usage, b, w)
  {
    if usage != [] {
      assert usage[|usage| - 1] in usage;
      UsedMonotone(usage[..|usage| - 1], a, b, w);
    }
  }
}
