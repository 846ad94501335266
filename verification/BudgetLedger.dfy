/** The budget shared by orchestrated calls (internal/aigateway/orchestration.go). Costs are exact reals. */
module BudgetLedgers {
  import opened Facts

  datatype Usage = Usage(inputItems: int, outputItems: int, inputTokens: int, outputTokens: int)

  const NO_USAGE := Usage(0, 0, 0, 0)

  /** A zero limit is not configured. */
  datatype Budget = Budget(maxRequests: int, maxInputTokens: int, maxOutputTokens: int, maxCost: real,
      inputTokenCost: real, outputTokenCost: real)

  datatype Snapshot = Snapshot(requests: int, inputTokens: int, outputTokens: int, cost: real)

  datatype LedgerError = OverBudget | InvalidUsage | AlreadySettled

  /** `validateOrchestrationBudget`. */
  predicate ValidBudget(b: Budget) {
    b.maxRequests >= 0 && b.maxInputTokens >= 0 && b.maxOutputTokens >= 0 && b.maxCost >= 0.0 && b.inputTokenCost >= 0.0
        && b.outputTokenCost >= 0.0
  }

  predicate ValidUsage(u: Usage) {
    u.inputItems >= 0 && u.outputItems >= 0 && u.inputTokens >= 0 && u.outputTokens >= 0
  }

  /** `usableUsage`. */
  function Usable(u: Usage): Usage {
    if ValidUsage(u) then u else NO_USAGE
  }

  function CostOf(b: Budget, u: Usage): real {
    u.inputTokens as real * b.inputTokenCost + u.outputTokens as real * b.outputTokenCost
  }

  function ExceedsInt(current: int, additional: int, limit: int): bool {
    if limit <= 0 then false
    else if current < 0 || additional < 0 || current > limit then true
    else additional > limit - current
  }

  function ExceedsReal(current: real, additional: real, limit: real): bool {
    if limit <= 0.0 then false else current > limit || additional > limit - current
  }

  /** Every configured dimension is within its limit. */
  ghost predicate Within(b: Budget, s: Snapshot) {
    && (b.maxRequests > 0 ==> s.requests <= b.maxRequests)
    && (b.maxInputTokens > 0 ==> s.inputTokens <= b.maxInputTokens)
    && (b.maxOutputTokens > 0 ==> s.outputTokens <= b.maxOutputTokens)
    && (b.maxCost > 0.0 ==> s.cost <= b.maxCost)
  }

  /** The dimensions that change when a call is settled. */
  ghost predicate WithinUsage(b: Budget, s: Snapshot) {
    Within(b.(maxRequests := 0), s)
  }

  ghost predicate NonNegative(s: Snapshot) {
    s.requests >= 0 && s.inputTokens >= 0 && s.outputTokens >= 0 && s.cost >= 0.0
  }

  /** One more request with this usage. */
  function Charged(b: Budget, s: Snapshot, u: Usage): Snapshot {
    Snapshot(s.requests + 1, s.inputTokens + u.inputTokens, s.outputTokens + u.outputTokens, s.cost + CostOf(b, u))
  }

  /** The reserved usage replaced by the actual one. */
  function Replaced(b: Budget, s: Snapshot, reserved: Usage, actual: Usage): Snapshot {
    Snapshot(s.requests, s.inputTokens - reserved.inputTokens + actual.inputTokens,
        s.outputTokens - reserved.outputTokens + actual.outputTokens,
             s.cost - CostOf(b, reserved) + CostOf(b, actual))
  }

  /** `hasPositiveBudgetLimit`. */
  predicate FullyLimited(b: Budget) {
    b.maxRequests > 0 && b.maxInputTokens > 0 && b.maxOutputTokens > 0 && b.maxCost > 0.0
  }

  /** `checkLocked`. */
  predicate Refused(b: Budget, used: Snapshot, simulated: bool, u: Usage) {
    || (!simulated && !FullyLimited(b))
    || ExceedsInt(used.requests, 1, b.maxRequests) || ExceedsInt(used.inputTokens, u.inputTokens, b.maxInputTokens)
    || ExceedsInt(used.outputTokens, u.outputTokens, b.maxOutputTokens)
        || ExceedsReal(used.cost, CostOf(b, u), b.maxCost)
  }

  predicate OverAfterSettling(b: Budget, used: Snapshot) {
    || ExceedsInt(used.inputTokens, 0, b.maxInputTokens) || ExceedsInt(used.outputTokens, 0, b.maxOutputTokens)
    || ExceedsReal(used.cost, 0.0, b.maxCost)
  }

  lemma CostIsNonNegative(b: Budget, u: Usage)
    requires ValidBudget(b) && ValidUsage(u)
    ensures CostOf(b, u) >= 0.0
  {
    assert u.inputTokens as real * b.inputTokenCost >= 0.0;
    assert u.outputTokens as real * b.outputTokenCost >= 0.0;
  }

  /** A reservation is refused exactly when it would leave a configured dimension over its limit, or an
      external provider has a dimension without a limit. */
  lemma RefusedExact(b: Budget, used: Snapshot, simulated: bool, u: Usage)
    requires ValidBudget(b) && ValidUsage(u) && NonNegative(used)
    ensures Refused(b, used, simulated, u) <==>
      || (!simulated
          && (b.maxRequests <= 0 || b.maxInputTokens <= 0 || b.maxOutputTokens <= 0 || b.maxCost <= 0.0))
      || !Within(b, Charged(b, used, u))
  {
    CostIsNonNegative(b, u);
  }

  lemma SettledOverExact(b: Budget, used: Snapshot)
    requires NonNegative(used)
    ensures OverAfterSettling(b, used) <==> !WithinUsage(b, used)
  {
  }

  class BudgetReservation {
    const ledger: BudgetLedger
    const reserved: Usage
    const cost: real
    var settled: bool

    constructor (l: BudgetLedger, u: Usage, c: real)
      ensures ledger == l && reserved == u && cost == c && !settled
    {
      ledger, reserved, cost, settled := l, u, c, false;
    }

    /** `settle`: the reservation is given back and the actual usage charged, once. */
    method Settle(actual: Usage) returns (error: Option<LedgerError>)
      requires cost == CostOf(ledger.limit, reserved)
      modifies this, ledger
      ensures settled
      ensures old(settled) ==> error == Some(AlreadySettled) && ledger.used == old(ledger.used)
      ensures !old(settled) ==> ledger.used == Replaced(ledger.limit, old(ledger.used), reserved, Usable(actual))
      ensures !old(settled) ==>
          (actual.inputItems >= 0 && actual.outputItems >= 0 && actual.inputTokens >= 0 && actual.outputTokens >= 0 ==>
              ledger.used == Replaced(ledger.limit, old(ledger.used), reserved, actual))
      ensures !old(settled) ==> error == if OverAfterSettling(ledger.limit, ledger.used) then Some(OverBudget) else None
    {
      if settled { return Some(AlreadySettled); }
      var usage := if ValidUsage(actual) then actual else NO_USAGE;
      var charge := CostOf(ledger.limit, usage);
      settled := true;
      var used := ledger.used;
      ledger.used := Snapshot(used.requests, used.inputTokens - reserved.inputTokens,
          used.outputTokens - reserved.outputTokens, used.cost - cost);
      used := ledger.used;
      ledger.used := Snapshot(used.requests, used.inputTokens + usage.inputTokens,
          used.outputTokens + usage.outputTokens, used.cost + charge);
      error := if OverAfterSettling(ledger.limit, ledger.used) then Some(OverBudget) else None;
    }
  }

  class BudgetLedger {
    const limit: Budget
    var used: Snapshot

    constructor (budget: Budget)
      requires ValidBudget(budget)
      ensures limit == budget && used == Snapshot(0, 0, 0, 0.0)
    {
      limit, used := budget, Snapshot(0, 0, 0, 0.0);
    }

    /** `check`: what `reserve` would say, without reserving. */
    method Check(simulated: bool, u: Usage) returns (error: Option<LedgerError>)
      ensures error == if !ValidUsage(u) then Some(InvalidUsage)
          else if Refused(limit, used, simulated, u) then Some(OverBudget) else None
    {
      if !ValidUsage(u) { return Some(InvalidUsage); }
      error := if Refused(limit, used, simulated, u) then Some(OverBudget) else None;
    }

    /** `reserve`. */
    method Reserve(simulated: bool, u: Usage) returns (r: BudgetReservation?, error: Option<LedgerError>)
      requires ValidBudget(limit) && NonNegative(used)
      modifies this
      ensures error == if !ValidUsage(u) then Some(InvalidUsage)
          else if Refused(limit, old(used), simulated, u) then Some(OverBudget) else None
      ensures error == Some(InvalidUsage) <==>
        u.inputItems < 0 || u.outputItems < 0 || u.inputTokens < 0 || u.outputTokens < 0
      ensures error == None <==> r != null
      ensures r != null ==> fresh(r) && r.ledger == this && r.reserved == u && r.cost == CostOf(limit, u) && !r.settled
      ensures r != null ==> used == Charged(limit, old(used), u) && Within(limit, used) && NonNegative(used)
      ensures r != null ==>
          used.cost == old(used.cost)
              + (u.inputTokens as real * limit.inputTokenCost + u.outputTokens as real * limit.outputTokenCost)
      ensures r == null ==> used == old(used)
    {
      if !ValidUsage(u) { return null, Some(InvalidUsage); }
      var cost := CostOf(limit, u);
      var refused := Check(simulated, u);
      if refused.Some? { return null, refused; }
      RefusedExact(limit, used, simulated, u);
      CostIsNonNegative(limit, u);
      used := used.(requests := used.requests + 1);
      used := used.(inputTokens := used.inputTokens + u.inputTokens,
          outputTokens := used.outputTokens + u.outputTokens);
      used := used.(cost := used.cost + cost);
      r := new BudgetReservation(this, u, cost);
      error := None;
    }
  }

  /** `NewBudgetLedger`: refused exactly for a negative limit or price. */
  method NewBudgetLedger(limit: Budget) returns (ledger: BudgetLedger?)
    ensures ledger == null <==>
      || limit.maxRequests < 0 || limit.maxInputTokens < 0 || limit.maxOutputTokens < 0 || limit.maxCost < 0.0
      || limit.inputTokenCost < 0.0 || limit.outputTokenCost < 0.0
    ensures ledger != null ==> fresh(ledger) && ledger.limit == limit && ledger.used == Snapshot(0, 0, 0, 0.0)
  {
    if !ValidBudget(limit) { return null; }
    ledger := new BudgetLedger(limit);
  }

  // ---------- waiting between attempts ----------

  function Pow2(n: nat): nat {
    if n == 0 then 1 else 2 * Pow2(n - 1)
  }

  function Min(a: int, b: int): int {
    if a <= b then a else b
  }

  /** The default backoff: doubling from the base up to the maximum, never beyond it on the way. */
  method DefaultBackoff(base: int, maximum: int, attempt: int) returns (delay: int)
    requires 0 <= base <= maximum
    ensures delay == Min(base * Pow2(if attempt <= 1 then 0 else attempt - 1), maximum)
  {
    delay := base;
    if attempt <= 1 { return; }
    var count := 1;
    while count < attempt && delay < maximum
      invariant 1 <= count <= attempt && 0 <= delay <= maximum && delay == base * Pow2(count - 1)
    {
      if delay > maximum / 2 {
        PowersGrow(base, count, attempt - 1);
        Doubled(base, count - 1);
        return maximum;
      }
      Doubled(base, count - 1);
      delay := delay * 2;
      count := count + 1;
    }
    PowersGrow(base, count - 1, attempt - 1);
  }

  lemma Doubled(base: int, n: nat)
    ensures base * Pow2(n + 1) == 2 * (base * Pow2(n))
  {
  }

  lemma {:induction false} PowersGrow(base: int, m: nat, n: nat)
    requires m <= n && base >= 0
    ensures base * Pow2(m) <= base * Pow2(n)
  {
    if m < n {
      PowersGrow(base, m, n - 1);
      Doubled(base, n - 1);
    }
  }
}
