/** Retrying calls that share one ledger and a fixed number of slots, in every interleaving of their
    steps (internal/aigateway/orchestration.go:418-529, 728-744). */
module OrchestratedCalls {
  import opened BudgetLedgers

  /** What a call does next: take a slot, look at its context and reserve, give the slot back and fail,
      wait for the backend, settle, ask the ledger before a retry, wait before it; or it has returned. */
  datatype Phase =
    | WantSlot | HasSlot | Leaving | Calling | Returned(actual: Usage, again: bool)
    | Rechecking | Waiting | Finished

  datatype Call = Call(simulated: bool, estimate: Usage, attempt: nat, made: nat, phase: Phase)

  /** `settled` sums up the actual usage of settled calls; `started` counts backend calls. */
  datatype World = World(used: Snapshot, slots: nat, started: nat, settled: Snapshot, calls: seq<Call>)

  datatype Limits = Limits(budget: Budget, maxAttempts: nat, maxSlots: nat)

  datatype Step =
    | Acquire(i: nat) | GiveUp(i: nat) | Expire(i: nat) | Reserve(i: nat) | Leave(i: nat)
    | Return(i: nat, usage: Usage, again: bool)
    | Settle(i: nat) | Recheck(i: nat) | Wait(i: nat, ok: bool)

  ghost predicate ValidLimits(l: Limits) {
    ValidBudget(l.budget) && l.maxAttempts >= 1 && l.maxSlots >= 1
  }

  ghost predicate HasUsage(u: Usage) {
    u.inputItems > 0 || u.outputItems > 0 || u.inputTokens > 0 || u.outputTokens > 0
  }

  /** Whether a step can be taken now. A retry follows only a call without usage before the last attempt. */
  ghost predicate Can(l: Limits, w: World, step: Step) {
    && step.i < |w.calls|
    && var c := w.calls[step.i];
      match step
      case Acquire(_) => c.phase == WantSlot && w.slots < l.maxSlots
      case GiveUp(_) => c.phase == WantSlot
      case Expire(_) => c.phase == HasSlot
      case Reserve(_) => c.phase == HasSlot
      case Leave(_) => c.phase == Leaving && w.slots > 0
      case Return(_, usage, again) => c.phase == Calling && w.slots > 0
          && (again ==> c.attempt < l.maxAttempts && !HasUsage(usage))
      case Settle(_) => c.phase.Returned?
      case Recheck(_) => c.phase == Rechecking
      case Wait(_, _) => c.phase == Waiting
  }

  /** The call after its step. */
  ghost function Moved(l: Limits, w: World, step: Step): Call
    requires Can(l, w, step)
  {
    var c := w.calls[step.i];
    match step
    case Acquire(_) => c.(phase := HasSlot)
    case GiveUp(_) => c.(phase := Finished)
    case Expire(_) => c.(phase := Leaving)
    case Reserve(_) => if Granted(l, w, c) then c.(phase := Calling, made := c.made + 1) else c.(phase := Leaving)
    case Leave(_) => c.(phase := Finished)
    case Return(_, usage, again) => c.(phase := Returned(Usable(usage), again))
    case Settle(_) =>
      if OverAfterSettling(l.budget, Replaced(l.budget, w.used, c.estimate, c.phase.actual)) || !c.phase.again
      then c.(phase := Finished)
      else c.(phase := Rechecking)
    case Recheck(_) => c.(phase := if Granted(l, w, c) then Waiting else Finished)
    case Wait(_, ok) => if ok then c.(phase := WantSlot, attempt := c.attempt + 1) else c.(phase := Finished)
  }

  ghost predicate Granted(l: Limits, w: World, c: Call) {
    ValidUsage(c.estimate) && !Refused(l.budget, w.used, c.simulated, c.estimate)
  }

  ghost function Do(l: Limits, w: World, step: Step): World
    requires Can(l, w, step)
  {
    var c := w.calls[step.i];
    var moved := w.(calls := w.calls[step.i := Moved(l, w, step)]);
    match step
    case Acquire(_) => moved.(slots := w.slots + 1)
    case Leave(_) => moved.(slots := w.slots - 1)
    case Return(_, _, _) => moved.(slots := w.slots - 1)
    case Reserve(_) =>
      if Granted(l, w, c) then moved.(used := Charged(l.budget, w.used, c.estimate), started := w.started + 1)
      else moved
    case Settle(_) => moved.(used := Replaced(l.budget, w.used, c.estimate, c.phase.actual),
        settled := Charged(l.budget, w.settled, c.phase.actual))
    case _ => moved
  }

  ghost predicate Runs(l: Limits, w: World, steps: seq<Step>, end: World)
    decreases |steps|
  {
    if steps == [] then end == w else Can(l, w, steps[0]) && Runs(l, Do(l, w, steps[0]), steps[1..], end)
  }

  // ---------- sums over the calls ----------

  ghost predicate Outstanding(c: Call) {
    c.phase == Calling || c.phase.Returned?
  }

  ghost predicate HoldsSlot(c: Call) {
    c.phase == HasSlot || c.phase == Leaving || c.phase == Calling
  }

  ghost function InputOf(c: Call): int { if Outstanding(c) then c.estimate.inputTokens else 0 }
  ghost function OutputOf(c: Call): int { if Outstanding(c) then c.estimate.outputTokens else 0 }
  ghost function SlotOf(c: Call): int { if HoldsSlot(c) then 1 else 0 }
  ghost function MadeOf(c: Call): int { c.made }
  ghost function CostOfCall(b: Budget): Call -> real {
    (c: Call) => if Outstanding(c) then CostOf(b, c.estimate) else 0.0
  }

  ghost function Sum(calls: seq<Call>, f: Call -> int): int {
    if calls == [] then 0 else f(calls[0]) + Sum(calls[1..], f)
  }

  ghost function SumReal(calls: seq<Call>, f: Call -> real): real {
    if calls == [] then 0.0 else f(calls[0]) + SumReal(calls[1..], f)
  }

  lemma {:induction false} SumUpdate(calls: seq<Call>, f: Call -> int, i: nat, c: Call)
    requires i < |calls|
    ensures Sum(calls[i := c], f) == Sum(calls, f) - f(calls[i]) + f(c)
  {
    if i > 0 {
      SumUpdate(calls[1..], f, i - 1, c);
      assert calls[i := c][1..] == calls[1..][i - 1 := c];
    } else {
      assert calls[i := c][1..] == calls[1..];
    }
  }

  lemma {:induction false} SumRealUpdate(calls: seq<Call>, f: Call -> real, i: nat, c: Call)
    requires i < |calls|
    ensures SumReal(calls[i := c], f) == SumReal(calls, f) - f(calls[i]) + f(c)
  {
    if i > 0 {
      SumRealUpdate(calls[1..], f, i - 1, c);
      assert calls[i := c][1..] == calls[1..][i - 1 := c];
    } else {
      assert calls[i := c][1..] == calls[1..];
    }
  }

  lemma {:induction false} SumBounds(calls: seq<Call>, f: Call -> int, low: int, high: int)
    requires forall i | 0 <= i < |calls| :: low <= f(calls[i]) <= high
    ensures low * |calls| <= Sum(calls, f) <= high * |calls|
  {
    if calls != [] { SumBounds(calls[1..], f, low, high); }
  }

  lemma {:induction false} SumRealNonNegative(calls: seq<Call>, f: Call -> real)
    requires forall i | 0 <= i < |calls| :: f(calls[i]) >= 0.0
    ensures SumReal(calls, f) >= 0.0
  {
    if calls != [] { SumRealNonNegative(calls[1..], f); }
  }

  lemma {:induction false} SumRealZero(calls: seq<Call>, f: Call -> real)
    requires forall i | 0 <= i < |calls| :: f(calls[i]) == 0.0
    ensures SumReal(calls, f) == 0.0
  {
    if calls != [] { SumRealZero(calls[1..], f); }
  }

  // ---------- what every interleaving keeps ----------

  ghost predicate ValidCall(l: Limits, c: Call) {
    && 1 <= c.attempt <= l.maxAttempts && c.made <= c.attempt
    && (c.phase == WantSlot || c.phase == HasSlot ==> c.made < c.attempt)
    && (Outstanding(c) ==> ValidUsage(c.estimate))
    && (c.phase.Returned? ==> ValidUsage(c.phase.actual) && (c.phase.again ==> c.attempt < l.maxAttempts))
    && (c.phase == Rechecking || c.phase == Waiting ==> c.attempt < l.maxAttempts)
  }

  /** The ledger is the settled usage plus what is reserved by calls under way. */
  ghost predicate Balanced(l: Limits, w: World) {
    && w.used.requests == w.started == Sum(w.calls, MadeOf)
    && w.used.inputTokens == w.settled.inputTokens + Sum(w.calls, InputOf)
    && w.used.outputTokens == w.settled.outputTokens + Sum(w.calls, OutputOf)
    && w.used.cost == w.settled.cost + SumReal(w.calls, CostOfCall(l.budget))
    && w.slots == Sum(w.calls, SlotOf)
  }

  ghost predicate Inv(l: Limits, w: World) {
    && ValidLimits(l) && Balanced(l, w) && NonNegative(w.settled)
    && w.slots <= l.maxSlots && (l.budget.maxRequests > 0 ==> w.used.requests <= l.budget.maxRequests)
    && forall i | 0 <= i < |w.calls| :: ValidCall(l, w.calls[i])
  }

  lemma {:induction false} NeverNegative(l: Limits, w: World)
    requires Inv(l, w)
    ensures NonNegative(w.used)
  {
    forall i | 0 <= i < |w.calls|
      ensures InputOf(w.calls[i]) >= 0 && OutputOf(w.calls[i]) >= 0 && CostOfCall(l.budget)(w.calls[i]) >= 0.0
    {
      assert ValidCall(l, w.calls[i]);
      if Outstanding(w.calls[i]) { CostIsNonNegative(l.budget, w.calls[i].estimate); }
    }
    SumAtLeastZero(w.calls, InputOf);
    SumAtLeastZero(w.calls, OutputOf);
    SumRealNonNegative(w.calls, CostOfCall(l.budget));
  }

  lemma {:induction false} SumAtLeastZero(calls: seq<Call>, f: Call -> int)
    requires forall i | 0 <= i < |calls| :: f(calls[i]) >= 0
    ensures Sum(calls, f) >= 0
  {
    if calls != [] { SumAtLeastZero(calls[1..], f); }
  }

  lemma {:induction false} StepBalances(l: Limits, w: World, step: Step)
    requires Balanced(l, w) && Can(l, w, step)
    ensures Balanced(l, Do(l, w, step))
  {
    var c := Moved(l, w, step);
    SumUpdate(w.calls, MadeOf, step.i, c);
    SumUpdate(w.calls, InputOf, step.i, c);
    SumUpdate(w.calls, OutputOf, step.i, c);
    SumUpdate(w.calls, SlotOf, step.i, c);
    SumRealUpdate(w.calls, CostOfCall(l.budget), step.i, c);
  }

  lemma {:induction false} StepKeepsInv(l: Limits, w: World, step: Step)
    requires Inv(l, w) && Can(l, w, step)
    ensures Inv(l, Do(l, w, step))
  {
    hide Balanced, Refused, CostOf;
    StepBalances(l, w, step);
    NeverNegative(l, w);
    MovedIsValid(l, w, step);
    if step.Settle? {
      assert ValidCall(l, w.calls[step.i]);
      CostIsNonNegative(l.budget, w.calls[step.i].phase.actual);
    }
    if step.Reserve? && Granted(l, w, w.calls[step.i]) {
      RefusedExact(l.budget, w.used, w.calls[step.i].simulated, w.calls[step.i].estimate);
    }
  }

  lemma {:induction false} MovedIsValid(l: Limits, w: World, step: Step)
    requires Can(l, w, step) && ValidCall(l, w.calls[step.i])
    ensures ValidCall(l, Moved(l, w, step))
  {
    hide Refused, OverAfterSettling;
  }

  // ---------- whole runs ----------

  /** Calls that have not begun, with nothing used yet. */
  ghost predicate Initial(l: Limits, w: World) {
    && ValidLimits(l) && w.used == Snapshot(0, 0, 0, 0.0) && w.settled == Snapshot(0, 0, 0, 0.0) && w.slots == 0
    && w.started == 0
    && forall i | 0 <= i < |w.calls| :: w.calls[i].phase == WantSlot && w.calls[i].attempt == 1 && w.calls[i].made == 0
  }

  lemma {:induction false} InitialInv(l: Limits, w: World)
    requires Initial(l, w)
    ensures Inv(l, w)
  {
    SumBounds(w.calls, MadeOf, 0, 0);
    SumBounds(w.calls, InputOf, 0, 0);
    SumBounds(w.calls, OutputOf, 0, 0);
    SumBounds(w.calls, SlotOf, 0, 0);
    SumRealZero(w.calls, CostOfCall(l.budget));
  }

  lemma {:induction false} RunKeepsInv(l: Limits, w: World, steps: seq<Step>, end: World)
    requires Inv(l, w) && Runs(l, w, steps, end)
    ensures Inv(l, end) && |end.calls| == |w.calls|
    decreases |steps|
  {
    hide Inv, Can, Moved;
    if steps != [] {
      StepKeepsInv(l, w, steps[0]);
      SameCalls(l, w, steps[0]);
      RunKeepsInv(l, Do(l, w, steps[0]), steps[1..], end);
    }
  }

  lemma {:induction false} SameCalls(l: Limits, w: World, step: Step)
    requires Can(l, w, step)
    ensures |Do(l, w, step).calls| == |w.calls|
  {
    hide Moved, Granted;
  }

  /** In every interleaving the ledger is never negative, it counts the backend calls, these never pass a
      configured number of requests nor the attempts allowed, and no more slots are taken than there are. */
  lemma {:induction false} EveryInterleavingIsAccounted(l: Limits, start: World, steps: seq<Step>, end: World)
    requires Initial(l, start) && Runs(l, start, steps, end)
    ensures NonNegative(end.used) && Balanced(l, end) && end.slots <= l.maxSlots
    ensures end.used.requests == end.started && (l.budget.maxRequests > 0 ==> end.started <= l.budget.maxRequests)
    ensures end.started <= l.maxAttempts * |end.calls|
  {
    InitialInv(l, start);
    RunKeepsInv(l, start, steps, end);
    NeverNegative(l, end);
    assert forall i | 0 <= i < |end.calls| :: ValidCall(l, end.calls[i]) ==> MadeOf(end.calls[i]) <= l.maxAttempts;
    SumBounds(end.calls, MadeOf, 0, l.maxAttempts);
  }

  /** Each grant leaves every configured dimension within its limit. */
  lemma {:induction false} EveryGrantIsWithinLimits(l: Limits, w: World, i: nat)
    requires Inv(l, w) && Can(l, w, Reserve(i)) && Granted(l, w, w.calls[i])
    ensures Within(l.budget, Do(l, w, Reserve(i)).used)
  {
    NeverNegative(l, w);
    RefusedExact(l.budget, w.used, w.calls[i].simulated, w.calls[i].estimate);
  }

  /** A step starts a backend call exactly when it is a reservation that has a usable estimate, limits where
      an external provider needs them, and room in every configured dimension; the call is then with the
      backend. A reservation without them only gives the slot back. */
  lemma BackendCallExact(l: Limits, w: World, step: Step)
    requires Inv(l, w) && Can(l, w, step)
    ensures var t, c := Do(l, w, step), w.calls[step.i];
            var u, b := c.estimate, l.budget;
            var fits :=
              && u.inputItems >= 0 && u.outputItems >= 0 && u.inputTokens >= 0 && u.outputTokens >= 0
              && (c.simulated
                  || (b.maxRequests > 0 && b.maxInputTokens > 0 && b.maxOutputTokens > 0 && b.maxCost > 0.0))
              && Within(b, Charged(b, w.used, u));
            && t.started == (if step.Reserve? && fits then w.started + 1 else w.started)
            && (step.Reserve? ==> t.calls[step.i].phase == (if fits then Calling else Leaving))
            && (step.Recheck? ==> t.calls[step.i].phase == (if fits then Waiting else Finished))
  {
    hide Balanced;
    NeverNegative(l, w);
    var c := w.calls[step.i];
    if ValidUsage(c.estimate) { RefusedExact(l.budget, w.used, c.simulated, c.estimate); }
  }

  /** After its settlement a call is checked for a retry exactly when the backend's answer allows one and the
      settled ledger is within its limits; otherwise it returns. */
  lemma SettledCallExact(l: Limits, w: World, i: nat)
    requires Inv(l, w) && Can(l, w, Settle(i))
    ensures var t := Do(l, w, Settle(i));
      t.calls[i].phase ==
        (if w.calls[i].phase.again && WithinUsage(l.budget, t.used) then Rechecking else Finished)
  {
    hide Balanced, CostOf;
    StepKeepsInv(l, w, Settle(i));
    NeverNegative(l, Do(l, w, Settle(i)));
    SettledOverExact(l.budget, Do(l, w, Settle(i)).used);
  }

  /** A call that is not going to call the backend again. */
  ghost predicate Ending(c: Call) {
    (c.phase.Returned? && !c.phase.again) || c.phase == Finished
  }

  lemma {:induction false} EndingStays(l: Limits, w: World, steps: seq<Step>, end: World, i: nat)
    requires Runs(l, w, steps, end) && i < |w.calls| && Ending(w.calls[i])
    ensures i < |end.calls| && Ending(end.calls[i]) && end.calls[i].made == w.calls[i].made
    decreases |steps|
  {
    hide Granted, OverAfterSettling;
    if steps != [] { EndingStays(l, Do(l, w, steps[0]), steps[1..], end, i); }
  }

  /** A backend call that came back with usage is never repeated, whatever happens afterwards. */
  lemma UsageIsNotRetried(l: Limits, w: World, i: nat, usage: Usage, again: bool, steps: seq<Step>, end: World)
    requires Can(l, w, Return(i, usage, again)) && Runs(l, Do(l, w, Return(i, usage, again)), steps, end)
    requires usage.inputItems > 0 || usage.outputItems > 0 || usage.inputTokens > 0 || usage.outputTokens > 0
    ensures i < |end.calls| && end.calls[i].made == w.calls[i].made
  {
    EndingStays(l, Do(l, w, Return(i, usage, again)), steps, end, i);
  }

  // ---------- attempts are made ----------

  /** A call alone with a ledger that limits nothing. */
  ghost predicate Alone(l: Limits, w: World) {
    && ValidLimits(l) && |w.calls| == 1 && w.calls[0].simulated && ValidUsage(w.calls[0].estimate)
    && l.budget.maxRequests == 0 && l.budget.maxInputTokens == 0 && l.budget.maxOutputTokens == 0
    && l.budget.maxCost == 0.0 && w.slots == 0 && w.calls[0].phase == WantSlot
  }

  /** One attempt from the slot to the settlement. */
  lemma OneAttempt(l: Limits, w: World, again: bool) returns (steps: seq<Step>, end: World)
    requires Alone(l, w) && (again ==> w.calls[0].attempt < l.maxAttempts)
    ensures Runs(l, w, steps, end) && |end.calls| == 1 && end.started == w.started + 1 && end.slots == 0
    ensures end.calls[0] == w.calls[0].(made := w.calls[0].made + 1, phase := if again then Rechecking else Finished)
  {
    hide CostOf;
    var a := Do(l, w, Acquire(0));
    var b := Do(l, a, Reserve(0));
    var c := Do(l, b, Return(0, NO_USAGE, again));
    end := Do(l, c, Settle(0));
    RunsOne(l, c, Settle(0));
    RunsMore(l, b, Return(0, NO_USAGE, again), [Settle(0)], end);
    RunsMore(l, a, Reserve(0), [Return(0, NO_USAGE, again), Settle(0)], end);
    RunsMore(l, w, Acquire(0), [Reserve(0), Return(0, NO_USAGE, again), Settle(0)], end);
    steps := [Acquire(0)] + [Reserve(0), Return(0, NO_USAGE, again), Settle(0)];
  }

  lemma RunsOne(l: Limits, w: World, step: Step)
    requires Can(l, w, step)
    ensures Runs(l, w, [step], Do(l, w, step))
  {
    hide Can, Do;
    assert [step][1..] == [];
    assert Runs(l, Do(l, w, step), [], Do(l, w, step));
  }

  lemma RunsMore(l: Limits, w: World, step: Step, steps: seq<Step>, end: World)
    requires Can(l, w, step) && Runs(l, Do(l, w, step), steps, end)
    ensures Runs(l, w, [step] + steps, end)
  {
    hide Can, Do;
    assert ([step] + steps)[1..] == steps;
  }

  lemma {:induction false} RunsJoin(l: Limits, w: World, a: seq<Step>, middle: World, b: seq<Step>, end: World)
    requires Runs(l, w, a, middle) && Runs(l, middle, b, end)
    ensures Runs(l, w, a + b, end)
    decreases |a|
  {
    hide Can, Do;
    if a == [] {
      assert a + b == b;
    } else {
      assert (a + b)[1..] == a[1..] + b;
      RunsJoin(l, Do(l, w, a[0]), a[1..], middle, b, end);
    }
  }

  /** The backend may be called any number of times up to the attempts allowed, failing without usage each time
      but the last. */
  lemma {:induction false} EveryAttemptCanBeMade(l: Limits, w: World, n: nat) returns (steps: seq<Step>, end: World)
    requires Alone(l, w) && n >= 1 && w.calls[0].attempt + n <= l.maxAttempts + 1
    ensures Runs(l, w, steps, end) && end.started == w.started + n
    ensures |end.calls| == 1 && end.calls[0].phase == Finished && end.calls[0].made == w.calls[0].made + n
    decreases n
  {
    hide Runs, CostOf;
    var first, middle := OneAttempt(l, w, n > 1);
    if n == 1 {
      steps, end := first, middle;
    } else {
      var a := Do(l, middle, Recheck(0));
      var b := Do(l, a, Wait(0, true));
      var rest;
      rest, end := EveryAttemptCanBeMade(l, b, n - 1);
      RunsMore(l, a, Wait(0, true), rest, end);
      RunsMore(l, middle, Recheck(0), [Wait(0, true)] + rest, end);
      steps := first + ([Recheck(0)] + ([Wait(0, true)] + rest));
      RunsJoin(l, w, first, middle, [Recheck(0)] + ([Wait(0, true)] + rest), end);
    }
  }

  /** When every call has returned, nothing is reserved and no slot is taken. */
  lemma {:induction false} NothingIsLeft(l: Limits, start: World, steps: seq<Step>, end: World)
    requires Initial(l, start) && Runs(l, start, steps, end)
    requires forall i | 0 <= i < |end.calls| :: end.calls[i].phase == Finished
    ensures end.slots == 0 && end.used == end.settled.(requests := end.started)
  {
    InitialInv(l, start);
    RunKeepsInv(l, start, steps, end);
    SumBounds(end.calls, InputOf, 0, 0);
    SumBounds(end.calls, OutputOf, 0, 0);
    SumBounds(end.calls, SlotOf, 0, 0);
    SumRealZero(end.calls, CostOfCall(l.budget));
  }

  lemma {:induction false} SomeHolder(calls: seq<Call>) returns (i: nat)
    requires Sum(calls, SlotOf) > 0
    ensures i < |calls| && HoldsSlot(calls[i])
  {
    if HoldsSlot(calls[0]) {
      i := 0;
    } else {
      var j := SomeHolder(calls[1..]);
      i := j + 1;
    }
  }

  /** While a call has not returned, one of them can go on, whatever the others wait for. */
  lemma {:induction false} NeverStuck(l: Limits, w: World, i: nat) returns (step: Step)
    requires Inv(l, w) && i < |w.calls| && w.calls[i].phase != Finished
    ensures Can(l, w, step) && !step.GiveUp? && !step.Expire?
  {
    var j := i;
    if w.calls[i].phase == WantSlot && w.slots == l.maxSlots {
      j := SomeHolder(w.calls);
    }
    if HoldsSlot(w.calls[j]) { SlotTaken(w.calls, j); }
    match w.calls[j].phase
    case WantSlot => step := Acquire(j);
    case HasSlot => step := Reserve(j);
    case Leaving => step := Leave(j);
    case Calling => step := Return(j, NO_USAGE, false);
    case Returned(_, _) => step := Settle(j);
    case Rechecking => step := Recheck(j);
    case Waiting => step := Wait(j, true);
  }

  lemma {:induction false} SlotTaken(calls: seq<Call>, i: nat)
    requires i < |calls| && HoldsSlot(calls[i])
    ensures Sum(calls, SlotOf) > 0
  {
    if i > 0 { SlotTaken(calls[1..], i - 1); }
    SumAtLeastZero(calls[1..], SlotOf);
  }

  // ---------- every call returns ----------

  ghost function Stage(c: Call): int {
    match c.phase
    case WantSlot => 7 case HasSlot => 6 case Calling => 5 case Returned(_, _) => 4
    case Rechecking => 3 case Waiting => 2 case Leaving => 1 case Finished => 0
  }

  ghost function StepsLeft(l: Limits): Call -> int {
    (c: Call) => 8 * (l.maxAttempts - c.attempt) + Stage(c)
  }

  lemma {:induction false} StepGoesOn(l: Limits, w: World, step: Step)
    requires Can(l, w, step)
    ensures StepsLeft(l)(Moved(l, w, step)) < StepsLeft(l)(w.calls[step.i])
  {
    hide Granted, OverAfterSettling;
  }

  lemma {:induction false} StepLowersSum(l: Limits, w: World, step: Step)
    requires Can(l, w, step)
    ensures Sum(Do(l, w, step).calls, StepsLeft(l)) < Sum(w.calls, StepsLeft(l))
  {
    StepGoesOn(l, w, step);
    hide Moved, Granted, StepsLeft;
    SumUpdate(w.calls, StepsLeft(l), step.i, Moved(l, w, step));
  }

  /** Every interleaving ends: the steps of all calls together are bounded from the start. */
  lemma {:induction false} InterleavingsAreShort(l: Limits, w: World, steps: seq<Step>, end: World)
    requires Inv(l, w) && Runs(l, w, steps, end)
    ensures |steps| <= Sum(w.calls, StepsLeft(l))
    decreases |steps|
  {
    hide Can, Moved, Do, Balanced;
    if steps == [] {
      assert forall i | 0 <= i < |w.calls| :: ValidCall(l, w.calls[i]) ==> StepsLeft(l)(w.calls[i]) >= 0;
      SumAtLeastZero(w.calls, StepsLeft(l));
    } else {
      StepKeepsInv(l, w, steps[0]);
      StepLowersSum(l, w, steps[0]);
      InterleavingsAreShort(l, Do(l, w, steps[0]), steps[1..], end);
    }
  }
}
