/** One sender, a fixed number of workers and a collector, with a context that may be cancelled at any
    time: the pool that analyzes artifacts (internal/analysis/runner.go:473-543) and the one that embeds
    batches (internal/aigateway/orchestration.go:418-476), one atomic step of one goroutine at a time. */
module WorkerPool {

  /** Waiting for a job; working on one; done with one and about to hand it in; returned. */
  datatype Worker = Idle | Busy(job: nat) | Ready(job: nat) | Gone

  /** `next` is the first job not yet handed out; `closed` says that the sender is done. */
  datatype Pool = Pool(next: nat, closed: bool, cancelled: bool, failed: bool, workers: seq<Worker>,
      delivered: seq<nat>, dropped: seq<nat>)

  datatype Step =
    | Hand(w: nat) | Finish(w: nat) | Deliver(w: nat) | Drop(w: nat) | Fail(w: nat)
    | LeaveClosed(w: nat) | LeaveCancelled(w: nat) | Close | Abandon | Cancel

  function Start(workers: nat): Pool {
    Pool(0, false, false, false, seq(workers, i => Idle), [], [])
  }

  ghost predicate At(s: Pool, w: nat, state: Worker) {
    w < |s.workers| && s.workers[w] == state
  }

  /** When a step can be taken, with `n` jobs in all. */
  ghost predicate Can(n: nat, s: Pool, step: Step) {
    match step
    // The channel is unbuffered: sender and worker meet.
    case Hand(w) => !s.closed && s.next < n && At(s, w, Idle)
    case Finish(w) => w < |s.workers| && s.workers[w].Busy?
    // The result channel holds `n` results.
    case Deliver(w) => w < |s.workers| && s.workers[w].Ready? && |s.delivered| < n
    case Drop(w) => w < |s.workers| && s.workers[w].Ready? && s.cancelled
    // An embedding worker records its error and cancels the context.
    case Fail(w) => w < |s.workers| && s.workers[w].Busy?
    case LeaveClosed(w) => At(s, w, Idle) && s.closed
    case LeaveCancelled(w) => At(s, w, Idle) && s.cancelled
    case Close => !s.closed && s.next == n
    case Abandon => !s.closed && s.cancelled
    case Cancel => !s.cancelled
  }

  ghost function Do(n: nat, s: Pool, step: Step): Pool
    requires Can(n, s, step)
  {
    match step
    case Hand(w) => s.(next := s.next + 1, workers := s.workers[w := Busy(s.next)])
    case Finish(w) => s.(workers := s.workers[w := Ready(s.workers[w].job)])
    case Deliver(w) => s.(workers := s.workers[w := Idle], delivered := s.delivered + [s.workers[w].job])
    case Drop(w) => s.(workers := s.workers[w := Gone], dropped := s.dropped + [s.workers[w].job])
    case Fail(w) => s.(workers := s.workers[w := Gone], dropped := s.dropped + [s.workers[w].job], failed := true,
        cancelled := true)
    case LeaveClosed(w) => s.(workers := s.workers[w := Gone])
    case LeaveCancelled(w) => s.(workers := s.workers[w := Gone])
    case Close => s.(closed := true)
    case Abandon => s.(closed := true)
    case Cancel => s.(cancelled := true)
  }

  ghost predicate Runs(n: nat, s: Pool, steps: seq<Step>, end: Pool)
    decreases |steps|
  {
    if steps == [] then end == s else Can(n, s, steps[0]) && Runs(n, Do(n, s, steps[0]), steps[1..], end)
  }

  // ---------- every job is in one place ----------

  ghost function Held(w: Worker): multiset<nat> {
    match w case Busy(j) => multiset{j} case Ready(j) => multiset{j} case _ => multiset{}
  }

  ghost function InFlight(workers: seq<Worker>): multiset<nat> {
    if workers == [] then multiset{} else Held(workers[0]) + InFlight(workers[1..])
  }

  ghost function Jobs(n: nat): (jobs: seq<nat>)
    ensures |jobs| == n && forall i | 0 <= i < n :: jobs[i] == i
  {
    if n == 0 then [] else Jobs(n - 1) + [n - 1]
  }

  lemma {:induction false} Exchange(a: multiset<nat>, b: multiset<nat>, c: multiset<nat>)
    ensures (a + b) + c == (c + b) + a
  {
  }

  lemma {:induction false} InFlightUpdate(workers: seq<Worker>, w: nat, now: Worker)
    requires w < |workers|
    ensures InFlight(workers[w := now]) + Held(workers[w]) == InFlight(workers) + Held(now)
  {
    hide Held;
    if w > 0 {
      InFlightUpdate(workers[1..], w - 1, now);
      assert workers[w := now][1..] == workers[1..][w - 1 := now];
      Regroup(Held(workers[0]), InFlight(workers[1..][w - 1 := now]), Held(workers[w]));
      Regroup(Held(workers[0]), InFlight(workers[1..]), Held(now));
    } else {
      assert workers[w := now][1..] == workers[1..];
      Exchange(Held(now), InFlight(workers[1..]), Held(workers[0]));
    }
  }

  lemma {:induction false} Regroup(a: multiset<nat>, b: multiset<nat>, c: multiset<nat>)
    ensures (a + b) + c == a + (b + c)
  {
  }

  lemma {:induction false} HeldIsInFlight(workers: seq<Worker>, w: nat)
    requires w < |workers|
    ensures Held(workers[w]) <= InFlight(workers)
  {
    if w > 0 { HeldIsInFlight(workers[1..], w - 1); }
  }

  lemma {:induction false} IdleHoldNothing(workers: seq<Worker>)
    requires forall w | 0 <= w < |workers| :: workers[w] == Idle || workers[w] == Gone
    ensures InFlight(workers) == multiset{}
  {
    if workers != [] { IdleHoldNothing(workers[1..]); }
  }

  ghost function Settled(s: Pool): multiset<nat> {
    multiset(s.delivered) + multiset(s.dropped)
  }

  /** Every job handed out is handed in, dropped or with one worker. */
  ghost predicate Accounted(s: Pool) {
    Settled(s) + InFlight(s.workers) == multiset(Jobs(s.next))
  }

  /** What every reachable state keeps. */
  ghost predicate Inv(n: nat, s: Pool) {
    && s.next <= n
    && Accounted(s)
    && (s.closed ==> s.next == n || s.cancelled)
    && (s.dropped != [] || s.failed ==> s.cancelled)
    && (forall w | 0 <= w < |s.workers| && s.workers[w] == Gone :: s.closed || s.cancelled)
  }

  lemma {:induction false} StartInv(n: nat, workers: nat)
    ensures Inv(n, Start(workers))
  {
    IdleHoldNothing(Start(workers).workers);
  }

  ghost predicate MovesWorker(step: Step) {
    !step.Close? && !step.Abandon? && !step.Cancel?
  }

  lemma {:induction false} Balance(a: multiset<nat>, b: multiset<nat>, freed: multiset<nat>, now: multiset<nat>,
      settled: multiset<nat>, more: multiset<nat>, jobs: multiset<nat>)
    requires a + freed == b + now && settled + b == jobs && more + now == freed
    ensures (settled + more) + a == jobs
  {
    forall x
      ensures ((settled + more) + a)[x] == jobs[x]
    {
      assert (a + freed)[x] == (b + now)[x];
      assert (settled + b)[x] == jobs[x];
      assert (more + now)[x] == freed[x];
    }
  }

  /** What becomes of the worker a step moves. */
  ghost function Moved(s: Pool, step: Step): Worker
    requires MovesWorker(step) && step.w < |s.workers| && (step.Finish? ==> s.workers[step.w].Busy?)
  {
    match step
    case Hand(_) => Busy(s.next)
    case Finish(w) => Ready(s.workers[w].job)
    case Deliver(_) => Idle
    case _ => Gone
  }

  /** The job a step takes out of a worker's hands. */
  ghost function Let(s: Pool, step: Step): multiset<nat>
    requires MovesWorker(step) && step.w < |s.workers|
  {
    if step.Deliver? || step.Drop? || step.Fail? then Held(s.workers[step.w]) else multiset{}
  }

  lemma {:induction false} OneMoves(n: nat, s: Pool, step: Step)
    requires Can(n, s, step) && MovesWorker(step)
    ensures step.w < |s.workers| && (step.Finish? ==> s.workers[step.w].Busy?)
    ensures Do(n, s, step).workers == s.workers[step.w := Moved(s, step)]
    ensures Settled(Do(n, s, step)) == Settled(s) + Let(s, step)
    ensures Weight(Moved(s, step)) < Weight(s.workers[step.w]) + if step.Hand? then 3 else 0
    ensures if step.Hand? then s.workers[step.w] == Idle && Let(s, step) == multiset{}
        else Let(s, step) + Held(Moved(s, step)) == Held(s.workers[step.w])
    ensures Do(n, s, step).next == s.next + (if step.Hand? then 1 else 0)
    ensures Do(n, s, step).closed == s.closed && (s.cancelled ==> Do(n, s, step).cancelled)
  {
  }

  lemma {:induction false} HandAccounts(n: nat, s: Pool, step: Step)
    requires Accounted(s) && Can(n, s, step) && step.Hand?
    ensures Accounted(Do(n, s, step))
  {
    hide Can, Do, InFlight;
    OneMoves(n, s, step);
    InFlightUpdate(s.workers, step.w, Moved(s, step));
    assert Jobs(s.next + 1) == Jobs(s.next) + [s.next];
    var t := Do(n, s, step);
    assert InFlight(t.workers) == InFlight(s.workers) + multiset{s.next};
    assert Settled(t) == Settled(s);
  }

  lemma {:induction false} MoveAccounts(n: nat, s: Pool, step: Step)
    requires Accounted(s) && Can(n, s, step) && MovesWorker(step) && !step.Hand?
    ensures Accounted(Do(n, s, step))
  {
    hide Can, Do, InFlight, Held, Let, Moved, Settled;
    OneMoves(n, s, step);
    InFlightUpdate(s.workers, step.w, Moved(s, step));
    Balance(InFlight(Do(n, s, step).workers), InFlight(s.workers), Held(s.workers[step.w]), Held(Moved(s, step)),
        Settled(s), Let(s, step), multiset(Jobs(s.next)));
  }

  lemma {:induction false} StepAccounts(n: nat, s: Pool, step: Step)
    requires Accounted(s) && Can(n, s, step)
    ensures Accounted(Do(n, s, step))
  {
    hide InFlight, Held;
    if step.Hand? {
      HandAccounts(n, s, step);
    } else if MovesWorker(step) {
      MoveAccounts(n, s, step);
    }
  }

  lemma {:induction false} StepKeepsInv(n: nat, s: Pool, step: Step)
    requires Inv(n, s) && Can(n, s, step)
    ensures Inv(n, Do(n, s, step))
  {
    hide Accounted;
    StepAccounts(n, s, step);
  }

  lemma {:induction false} RunKeepsInv(n: nat, s: Pool, steps: seq<Step>, end: Pool)
    requires Inv(n, s) && Runs(n, s, steps, end)
    ensures Inv(n, end) && |end.workers| == |s.workers|
    decreases |steps|
  {
    hide Inv;
    if steps != [] {
      StepKeepsInv(n, s, steps[0]);
      RunKeepsInv(n, Do(n, s, steps[0]), steps[1..], end);
    }
  }

  ghost predicate Over(s: Pool) {
    forall w | 0 <= w < |s.workers| :: s.workers[w] == Gone
  }

  /** No job is handed in twice, whatever happens. */
  lemma {:induction false} AtMostOnce(n: nat, workers: nat, steps: seq<Step>, end: Pool)
    requires Runs(n, Start(workers), steps, end)
    ensures multiset(end.delivered) <= multiset(Jobs(n))
  {
    StartInv(n, workers);
    RunKeepsInv(n, Start(workers), steps, end);
    JobsGrow(end.next, n);
  }

  lemma {:induction false} JobsGrow(m: nat, n: nat)
    requires m <= n
    ensures multiset(Jobs(m)) <= multiset(Jobs(n))
  {
    if m < n {
      JobsGrow(m, n - 1);
      assert Jobs(n) == Jobs(n - 1) + [n - 1];
    }
  }

  /** When all workers have returned and the context was never cancelled, every job was handed in exactly
      once. */
  lemma {:induction false} ExactlyOnce(n: nat, workers: nat, steps: seq<Step>, end: Pool)
    requires Runs(n, Start(workers), steps, end) && workers > 0 && Over(end) && !end.cancelled
    ensures multiset(end.delivered) == multiset(Jobs(n)) && !end.failed && end.dropped == []
  {
    StartInv(n, workers);
    RunKeepsInv(n, Start(workers), steps, end);
    IdleHoldNothing(end.workers);
    assert end.workers[0] == Gone;
  }

  // ---------- nothing gets stuck, nothing goes on for ever ----------

  lemma {:induction false} RoomForResult(n: nat, s: Pool, w: nat)
    requires Inv(n, s) && w < |s.workers| && s.workers[w].Ready?
    ensures |s.delivered| < n
  {
    HeldIsInFlight(s.workers, w);
    var d := multiset(s.delivered);
    assert Held(s.workers[w]) == multiset{s.workers[w].job};
    assert |d + multiset(s.dropped) + InFlight(s.workers)| == |Jobs(s.next)| == s.next;
    assert multiset{s.workers[w].job} <= InFlight(s.workers);
    assert InFlight(s.workers) == multiset{s.workers[w].job} + (InFlight(s.workers) - multiset{s.workers[w].job});
    assert |InFlight(s.workers)| >= 1;
    assert |d| == |s.delivered|;
  }

  /** Until all workers have returned and the sender is done, some goroutine can go on without help from
      outside: a sender whose workers are all gone is done or may abandon. */
  lemma {:induction false} NeverStuck(n: nat, s: Pool) returns (step: Step)
    requires Inv(n, s) && |s.workers| > 0 && !(Over(s) && s.closed)
    ensures Can(n, s, step) && step != Cancel && !step.Fail?
  {
    if Over(s) {
      assert s.workers[0] == Gone;
      return Abandon;
    }
    var w :| 0 <= w < |s.workers| && s.workers[w] != Gone;
    var worker := s.workers[w];
    if worker.Busy? {
      step := Finish(w);
    } else if worker.Ready? {
      RoomForResult(n, s, w);
      step := Deliver(w);
    } else if s.closed {
      step := LeaveClosed(w);
    } else if s.next < n {
      step := Hand(w);
    } else {
      step := Close;
    }
  }

  ghost function Weight(w: Worker): nat {
    match w case Idle => 1 case Busy(_) => 3 case Ready(_) => 2 case Gone => 0
  }

  ghost function Weights(workers: seq<Worker>): nat {
    if workers == [] then 0 else Weight(workers[0]) + Weights(workers[1..])
  }

  ghost function Rank(n: nat, s: Pool): int {
    3 * (n - s.next) + Weights(s.workers) + (if s.closed then 0 else 1) + (if s.cancelled then 0 else 1)
  }

  lemma {:induction false} WeightsUpdate(workers: seq<Worker>, w: nat, now: Worker)
    requires w < |workers|
    ensures Weights(workers[w := now]) + Weight(workers[w]) == Weights(workers) + Weight(now)
  {
    if w > 0 {
      WeightsUpdate(workers[1..], w - 1, now);
      assert workers[w := now][1..] == workers[1..][w - 1 := now];
    } else {
      assert workers[w := now][1..] == workers[1..];
    }
  }

  lemma {:induction false} MoveLowersRank(n: nat, s: Pool, step: Step)
    requires Can(n, s, step) && MovesWorker(step)
    ensures Rank(n, Do(n, s, step)) < Rank(n, s)
  {
    hide Can, Do, Weights, Weight, Moved;
    OneMoves(n, s, step);
    WeightsUpdate(s.workers, step.w, Moved(s, step));
  }

  lemma {:induction false} StepLowersRank(n: nat, s: Pool, step: Step)
    requires Inv(n, s) && Can(n, s, step)
    ensures 0 <= Rank(n, Do(n, s, step)) < Rank(n, s)
  {
    hide Weights, Weight, Accounted;
    StepKeepsInv(n, s, step);
    if MovesWorker(step) {
      MoveLowersRank(n, s, step);
    }
  }

  /** Every schedule ends: there are never more steps than the initial rank. */
  lemma {:induction false} SchedulesAreShort(n: nat, s: Pool, steps: seq<Step>, end: Pool)
    requires Inv(n, s) && Runs(n, s, steps, end)
    ensures |steps| + Rank(n, end) <= Rank(n, s)
    decreases |steps|
  {
    if steps != [] {
      StepKeepsInv(n, s, steps[0]);
      StepLowersRank(n, s, steps[0]);
      SchedulesAreShort(n, Do(n, s, steps[0]), steps[1..], end);
    }
  }

  // ---------- what is collected ----------

  ghost function Collected<T>(f: nat -> seq<T>, order: seq<nat>): seq<T> {
    if order == [] then [] else Collected(f, order[..|order| - 1]) + f(order[|order| - 1])
  }

  function Without(s: seq<nat>, k: nat): seq<nat>
    requires k < |s|
  {
    s[..k] + s[k + 1..]
  }

  lemma {:induction false} WithoutFront(s: seq<nat>, k: nat)
    requires k < |s| - 1
    ensures Without(s, k) != [] && Without(s, k)[|s| - 2] == s[|s| - 1]
    ensures Without(s, k)[..|s| - 2] == Without(s[..|s| - 1], k)
  {
  }

  lemma {:induction false} CollectedWithout<T>(f: nat -> seq<T>, order: seq<nat>, k: nat)
    requires k < |order|
    ensures multiset(Collected(f, order)) == multiset(Collected(f, Without(order, k))) + multiset(f(order[k]))
    decreases |order|
  {
    var last := |order| - 1;
    if k == last {
      assert Without(order, k) == order[..last];
    } else {
      hide Without;
      CollectedWithout(f, order[..last], k);
      WithoutFront(order, k);
      assert |Without(order, k)| == last by { WithoutLength(order, k); }
    }
  }

  lemma {:induction false} WithoutLength(s: seq<nat>, k: nat)
    requires k < |s|
    ensures |Without(s, k)| == |s| - 1
  {
  }

  lemma {:induction false} RemoveAt(s: seq<nat>, k: nat)
    requires k < |s|
    ensures multiset(Without(s, k)) == multiset(s) - multiset{s[k]}
  {
    assert s == s[..k] + [s[k]] + s[k + 1..];
  }

  /** In whatever order results arrive, the same is collected. */
  lemma {:induction false} CollectedAlike<T>(f: nat -> seq<T>, a: seq<nat>, b: seq<nat>)
    requires multiset(a) == multiset(b)
    ensures multiset(Collected(f, a)) == multiset(Collected(f, b))
    decreases |a|
  {
    assert |a| == |multiset(a)| == |multiset(b)| == |b|;
    if a != [] {
      hide Collected, Without;
      var n := |a| - 1;
      assert a[n] in multiset(b);
      var k :| 0 <= k < |b| && b[k] == a[n];
      RemoveAt(a, n);
      RemoveAt(b, k);
      WithoutLength(a, n);
      CollectedAlike(f, Without(a, n), Without(b, k));
      CollectedWithout(f, a, n);
      CollectedWithout(f, b, k);
    }
  }

  /** Every uncancelled schedule, with any number of workers, collects the same. */
  lemma {:induction false} EveryScheduleCollectsTheSame<T>(f: nat -> seq<T>, n: nat, workers: nat, steps: seq<Step>,
      end: Pool)
    requires Runs(n, Start(workers), steps, end) && workers > 0 && Over(end) && !end.cancelled
    ensures multiset(Collected(f, end.delivered)) == multiset(Collected(f, Jobs(n)))
  {
    ExactlyOnce(n, workers, steps, end);
    CollectedAlike(f, end.delivered, Jobs(n));
  }
}
