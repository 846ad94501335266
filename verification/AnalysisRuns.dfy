/** A whole run of the analysis: the pool of workers over all artifacts, with and without a cache
    (internal/analysis/runner.go:264-297, 473-543). */
module AnalysisRuns {
  import Facts
  import opened AnalyzerOutput
  import opened AnalysisCache
  import opened WorkerPool

  /** One kind of observation, tagged so that all kinds can be collected alike. */
  datatype Item = OneContribution(contribution: Contribution) | OneCoverage(coverage: Coverage) | OneGap(gap: Gap)

  ghost function Items(r: ArtifactRun): seq<Item> {
    seq(|r.output.contributions|,
        i requires 0 <= i < |r.output.contributions| => OneContribution(r.output.contributions[i]))
    + seq(|r.output.coverage|, i requires 0 <= i < |r.output.coverage| => OneCoverage(r.output.coverage[i]))
    + seq(|r.output.gaps|, i requires 0 <= i < |r.output.gaps| => OneGap(r.output.gaps[i]))
  }

  /** What the job of artifact `k` reports, with the entries stored so far. */
  ghost function Cached(lab: Lab, evidence: bool, v: Visit, entries: seq<Entry>): nat -> seq<Item> {
    (k: nat) => if k < |v.inputs| then Items(RunOf(lab, v.inputs[k], OptionsOf(evidence, v, entries),
        v.scene(v.inputs[k]))) else []
  }

  /** The same without a cache. */
  ghost function Uncached(lab: Lab, evidence: bool, v: Visit): nat -> seq<Item> {
    (k: nat) => if k < |v.inputs| then Items(RunOf(lab, v.inputs[k], OptionsOf(evidence, v, []).(cache := false),
        v.scene(v.inputs[k]))) else []
  }

  lemma {:induction false} CollectedExt<T>(f: nat -> seq<T>, g: nat -> seq<T>, order: seq<nat>)
    requires forall k | 0 <= k < |order| :: f(order[k]) == g(order[k])
    ensures Collected(f, order) == Collected(g, order)
    decreases |order|
  {
    if order != [] { CollectedExt(f, g, order[..|order| - 1]); }
  }

  /** A run that is not cancelled and uses the cache reports the same contributions, coverage and gaps as
      one with an empty cache, whatever ran before, however many workers there are and however they and
      the sender interleave in either run. */
  lemma {:induction false} CacheIsInvisible(lab: Lab, evidence: bool, history: seq<Visit>, n: nat, workers: nat,
      steps: seq<Step>, end: Pool, workers': nat, steps': seq<Step>, end': Pool)
    requires Distinguishes(lab) && n < |history| && (forall m | 0 <= m <= n :: HonestVisit(lab, evidence, history[m]))
    requires forall k | 0 <= k < |history[n].inputs| :: history[n].scene(history[n].inputs[k]).stop == Facts.None
    requires workers > 0 && Runs(|history[n].inputs|, Start(workers), steps, end) && Over(end) && !end.cancelled
    requires workers' > 0 && Runs(|history[n].inputs|, Start(workers'), steps', end') && Over(end') && !end'.cancelled
    ensures multiset(Collected(Cached(lab, evidence, history[n], StateAfter(lab, evidence, history, n)), end.delivered))
         == multiset(Collected(Uncached(lab, evidence, history[n]), end'.delivered))
  {
    hide Distinguishes, HonestVisit, RunOf, Runs, Over, StateAfter, Collected;
    var v := history[n];
    var entries := StateAfter(lab, evidence, history, n);
    var f, g := Cached(lab, evidence, v, entries), Uncached(lab, evidence, v);
    EveryScheduleCollectsTheSame(f, |v.inputs|, workers, steps, end);
    EveryScheduleCollectsTheSame(g, |v.inputs|, workers', steps', end');
    forall k | 0 <= k < |v.inputs|
      ensures f(Jobs(|v.inputs|)[k]) == g(Jobs(|v.inputs|)[k])
    {
      EveryRunIsFresh(lab, evidence, history, n, k);
    }
    CollectedExt(f, g, Jobs(|v.inputs|));
  }
}
