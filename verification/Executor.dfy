/** The executor itself: the loops of `DeriveWithLimits` over a mutable known set, work queue and set
    of limit codes, each proved against the state machine of `Engine`
    (internal/derivation/executor.go). */
module Executor {
  import opened Ordering
  import opened Facts
  import opened Engine
  import opened EngineLaws
  import opened FixedPoint
  import opened Registry

  /** `prepareInputs`. */
  method PrepareInputs(factId: Semantics -> string, inputs: seq<Fact>) returns (r: Prepared, pending: seq<Fact>)
    ensures r == Prepare(factId, inputs)
    ensures r.Prepared? ==> |pending| == |r.known| && multiset(pending) == multiset(Clones(inputs))
  {
    hide ValidFact, CloneFact;
    var known: Known := map[];
    var scope := NO_SCOPE;
    pending := [];
    var index := 0;
    while index < |inputs|
      invariant 0 <= index <= |inputs|
      invariant Prepare(factId, inputs[..index]) == Prepared(scope, known)
      invariant |pending| == |known| && pending == Clones(inputs[..index])
    {
      var candidate := inputs[index];
      var before, next := inputs[..index], inputs[..index + 1];
      assert next[..|next| - 1] == before && next[|next| - 1] == candidate;
      if !ValidFact(factId, candidate) {
        PrepareRefuses(factId, inputs, index + 1);
        return Rejected(InvalidInput), [];
      }
      if index == 0 {
        scope := candidate.sem.scope;
      } else if candidate.sem.scope != scope {
        PrepareRefuses(factId, inputs, index + 1);
        return Rejected(InvalidInput), [];
      }
      if candidate.id in known {
        PrepareRefuses(factId, inputs, index + 1);
        return Rejected(DuplicateFact), [];
      }
      var detached := CloneFact(candidate);
      CloneId(candidate);
      known := known[detached.id := detached];
      pending := pending + [detached];
      index := index + 1;
    }
    assert inputs[..index] == inputs;
    r := Prepared(scope, known);
  }

  lemma CloneId(f: Fact)
    ensures CloneFact(f).id == f.id
  {
  }

  lemma {:induction false} PrepareRefuses(factId: Semantics -> string, inputs: seq<Fact>, n: nat)
    requires n <= |inputs| && Prepare(factId, inputs[..n]).Rejected?
    ensures Prepare(factId, inputs) == Prepare(factId, inputs[..n])
    decreases |inputs|
  {
    if n < |inputs| {
      var m := |inputs| - 1;
      assert inputs[..m][..n] == inputs[..n];
      PrepareRefuses(factId, inputs[..m], n);
    } else {
      assert inputs[..n] == inputs;
    }
  }

  /** `orderedFacts`: collect the identities in map order, sort them, read the facts back. */
  method ReadOrdered(known: Known) returns (facts: seq<Fact>)
    ensures facts == OrderedFacts(known)
  {
    hide Sort, SortedKeys, OrderedFacts;
    var ids: seq<string> := [];
    var rest := known.Keys;
    while rest != {}
      invariant rest <= known.Keys && DistinctKeys(Identity, ids)
      invariant forall id :: id in ids <==> id in known && id !in rest
      decreases |rest|
    {
      var id :| id in rest;
      DistinctAppend(Identity, ids, id);
      ids := ids + [id];
      rest := rest - {id};
    }
    SortByKeyStrict(Identity, ids);
    SortMembers(ByKey(Identity), ids);
    ids := SortStrings(ids);
    SortedKeysProps(known.Keys);
    StrictListUnique(Identity, ids, SortedKeys(known.Keys));
    OrderedFactsProps(known);
    facts := [];
    var i := 0;
    while i < |ids|
      invariant 0 <= i <= |ids| && |facts| == i
      invariant forall k | 0 <= k < i :: facts[k] == OrderedFacts(known)[k]
    {
      assert ids[i] in known;
      facts := facts + [known[ids[i]]];
      i := i + 1;
    }
  }

  /** The two validation passes of `acceptCandidateBatch`. */
  method ValidateBatch(cfg: Config, version: RuleVersion, known: Known, candidates: seq<Fact>)
    returns (ok: bool, validated: seq<Fact>)
    ensures ok <==> BatchOk(cfg.codec.factId, cfg.scope, version, known, candidates)
    ensures ok ==> validated == Clones(candidates)
  {
    hide ShapeOk, SupportKnown, CloneFact;
    validated := [];
    var i := 0;
    while i < |candidates|
      invariant 0 <= i <= |candidates|
      invariant forall k | 0 <= k < i :: ShapeOk(cfg.codec.factId, cfg.scope, version, candidates[k])
      invariant validated == Clones(candidates[..i])
    {
      if !ShapeOk(cfg.codec.factId, cfg.scope, version, candidates[i]) {
        assert candidates[i] in candidates;
        return false, [];
      }
      assert candidates[..i + 1][..i] == candidates[..i];
      validated := validated + [CloneFact(candidates[i])];
      i := i + 1;
    }
    assert candidates[..i] == candidates;
    i := 0;
    while i < |candidates|
      invariant 0 <= i <= |candidates|
      invariant forall k | 0 <= k < i :: SupportKnown(candidates[k], known)
    {
      if !SupportKnown(candidates[i], known) {
        assert candidates[i] in candidates;
        return false, [];
      }
      i := i + 1;
    }
    ok := true;
  }

  method ReachedLimits(limits: Limits, known: nat, added: nat) returns (reached: set<LimitCode>)
    ensures reached == LimitsReached(limits, known, added)
  {
    reached := {};
    if limits.maxFacts > 0 && known + added > limits.maxFacts {
      reached := reached + {FactLimit};
    }
    if limits.maxFanout > 0 && added > limits.maxFanout {
      reached := reached + {FanoutLimit};
    }
  }

  /** `acceptCandidateBatch`: validate everything first, then order, deduplicate, filter, bound. */
  method AcceptCandidateBatch(cfg: Config, version: RuleVersion, known: Known, candidates: seq<Fact>)
    returns (batch: Batch)
    ensures batch == AcceptBatch(cfg, version, known, candidates)
    ensures if BatchOk(cfg.codec.factId, cfg.scope, version, known, candidates)
            then Bounded(cfg.limits, known, Unheard(known, candidates), batch)
            else batch.InvalidBatch?
  {
    hide BatchOk, Clones, Sort, FirstOfEach, NotIn, LimitsReached, Bounded;
    BatchExact(cfg, version, known, candidates);
    var ok, validated := ValidateBatch(cfg, version, known, candidates);
    if !ok {
      return InvalidBatch;
    }
    var ordered := Sort(ByKey(BatchKey(cfg.codec.encode)), validated);
    var unique := UniqueInOrder(ordered);
    unique := Sort(ByKey(FactIdOf), unique);
    var newFacts := OnlyNew(unique, known);
    if |newFacts| == 0 {
      return Accepted([]);
    }
    var limitsReached := ReachedLimits(cfg.limits, |known|, |newFacts|);
    if limitsReached != {} {
      return Skipped(limitsReached);
    }
    batch := Accepted(newFacts);
  }

  method UniqueInOrder(ordered: seq<Fact>) returns (unique: seq<Fact>)
    ensures unique == FirstOfEach(ordered)
  {
    unique := [];
    var seen: set<string> := {};
    var i := 0;
    while i < |ordered|
      invariant 0 <= i <= |ordered|
      invariant unique == FirstOfEach(ordered[..i])
      invariant forall id :: id in seen <==> HasId(unique, id)
    {
      assert ordered[..i + 1][..i] == ordered[..i];
      if ordered[i].id !in seen {
        forall id
          ensures HasId(unique + [ordered[i]], id) <==> id in seen + {ordered[i].id}
        {
          HasIdAppend(unique, ordered[i], id);
        }
        seen := seen + {ordered[i].id};
        unique := unique + [ordered[i]];
      }
      i := i + 1;
    }
    assert ordered[..i] == ordered;
  }

  method OnlyNew(unique: seq<Fact>, known: Known) returns (newFacts: seq<Fact>)
    ensures newFacts == NotIn(unique, known)
  {
    newFacts := [];
    var i := 0;
    while i < |unique|
      invariant 0 <= i <= |unique|
      invariant newFacts == NotIn(unique[..i], known)
    {
      assert unique[..i + 1][..i] == unique[..i];
      if unique[i].id !in known {
        newFacts := newFacts + [unique[i]];
      }
      i := i + 1;
    }
    assert unique[..i] == unique;
  }

  // ---------- publishing ----------

  /** `DerivationResult.Validate`: one pass over the facts, one over their support, one over the gaps. */
  method ValidateResult(factId: Semantics -> string, r: Result) returns (ok: bool)
    ensures ok <==> ValidResult(factId, r)
  {
    hide ValidFact;
    var seen: set<string> := {};
    var i := 0;
    while i < |r.facts|
      invariant 0 <= i <= |r.facts|
      invariant forall k | 0 <= k < i :: ValidFact(factId, r.facts[k])
      invariant StrictlyIncreasing(FactIdOf, r.facts[..i])
      invariant forall id :: id in seen <==> HasId(r.facts[..i], id)
    {
      var f := r.facts[i];
      if !ValidFact(factId, f) {
        assert f in r.facts;
        return false;
      }
      if f.id in seen || (i > 0 && !StrLt(r.facts[i - 1].id, f.id)) {
        OutOfOrder(r.facts, i);
        return false;
      }
      NextInOrder(FactIdOf, r.facts, i);
      assert r.facts[..i + 1] == r.facts[..i] + [f];
      forall id
        ensures id in seen + {f.id} <==> HasId(r.facts[..i + 1], id)
      {
        HasIdAppend(r.facts[..i], f, id);
      }
      seen := seen + {f.id};
      i := i + 1;
    }
    assert r.facts[..i] == r.facts;
    i := 0;
    while i < |r.facts|
      invariant 0 <= i <= |r.facts|
      invariant forall k | 0 <= k < i :: forall x | x in InputIds(r.facts[k]) :: HasId(r.facts, x)
    {
      if !(forall x | x in InputIds(r.facts[i]) :: x in seen) {
        assert r.facts[i] in r.facts;
        assert !SupportListed(r.facts);
        return false;
      }
      i := i + 1;
    }
    assert SupportListed(r.facts);
    i := 0;
    while i < |r.gaps|
      invariant 0 <= i <= |r.gaps|
      invariant StrictlyIncreasing(GapIdOf, r.gaps[..i])
    {
      if i > 0 && !StrLt(r.gaps[i - 1].id, r.gaps[i].id) {
        assert !StrLt(GapIdOf(r.gaps[i - 1]), GapIdOf(r.gaps[i]));
        return false;
      }
      NextInOrder(GapIdOf, r.gaps, i);
      i := i + 1;
    }
    assert r.gaps[..i] == r.gaps;
    ok := true;
  }

  lemma OutOfOrder(s: seq<Fact>, i: nat)
    requires i < |s| && (HasId(s[..i], s[i].id) || (i > 0 && !StrLt(s[i - 1].id, s[i].id)))
    ensures !StrictlyIncreasing(FactIdOf, s)
  {
    if i > 0 && !StrLt(s[i - 1].id, s[i].id) {
      assert !StrLt(FactIdOf(s[i - 1]), FactIdOf(s[i]));
    } else {
      var g :| g in s[..i] && g.id == s[i].id;
      var k :| 0 <= k < i && s[k] == g;
      assert !StrLt(FactIdOf(s[k]), FactIdOf(s[i]));
    }
  }

  lemma NextInOrder<T>(key: T -> string, s: seq<T>, i: nat)
    requires i < |s| && StrictlyIncreasing(key, s[..i]) && (i > 0 ==> StrLt(key(s[i - 1]), key(s[i])))
    ensures StrictlyIncreasing(key, s[..i + 1])
  {
    var t := s[..i + 1];
    forall x, y | 0 <= x < y < |t|
      ensures StrLt(key(t[x]), key(t[y]))
    {
      if y < i {
        assert StrLt(key(s[..i][x]), key(s[..i][y]));
      } else if x < i - 1 {
        assert StrLt(key(s[..i][x]), key(s[..i][i - 1]));
        StrLeTransitive(key(s[x]), key(s[i - 1]), key(s[i]));
        if key(s[x]) == key(s[i]) { StrLeAntisymmetric(key(s[x]), key(s[i - 1])); }
      }
    }
  }

  /** `makeDerivationResult`. */
  method MakeResult(codec: Codec, scope: Scope, known: Known, limitCodes: set<LimitCode>) returns (outcome: Outcome)
    ensures outcome == Publish(codec, scope, known, limitCodes)
  {
    hide ValidResult, OrderedFacts;
    var codes: seq<LimitCode> := [FactLimit, FanoutLimit, IterationLimit];
    var gaps: seq<Gap> := [];
    var i := 0;
    while i < |codes|
      invariant 0 <= i <= |codes|
      invariant gaps == (if i > 0 then GapFor(codec, scope, limitCodes, FactLimit) else []) +
                        (if i > 1 then GapFor(codec, scope, limitCodes, FanoutLimit) else []) +
                        (if i > 2 then GapFor(codec, scope, limitCodes, IterationLimit) else [])
    {
      if codes[i] in limitCodes {
        gaps := gaps + [Gap(codec.gapId(scope, codes[i]), codes[i])];
      }
      i := i + 1;
    }
    gaps := Sort(ByKey(GapIdOf), gaps);
    var facts := ReadOrdered(known);
    var r := Result(facts, if |gaps| == 0 then CoverageProduced else CoverageIncomplete, gaps);
    var ok := ValidateResult(codec.factId, r);
    outcome := if ok then Success(r) else Failure(InvalidOutput);
  }

  // ---------- the work loop ----------

  lemma NextStep(cfg: Config, start: Known, n: nat)
    requires Steps(cfg, start, n).status.Running?
    ensures Steps(cfg, start, n + 1) == Step(cfg, Steps(cfg, start, n))
  {
    hide Step;
  }

  lemma StepsBegin(cfg: Config, start: Known)
    ensures Steps(cfg, start, 0) == Start(start)
  {
    hide Step;
  }

  lemma StillRunning(cfg: Config, start: Known, n: nat, end: nat)
    requires Steps(cfg, start, n).status.Running? && Halts(cfg, start, end)
    ensures n < end
  {
    hide Steps;
    if end <= n { HaltedStays(cfg, start, end, n); }
  }

  lemma {:induction false} FirstFailureDecides(cfg: Config, rules: seq<RegisteredRule>, p: Pass, i: nat, e: Error)
    requires i < |rules| && RunRules(cfg, rules[..i], p).Pass?
    requires Invoke(cfg, rules[i], RunRules(cfg, rules[..i], p)) == PassFailed(e)
    ensures RunRules(cfg, rules, p) == PassFailed(e)
    decreases |rules|
  {
    hide Invoke;
    var n := |rules| - 1;
    if i == n {
      assert rules[..n] == rules[..i];
    } else {
      assert rules[..n][..i] == rules[..i];
      FirstFailureDecides(cfg, rules[..n], p, i, e);
    }
  }

  lemma NoRuleYet(cfg: Config, p: Pass)
    ensures RunRules(cfg, cfg.rules[..0], p) == p
  {
  }

  lemma NextRule(cfg: Config, p: Pass, i: nat)
    requires i < |cfg.rules| && RunRules(cfg, cfg.rules[..i], p).Pass?
    ensures RunRules(cfg, cfg.rules[..i + 1], p) == Invoke(cfg, cfg.rules[i], RunRules(cfg, cfg.rules[..i], p))
  {
    hide Invoke;
    assert cfg.rules[..i + 1][..i] == cfg.rules[..i];
  }

  /** The outcome once the state machine has halted. */
  lemma DeriveIs(codec: Codec, rules: seq<RegisteredRule>, inputs: seq<Fact>, limits: Limits, n: nat)
    requires Accepts(codec, inputs, limits)
    requires Halts(ConfigFor(codec, rules, inputs, limits), Prepare(codec.factId, inputs).known, n)
    ensures Completes(codec, rules, inputs, limits)
    ensures var r := Steps(ConfigFor(codec, rules, inputs, limits), Prepare(codec.factId, inputs).known, n);
            Derive(codec, rules, inputs, limits) ==
              (match r.status
               case Failed(e) => Failure(e)
               case _ => Publish(codec, Prepare(codec.factId, inputs).scope, r.known, r.codes))
  {
    hide Steps, Publish;
    FinalIs(ConfigFor(codec, rules, inputs, limits), Prepare(codec.factId, inputs).known, n);
  }

  /** Taking one entry off the queue, whichever it is, leaves one entry less. */
  method Pop(pending: seq<Fact>) returns (rest: seq<Fact>)
    requires |pending| > 0
    ensures |rest| == |pending| - 1
  {
    var popped :| 0 <= popped < |pending|;
    rest := pending[..popped] + pending[popped + 1..];
  }

  /** Accepted facts enter the known set and the queue. */
  method AddFacts(known: Known, pending: seq<Fact>, facts: seq<Fact>) returns (grown: Known, queue: seq<Fact>)
    ensures grown == AddAll(known, facts) && queue == pending + facts
  {
    grown, queue := known, pending;
    var i := 0;
    while i < |facts|
      invariant 0 <= i <= |facts|
      invariant grown == AddAll(known, facts[..i]) && queue == pending + facts[..i]
    {
      assert facts[..i + 1][..i] == facts[..i];
      grown := grown[facts[i].id := facts[i]];
      queue := queue + [facts[i]];
      i := i + 1;
    }
    assert facts[..i] == facts;
  }

  class DerivationExecutor {
    const registry: RuleRegistry
    const codec: Codec

    constructor (registry: RuleRegistry, codec: Codec)
      ensures this.registry == registry && this.codec == codec
    {
      this.registry := registry;
      this.codec := codec;
    }

    /** One pass over the rules, as the body of the work loop runs it. */
    method RunPass(ctx: nat -> bool, polled: nat, cfg: Config, known: Known, pending: seq<Fact>,
        limitCodes: set<LimitCode>)
      returns (error: Option<Error>, grown: Known, queue: seq<Fact>, codes: set<LimitCode>, accepted: nat, polls: nat)
      ensures error == Some(Cancelled) ==> exists k: nat :: ctx(k)
      ensures error != Some(Cancelled) ==>
                RunRules(cfg, cfg.rules, Pass(known, 0, limitCodes)) ==
                  (if error.Some? then PassFailed(error.value) else Pass(grown, accepted, codes))
      ensures error.None? ==> |queue| == |pending| + accepted
    {
      hide AcceptBatch, OrderedFacts, RunRules, Bounded, BatchOk, NewFacts, AddAll, Unheard;
      NoRuleYet(cfg, Pass(known, 0, limitCodes));
      grown, queue, codes, accepted, polls := known, pending, limitCodes, 0, polled;
      ghost var before := Pass(known, 0, limitCodes);
      var i := 0;
      while i < |cfg.rules|
        invariant 0 <= i <= |cfg.rules|
        invariant RunRules(cfg, cfg.rules[..i], before) == Pass(grown, accepted, codes)
        invariant |queue| == |pending| + accepted
      {
        polls := polls + 1;
        if ctx(polls) { return Some(Cancelled), known, pending, limitCodes, 0, polls; }
        var registered := cfg.rules[i];
        NextRule(cfg, before, i);
        var view := ReadOrdered(grown);
        var output := registered.apply(view);
        polls := polls + 1;
        if ctx(polls) { return Some(Cancelled), known, pending, limitCodes, 0, polls; }
        if output.RuleError? {
          FirstFailureDecides(cfg, cfg.rules, before, i, RuleFailed);
          return Some(RuleFailed), known, pending, limitCodes, 0, polls;
        }
        var batch := AcceptCandidateBatch(cfg, registered.version, grown, output.facts);
        match batch {
          case InvalidBatch =>
            FirstFailureDecides(cfg, cfg.rules, before, i, InvalidOutput);
            return Some(InvalidOutput), known, pending, limitCodes, 0, polls;
          case Skipped(skipped) =>
            codes := codes + skipped;
          case Accepted(facts) =>
            grown, queue := AddFacts(grown, queue, facts);
            accepted := accepted + |facts|;
        }
        i := i + 1;
      }
      assert cfg.rules[..i] == cfg.rules;
      error := None;
    }

    /** `DeriveWithLimits`. `ctx(k)` says whether check number `k` finds the context cancelled; the
        queue may hand out any of its elements. A run that meets no cancelled check returns the
        outcome of the state machine; any other returns nothing but the error. */
    method DeriveWithLimits(ctx: nat -> bool, inputs: seq<Fact>, limits: Limits) returns (outcome: Outcome)
      requires Completes(codec, registry.rules, inputs, limits)
      ensures outcome == Derive(codec, registry.rules, inputs, limits) ||
              (outcome == Failure(Cancelled) && exists k: nat :: ctx(k))
    {
      hide Steps, Publish, RunRules;
      var polls := 0;
      if ctx(polls) { return Failure(Cancelled); }
      if !ValidLimits(limits) { return Failure(InvalidLimits); }
      var prepared, pending := PrepareInputs(codec.factId, inputs);
      if prepared.Rejected? { return Failure(prepared.error); }
      var known := prepared.known;
      if limits.maxFacts > 0 && |known| > limits.maxFacts { return Failure(InputExceedsFactLimit); }
      var cfg := Config(codec, registry.rules, prepared.scope, limits);
      ghost var start := known;
      ghost var end: nat :| Halts(cfg, start, end);
      ghost var stop: nat := 0;
      var limitCodes: set<LimitCode> := {};
      var iterations: nat := 0;
      StepsBegin(cfg, start);
      while |pending| > 0
        invariant Steps(cfg, start, iterations) == Run(known, |pending|, iterations, limitCodes, Running)
        invariant stop == 0
        decreases end - iterations
      {
        StillRunning(cfg, start, iterations, end);
        NextStep(cfg, start, iterations);
        polls := polls + 1;
        if ctx(polls) { return Failure(Cancelled); }
        if limits.maxIterations > 0 && iterations >= limits.maxIterations {
          limitCodes := limitCodes + {IterationLimit};
          stop := iterations + 1;
          break;
        }
        pending := Pop(pending);
        iterations := iterations + 1;
        var error, grown, queue, codes, accepted;
        error, grown, queue, codes, accepted, polls := RunPass(ctx, polls, cfg, known, pending, limitCodes);
        if error == Some(Cancelled) { return Failure(Cancelled); }
        if error.Some? {
          DeriveIs(codec, registry.rules, inputs, limits, iterations);
          return Failure(error.value);
        }
        known, pending, limitCodes := grown, queue, codes;
        if accepted == 0 {
          stop := iterations;
          break;
        }
      }
      ghost var last := if stop == 0 then iterations + 1 else stop;
      if stop == 0 { NextStep(cfg, start, iterations); }
      polls := polls + 1;
      if ctx(polls) { return Failure(Cancelled); }
      assert Steps(cfg, start, last).status == Finished && Steps(cfg, start, last).known == known
          && Steps(cfg, start, last).codes == limitCodes;
      DeriveIs(codec, registry.rules, inputs, limits, last);
      outcome := MakeResult(codec, prepared.scope, known, limitCodes);
    }
  }
}
