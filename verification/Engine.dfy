/** The bounded fixed-point engine as a state machine over values: what one candidate batch, one
    rule invocation and one iteration of the work loop do
    (internal/derivation/executor.go, internal/derivation/limits.go). */
module Engine {
  import opened Ordering
  import opened Facts

  datatype RuleVersion = RuleVersion(ruleId: string, version: string)

  datatype RuleOutput = Candidates(facts: seq<Fact>) | RuleError

  /** A rule is any function of the ordered view; an error or a panic is `RuleError`. */
  datatype RegisteredRule = RegisteredRule(version: RuleVersion, apply: seq<Fact> -> RuleOutput)

  /** Zero leaves a dimension unlimited; negative limits are refused. */
  datatype Limits = Limits(maxIterations: int, maxFacts: int, maxFanout: int)

  const UNLIMITED := Limits(0, 0, 0)

  predicate ValidLimits(l: Limits) {
    l.maxIterations >= 0 && l.maxFacts >= 0 && l.maxFanout >= 0
  }

  datatype Error =
    | InvalidLimits | InvalidInput | DuplicateFact | InputExceedsFactLimit
    | RuleFailed | InvalidOutput | Cancelled

  datatype Config = Config(codec: Codec, rules: seq<RegisteredRule>, scope: Scope, limits: Limits)

  // ---------- inputs ----------

  datatype Prepared = Prepared(scope: Scope, known: Known) | Rejected(error: Error)

  const NO_SCOPE := Scope("", "", "")

  /** `prepareInputs`: one more input after all the earlier ones. */
  function Prepare(factId: Semantics -> string, inputs: seq<Fact>): Prepared {
    if inputs == [] then Prepared(NO_SCOPE, map[]) else
    var f := inputs[|inputs| - 1];
    match Prepare(factId, inputs[..|inputs| - 1])
    case Rejected(e) => Rejected(e)
    case Prepared(scope, known) =>
      if !ValidFact(factId, f) then Rejected(InvalidInput)
      else if |inputs| > 1 && f.sem.scope != scope then Rejected(InvalidInput)
      else if f.id in known then Rejected(DuplicateFact)
      else Prepared(f.sem.scope, known[f.id := CloneFact(f)])
  }

  // ---------- one candidate batch ----------

  function FactIdOf(f: Fact): string { f.id }

  /** `validateCandidateShape`. */
  predicate ShapeOk(factId: Semantics -> string, scope: Scope, version: RuleVersion, c: Fact) {
    && ValidFact(factId, c)
    && c.sem.scope == scope
    && c.lineage.Some?
    && c.lineage.value.ruleId == version.ruleId
    && c.lineage.value.ruleVersion == version.version
  }

  predicate SupportKnown(c: Fact, known: Known) {
    c.lineage.Some? ==> forall i | i in c.lineage.value.inputs :: i in known
  }

  predicate BatchOk(factId: Semantics -> string, scope: Scope, version: RuleVersion, known: Known, cands: seq<Fact>) {
    && (forall c | c in cands :: ShapeOk(factId, scope, version, c))
    && (forall c | c in cands :: SupportKnown(c, known))
  }

  function Clones(cands: seq<Fact>): seq<Fact> {
    if cands == [] then [] else Clones(cands[..|cands| - 1]) + [CloneFact(cands[|cands| - 1])]
  }

  function BatchKey(encode: Fact -> string): Fact -> string {
    (f: Fact) => f.id + "\0" + encode(f)
  }

  predicate HasId(s: seq<Fact>, id: string) {
    exists g | g in s :: g.id == id
  }

  lemma HasIdAppend(s: seq<Fact>, f: Fact, id: string)
    ensures HasId(s + [f], id) <==> HasId(s, id) || f.id == id
  {
    if HasId(s, id) {
      var g :| g in s && g.id == id;
      assert g in s + [f];
    }
    if f.id == id {
      assert f in s + [f];
    }
  }

  lemma IsListed(s: seq<Fact>, g: Fact)
    requires g in s
    ensures HasId(s, g.id)
  {
  }

  /** The first fact of each identity, in order. */
  function FirstOfEach(s: seq<Fact>): seq<Fact> {
    if s == [] then [] else
    var r := FirstOfEach(s[..|s| - 1]);
    var f := s[|s| - 1];
    if HasId(r, f.id) then r else r + [f]
  }

  function NotIn(s: seq<Fact>, known: Known): seq<Fact> {
    if s == [] then [] else
    var r := NotIn(s[..|s| - 1], known);
    if s[|s| - 1].id in known then r else r + [s[|s| - 1]]
  }

  /** One fact per identity, in identity order, chosen by least encoding. */
  function Representatives(codec: Codec, clones: seq<Fact>): seq<Fact> {
    Sort(ByKey(FactIdOf), FirstOfEach(Sort(ByKey(BatchKey(codec.encode)), clones)))
  }

  /** The representatives of the batch that the run does not know yet. */
  function NewFacts(codec: Codec, cands: seq<Fact>, known: Known): seq<Fact> {
    NotIn(Representatives(codec, Clones(cands)), known)
  }

  function LimitsReached(limits: Limits, known: nat, added: nat): set<LimitCode> {
    (if limits.maxFacts > 0 && known + added > limits.maxFacts then {FactLimit} else {}) +
    (if limits.maxFanout > 0 && added > limits.maxFanout then {FanoutLimit} else {})
  }

  datatype Batch = InvalidBatch | Skipped(codes: set<LimitCode>) | Accepted(facts: seq<Fact>)

  /** `acceptCandidateBatch`: all of the new facts or none of them. */
  function AcceptBatch(cfg: Config, version: RuleVersion, known: Known, cands: seq<Fact>): Batch {
    if !BatchOk(cfg.codec.factId, cfg.scope, version, known, cands) then InvalidBatch else
    var added := NewFacts(cfg.codec, cands, known);
    if added == [] then Accepted([]) else
    var codes := LimitsReached(cfg.limits, |known|, |added|);
    if codes != {} then Skipped(codes) else Accepted(added)
  }

  // ---------- one pass over the rules ----------

  function AddAll(known: Known, fs: seq<Fact>): Known {
    if fs == [] then known else AddAll(known, fs[..|fs| - 1])[fs[|fs| - 1].id := fs[|fs| - 1]]
  }

  datatype Pass = Pass(known: Known, accepted: nat, codes: set<LimitCode>) | PassFailed(error: Error)

  ghost function Invoke(cfg: Config, rule: RegisteredRule, p: Pass): Pass
    requires p.Pass?
  {
    match rule.apply(OrderedFacts(p.known))
    case RuleError => PassFailed(RuleFailed)
    case Candidates(cands) =>
      match AcceptBatch(cfg, rule.version, p.known, cands)
      case InvalidBatch => PassFailed(InvalidOutput)
      case Skipped(codes) => p.(codes := p.codes + codes)
      case Accepted(fs) => Pass(AddAll(p.known, fs), p.accepted + |fs|, p.codes)
  }

  ghost function RunRules(cfg: Config, rules: seq<RegisteredRule>, p: Pass): Pass {
    if rules == [] then p else
    var q := RunRules(cfg, rules[..|rules| - 1], p);
    if q.PassFailed? then q else Invoke(cfg, rules[|rules| - 1], q)
  }

  // ---------- the work loop ----------

  datatype Status = Running | Finished | Failed(error: Error)

  /** `pending` is the length of the queue: what the queue holds is never looked at. */
  datatype Run = Run(known: Known, pending: nat, iterations: nat, codes: set<LimitCode>, status: Status)

  ghost function Start(known: Known): Run {
    Run(known, |known|, 0, {}, Running)
  }

  ghost function Step(cfg: Config, r: Run): Run {
    if r.pending == 0 then r.(status := Finished)
    else if cfg.limits.maxIterations > 0 && r.iterations >= cfg.limits.maxIterations then
      r.(codes := r.codes + {IterationLimit}, status := Finished)
    else
      match RunRules(cfg, cfg.rules, Pass(r.known, 0, r.codes))
      case PassFailed(e) => r.(iterations := r.iterations + 1, status := Failed(e))
      case Pass(known, accepted, codes) =>
        Run(known, r.pending - 1 + accepted, r.iterations + 1, codes, if accepted == 0 then Finished else Running)
  }

  ghost function Steps(cfg: Config, known: Known, n: nat): Run {
    if n == 0 then Start(known) else
    var r := Steps(cfg, known, n - 1);
    if r.status.Running? then Step(cfg, r) else r
  }

  ghost predicate Halts(cfg: Config, known: Known, n: nat) {
    !Steps(cfg, known, n).status.Running?
  }

  /** The loop ends at all. For arbitrary rules without limits this can fail. */
  ghost predicate Terminates(cfg: Config, known: Known) {
    exists n: nat :: Halts(cfg, known, n)
  }

  ghost function Final(cfg: Config, known: Known): Run
    requires Terminates(cfg, known)
  {
    var n: nat :| Halts(cfg, known, n);
    Steps(cfg, known, n)
  }

  lemma {:induction false} HaltedStays(cfg: Config, known: Known, n: nat, m: nat)
    requires n <= m && Halts(cfg, known, n)
    ensures Steps(cfg, known, m) == Steps(cfg, known, n)
    decreases m
  {
    hide Step;
    if n < m {
      HaltedStays(cfg, known, n, m - 1);
    }
  }

  lemma FinalIs(cfg: Config, known: Known, n: nat)
    requires Halts(cfg, known, n)
    ensures Terminates(cfg, known) && Final(cfg, known) == Steps(cfg, known, n)
  {
    hide Steps;
    var m: nat :| Halts(cfg, known, m) && Final(cfg, known) == Steps(cfg, known, m);
    if n <= m { HaltedStays(cfg, known, n, m); } else { HaltedStays(cfg, known, m, n); }
  }

  // ---------- the published result ----------

  datatype Coverage = CoverageProduced | CoverageIncomplete

  datatype Gap = Gap(id: string, code: LimitCode)

  datatype Result = Result(facts: seq<Fact>, coverage: Coverage, gaps: seq<Gap>)

  datatype Outcome = Success(result: Result) | Failure(error: Error)

  function GapIdOf(g: Gap): string { g.id }

  function GapFor(codec: Codec, scope: Scope, codes: set<LimitCode>, code: LimitCode): seq<Gap> {
    if code in codes then [Gap(codec.gapId(scope, code), code)] else []
  }

  function Gaps(codec: Codec, scope: Scope, codes: set<LimitCode>): seq<Gap> {
    Sort(ByKey(GapIdOf),
         GapFor(codec, scope, codes, FactLimit) + GapFor(codec, scope, codes, FanoutLimit) +
         GapFor(codec, scope, codes, IterationLimit))
  }

  ghost predicate SupportListed(facts: seq<Fact>) {
    forall f | f in facts :: forall i | i in InputIds(f) :: HasId(facts, i)
  }

  /** `DerivationResult.Validate`. */
  ghost predicate ValidResult(factId: Semantics -> string, r: Result) {
    && (forall f | f in r.facts :: ValidFact(factId, f))
    && StrictlyIncreasing(FactIdOf, r.facts)
    && SupportListed(r.facts)
    && StrictlyIncreasing(GapIdOf, r.gaps)
  }

  /** `makeDerivationResult`. */
  ghost function Publish(codec: Codec, scope: Scope, known: Known, codes: set<LimitCode>): Outcome {
    var gaps := Gaps(codec, scope, codes);
    var r := Result(OrderedFacts(known), if gaps == [] then CoverageProduced else CoverageIncomplete, gaps);
    if ValidResult(codec.factId, r) then Success(r) else Failure(InvalidOutput)
  }

  ghost predicate Accepts(codec: Codec, inputs: seq<Fact>, limits: Limits) {
    && ValidLimits(limits)
    && Prepare(codec.factId, inputs).Prepared?
    && (limits.maxFacts > 0 ==> |Prepare(codec.factId, inputs).known| <= limits.maxFacts)
  }

  ghost function ConfigFor(codec: Codec, rules: seq<RegisteredRule>, inputs: seq<Fact>, limits: Limits): Config
    requires Accepts(codec, inputs, limits)
  {
    Config(codec, rules, Prepare(codec.factId, inputs).scope, limits)
  }

  /** The loop over accepted inputs ends; refused inputs never enter it. */
  ghost predicate Completes(codec: Codec, rules: seq<RegisteredRule>, inputs: seq<Fact>, limits: Limits) {
    Accepts(codec, inputs, limits) ==>
      Terminates(ConfigFor(codec, rules, inputs, limits), Prepare(codec.factId, inputs).known)
  }

  /** What `DeriveWithLimits` returns when nobody cancels it. */
  ghost function Derive(codec: Codec, rules: seq<RegisteredRule>, inputs: seq<Fact>, limits: Limits): Outcome
    requires Completes(codec, rules, inputs, limits)
  {
    if !ValidLimits(limits) then Failure(InvalidLimits) else
    match Prepare(codec.factId, inputs)
    case Rejected(e) => Failure(e)
    case Prepared(scope, known) =>
      if !Accepts(codec, inputs, limits) then Failure(InputExceedsFactLimit) else
      var end := Final(ConfigFor(codec, rules, inputs, limits), known);
      match end.status
      case Failed(e) => Failure(e)
      case _ => Publish(codec, scope, end.known, end.codes)
  }
}
