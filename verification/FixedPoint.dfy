/** Least fixed points, derivation trees, self-validation and order independence of the engine,
    for arbitrary rules. */
module FixedPoint {
  import opened Ordering
  import opened Facts
  import opened Engine
  import opened EngineLaws

  // ---------- the least fixed point above the inputs ----------

  ghost function OutIds(rule: RegisteredRule, known: Known): set<string> {
    set f | f in OutFacts(rule, known) :: f.id
  }

  /** More facts never make the rule say less. */
  ghost predicate Monotone(cfg: Config, rule: RegisteredRule) {
    forall a: Known, b: Known |
      WellFormed(cfg.codec.factId, cfg.scope, a) && WellFormed(cfg.codec.factId, cfg.scope, b) && a.Keys <= b.Keys ::
      OutIds(rule, a) <= OutIds(rule, b)
  }

  ghost predicate Within(known: Known, s: iset<string>) {
    forall id | id in known :: id in s
  }

  /** `s` contains whatever any rule says about facts drawn from `s`. */
  ghost predicate Closed(cfg: Config, s: iset<string>) {
    forall rule, known: Known ::
      rule in cfg.rules && WellFormed(cfg.codec.factId, cfg.scope, known) && Within(known, s) ==>
        forall id | id in OutIds(rule, known) :: id in s
  }

  ghost predicate InLeastFixedPoint(cfg: Config, start: Known, id: string) {
    forall s: iset<string> :: Within(start, s) && Closed(cfg, s) ==> id in s
  }

  lemma StaysInClosedSet(cfg: Config, start: Known, n: nat, s: iset<string>)
    requires WellFormed(cfg.codec.factId, cfg.scope, start)
    requires Within(start, s) && Closed(cfg, s)
    ensures Within(Steps(cfg, start, n).known, s)
  {
    hide Steps;
    var inv := (k: Known) => WellFormed(cfg.codec.factId, cfg.scope, k) && Within(k, s);
    forall rule, before, after | rule in cfg.rules && inv(before) && Extends(cfg, rule, before, after)
      ensures inv(after)
    {
      ExtendsWellFormed(cfg, rule, before, after);
      forall id | id in after
        ensures id in s
      {
        if id !in before {
          var c :| c in OutFacts(rule, before) && after[id] == CloneFact(c);
          assert c.id in OutIds(rule, before);
        }
      }
    }
    RunInvariant(cfg, start, n, inv);
  }

  /** Sound for any rules and any limits: whatever a run knows, in any iteration, is in the least
      fixed point above its inputs. */
  lemma NothingBeyondLeastFixedPoint(cfg: Config, start: Known, n: nat, id: string)
    requires WellFormed(cfg.codec.factId, cfg.scope, start)
    requires id in Steps(cfg, start, n).known
    ensures InLeastFixedPoint(cfg, start, id)
  {
    hide Steps, Closed;
    forall s: iset<string> | Within(start, s) && Closed(cfg, s)
      ensures id in s
    {
      StaysInClosedSet(cfg, start, n, s);
    }
  }

  lemma QuietIsClosed(cfg: Config, known: Known)
    requires WellFormed(cfg.codec.factId, cfg.scope, known)
    requires forall rule | rule in cfg.rules :: Monotone(cfg, rule) && Quiet(rule, known)
    ensures Closed(cfg, iset id | id in known)
  {
    var s := iset id | id in known;
    forall rule, k: Known | rule in cfg.rules && WellFormed(cfg.codec.factId, cfg.scope, k) && Within(k, s)
      ensures forall id | id in OutIds(rule, k) :: id in s
    {
      assert k.Keys <= known.Keys;
      assert OutIds(rule, k) <= OutIds(rule, known);
    }
  }

  /** A run of monotone rules that reports no gap has found the least fixed point: exactly it. */
  lemma NoGapMeansLeastFixedPoint(cfg: Config, start: Known, n: nat)
    requires WellFormed(cfg.codec.factId, cfg.scope, start) && start != map[]
    requires forall rule | rule in cfg.rules :: Monotone(cfg, rule)
    requires Steps(cfg, start, n).status.Finished? && Steps(cfg, start, n).codes == {}
    ensures forall id :: id in Steps(cfg, start, n).known <==> InLeastFixedPoint(cfg, start, id)
  {
    hide Steps, Quiet, Monotone, Closed;
    var end := Steps(cfg, start, n).known;
    RunKeepsInputs(cfg, start, n);
    FinishedMeansQuiet(cfg, start, n);
    QuietIsClosed(cfg, end);
    assert Within(start, iset id | id in end);
    forall id
      ensures id in end <==> InLeastFixedPoint(cfg, start, id)
    {
      if id in end { NothingBeyondLeastFixedPoint(cfg, start, n, id); }
    }
  }

  /** Without inputs the loop never runs a rule. That result is the least fixed point exactly when
      no rule says anything about the empty view. */
  lemma EmptyInputsExact(cfg: Config, n: nat)
    requires n > 0
    requires forall rule | rule in cfg.rules :: Monotone(cfg, rule)
    ensures Steps(cfg, map[], n) == Run(map[], 0, 0, {}, Finished)
    ensures (forall id :: id in Steps(cfg, map[], n).known <==> InLeastFixedPoint(cfg, map[], id))
       <==> (forall rule | rule in cfg.rules :: OutIds(rule, map[]) == {})
  {
    assert Steps(cfg, map[], 1) == Run(map[], 0, 0, {}, Finished);
    HaltedStays(cfg, map[], 1, n);
    if forall rule | rule in cfg.rules :: OutIds(rule, map[]) == {} {
      var s: iset<string> := iset{};
      assert Closed(cfg, s) by {
        forall rule, k: Known | rule in cfg.rules && WellFormed(cfg.codec.factId, cfg.scope, k) && Within(k, s)
          ensures forall id | id in OutIds(rule, k) :: id in s
        {
          assert k == map[];
        }
      }
      assert forall id | InLeastFixedPoint(cfg, map[], id) :: id in s;
    } else {
      var rule :| rule in cfg.rules && OutIds(rule, map[]) != {};
      var id :| id in OutIds(rule, map[]);
      forall s: iset<string> | Within(map[], s) && Closed(cfg, s)
        ensures id in s
      {
        assert WellFormed(cfg.codec.factId, cfg.scope, map[]);
      }
      assert InLeastFixedPoint(cfg, map[], id);
    }
  }

  ghost predicate SafeInside(cfg: Config, u: set<string>) {
    forall rule, known: Known ::
      rule in cfg.rules && WellFormed(cfg.codec.factId, cfg.scope, known) && known.Keys <= u ==> Safe(cfg, rule, known)
  }

  lemma RunStaysInside(cfg: Config, start: Known, n: nat, u: set<string>)
    requires WellFormed(cfg.codec.factId, cfg.scope, start) && start.Keys <= u
    requires Closed(cfg, iset id | id in u)
    ensures Steps(cfg, start, n).known.Keys <= u && |Steps(cfg, start, n).known| <= |u|
  {
    hide Steps, Closed;
    var s := iset id | id in u;
    StaysInClosedSet(cfg, start, n, s);
    SubsetSize(Steps(cfg, start, n).known.Keys, u);
  }

  lemma {:induction false} SubsetSize(a: set<string>, b: set<string>)
    requires a <= b
    ensures |a| <= |b|
  {
    if a != {} {
      var x :| x in a;
      SubsetSize(a - {x}, b - {x});
    }
  }

  /** Bounds that leave room for a closed set of `size` above `inputs` facts. */
  ghost predicate Roomy(l: Limits, inputs: nat, size: nat) {
    && (l.maxFacts > 0 ==> l.maxFacts >= size)
    && (l.maxFanout > 0 ==> l.maxFanout >= size - inputs)
  }

  /** Rules that stay inside a finite closed set and emit acceptable candidates always finish. With
      at least |u| facts, |u| - |inputs| facts in a batch and |u| - |inputs| + 1 iterations allowed they
      finish without a gap, that is, at the fixed point. */
  lemma EnoughIterations(cfg: Config, start: Known, u: set<string>)
    requires WellFormed(cfg.codec.factId, cfg.scope, start) && start != map[] && start.Keys <= u
    requires Closed(cfg, iset id | id in u) && SafeInside(cfg, u)
    ensures Terminates(cfg, start) && Final(cfg, start).status.Finished?
    ensures Roomy(cfg.limits, |start|, |u|)
            && (cfg.limits.maxIterations == 0 || cfg.limits.maxIterations >= |u| - |start| + 1) ==>
              Final(cfg, start).codes == {}
  {
    hide Step, Closed;
    forall n: nat
      ensures |Steps(cfg, start, n).known| <= |u|
    {
      RunStaysInside(cfg, start, n, u);
    }
    BoundedRunTerminates(cfg, start, |u|);
    var n := |u| + 1;
    FinalIs(cfg, start, n);
    var inv := (k: Known) => WellFormed(cfg.codec.factId, cfg.scope, k) && k.Keys <= u;
    assert Preserved(cfg, inv) by {
      forall rule, before, after | rule in cfg.rules && inv(before) && Extends(cfg, rule, before, after)
        ensures inv(after)
      {
        ExtendsWellFormed(cfg, rule, before, after);
        StaysInsideOneBatch(cfg, rule, before, after, u);
      }
    }
    RunInvariant(cfg, start, n, inv);
    if Roomy(cfg.limits, |start|, |u|)
       && (cfg.limits.maxIterations == 0 || cfg.limits.maxIterations >= |u| - |start| + 1) {
      NothingReached(cfg, start, n, u);
    }
  }

  lemma StaysInsideOneBatch(cfg: Config, rule: RegisteredRule, before: Known, after: Known, u: set<string>)
    requires rule in cfg.rules && WellFormed(cfg.codec.factId, cfg.scope, before) && before.Keys <= u
    requires Extends(cfg, rule, before, after) && Closed(cfg, iset id | id in u)
    ensures after.Keys <= u
  {
    var s := iset id | id in u;
    assert Within(before, s);
    forall id | id in after
      ensures id in u
    {
      if id !in before {
        var c :| c in OutFacts(rule, before) && after[id] == CloneFact(c);
        assert c.id in OutIds(rule, before);
        assert id in s;
      }
    }
  }

  /** Inside the closed set no bound is reached while there is room for all of it. */
  lemma InvokeHasRoom(cfg: Config, rule: RegisteredRule, p: Pass, inputs: nat, u: set<string>)
    requires p.Pass? && Invoke(cfg, rule, p).Pass? && rule in cfg.rules && Closed(cfg, iset id | id in u)
    requires WellFormed(cfg.codec.factId, cfg.scope, p.known) && p.known.Keys <= u
    requires inputs <= |p.known| && Roomy(cfg.limits, inputs, |u|)
    ensures var q := Invoke(cfg, rule, p);
      && q.codes == p.codes && q.known.Keys <= u && |p.known| <= |q.known|
      && WellFormed(cfg.codec.factId, cfg.scope, q.known)
  {
    hide BatchOk, AcceptBatch, Extends, WellFormed;
    var out, s := OutFacts(rule, p.known), iset id | id in u;
    InvokeExtends(cfg, rule, p);
    ExtendsWellFormed(cfg, rule, p.known, Invoke(cfg, rule, p).known);
    StaysInsideOneBatch(cfg, rule, p.known, Invoke(cfg, rule, p).known, u);
    InvokeLaw(cfg, rule, p);
    BatchExact(cfg, rule.version, p.known, out);
    var unheard := Unheard(p.known, out);
    assert Within(p.known, s);
    forall id | id in unheard
      ensures id in u
    {
      assert id in OutIds(rule, p.known);
      assert id in s;
    }
    assert |p.known.Keys + unheard| == |p.known.Keys| + |unheard|;
    SubsetSize(p.known.Keys + unheard, u);
  }

  lemma {:induction false} RunRulesHaveRoom(cfg: Config, rules: seq<RegisteredRule>, p: Pass, inputs: nat,
      u: set<string>)
    requires p.Pass? && RunRules(cfg, rules, p).Pass? && Closed(cfg, iset id | id in u)
    requires forall rule | rule in rules :: rule in cfg.rules
    requires WellFormed(cfg.codec.factId, cfg.scope, p.known) && p.known.Keys <= u
    requires inputs <= |p.known| && Roomy(cfg.limits, inputs, |u|)
    ensures var q := RunRules(cfg, rules, p);
      && q.codes == p.codes && q.known.Keys <= u && |p.known| <= |q.known|
      && WellFormed(cfg.codec.factId, cfg.scope, q.known)
  {
    hide Invoke, WellFormed, Closed, Roomy;
    if rules != [] {
      var n := |rules| - 1;
      assert forall rule | rule in rules[..n] :: rule in rules;
      RunRulesHaveRoom(cfg, rules[..n], p, inputs, u);
      assert rules[n] in rules;
      InvokeHasRoom(cfg, rules[n], RunRules(cfg, rules[..n], p), inputs, u);
    }
  }

  lemma StepHasRoom(cfg: Config, r: Run, inputs: nat, u: set<string>)
    requires Closed(cfg, iset id | id in u) && WellFormed(cfg.codec.factId, cfg.scope, r.known) && r.known.Keys <= u
    requires inputs <= |r.known| && Roomy(cfg.limits, inputs, |u|)
    requires cfg.limits.maxIterations > 0 ==> r.iterations < cfg.limits.maxIterations
    ensures Step(cfg, r).codes == r.codes
  {
    hide RunRules, WellFormed, Closed, Roomy;
    if RunRules(cfg, cfg.rules, Pass(r.known, 0, r.codes)).Pass? {
      RunRulesHaveRoom(cfg, cfg.rules, Pass(r.known, 0, r.codes), inputs, u);
    }
  }

  lemma EnoughRoom(started: nat, known: nat, bound: nat, n: nat, limit: int)
    requires started + n <= known <= bound && (limit == 0 || limit >= bound - started + 1)
    ensures limit > 0 ==> n < limit
  {
  }

  lemma {:induction false} NothingReached(cfg: Config, start: Known, n: nat, u: set<string>)
    requires WellFormed(cfg.codec.factId, cfg.scope, start) && start != map[] && start.Keys <= u
    requires Closed(cfg, iset id | id in u) && Roomy(cfg.limits, |start|, |u|)
    requires cfg.limits.maxIterations <= 0 || cfg.limits.maxIterations >= |u| - |start| + 1
    ensures Steps(cfg, start, n).codes == {}
  {
    hide Step, WellFormed, Closed, Roomy;
    if n > 0 {
      var r := Steps(cfg, start, n - 1);
      RunStaysInside(cfg, start, n - 1, u);
      NothingReached(cfg, start, n - 1, u);
      RunKeepsInputs(cfg, start, n - 1);
      if r.status.Running? {
        IterationsAddFacts(cfg, start, n - 1);
        if cfg.limits.maxIterations > 0 { EnoughRoom(|start|, |r.known|, |u|, r.iterations, cfg.limits.maxIterations); }
        StepHasRoom(cfg, r, |start|, u);
      }
    }
  }

  lemma {:induction false} IterationsAddFacts(cfg: Config, start: Known, n: nat)
    requires start != map[]
    ensures Steps(cfg, start, n).status.Running? ==>
              Steps(cfg, start, n).iterations == n && |Steps(cfg, start, n).known| >= |start| + n
  {
    hide Step;
    QueueIsACounter(cfg, start, n);
  }

  lemma LeastFixedPointIsClosed(cfg: Config, start: Known, u: set<string>)
    requires forall id :: id in u <==> InLeastFixedPoint(cfg, start, id)
    ensures Closed(cfg, iset id | id in u) && start.Keys <= u
  {
    hide WellFormed;
    var s := iset id | id in u;
    forall rule, known: Known, id |
      rule in cfg.rules && WellFormed(cfg.codec.factId, cfg.scope, known) && Within(known, s)
      && id in OutIds(rule, known)
      ensures id in s
    {
      forall t: iset<string> | Within(start, t) && Closed(cfg, t)
        ensures id in t
      {
        assert Within(known, t);
      }
    }
  }

  /** A bound on facts is reached exactly when the least fixed point is larger: a run of monotone rules with
      no other bound reports no gap if and only if the fixed point fits. */
  lemma FactLimitExact(cfg: Config, start: Known, u: set<string>)
    requires WellFormed(cfg.codec.factId, cfg.scope, start) && start != map[]
    requires (forall rule | rule in cfg.rules :: Monotone(cfg, rule)) && SafeInside(cfg, u)
    requires forall id :: id in u <==> InLeastFixedPoint(cfg, start, id)
    requires cfg.limits.maxIterations == 0 && cfg.limits.maxFanout == 0
    requires cfg.limits.maxFacts > 0 ==> |start| <= cfg.limits.maxFacts
    ensures Terminates(cfg, start) && Final(cfg, start).status.Finished?
    ensures Final(cfg, start).codes == {} <==> cfg.limits.maxFacts <= 0 || |u| <= cfg.limits.maxFacts
  {
    hide Steps, Step, Closed, InLeastFixedPoint, Monotone, SafeInside, WellFormed;
    LeastFixedPointIsClosed(cfg, start, u);
    EnoughIterations(cfg, start, u);
    var n: nat :| Halts(cfg, start, n) && Final(cfg, start) == Steps(cfg, start, n);
    if Final(cfg, start).codes == {} {
      NoGapMeansLeastFixedPoint(cfg, start, n);
      assert Steps(cfg, start, n).known.Keys == u;
      QueueIsACounter(cfg, start, n);
    }
  }

  // ---------- derivation trees ----------

  /** A finite tree whose leaves are input facts; being a datatype value it has no cycle. */
  datatype Tree = Leaf(id: string) | Node(id: string, children: seq<Tree>)

  ghost predicate ValidTree(start: Known, known: Known, t: Tree)
    decreases t
  {
    match t
    case Leaf(id) => id in start && id in known
    case Node(id, children) =>
      && id !in start && id in known && known[id].lineage.Some?
      && |children| == |known[id].lineage.value.inputs| > 0
      && forall i | 0 <= i < |children| ::
           children[i].id == known[id].lineage.value.inputs[i] && ValidTree(start, known, children[i])
  }

  ghost predicate Explained(start: Known, known: Known) {
    forall id | id in known :: exists t: Tree :: t.id == id && ValidTree(start, known, t)
  }

  lemma {:induction false} TreeSurvives(start: Known, before: Known, after: Known, t: Tree)
    requires ValidTree(start, before, t) && forall id | id in before :: id in after && after[id] == before[id]
    ensures ValidTree(start, after, t)
    decreases t
  {
    if t.Node? {
      forall i | 0 <= i < |t.children|
        ensures ValidTree(start, after, t.children[i])
      {
        TreeSurvives(start, before, after, t.children[i]);
      }
    }
  }

  lemma {:induction false} GrowChildren(start: Known, known: Known, ids: seq<string>) returns (ts: seq<Tree>)
    requires Explained(start, known) && forall i | i in ids :: i in known
    ensures |ts| == |ids| && forall i | 0 <= i < |ids| :: ts[i].id == ids[i] && ValidTree(start, known, ts[i])
  {
    if ids == [] {
      ts := [];
    } else {
      var n := |ids| - 1;
      var rest := GrowChildren(start, known, ids[..n]);
      assert ids[n] in ids;
      var t: Tree :| t.id == ids[n] && ValidTree(start, known, t);
      ts := rest + [t];
    }
  }

  /** Every fact a run knows has a finite derivation from input facts, along its own lineage. */
  lemma EveryFactHasADerivation(cfg: Config, start: Known, n: nat)
    requires WellFormed(cfg.codec.factId, cfg.scope, start)
    ensures Explained(start, Steps(cfg, start, n).known)
  {
    hide Steps;
    var inv := (k: Known) => Keeps(start, k) && WellFormed(cfg.codec.factId, cfg.scope, k) && Explained(start, k);
    forall id | id in start
      ensures exists t: Tree :: t.id == id && ValidTree(start, start, t)
    {
      assert ValidTree(start, start, Leaf(id));
    }
    forall rule, before, after | rule in cfg.rules && inv(before) && Extends(cfg, rule, before, after)
      ensures inv(after)
    {
      ExtendsWellFormed(cfg, rule, before, after);
      ExtendsExplained(cfg, rule, start, before, after);
    }
    RunInvariant(cfg, start, n, inv);
  }

  lemma ExtendsExplained(cfg: Config, rule: RegisteredRule, start: Known, before: Known, after: Known)
    requires Keeps(start, before) && Explained(start, before) && Extends(cfg, rule, before, after)
    ensures Explained(start, after)
  {
    forall id | id in after
      ensures exists t: Tree :: t.id == id && ValidTree(start, after, t)
    {
      if id in before {
        var t: Tree :| t.id == id && ValidTree(start, before, t);
        TreeSurvives(start, before, after, t);
      } else {
        var inputs := SupportOfProduced(cfg, rule, before, after[id]);
        var ts := GrowChildren(start, before, inputs);
        forall i | 0 <= i < |ts|
          ensures ValidTree(start, after, ts[i])
        {
          TreeSurvives(start, before, after, ts[i]);
        }
        assert ValidTree(start, after, Node(id, ts));
      }
    }
  }

  /** The support of an accepted fact was known before the rule ran. */
  lemma SupportOfProduced(cfg: Config, rule: RegisteredRule, known: Known, f: Fact) returns (inputs: seq<string>)
    requires Produced(cfg, rule, known, f)
    ensures f.lineage.Some? && inputs == f.lineage.value.inputs && inputs != []
    ensures forall i | i in inputs :: i in known
    ensures f.lineage.value.ruleId == rule.version.ruleId && f.lineage.value.ruleVersion == rule.version.version
  {
    var c :| && c in OutFacts(rule, known) && f == CloneFact(c)
             && ShapeOk(cfg.codec.factId, cfg.scope, rule.version, c) && SupportKnown(c, known);
    CloneKeeps(cfg.codec.factId, c);
    inputs := f.lineage.value.inputs;
    forall i | i in inputs
      ensures i in known
    {
      assert i in InputIds(f);
      assert i in InputIds(c);
    }
  }

  // ---------- the final self-validation ----------

  ghost predicate DistinctGapIds(codec: Codec, scope: Scope) {
    forall a: LimitCode, b: LimitCode :: a != b ==> codec.gapId(scope, a) != codec.gapId(scope, b)
  }

  ghost predicate LineageClosed(facts: Known, known: Known) {
    forall id, i | id in facts && i in InputIds(facts[id]) :: i in known
  }

  lemma GapsProps(codec: Codec, scope: Scope, codes: set<LimitCode>)
    requires DistinctGapIds(codec, scope)
    ensures StrictlyIncreasing(GapIdOf, Gaps(codec, scope, codes))
    ensures forall g :: g in Gaps(codec, scope, codes) <==> g.code in codes && g.id == codec.gapId(scope, g.code)
    ensures |Gaps(codec, scope, codes)| == 0 <==> codes == {}
  {
    var list := GapFor(codec, scope, codes, FactLimit) + GapFor(codec, scope, codes, FanoutLimit) +
                GapFor(codec, scope, codes, IterationLimit);
    assert DistinctKeys(GapIdOf, list);
    SortByKeyStrict(GapIdOf, list);
    SortMembers(ByKey(GapIdOf), list);
    forall g: Gap
      ensures g in list <==> g.code in codes && g.id == codec.gapId(scope, g.code)
    {
      assert g == Gap(g.id, g.code);
      match g.code {
        case FactLimit => assert g in GapFor(codec, scope, codes,
            FactLimit) <==> g.code in codes && g.id == codec.gapId(scope, g.code);
        case FanoutLimit => assert g in GapFor(codec, scope, codes,
            FanoutLimit) <==> g.code in codes && g.id == codec.gapId(scope, g.code);
        case IterationLimit => assert g in GapFor(codec, scope, codes,
            IterationLimit) <==> g.code in codes && g.id == codec.gapId(scope, g.code);
      }
    }
    if codes != {} {
      var c :| c in codes;
      assert Gap(codec.gapId(scope, c), c) in list;
    }
    if list != [] {
      assert list[0] in list;
    }
  }

  lemma SupportListedExact(factId: Semantics -> string, scope: Scope, known: Known)
    requires WellFormed(factId, scope, known)
    ensures SupportListed(OrderedFacts(known)) <==> LineageClosed(known, known)
  {
    var facts := OrderedFacts(known);
    OrderedFactsProps(known);
    ViewHasIds(factId, scope, known);
    if LineageClosed(known, known) {
      forall f, i | f in facts && i in InputIds(f)
        ensures HasId(facts, i)
      {
        var id :| id in known && known[id] == f;
        assert i in InputIds(known[id]);
      }
    }
    if SupportListed(facts) {
      forall id, i | id in known && i in InputIds(known[id])
        ensures i in known
      {
        assert known[id] in facts;
        assert HasId(facts, i);
      }
    }
  }

  lemma PublishExact(codec: Codec, scope: Scope, known: Known, codes: set<LimitCode>)
    requires WellFormed(codec.factId, scope, known) && DistinctGapIds(codec, scope)
    ensures Publish(codec, scope, known, codes).Success? <==> LineageClosed(known, known)
    ensures Publish(codec, scope, known, codes).Success? ==>
              var r := Publish(codec, scope, known, codes).result;
              && (forall f :: f in r.facts <==> f.id in known && known[f.id] == f)
              && (r.coverage == CoverageProduced <==> codes == {}) && (set g | g in r.gaps :: g.code) == codes
    ensures !LineageClosed(known, known) ==> Publish(codec, scope, known, codes) == Failure(InvalidOutput)
  {
    GapsProps(codec, scope, codes);
    OrderedFactsStrict(codec.factId, scope, known);
    SupportListedExact(codec.factId, scope, known);
    OrderedFactsProps(known);
    var gaps := Gaps(codec, scope, codes);
    forall c
      ensures c in codes <==> c in (set g | g in gaps :: g.code)
    {
      if c in codes { assert Gap(codec.gapId(scope, c), c) in gaps; }
    }
  }

  /** Which derivations are refused before a rule is run, and with which error: negative limits first, then
      inputs that cannot be prepared, then more inputs than facts are allowed. */
  lemma RefusalsExact(codec: Codec, rules: seq<RegisteredRule>, inputs: seq<Fact>, limits: Limits)
    requires Completes(codec, rules, inputs, limits)
    ensures var negative := limits.maxIterations < 0 || limits.maxFacts < 0 || limits.maxFanout < 0;
            var prepared, outcome := Prepare(codec.factId, inputs), Derive(codec, rules, inputs, limits);
            && (negative ==> outcome == Failure(InvalidLimits))
            && (!negative && prepared.Rejected? ==> outcome == Failure(prepared.error))
            && (!negative && prepared.Prepared? && 0 < limits.maxFacts < |inputs| ==>
                  outcome == Failure(InputExceedsFactLimit))
            && (!negative && prepared.Prepared? && (limits.maxFacts > 0 ==> |inputs| <= limits.maxFacts) ==>
                  Accepts(codec, inputs, limits))
  {
    hide Steps, Publish, Prepare;
    if Prepare(codec.factId, inputs).Prepared? { KnownAreInputs(codec.factId, inputs); }
  }

  lemma {:induction false} KnownAreInputs(factId: Semantics -> string, inputs: seq<Fact>)
    requires Prepare(factId, inputs).Prepared?
    ensures |Prepare(factId, inputs).known| == |inputs|
  {
    if inputs != [] { KnownAreInputs(factId, inputs[..|inputs| - 1]); }
  }

  /** Accepted facts always bring known support, so only the inputs' own lineage can make the last
      check refuse a result; when that lineage is closed over the inputs it never does. */
  lemma SelfValidationExact(cfg: Config, start: Known, n: nat)
    requires WellFormed(cfg.codec.factId, cfg.scope, start) && DistinctGapIds(cfg.codec, cfg.scope)
    ensures var r := Steps(cfg, start, n);
            Publish(cfg.codec, cfg.scope, r.known, r.codes).Success? <==> LineageClosed(start, r.known)
    ensures LineageClosed(start, start) ==> LineageClosed(start, Steps(cfg, start, n).known)
  {
    hide Steps, Publish;
    var r := Steps(cfg, start, n);
    RunKeepsInputs(cfg, start, n);
    AcceptedLineageClosed(cfg, start, n);
    PublishAfterRun(cfg.codec, cfg.scope, start, r.known, r.codes);
  }

  lemma PublishAfterRun(codec: Codec, scope: Scope, start: Known, known: Known, codes: set<LimitCode>)
    requires WellFormed(codec.factId, scope, known) && DistinctGapIds(codec, scope)
    requires Keeps(start, known)
    requires NewLineageClosed(start, known)
    ensures Publish(codec, scope, known, codes).Success? <==> LineageClosed(start, known)
    ensures LineageClosed(start, start) ==> LineageClosed(start, known)
  {
    PublishExact(codec, scope, known, codes);
    LineageOfTheRest(start, known);
  }

  lemma LineageOfTheRest(start: Known, known: Known)
    requires Keeps(start, known)
    requires NewLineageClosed(start, known)
    ensures LineageClosed(start, known) <==> LineageClosed(known, known)
    ensures LineageClosed(start, start) ==> LineageClosed(start, known)
  {
    if LineageClosed(known, known) {
      forall id, i | id in start && i in InputIds(start[id])
        ensures i in known
      {
        assert known[id] == start[id];
      }
    }
  }

  lemma ViewHasIds(factId: Semantics -> string, scope: Scope, known: Known)
    requires WellFormed(factId, scope, known)
    ensures forall id :: HasId(OrderedFacts(known), id) <==> id in known
  {
    OrderedFactsProps(known);
    forall id
      ensures HasId(OrderedFacts(known), id) <==> id in known
    {
      if id in known { assert known[id] in OrderedFacts(known); }
      if HasId(OrderedFacts(known), id) {
        var f :| f in OrderedFacts(known) && f.id == id;
        var k :| k in known && known[k] == f;
      }
    }
  }

  lemma OrderedFactsStrict(factId: Semantics -> string, scope: Scope, known: Known)
    requires WellFormed(factId, scope, known)
    ensures StrictlyIncreasing(FactIdOf, OrderedFacts(known))
  {
    OrderedFactsIds(factId, scope, known);
    OrderedFactsProps(known);
  }

  ghost predicate NewLineageClosed(start: Known, known: Known) {
    forall id, i | id in known && id !in start && i in InputIds(known[id]) :: i in known
  }

  lemma AcceptedLineageClosed(cfg: Config, start: Known, n: nat)
    requires WellFormed(cfg.codec.factId, cfg.scope, start)
    ensures NewLineageClosed(start, Steps(cfg, start, n).known)
  {
    hide Steps;
    var inv := (k: Known) => NewLineageClosed(start, k);
    forall rule, before, after | rule in cfg.rules && inv(before) && Extends(cfg, rule, before, after)
      ensures inv(after)
    {
      forall id, i | id in after && id !in start && i in InputIds(after[id])
        ensures i in after
      {
        if id !in before {
          var inputs := SupportOfProduced(cfg, rule, before, after[id]);
          assert i in inputs;
        }
      }
    }
    RunInvariant(cfg, start, n, inv);
  }
}
