/** When self-dependencies break the dependency rule. A self-loop that touches another dependency lets
    the rule compose a derived edge with the loop, which yields that same edge again, citing itself.
    Whether such a pair is met first depends on the order of the identities, that is, on the digest. */
module SelfLoops {
  import opened Ordering
  import opened Facts
  import opened Engine
  import opened EngineLaws
  import opened FixedPoint
  import opened ShippedRules
  import opened ShippedOutcome
  import DependencyRule

  /** An observed fact before its identity is computed. */
  datatype Observation = Observation(sem: Semantics, evidence: seq<EvidenceRef>)

  function FactOf(factId: Semantics -> string, o: Observation): Fact {
    Fact(factId(o.sem), o.sem, o.evidence, None)
  }

  function Observe(factId: Semantics -> string, obs: seq<Observation>): seq<Fact> {
    seq(|obs|, i requires 0 <= i < |obs| => FactOf(factId, obs[i]))
  }

  ghost predicate ValidObservations(scope: Scope, obs: seq<Observation>) {
    && obs != []
    && (forall o | o in obs ::
          !(o.sem.obj.Some? && o.sem.value.Some?) && o.evidence != [] && DistinctKeys(EvidenceId, o.evidence)
              && o.sem.scope == scope)
    && (forall i, j | 0 <= i < |obs| && 0 <= j < |obs| && i != j :: obs[i].sem != obs[j].sem)
  }

  ghost predicate Observed(obs: seq<Observation>, a: Participant, b: Participant) {
    exists o | o in obs :: o.sem.relation == PredicateDependency && o.sem.subject == a && o.sem.obj == Some(b)
  }

  /** No participant that depends on itself takes part in another dependency. */
  ghost predicate IsolatedLoops(obs: seq<Observation>) {
    forall a, b :: Observed(obs, a, a) && (Observed(obs, a, b) || Observed(obs, b, a)) ==> a == b
  }

  lemma ObservationsUsable(factId: Semantics -> string, scope: Scope, obs: seq<Observation>)
    requires InjectiveId(factId) && ValidObservations(scope, obs)
    ensures Usable(factId, Observe(factId, obs))
  {
    var facts := Observe(factId, obs);
    forall f | f in facts
      ensures ValidFact(factId, f)
    {
      var i :| 0 <= i < |facts| && facts[i] == f;
      assert obs[i] in obs;
    }
    forall i, j | 0 <= i < |facts| && 0 <= j < |facts|
      ensures facts[i].sem.scope == facts[j].sem.scope
    {
      assert obs[i] in obs && obs[j] in obs;
    }
  }

  /** `start` holds the observations, each under its identity, and nothing else. */
  ghost predicate Represents(factId: Semantics -> string, start: Known, obs: seq<Observation>) {
    && (forall o | o in obs :: factId(o.sem) in start && start[factId(o.sem)] == CloneFact(FactOf(factId, o)))
    && (forall id | id in start :: exists o :: o in obs && id == factId(o.sem))
  }

  lemma PreparedRepresents(factId: Semantics -> string, scope: Scope, obs: seq<Observation>) returns (start: Known)
    requires InjectiveId(factId) && ValidObservations(scope, obs)
    ensures Prepare(factId, Observe(factId, obs)) == Prepared(scope, start)
    ensures WellFormed(factId, scope, start) && Represents(factId, start, obs)
  {
    hide ValidFact, WellFormed, CloneFact, Usable, Prepare;
    var facts := Observe(factId, obs);
    ObservationsUsable(factId, scope, obs);
    PrepareExact(factId, facts);
    start := Prepare(factId, facts).known;
    assert obs[0] in obs && facts[0].sem.scope == scope;
    forall o | o in obs
      ensures factId(o.sem) in start && start[factId(o.sem)] == CloneFact(FactOf(factId, o))
    {
      var i :| 0 <= i < |obs| && obs[i] == o;
      assert facts[i] in facts;
    }
    forall id | id in start
      ensures exists o :: o in obs && id == factId(o.sem)
    {
      var f :| f in facts && f.id == id;
      var i :| 0 <= i < |facts| && facts[i] == f;
      assert obs[i] in obs && id == factId(obs[i].sem);
    }
  }

  lemma RepresentedEdges(factId: Semantics -> string, start: Known, obs: seq<Observation>, a: Participant,
      b: Participant)
    requires Represents(factId, start, obs)
    ensures Edge(start, a, b) <==> Observed(obs, a, b)
  {
    if Edge(start, a, b) {
      var id :| EdgeAt(start, id, a, b);
      var o :| o in obs && id == factId(o.sem);
    }
    if Observed(obs, a, b) {
      var o :| o in obs && o.sem.relation == PredicateDependency && o.sem.subject == a && o.sem.obj == Some(b);
      assert EdgeAt(start, factId(o.sem), a, b);
    }
  }

  lemma RepresentedLineage(factId: Semantics -> string, start: Known, obs: seq<Observation>)
    requires Represents(factId, start, obs)
    ensures LineageClosed(start, start)
  {
    forall id | id in start
      ensures InputIds(start[id]) == {}
    {
      var o :| o in obs && id == factId(o.sem);
    }
  }

  // ---------- isolated loops are harmless, whatever the digest ----------

  lemma IsolatedIsGood(codec: Codec, scope: Scope, kinds: seq<Shipped>, obs: seq<Observation>, limits: Limits)
    requires InjectiveId(codec.factId) && DistinctGapIds(codec, scope) && Membership("") !in kinds
    requires ValidObservations(scope, obs) && IsolatedLoops(obs)
    requires ValidLimits(limits) && (limits.maxFacts > 0 ==> |obs| <= limits.maxFacts)
    ensures GoodInputs(codec, kinds, Observe(codec.factId, obs), limits)
  {
    hide Edge, Observed, WellFormed, Represents, ValidObservations;
    var start := PreparedRepresents(codec.factId, scope, obs);
    forall a, b
      ensures Edge(start, a, b) <==> Observed(obs, a, b)
    {
      RepresentedEdges(codec.factId, start, obs, a, b);
    }
    assert LoopsIsolated(start);
    RepresentedLineage(codec.factId, start, obs);
    AtMostOneEach(codec.factId, start, obs);
  }

  lemma AtMostOneEach(factId: Semantics -> string, start: Known, obs: seq<Observation>)
    requires Represents(factId, start, obs)
    ensures |start| <= |obs|
  {
    var ids := seq(|obs|, i requires 0 <= i < |obs| => factId(obs[i].sem));
    forall id | id in start
      ensures id in ids
    {
      var o :| o in obs && id == factId(o.sem);
      var i :| 0 <= i < |obs| && obs[i] == o;
      assert ids[i] == id;
    }
    FewerThanListed(start.Keys, ids);
  }

  lemma {:induction false} FewerThanListed(s: set<string>, list: seq<string>)
    requires forall x | x in s :: x in list
    ensures |s| <= |list|
  {
    if list != [] {
      FewerThanListed(s - {list[0]}, list[1..]);
      assert s <= (s - {list[0]}) + {list[0]};
    }
  }

  ghost predicate Succeeds(codec: Codec, kinds: seq<Shipped>, obs: seq<Observation>, limits: Limits) {
    var rules, inputs := RulesOf(codec.factId, kinds), Observe(codec.factId, obs);
    Completes(codec, rules, inputs, limits) && Derive(codec, rules, inputs, limits).Success?
  }

  lemma IsolatedAlwaysSucceeds(codec: Codec, scope: Scope, kinds: seq<Shipped>, obs: seq<Observation>, limits: Limits)
    requires InjectiveId(codec.factId) && DistinctGapIds(codec, scope) && Membership("") !in kinds
    requires ValidObservations(scope, obs) && IsolatedLoops(obs)
    requires ValidLimits(limits) && (limits.maxFacts > 0 ==> |obs| <= limits.maxFacts)
    ensures Succeeds(codec, kinds, obs, limits)
  {
    hide Derive, Completes, GoodInputs;
    IsolatedIsGood(codec, scope, kinds, obs, limits);
    ShippedDeriveSucceeds(codec, kinds, Observe(codec.factId, obs), limits);
  }

  // ---------- other loops can break a run ----------

  /** A digest that lists two chosen identities first and is otherwise `base`. */
  function Favouring(base: Semantics -> string, first: Semantics, second: Semantics): Semantics -> string {
    (s: Semantics) => if s == first then "0" else if s == second then "1" else "2" + base(s)
  }

  lemma FavouringIsInjective(base: Semantics -> string, first: Semantics, second: Semantics)
    requires InjectiveId(base)
    ensures InjectiveId(Favouring(base, first, second))
  {
    var f := Favouring(base, first, second);
    forall a: Semantics, b: Semantics | f(a) == f(b)
      ensures a == b
    {
      if a != first && a != second && b != first && b != second {
        assert ("2" + base(a))[1..] == base(a) && ("2" + base(b))[1..] == base(b);
      } else {
        assert f(a)[0] == f(b)[0];
      }
    }
  }

  lemma FavouredComeFirst(base: Semantics -> string, first: Semantics, second: Semantics, scope: Scope, known: Known)
    requires InjectiveId(base) && first != second
    requires var f := Favouring(base, first, second);
             WellFormed(f, scope, known) && f(first) in known && f(second) in known
    ensures |OrderedFacts(known)| >= 2
    ensures OrderedFacts(known)[0].sem == first && OrderedFacts(known)[1].sem == second
  {
    hide ValidFact;
    var f := Favouring(base, first, second);
    FavouringIsInjective(base, first, second);
    forall id | id in known
      ensures id == "0" || id == "1" || (|id| > 0 && id[0] == '2')
    {
      assert id == f(known[id].sem) by { StoredUnder(f, scope, known, id); }
    }
    OrderedFactsProps(known);
    SortedKeysProps(known.Keys);
    TwoLeast(known.Keys);
    var ids := SortedKeys(known.Keys);
    StoredUnder(f, scope, known, ids[0]);
    StoredUnder(f, scope, known, ids[1]);
  }

  lemma StoredUnder(factId: Semantics -> string, scope: Scope, known: Known, id: string)
    requires WellFormed(factId, scope, known) && id in known
    ensures id == factId(known[id].sem)
  {
  }

  lemma TwoLeast(s: set<string>)
    requires "0" in s && "1" in s
    requires forall id | id in s :: id == "0" || id == "1" || (|id| > 0 && id[0] == '2')
    ensures |SortedKeys(s)| >= 2 && SortedKeys(s)[0] == "0" && SortedKeys(s)[1] == "1"
  {
    LeastIs(s, "0");
    var rest := s - {"0"};
    LeastIs(rest, "1");
    assert SortedKeys(s) == ["0"] + SortedKeys(rest);
    assert SortedKeys(rest) == ["1"] + SortedKeys(rest - {"1"});
  }

  lemma LeastIs(s: set<string>, m: string)
    requires m in s && m != "" && forall id | id in s :: id == m || (id != "" && m[0] < id[0])
    ensures Least(s) == m
  {
    StrLeTotal(m, m);
    assert IsLeast(s, m);
    StrLeAntisymmetric(m, Least(s));
  }

  /** The pair at the head of the view is the first to make its identity. */
  lemma HeadPairMakes(factId: Semantics -> string, version: string, view: seq<Fact>) returns (c: Fact)
    requires |view| >= 2 && DependencyRule.Composable(view[0], view[1])
    ensures c in DependencyRule.Apply(factId, version, view)
    ensures c == DependencyRule.Compose(factId, version, view[0], view[1])
  {
    hide DependencyRule.Composable, DependencyRule.Compose, DependencyRule.ComposedId;
    var id := DependencyRule.ComposedId(factId, version, view[0], view[1]);
    DependencyRule.ApplyExact(factId, version, view);
    assert DependencyRule.PairAt(view, 0, 1);
    c :| c in DependencyRule.Apply(factId, version, view) && c.id == id;
    assert DependencyRule.Made(factId, version, view, |view|, 0, c);
    var a: nat, b: nat :| DependencyRule.FirstMade(factId, version, view, |view|, 0, c, a, b);
    FirstIsHead(factId, version, view, c, a, b);
  }

  lemma FirstIsHead(factId: Semantics -> string, version: string, view: seq<Fact>, c: Fact, a: nat, b: nat)
    requires DependencyRule.PairAt(view, 0, 1) && DependencyRule.FirstMade(factId, version, view, |view|, 0, c, a, b)
    requires c.id == DependencyRule.ComposedId(factId, version, view[0], view[1])
    ensures c == DependencyRule.Compose(factId, version, view[0], view[1])
  {
    hide DependencyRule.Composable, DependencyRule.Compose, DependencyRule.ComposedId;
    assert a != b;
    assert DependencyRule.Visited(|view|, a, b, 0, 1) || (a == 0 && b == 1);
  }

  /** If the first two facts of the view compose to one of themselves, the invocation is refused. */
  lemma FirstPairCitesItself(cfg: Config, version: string, known: Known)
    requires var v := OrderedFacts(known);
             && |v| >= 2 && DependencyRule.Composable(v[0], v[1])
             && DependencyRule.ComposedId(cfg.codec.factId, version, v[0], v[1]) in {v[0].id, v[1].id}
    ensures !Safe(cfg, DependencyRule.Registered(cfg.codec.factId, version), known)
  {
    hide DependencyRule.Composable, DependencyRule.Compose, DependencyRule.ComposedId, DependencyRule.Apply, ValidFact;
    var view := OrderedFacts(known);
    var c := HeadPairMakes(cfg.codec.factId, version, view);
    CitesInput(cfg.codec.factId, version, view[0], view[1],
        DependencyRule.ComposedId(cfg.codec.factId, version, view[0], view[1]));
    assert c in OutFacts(DependencyRule.Registered(cfg.codec.factId, version), known);
  }

  lemma CitesInput(factId: Semantics -> string, version: string, l: Fact, r: Fact, id: string)
    requires DependencyRule.Composable(l, r) && id == DependencyRule.ComposedId(factId, version, l, r)
    requires id == l.id || id == r.id
    ensures !ValidFact(factId, DependencyRule.Compose(factId, version, l, r))
  {
    hide DependencyRule.MergeEvidence;
    SortMembers(ByKey(Identity), [l.id, r.id]);
    var c := DependencyRule.Compose(factId, version, l, r);
    assert id in [l.id, r.id];
    assert c.id in c.lineage.value.inputs;
  }

  /** The two semantics a breaking digest lists first: they compose to one of themselves. */
  ghost predicate Trap(scope: Scope, version: string, first: Semantics, second: Semantics) {
    && first != second && first.scope == scope && second.scope == scope
    && first.relation == PredicateDependency && second.relation == PredicateDependency
    && first.obj.Some? && second.obj.Some?
    && first.obj.value == second.subject && first.subject != second.obj.value
    && (var e := DependencyRule.EdgeSemantics(scope, version, first.subject, second.obj.value);
        e == first || e == second)
  }

  lemma TrapSprings(cfg: Config, base: Semantics -> string, version: string, first: Semantics, second: Semantics,
      known: Known)
    requires InjectiveId(base) && Trap(cfg.scope, version, first, second)
    requires cfg.codec.factId == Favouring(base, first, second)
    requires WellFormed(cfg.codec.factId, cfg.scope, known)
    requires cfg.codec.factId(first) in known && cfg.codec.factId(second) in known
    ensures !Safe(cfg, DependencyRule.Registered(cfg.codec.factId, version), known)
  {
    hide WellFormed, Safe;
    FavouringIsInjective(base, first, second);
    FavouredComeFirst(base, first, second, cfg.scope, known);
    var view := OrderedFacts(known);
    assert view[0] in view && view[1] in view;
    ViewIsStored(cfg.codec.factId, cfg.scope, known);
    StoredUnder(cfg.codec.factId, cfg.scope, known, view[0].id);
    StoredUnder(cfg.codec.factId, cfg.scope, known, view[1].id);
    FirstPairCitesItself(cfg, version, known);
  }

  // ---------- following the run into the trap ----------

  ghost predicate OneDependencyRule(cfg: Config, version: string) {
    cfg.rules == [DependencyRule.Registered(cfg.codec.factId, version)] && cfg.limits == UNLIMITED
  }

  lemma OneRuleRuns(cfg: Config, version: string, p: Pass)
    requires OneDependencyRule(cfg, version) && p.Pass?
    ensures RunRules(cfg, cfg.rules, p) == Invoke(cfg, cfg.rules[0], p)
  {
    hide Invoke;
    assert RunRules(cfg, cfg.rules[..0], p) == p;
  }

  lemma UnsafeStepFails(cfg: Config, version: string, r: Run)
    requires OneDependencyRule(cfg, version) && r.pending > 0
    requires !Safe(cfg, cfg.rules[0], r.known)
    ensures Step(cfg, r).status == Failed(InvalidOutput)
  {
    hide RunRules, BatchOk, NewFacts;
    OneRuleRuns(cfg, version, Pass(r.known, 0, r.codes));
  }

  lemma SafeStepLearns(cfg: Config, version: string, r: Run, id: string)
    requires OneDependencyRule(cfg, version) && r.pending > 0 && r.codes == {}
    requires Safe(cfg, cfg.rules[0], r.known)
    requires HasId(OutFacts(cfg.rules[0], r.known), id) && id !in r.known
    ensures Step(cfg, r).status.Running? && id in Step(cfg, r).known
  {
    hide RunRules, BatchOk, NewFacts, AddsExactly, Extends;
    var p := Pass(r.known, 0, r.codes);
    OneRuleRuns(cfg, version, p);
    var out := OutFacts(cfg.rules[0], r.known);
    var c :| c in out && c.id == id;
    var added := NewFacts(cfg.codec, out, r.known);
    NewFactsProps(cfg.codec, out, r.known);
    assert HasId(added, id);
    assert added != [];
    AddedFactsAreProduced(cfg, cfg.rules[0], r.known, added);
    assert AcceptBatch(cfg, cfg.rules[0].version, r.known, out) == Accepted(added);
    assert Invoke(cfg, cfg.rules[0], p) == Pass(AddAll(r.known, added), |added|, {});
    AddedIsKnown(r.known, added, AddAll(r.known, added), id);
  }

  lemma AddedIsKnown(known: Known, added: seq<Fact>, after: Known, id: string)
    requires AddsExactly(known, added, after) && HasId(added, id)
    ensures id in after
  {
  }

  /** With one dependency rule the run is refused in its first or its second iteration. */
  lemma RunFails(cfg: Config, base: Semantics -> string, version: string, first: Semantics, second: Semantics,
      loopSem: Semantics, edge: Semantics, start: Known)
    requires InjectiveId(base) && Trap(cfg.scope, version, first, second) && OneDependencyRule(cfg, version)
    requires cfg.codec.factId == Favouring(base, first, second)
    requires WellFormed(cfg.codec.factId, cfg.scope, start) && start != map[]
    requires (first == loopSem && second == edge) || (first == edge && second == loopSem)
    requires cfg.codec.factId(loopSem) in start
    requires HasId(OutFacts(cfg.rules[0], start), cfg.codec.factId(edge))
    ensures Terminates(cfg, start) && Final(cfg, start).status == Failed(InvalidOutput)
  {
    hide WellFormed, Safe, Step, Trap, HasId, Extends;
    var f := cfg.codec.factId;
    var rule := DependencyRule.Registered(f, version);
    assert cfg.rules[0] == rule;
    QueueIsACounter(cfg, start, 0);
    assert Steps(cfg, start, 0) == Start(start);
    var r1 := Step(cfg, Start(start));
    assert Steps(cfg, start, 1) == r1;
    if f(edge) in start {
      TrapSprings(cfg, base, version, first, second, start);
    }
    if !Safe(cfg, rule, start) {
      UnsafeStepFails(cfg, version, Start(start));
      assert Halts(cfg, start, 1);
      FinalIs(cfg, start, 1);
    } else {
      SafeStepLearns(cfg, version, Start(start), f(edge));
      RunKeepsInputs(cfg, start, 1);
      TrapSprings(cfg, base, version, first, second, r1.known);
      QueueIsACounter(cfg, start, 1);
      UnsafeStepFails(cfg, version, r1);
      assert Steps(cfg, start, 2) == Step(cfg, r1);
      assert Halts(cfg, start, 2);
      FinalIs(cfg, start, 2);
    }
  }

  lemma LoopMakesTrap(scope: Scope, version: string, loopSem: Semantics, a: Participant, b: Participant)
    requires loopSem.scope == scope && loopSem.relation == PredicateDependency && loopSem.subject == a
    requires loopSem.obj == Some(a)
    requires a != b
    ensures Trap(scope, version, loopSem, DependencyRule.EdgeSemantics(scope, version, a, b))
    ensures Trap(scope, version, DependencyRule.EdgeSemantics(scope, version, b, a), loopSem)
  {
  }

  /** The loop at `a`, the other dependency between `a` and `b`, and the order in which they compose. */
  ghost predicate TrapFor(scope: Scope, version: string, obs: seq<Observation>, a: Participant, b: Participant,
      first: Semantics, second: Semantics, loopSem: Semantics, edge: Semantics) {
    && a != b && Observed(obs, a, a) && (exists o :: o in obs && o.sem == loopSem)
    && Trap(scope, version, first, second)
    && ((first == loopSem && second == edge) || (first == edge && second == loopSem))
    && ((Observed(obs, a, b) && edge == DependencyRule.EdgeSemantics(scope, version, a, b))
        || (Observed(obs, b, a) && edge == DependencyRule.EdgeSemantics(scope, version, b, a)))
  }

  lemma TouchingTrap(scope: Scope, version: string, obs: seq<Observation>)
    returns (a: Participant, b: Participant, first: Semantics, second: Semantics, loopSem: Semantics, edge: Semantics)
    requires ValidObservations(scope, obs) && !IsolatedLoops(obs)
    ensures TrapFor(scope, version, obs, a, b, first, second, loopSem, edge) && first != second
  {
    hide Observed, ValidObservations, Trap;
    a, b :| Observed(obs, a, a) && (Observed(obs, a, b) || Observed(obs, b, a)) && a != b;
    var o := LoopObservation(scope, obs, a);
    LoopMakesTrap(scope, version, o.sem, a, b);
    loopSem := o.sem;
    if Observed(obs, a, b) {
      edge := DependencyRule.EdgeSemantics(scope, version, a, b);
      first, second := loopSem, edge;
    } else {
      edge := DependencyRule.EdgeSemantics(scope, version, b, a);
      first, second := edge, loopSem;
    }
    assert first != second by { TrapIsTwo(scope, version, first, second); }
  }

  lemma TrapIsTwo(scope: Scope, version: string, first: Semantics, second: Semantics)
    requires Trap(scope, version, first, second)
    ensures first != second
  {
  }

  /** As long as the observations are known, the rule has the edge to say that closes the trap. */
  lemma TrapIsBaited(factId: Semantics -> string, scope: Scope, start: Known, known: Known, obs: seq<Observation>,
      version: string, a: Participant, b: Participant, loopSem: Semantics, edge: Semantics)
    requires Represents(factId, start, obs) && Keeps(start, known) && WellFormed(factId, scope, known) && a != b
    requires Observed(obs, a, a) && exists o :: o in obs && o.sem == loopSem
    requires (Observed(obs, a, b) && edge == DependencyRule.EdgeSemantics(scope, version, a, b))
             || (Observed(obs, b, a) && edge == DependencyRule.EdgeSemantics(scope, version, b, a))
    ensures factId(loopSem) in known && HasId(OutFacts(DependencyRule.Registered(factId, version), known), factId(edge))
  {
    hide WellFormed, Observed, CloneFact, FactOf, HasId, OutFacts;
    EdgesStay(factId, start, known, obs, a, a);
    EdgesStay(factId, start, known, obs, a, b);
    EdgesStay(factId, start, known, obs, b, a);
    if Observed(obs, a, b) && edge == DependencyRule.EdgeSemantics(scope, version, a, b) {
      CompositionProposed(factId, scope, known, version, a, a, b);
    } else {
      CompositionProposed(factId, scope, known, version, b, a, a);
    }
  }

  lemma EdgesStay(factId: Semantics -> string, start: Known, known: Known, obs: seq<Observation>, a: Participant,
      b: Participant)
    requires Represents(factId, start, obs) && Keeps(start, known)
    ensures Observed(obs, a, b) ==> Edge(known, a, b)
  {
    hide Observed;
    RepresentedEdges(factId, start, obs, a, b);
    if Observed(obs, a, b) {
      var id :| EdgeAt(start, id, a, b);
      assert EdgeAt(known, id, a, b);
    }
  }

  lemma RepresentsNonEmpty(factId: Semantics -> string, start: Known, obs: seq<Observation>)
    requires Represents(factId, start, obs) && obs != []
    ensures start != map[]
  {
    assert obs[0] in obs;
  }

  lemma RuleIsListed(factId: Semantics -> string, kinds: seq<Shipped>, version: string)
    requires Dependency(version) in kinds
    ensures DependencyRule.Registered(factId, version) in RulesOf(factId, kinds)
  {
    var i :| 0 <= i < |kinds| && kinds[i] == Dependency(version);
    assert RulesOf(factId, kinds)[i] == RuleOf(factId, kinds[i]);
  }

  /** A set in which the rule is safe and has nothing left to say cannot hold the observations. */
  lemma TrapIsFound(cfg: Config, base: Semantics -> string, start: Known, known: Known, obs: seq<Observation>,
      version: string, a: Participant, b: Participant, first: Semantics, second: Semantics, loopSem: Semantics,
      edge: Semantics)
    requires InjectiveId(base) && cfg.codec.factId == Favouring(base, first, second)
    requires TrapFor(cfg.scope, version, obs, a, b, first, second, loopSem, edge)
    requires Represents(cfg.codec.factId, start, obs) && Keeps(start, known)
    requires WellFormed(cfg.codec.factId, cfg.scope, known)
    requires Quiet(DependencyRule.Registered(cfg.codec.factId, version), known)
    ensures !Safe(cfg, DependencyRule.Registered(cfg.codec.factId, version), known)
  {
    hide WellFormed, Safe, Trap, Observed, Represents, Keeps, OutFacts;
    TrapIsBaited(cfg.codec.factId, cfg.scope, start, known, obs, version, a, b, loopSem, edge);
    TrapSprings(cfg, base, version, first, second, known);
  }

  /** Every input with a loop that touches another dependency is refused under some digest. */
  lemma TouchingLoopBreaksSomeDigest(codec: Codec, scope: Scope, version: string, obs: seq<Observation>)
    returns (factId: Semantics -> string)
    requires InjectiveId(codec.factId) && ValidObservations(scope, obs) && !IsolatedLoops(obs)
    ensures InjectiveId(factId)
    ensures var c, rules, inputs := codec.(factId := factId), RulesOf(factId, [Dependency(version)]),
        Observe(factId, obs);
            Completes(c, rules, inputs, UNLIMITED) && Derive(c, rules, inputs, UNLIMITED) == Failure(InvalidOutput)
  {
    hide WellFormed, Final, Publish, Edge, Observed, InjectiveId, CloneFact, FactOf, HasId, OutFacts, Trap;
    var a, b, first, second, loopSem, edge := TouchingTrap(scope, version, obs);
    factId := Favouring(codec.factId, first, second);
    FavouringIsInjective(codec.factId, first, second);
    var start := PreparedRepresents(factId, scope, obs);
    var cfg := Config(codec.(factId := factId), RulesOf(factId, [Dependency(version)]), scope, UNLIMITED);
    assert cfg.rules == [DependencyRule.Registered(factId, version)];
    assert Keeps(start, start);
    TrapIsBaited(factId, scope, start, start, obs, version, a, b, loopSem, edge);
    RepresentsNonEmpty(factId, start, obs);
    RunFails(cfg, codec.factId, version, first, second, loopSem, edge, start);
    assert cfg == ConfigFor(cfg.codec, cfg.rules, Observe(factId, obs), UNLIMITED);
  }

  lemma LoopObservation(scope: Scope, obs: seq<Observation>, a: Participant) returns (o: Observation)
    requires ValidObservations(scope, obs) && Observed(obs, a, a)
    ensures o in obs && o.sem.scope == scope && o.sem.relation == PredicateDependency && o.sem.subject == a
    ensures o.sem.obj == Some(a)
  {
    o :| o in obs && o.sem.relation == PredicateDependency && o.sem.subject == a && o.sem.obj == Some(a);
  }

  /** Under that digest no choice of rules that includes a dependency rule succeeds. */
  lemma TouchingLoopNeverSucceeds(codec: Codec, scope: Scope, kinds: seq<Shipped>, version: string,
      obs: seq<Observation>) returns (factId: Semantics -> string)
    requires InjectiveId(codec.factId) && ValidObservations(scope, obs) && !IsolatedLoops(obs)
    requires Dependency(version) in kinds
    ensures InjectiveId(factId) && !Succeeds(codec.(factId := factId), kinds, obs, UNLIMITED)
  {
    hide WellFormed, Publish, Steps, Final, Edge, Observed, InjectiveId, CloneFact, FactOf, HasId, OutFacts, Quiet,
        Safe, Trap, Represents, RulesOf;
    var a, b, first, second, loopSem, edge := TouchingTrap(scope, version, obs);
    factId := Favouring(codec.factId, first, second);
    FavouringIsInjective(codec.factId, first, second);
    var c := codec.(factId := factId);
    var rules, inputs := RulesOf(factId, kinds), Observe(factId, obs);
    var start := PreparedRepresents(factId, scope, obs);
    if Succeeds(c, kinds, obs, UNLIMITED) {
      var cfg := ConfigFor(c, rules, inputs, UNLIMITED);
      assert Terminates(cfg, start);
      var n: nat :| Halts(cfg, start, n);
      FinalIs(cfg, start, n);
      RepresentsNonEmpty(factId, start, obs);
      CodesOnlyFromLimits(cfg, start, n);
      FinishedMeansQuiet(cfg, start, n);
      RunKeepsInputs(cfg, start, n);
      var rule := DependencyRule.Registered(factId, version);
      RuleIsListed(factId, kinds, version);
      TrapIsFound(cfg, codec.factId, start, Steps(cfg, start, n).known, obs, version, a, b, first, second, loopSem,
          edge);
      assert false;
    }
  }

  /** Exactly when derivation is sure to succeed with a dependency rule among the shipped rules: a caller
      can check the inputs for self-dependencies that touch other dependencies. */
  lemma SureSuccessExact(codec: Codec, scope: Scope, kinds: seq<Shipped>, version: string, obs: seq<Observation>)
    requires InjectiveId(codec.factId) && DistinctGapIds(codec, scope) && ValidObservations(scope, obs)
    requires Membership("") !in kinds && Dependency(version) in kinds
    ensures IsolatedLoops(obs) <==>
            forall factId: Semantics -> string | InjectiveId(factId) ::
                Succeeds(codec.(factId := factId), kinds, obs, UNLIMITED)
  {
    hide InjectiveId, Succeeds, ValidObservations, IsolatedLoops;
    if IsolatedLoops(obs) {
      forall factId: Semantics -> string | InjectiveId(factId)
        ensures Succeeds(codec.(factId := factId), kinds, obs, UNLIMITED)
      {
        IsolatedAlwaysSucceeds(codec.(factId := factId), scope, kinds, obs, UNLIMITED);
      }
    } else {
      var factId := TouchingLoopNeverSucceeds(codec, scope, kinds, version, obs);
      assert !Succeeds(codec.(factId := factId), kinds, obs, UNLIMITED);
    }
  }
}
