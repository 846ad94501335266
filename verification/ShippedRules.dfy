/** The engine with the two rules it ships: what a run over any inputs computes, exactly. */
module ShippedRules {
  import opened Ordering
  import opened Facts
  import opened Engine
  import opened EngineLaws
  import opened FixedPoint
  import DependencyRule
  import MembershipRule

  datatype Shipped = Dependency(version: string) | Membership(version: string)

  function RuleOf(factId: Semantics -> string, s: Shipped): RegisteredRule {
    match s
    case Dependency(v) => DependencyRule.Registered(factId, v)
    case Membership(v) => MembershipRule.Registered(factId, v)
  }

  function RulesOf(factId: Semantics -> string, kinds: seq<Shipped>): seq<RegisteredRule> {
    seq(|kinds|, i requires 0 <= i < |kinds| => RuleOf(factId, kinds[i]))
  }

  // ---------- the graph behind the facts ----------

  ghost predicate EdgeAt(known: Known, id: string, a: Participant, b: Participant) {
    id in known && DependencyRule.IsDependency(known[id]) && known[id].sem.subject == a && known[id].sem.obj.value == b
  }

  ghost predicate Edge(known: Known, a: Participant, b: Participant) {
    exists id :: EdgeAt(known, id, a, b)
  }

  ghost predicate Path(known: Known, p: seq<Participant>) {
    |p| >= 2 && forall i | 0 <= i < |p| - 1 :: Edge(known, p[i], p[i + 1])
  }

  ghost predicate PathFromTo(known: Known, p: seq<Participant>, a: Participant, b: Participant) {
    Path(known, p) && p[0] == a && p[|p| - 1] == b
  }

  ghost predicate Reach(known: Known, a: Participant, b: Participant) {
    exists p :: PathFromTo(known, p, a, b)
  }

  /** A participant that depends on itself takes part in no other dependency. In particular this
      holds when no input is a self-loop. */
  ghost predicate LoopsIsolated(known: Known) {
    forall a, b :: Edge(known, a, a) && (Edge(known, a, b) || Edge(known, b, a)) ==> a == b
  }

  lemma EdgeReaches(known: Known, a: Participant, b: Participant)
    requires Edge(known, a, b)
    ensures Reach(known, a, b)
  {
    hide Edge;
    assert PathFromTo(known, [a, b], a, b);
  }

  lemma ReachTransitive(known: Known, a: Participant, b: Participant, c: Participant)
    requires Reach(known, a, b) && Reach(known, b, c)
    ensures Reach(known, a, c)
  {
    hide Edge;
    var p :| PathFromTo(known, p, a, b);
    var q :| PathFromTo(known, q, b, c);
    var r := p + q[1..];
    forall i | 0 <= i < |r| - 1
      ensures Edge(known, r[i], r[i + 1])
    {
      if i < |p| - 1 {
        assert r[i] == p[i] && r[i + 1] == p[i + 1];
      } else {
        assert r[i] == q[i - |p| + 1] && r[i + 1] == q[i - |p| + 2];
      }
    }
    assert PathFromTo(known, r, a, c);
  }

  lemma {:induction false} LoopTrapsForward(known: Known, p: seq<Participant>)
    requires LoopsIsolated(known) && Path(known, p) && Edge(known, p[0], p[0])
    ensures p[|p| - 1] == p[0]
  {
    hide Edge;
    assert Edge(known, p[0], p[0 + 1]);
    if |p| > 2 {
      forall i | 0 <= i < |p[1..]| - 1
        ensures Edge(known, p[1..][i], p[1..][i + 1])
      {
        assert Edge(known, p[i + 1], p[i + 1 + 1]);
      }
      LoopTrapsForward(known, p[1..]);
    }
  }

  lemma {:induction false} LoopTrapsBackward(known: Known, p: seq<Participant>)
    requires LoopsIsolated(known) && Path(known, p) && Edge(known, p[|p| - 1], p[|p| - 1])
    ensures p[0] == p[|p| - 1]
  {
    hide Edge;
    var n := |p| - 1;
    assert Edge(known, p[n - 1], p[n - 1 + 1]);
    if n > 1 {
      forall i | 0 <= i < |p[..n]| - 1
        ensures Edge(known, p[..n][i], p[..n][i + 1])
      {
        assert Edge(known, p[i], p[i + 1]);
      }
      LoopTrapsBackward(known, p[..n]);
    }
  }

  lemma LoopTraps(known: Known, a: Participant, b: Participant)
    requires LoopsIsolated(known) && (Edge(known, a, a) || Edge(known, b, b)) && Reach(known, a, b)
    ensures a == b
  {
    hide Edge, LoopsIsolated, Path;
    var p :| PathFromTo(known, p, a, b);
    assert |p| >= 2 by { PathHasLength(known, p); }
    if Edge(known, a, a) { LoopTrapsForward(known, p); } else { LoopTrapsBackward(known, p); }
  }

  lemma PathHasLength(known: Known, p: seq<Participant>)
    requires Path(known, p)
    ensures |p| >= 2
  {
  }

  // ---------- what the two rules may add ----------

  /** `m` lies strictly between `a` and `c`. */
  ghost predicate Between(known: Known, a: Participant, m: Participant, c: Participant) {
    m != a && m != c && Reach(known, a, m) && Reach(known, m, c)
  }

  ghost predicate ConnectedVia(known: Known, a: Participant, c: Participant) {
    a != c && exists m :: Between(known, a, m, c)
  }

  ghost predicate DerivedEdge(start: Known, scope: Scope, kinds: seq<Shipped>, sem: Semantics) {
    && sem.obj.Some?
    && sem == DependencyRule.EdgeSemantics(scope, sem.producer.version, sem.subject, sem.obj.value)
    && Dependency(sem.producer.version) in kinds
    && ConnectedVia(start, sem.subject, sem.obj.value)
  }

  ghost predicate DerivedMembership(start: Known, kinds: seq<Shipped>, sem: Semantics) {
    && Membership(sem.producer.version) in kinds
    && exists d | MembershipRule.Sole(OrderedFacts(start), d) ::
         sem == MembershipRule.MembershipSemantics(sem.producer.version, d)
  }

  /** Everything known is an input or one of the two kinds of consequence of the inputs. */
  ghost predicate Accounted(start: Known, scope: Scope, kinds: seq<Shipped>, known: Known) {
    forall id | id in known && id !in start ::
      DerivedEdge(start, scope, kinds, known[id].sem) || DerivedMembership(start, kinds, known[id].sem)
  }

  ghost predicate Sound(factId: Semantics -> string, start: Known, scope: Scope, kinds: seq<Shipped>, known: Known) {
    && Keeps(start, known)
    && WellFormed(factId, scope, known)
    && Accounted(start, scope, kinds, known)
  }

  ghost predicate Setting(factId: Semantics -> string, start: Known, scope: Scope, kinds: seq<Shipped>) {
    && InjectiveId(factId)
    && WellFormed(factId, scope, start)
    && LoopsIsolated(start)
    && Membership("") !in kinds
  }

  lemma DerivedMembershipIsNoEdge(start: Known, kinds: seq<Shipped>, sem: Semantics)
    requires DerivedMembership(start, kinds, sem)
    ensures sem.relation == PredicateMembership
  {
  }

  lemma EdgesSound(factId: Semantics -> string, start: Known, scope: Scope, kinds: seq<Shipped>, known: Known,
      a: Participant, b: Participant)
    requires Sound(factId, start, scope, kinds, known) && Edge(known, a, b)
    ensures Edge(start, a, b) || ConnectedVia(start, a, b)
    ensures Reach(start, a, b)
  {
    hide ConnectedVia, DerivedMembership, Reach, WellFormed;
    var id :| EdgeAt(known, id, a, b);
    if id in start {
      assert EdgeAt(start, id, a, b);
      EdgeReaches(start, a, b);
    } else {
      if DerivedMembership(start, kinds, known[id].sem) { DerivedMembershipIsNoEdge(start, kinds, known[id].sem); }
      ConnectedReaches(start, a, b);
    }
  }

  lemma ConnectedReaches(known: Known, a: Participant, c: Participant)
    requires ConnectedVia(known, a, c)
    ensures Reach(known, a, c)
  {
    var m :| Between(known, a, m, c);
    ReachTransitive(known, a, m, c);
  }

  lemma LoopsStayIsolated(factId: Semantics -> string, start: Known, scope: Scope, kinds: seq<Shipped>, known: Known,
      a: Participant, b: Participant)
    requires Setting(factId, start, scope, kinds) && Sound(factId, start, scope, kinds, known)
    requires Edge(known, a, b) && (Edge(known, a, a) || Edge(known, b, b))
    ensures a == b
  {
    hide Edge, LoopsIsolated, Reach, ConnectedVia, Sound;
    EdgesSound(factId, start, scope, kinds, known, a, b);
    if Edge(known, a, a) { LoopIsInput(factId, start, scope, kinds, known, a); }
    if Edge(known, b, b) { LoopIsInput(factId, start, scope, kinds, known, b); }
    LoopTraps(start, a, b);
  }

  /** No self-loop is ever derived. */
  lemma LoopIsInput(factId: Semantics -> string, start: Known, scope: Scope, kinds: seq<Shipped>, known: Known,
      a: Participant)
    requires Sound(factId, start, scope, kinds, known) && Edge(known, a, a)
    ensures Edge(start, a, a)
  {
    EdgesSound(factId, start, scope, kinds, known, a, a);
  }

  // ---------- one invocation of a shipped rule ----------

  ghost predicate Stored(known: Known, f: Fact) {
    f.id in known && known[f.id] == f
  }

  lemma ViewIsStored(factId: Semantics -> string, scope: Scope, known: Known)
    requires WellFormed(factId, scope, known)
    ensures forall f :: f in OrderedFacts(known) <==> Stored(known, f)
    ensures DistinctKeys(FactIdOf, OrderedFacts(known))
  {
    OrderedFactsProps(known);
    OrderedFactsStrict(factId, scope, known);
    StrictIsDistinct(FactIdOf, OrderedFacts(known));
  }

  lemma StoredEdge(known: Known, f: Fact)
    requires Stored(known, f) && DependencyRule.IsDependency(f)
    ensures Edge(known, f.sem.subject, f.sem.obj.value)
  {
    assert EdgeAt(known, f.id, f.sem.subject, f.sem.obj.value);
  }

  /** Two composable facts connect their ends through a third participant. */
  lemma CompositionConnects(factId: Semantics -> string, start: Known, scope: Scope, kinds: seq<Shipped>, known: Known,
      l: Fact, r: Fact)
    requires Setting(factId, start, scope, kinds) && Sound(factId, start, scope, kinds, known)
    requires Stored(known, l) && Stored(known, r) && DependencyRule.Composable(l, r)
    ensures ConnectedVia(start, l.sem.subject, r.sem.obj.value)
    ensures l.sem.obj.value != l.sem.subject && l.sem.obj.value != r.sem.obj.value
  {
    hide Edge, Reach, LoopsIsolated, Sound, Setting, Stored;
    var a, m, c := l.sem.subject, l.sem.obj.value, r.sem.obj.value;
    StoredEdge(known, l);
    StoredEdge(known, r);
    EdgesSound(factId, start, scope, kinds, known, a, m);
    EdgesSound(factId, start, scope, kinds, known, m, c);
    if m == a { LoopsStayIsolated(factId, start, scope, kinds, known, m, c); }
    if m == c { LoopsStayIsolated(factId, start, scope, kinds, known, a, m); }
    assert Between(start, a, m, c);
  }

  /** Each dependency candidate is composed from two different known facts. */
  lemma DependencyCandidate(factId: Semantics -> string, scope: Scope, known: Known, version: string, c: Fact)
    returns (l: Fact, r: Fact)
    requires WellFormed(factId, scope, known)
    requires c in OutFacts(DependencyRule.Registered(factId, version), known)
    ensures Stored(known, l) && Stored(known, r) && l.id != r.id && DependencyRule.Composable(l, r)
    ensures c == DependencyRule.Compose(factId, version, l, r)
  {
    hide DependencyRule.Composable, DependencyRule.Compose, DependencyRule.ComposedId;
    var view := OrderedFacts(known);
    ViewIsStored(factId, scope, known);
    DependencyRule.ApplyExact(factId, version, view);
    assert DependencyRule.Made(factId, version, view, |view|, 0, c);
    var a: nat, b: nat :| DependencyRule.FirstMade(factId, version, view, |view|, 0, c, a, b);
    l, r := view[a], view[b];
    assert l in view && r in view;
    assert FactIdOf(view[a]) != FactIdOf(view[b]);
  }

  /** Each membership candidate comes from the sole definition of its symbol. */
  lemma MembershipCandidate(factId: Semantics -> string, known: Known, version: string, c: Fact) returns (d: Fact)
    requires c in OutFacts(MembershipRule.Registered(factId, version), known)
    ensures MembershipRule.Sole(OrderedFacts(known), d)
    ensures c == MembershipRule.MembershipFact(factId, MembershipRule.EffectiveVersion(version), d)
  {
    hide MembershipRule.MembershipFact;
    MembershipRule.ApplyExact(factId, version, OrderedFacts(known));
    d :| MembershipRule.Sole(OrderedFacts(known), d) &&
         c == MembershipRule.MembershipFact(factId, MembershipRule.EffectiveVersion(version), d);
  }

  /** Neither rule emits definitions, so the membership rule always judges by the inputs. */
  lemma SoleIsSettled(factId: Semantics -> string, start: Known, scope: Scope, kinds: seq<Shipped>, known: Known,
      d: Fact)
    requires WellFormed(factId, scope, start) && Sound(factId, start, scope, kinds, known)
    ensures MembershipRule.Sole(OrderedFacts(known), d) <==> MembershipRule.Sole(OrderedFacts(start), d)
  {
    hide DerivedEdge, DerivedMembership, WellFormed;
    ViewIsStored(factId, scope, known);
    ViewIsStored(factId, scope, start);
    forall f | MembershipRule.IsDefinition(f)
      ensures f in OrderedFacts(known) <==> f in OrderedFacts(start)
    {
      if Stored(known, f) && f.id !in start {
        NewFactsAreNoDefinitions(start, scope, kinds, f.sem);
      }
    }
  }

  lemma NewFactsAreNoDefinitions(start: Known, scope: Scope, kinds: seq<Shipped>, sem: Semantics)
    ensures DerivedEdge(start, scope, kinds, sem) ==> sem.relation == PredicateDependency
    ensures DerivedMembership(start, kinds, sem) ==> sem.relation == PredicateMembership
  {
  }

  lemma CandidateAccounted(factId: Semantics -> string, start: Known, scope: Scope, kinds: seq<Shipped>, known: Known,
      kind: Shipped, c: Fact)
    requires Setting(factId, start, scope, kinds) && Sound(factId, start, scope, kinds, known) && kind in kinds
    requires c in OutFacts(RuleOf(factId, kind), known)
    ensures DerivedEdge(start, scope, kinds, c.sem) || DerivedMembership(start, kinds, c.sem)
  {
    hide ConnectedVia, LoopsIsolated, MembershipRule.Sole;
    match kind {
      case Dependency(v) =>
        var l, r := DependencyCandidate(factId, scope, known, v, c);
        CompositionConnects(factId, start, scope, kinds, known, l, r);
      case Membership(v) =>
        var d := MembershipCandidate(factId, known, v, c);
        SoleIsSettled(factId, start, scope, kinds, known, d);
        assert MembershipRule.EffectiveVersion(v) == v;
    }
  }

  lemma RuleHasKind(factId: Semantics -> string, kinds: seq<Shipped>, rule: RegisteredRule) returns (kind: Shipped)
    requires rule in RulesOf(factId, kinds)
    ensures kind in kinds && rule == RuleOf(factId, kind)
  {
    var i :| 0 <= i < |kinds| && RulesOf(factId, kinds)[i] == rule;
    kind := kinds[i];
  }

  lemma SoundPreserved(cfg: Config, start: Known, kinds: seq<Shipped>, rule: RegisteredRule, before: Known,
      after: Known)
    requires Setting(cfg.codec.factId, start, cfg.scope, kinds) && cfg.rules == RulesOf(cfg.codec.factId, kinds)
    requires rule in cfg.rules && Sound(cfg.codec.factId, start, cfg.scope, kinds, before)
    requires Extends(cfg, rule, before, after)
    ensures Sound(cfg.codec.factId, start, cfg.scope, kinds, after)
  {
    hide DerivedEdge, DerivedMembership, LoopsIsolated;
    ExtendsWellFormed(cfg, rule, before, after);
    var kind := RuleHasKind(cfg.codec.factId, kinds, rule);
    forall id | id in after && id !in start
      ensures DerivedEdge(start, cfg.scope, kinds, after[id].sem) || DerivedMembership(start, kinds, after[id].sem)
    {
      if id !in before {
        var c :| c in OutFacts(rule, before) && after[id] == CloneFact(c);
        CandidateAccounted(cfg.codec.factId, start, cfg.scope, kinds, before, kind, c);
      }
    }
  }

  // ---------- shipped candidates are always acceptable ----------

  lemma TwoDistinctInputs(a: string, b: string, self: string, ruleId: string, version: string)
    requires a != b && a != self && b != self
    ensures ValidLineage(Lineage(ruleId, version, SortStrings([a, b])), self)
    ensures forall i | i in SortStrings([a, b]) :: i == a || i == b
  {
    SortMembers(ByKey(Identity), [a, b]);
    assert DistinctKeys(Identity, [a, b]);
    DistinctKeysAfterSort(Identity, ByKey(Identity), [a, b]);
    var s := SortStrings([a, b]);
    forall i, j | 0 <= i < j < |s|
      ensures s[i] != s[j]
    {
      assert Identity(s[i]) != Identity(s[j]);
    }
  }

  /** A composition never cites itself: its identity differs from both facts it is made of. */
  lemma NoSelfCitation(factId: Semantics -> string, start: Known, scope: Scope, kinds: seq<Shipped>, known: Known,
      version: string, l: Fact, r: Fact)
    requires Setting(factId, start, scope, kinds) && Sound(factId, start, scope, kinds, known)
    requires Stored(known, l) && Stored(known, r) && DependencyRule.Composable(l, r)
    ensures DependencyRule.ComposedId(factId, version, l, r) != l.id
    ensures DependencyRule.ComposedId(factId, version, l, r) != r.id
  {
    hide LoopsIsolated, Accounted, ConnectedVia;
    CompositionConnects(factId, start, scope, kinds, known, l, r);
    assert l.id == factId(l.sem) && r.id == factId(r.sem);
  }

  lemma OrderedEvidenceOk(merged: seq<EvidenceRef>, part: seq<EvidenceRef>)
    requires StrictlyIncreasing(EvidenceId, merged) && part != []
    requires RefIds(part) <= RefIds(merged)
    ensures merged != []
    ensures forall i, j | 0 <= i < |merged| && 0 <= j < |merged| && i != j ::
        EvidenceId(merged[i]) != EvidenceId(merged[j])
  {
    StrictIsDistinct(EvidenceId, merged);
    assert part[0] in part;
    assert part[0].id in RefIds(part);
    assert part[0].id in RefIds(merged);
  }

  lemma ComposeValid(factId: Semantics -> string, version: string, l: Fact, r: Fact)
    requires ValidFact(factId, l) && ValidFact(factId, r) && DependencyRule.Composable(l, r) && l.id != r.id
    requires DependencyRule.ComposedId(factId, version, l, r) != l.id
    requires DependencyRule.ComposedId(factId, version, l, r) != r.id
    ensures ValidFact(factId, DependencyRule.Compose(factId, version, l, r))
  {
    hide DependencyRule.MergeEvidence;
    var c := DependencyRule.Compose(factId, version, l, r);
    TwoDistinctInputs(l.id, r.id, c.id, DependencyRule.RULE_ID, version);
    DependencyRule.MergeEvidenceExact(l.evidence, r.evidence);
    DependencyRule.MergeEvidenceIds(l.evidence, r.evidence);
    OrderedEvidenceOk(c.evidence, l.evidence);
  }

  lemma DependencyCandidateOk(factId: Semantics -> string, start: Known, scope: Scope, kinds: seq<Shipped>,
      known: Known, version: string, c: Fact)
    requires Setting(factId, start, scope, kinds) && Sound(factId, start, scope, kinds, known)
    requires c in OutFacts(DependencyRule.Registered(factId, version), known)
    ensures ShapeOk(factId, scope, RuleVersion(DependencyRule.RULE_ID, version), c) && SupportKnown(c, known)
  {
    hide Setting, Accounted, ValidFact, DependencyRule.MergeEvidence;
    var l, r := DependencyCandidate(factId, scope, known, version, c);
    NoSelfCitation(factId, start, scope, kinds, known, version, l, r);
    ComposeValid(factId, version, l, r);
    TwoDistinctInputs(l.id, r.id, c.id, DependencyRule.RULE_ID, version);
    assert l.sem.scope == scope;
  }

  lemma MembershipValid(factId: Semantics -> string, version: string, d: Fact)
    requires InjectiveId(factId) && ValidFact(factId, d) && MembershipRule.IsDefinition(d)
    ensures ValidFact(factId, MembershipRule.MembershipFact(factId, version, d))
  {
    hide MembershipRule.SustainingEvidence;
    var c := MembershipRule.MembershipFact(factId, version, d);
    MembershipRule.SustainingEvidenceIds(d.evidence);
    OrderedEvidenceOk(c.evidence, d.evidence);
    assert c.sem.relation != d.sem.relation;
  }

  lemma MembershipCandidateOk(factId: Semantics -> string, scope: Scope, known: Known, version: string, c: Fact)
    requires InjectiveId(factId) && WellFormed(factId, scope, known) && version != ""
    requires c in OutFacts(MembershipRule.Registered(factId, version), known)
    ensures ShapeOk(factId, scope, RuleVersion(MembershipRule.RULE_ID, version), c) && SupportKnown(c, known)
  {
    hide ValidFact, MembershipRule.SustainingEvidence;
    var d := MembershipCandidate(factId, known, version, c);
    ViewIsStored(factId, scope, known);
    assert Stored(known, d);
    MembershipValid(factId, version, d);
  }

  lemma ShippedRulesAreSafe(cfg: Config, start: Known, kinds: seq<Shipped>, rule: RegisteredRule, known: Known)
    requires Setting(cfg.codec.factId, start, cfg.scope, kinds) && cfg.rules == RulesOf(cfg.codec.factId, kinds)
    requires rule in cfg.rules && Sound(cfg.codec.factId, start, cfg.scope, kinds, known)
    ensures Safe(cfg, rule, known)
  {
    hide ShapeOk, SupportKnown, Accounted, LoopsIsolated, WellFormed;
    var kind := RuleHasKind(cfg.codec.factId, kinds, rule);
    forall c | c in OutFacts(rule, known)
      ensures ShapeOk(cfg.codec.factId, cfg.scope, rule.version, c) && SupportKnown(c, known)
    {
      match kind {
        case Dependency(v) => DependencyCandidateOk(cfg.codec.factId, start, cfg.scope, kinds, known, v, c);
        case Membership(v) => MembershipCandidateOk(cfg.codec.factId, cfg.scope, known, v, c);
      }
    }
  }

  /** Every reachable known set is accounted for by the inputs, and no run of the shipped rules
      fails, under any limits. */
  lemma ShippedRunSound(cfg: Config, start: Known, kinds: seq<Shipped>, n: nat)
    requires Setting(cfg.codec.factId, start, cfg.scope, kinds) && cfg.rules == RulesOf(cfg.codec.factId, kinds)
    ensures Sound(cfg.codec.factId, start, cfg.scope, kinds, Steps(cfg, start, n).known)
    ensures !Steps(cfg, start, n).status.Failed?
  {
    hide Steps, Setting, Sound, Safe, Extends, RulesOf;
    var inv := (k: Known) => Sound(cfg.codec.factId, start, cfg.scope, kinds, k);
    assert inv(start) by { StartIsSound(cfg.codec.factId, start, cfg.scope, kinds); }
    forall rule, before, after | rule in cfg.rules && inv(before) && Extends(cfg, rule, before, after)
      ensures inv(after)
    {
      SoundPreserved(cfg, start, kinds, rule, before, after);
    }
    forall rule, known | rule in cfg.rules && inv(known)
      ensures Safe(cfg, rule, known)
    {
      ShippedRulesAreSafe(cfg, start, kinds, rule, known);
    }
    RunInvariant(cfg, start, n, inv);
  }

  lemma StartIsSound(factId: Semantics -> string, start: Known, scope: Scope, kinds: seq<Shipped>)
    requires Setting(factId, start, scope, kinds)
    ensures Sound(factId, start, scope, kinds, start)
  {
  }

  // ---------- a finished run is complete ----------

  ghost predicate QuietFor(factId: Semantics -> string, kinds: seq<Shipped>, known: Known) {
    forall kind | kind in kinds :: Quiet(RuleOf(factId, kind), known)
  }

  lemma StoredById(factId: Semantics -> string, scope: Scope, known: Known, sem: Semantics)
    requires InjectiveId(factId) && WellFormed(factId, scope, known) && factId(sem) in known
    ensures known[factId(sem)].sem == sem
  {
  }

  /** Two edges with different ends make the rule propose their composition. */
  lemma CompositionProposed(factId: Semantics -> string, scope: Scope, known: Known, version: string, a: Participant,
      m: Participant, c: Participant)
    requires WellFormed(factId, scope, known)
    requires Edge(known, a, m) && Edge(known, m, c) && a != c
    ensures HasId(OutFacts(DependencyRule.Registered(factId, version), known),
        factId(DependencyRule.EdgeSemantics(scope, version, a, c)))
  {
    hide ValidFact;
    var view := OrderedFacts(known);
    ViewIsStored(factId, scope, known);
    var x :| EdgeAt(known, x, a, m);
    var y :| EdgeAt(known, y, m, c);
    assert Stored(known, known[x]) && Stored(known, known[y]);
    var i :| 0 <= i < |view| && view[i] == known[x];
    var j :| 0 <= j < |view| && view[j] == known[y];
    DependencyRule.ApplyExact(factId, version, view);
    assert DependencyRule.PairAt(view, i, j);
    assert DependencyRule.ComposedId(factId, version, view[i], view[j]) ==
           factId(DependencyRule.EdgeSemantics(scope, version, a, c));
  }

  /** Where the dependency rule is quiet, two edges with different ends are followed by their
      composition. */
  lemma QuietComposes(factId: Semantics -> string, scope: Scope, known: Known, version: string, a: Participant,
      m: Participant, c: Participant)
    requires InjectiveId(factId) && WellFormed(factId, scope, known)
    requires Quiet(DependencyRule.Registered(factId, version), known)
    requires Edge(known, a, m) && Edge(known, m, c) && a != c
    ensures factId(DependencyRule.EdgeSemantics(scope, version, a, c)) in known && Edge(known, a, c)
  {
    hide WellFormed, Edge;
    CompositionProposed(factId, scope, known, version, a, m, c);
    NewEdgeVisible(factId, scope, known, version, a, c);
  }

  lemma NewEdgeVisible(factId: Semantics -> string, scope: Scope, known: Known, version: string, a: Participant,
      c: Participant)
    requires InjectiveId(factId) && WellFormed(factId, scope, known)
    requires factId(DependencyRule.EdgeSemantics(scope, version, a, c)) in known
    ensures Edge(known, a, c)
  {
    var id := factId(DependencyRule.EdgeSemantics(scope, version, a, c));
    StoredById(factId, scope, known, DependencyRule.EdgeSemantics(scope, version, a, c));
    assert EdgeAt(known, id, a, c);
  }

  lemma {:induction false} PathsAreEdges(factId: Semantics -> string, start: Known, scope: Scope, known: Known,
      version: string, p: seq<Participant>)
    requires InjectiveId(factId) && WellFormed(factId, scope, known) && Keeps(start, known) && LoopsIsolated(start)
    requires Quiet(DependencyRule.Registered(factId, version), known)
    requires Path(start, p) && p[0] != p[|p| - 1]
    ensures Edge(known, p[0], p[|p| - 1])
  {
    hide WellFormed, Quiet, LoopsIsolated;
    assert Edge(start, p[0], p[0 + 1]);
    KeptEdge(start, known, p[0], p[1]);
    if |p| > 2 {
      var q := p[1..];
      forall i | 0 <= i < |q| - 1
        ensures Edge(start, q[i], q[i + 1])
      {
        assert Edge(start, p[i + 1], p[i + 1 + 1]);
      }
      if q[0] != q[|q| - 1] {
        PathsAreEdges(factId, start, scope, known, version, q);
        QuietComposes(factId, scope, known, version, p[0], p[1], p[|p| - 1]);
      }
    }
  }

  lemma KeptEdge(start: Known, known: Known, a: Participant, b: Participant)
    requires Keeps(start, known) && Edge(start, a, b)
    ensures Edge(known, a, b)
  {
    var id :| EdgeAt(start, id, a, b);
    assert EdgeAt(known, id, a, b);
  }

  lemma ReachedAreEdges(factId: Semantics -> string, start: Known, scope: Scope, known: Known, version: string,
      a: Participant, c: Participant)
    requires InjectiveId(factId) && WellFormed(factId, scope, known) && Keeps(start, known) && LoopsIsolated(start)
    requires Quiet(DependencyRule.Registered(factId, version), known)
    requires Reach(start, a, c) && a != c
    ensures Edge(known, a, c)
  {
    hide Edge, WellFormed, Quiet, LoopsIsolated, Keeps;
    var p :| PathFromTo(start, p, a, c);
    PathsAreEdges(factId, start, scope, known, version, p);
  }

  /** The identities a complete run must contain. */
  ghost predicate Expected(factId: Semantics -> string, start: Known, scope: Scope, kinds: seq<Shipped>, id: string) {
    || id in start
    || (exists sem :: DerivedEdge(start, scope, kinds, sem) && id == factId(sem))
    || (exists sem :: DerivedMembership(start, kinds, sem) && id == factId(sem))
  }

  lemma DerivedEdgesPresent(factId: Semantics -> string, start: Known, scope: Scope, kinds: seq<Shipped>, known: Known,
      sem: Semantics)
    requires Setting(factId, start, scope, kinds) && Sound(factId, start, scope, kinds, known)
    requires QuietFor(factId, kinds, known) && DerivedEdge(start, scope, kinds, sem)
    ensures factId(sem) in known
  {
    hide Edge, LoopsIsolated, Quiet, Accounted;
    var v, a, c := sem.producer.version, sem.subject, sem.obj.value;
    assert Quiet(RuleOf(factId, Dependency(v)), known);
    var m :| Between(start, a, m, c);
    ReachedAreEdges(factId, start, scope, known, v, a, m);
    ReachedAreEdges(factId, start, scope, known, v, m, c);
    QuietComposes(factId, scope, known, v, a, m, c);
  }

  lemma DerivedMembershipsPresent(factId: Semantics -> string, start: Known, scope: Scope, kinds: seq<Shipped>,
      known: Known, sem: Semantics)
    requires Setting(factId, start, scope, kinds) && Sound(factId, start, scope, kinds, known)
    requires QuietFor(factId, kinds, known) && DerivedMembership(start, kinds, sem)
    ensures factId(sem) in known
  {
    var v := sem.producer.version;
    assert Quiet(RuleOf(factId, Membership(v)), known);
    var d :| MembershipRule.Sole(OrderedFacts(start), d) && sem == MembershipRule.MembershipSemantics(v, d);
    SoleIsSettled(factId, start, scope, kinds, known, d);
    MembershipRule.ApplyExact(factId, v, OrderedFacts(known));
    var f := MembershipRule.MembershipFact(factId, MembershipRule.EffectiveVersion(v), d);
    assert f in MembershipRule.Apply(factId, v, OrderedFacts(known));
    assert f in OutFacts(RuleOf(factId, Membership(v)), known);
  }

  lemma SoundIsExpected(factId: Semantics -> string, start: Known, scope: Scope, kinds: seq<Shipped>, known: Known,
      id: string)
    requires Sound(factId, start, scope, kinds, known) && id in known
    ensures Expected(factId, start, scope, kinds, id)
  {
    hide DerivedEdge, DerivedMembership;
    assert id == factId(known[id].sem);
  }

  lemma FinishedIsQuietFor(cfg: Config, start: Known, kinds: seq<Shipped>, n: nat)
    requires start != map[] && cfg.rules == RulesOf(cfg.codec.factId, kinds)
    requires Steps(cfg, start, n).status.Finished? && Steps(cfg, start, n).codes == {}
    ensures QuietFor(cfg.codec.factId, kinds, Steps(cfg, start, n).known)
  {
    hide Steps, Quiet;
    FinishedMeansQuiet(cfg, start, n);
    forall kind | kind in kinds
      ensures Quiet(RuleOf(cfg.codec.factId, kind), Steps(cfg, start, n).known)
    {
      var i :| 0 <= i < |kinds| && kinds[i] == kind;
      assert cfg.rules[i] in cfg.rules;
    }
  }

  /** The outcome of the shipped rules, identity by identity: the inputs, one dependency per
      registered version for every pair of different participants connected through a third one, and
      one membership per registered version for every symbol the inputs define in one artifact. */
  lemma ShippedRulesExact(cfg: Config, start: Known, kinds: seq<Shipped>, n: nat)
    requires Setting(cfg.codec.factId, start, cfg.scope, kinds) && cfg.rules == RulesOf(cfg.codec.factId, kinds)
    requires start != map[] && Steps(cfg, start, n).status.Finished? && Steps(cfg, start, n).codes == {}
    ensures forall id :: id in Steps(cfg, start, n).known <==> Expected(cfg.codec.factId, start, cfg.scope, kinds, id)
  {
    hide Steps, Setting, Sound, QuietFor, DerivedEdge, DerivedMembership;
    var end := Steps(cfg, start, n).known;
    ShippedRunSound(cfg, start, kinds, n);
    FinishedIsQuietFor(cfg, start, kinds, n);
    forall id
      ensures id in end <==> Expected(cfg.codec.factId, start, cfg.scope, kinds, id)
    {
      if id in end {
        SoundIsExpected(cfg.codec.factId, start, cfg.scope, kinds, end, id);
      } else {
        forall sem
          ensures !(DerivedEdge(start, cfg.scope, kinds, sem) && id == cfg.codec.factId(sem))
          ensures !(DerivedMembership(start, kinds, sem) && id == cfg.codec.factId(sem))
        {
          if DerivedEdge(start, cfg.scope, kinds, sem) {
            DerivedEdgesPresent(cfg.codec.factId, start, cfg.scope, kinds, end, sem);
          }
          if DerivedMembership(start, kinds, sem) {
            DerivedMembershipsPresent(cfg.codec.factId, start, cfg.scope, kinds, end, sem);
          }
        }
        StartIsKept(cfg.codec.factId, start, cfg.scope, kinds, end);
      }
    }
  }

  lemma StartIsKept(factId: Semantics -> string, start: Known, scope: Scope, kinds: seq<Shipped>, known: Known)
    requires Sound(factId, start, scope, kinds, known)
    ensures Keeps(start, known)
  {
  }

  /** Transitive closure without loops: with a dependency rule registered, a finished run relates
      exactly the pairs the inputs relate and the different participants a path connects. */
  lemma DependencyClosureExact(cfg: Config, start: Known, kinds: seq<Shipped>, n: nat, version: string, a: Participant,
      c: Participant)
    requires Setting(cfg.codec.factId, start, cfg.scope, kinds) && cfg.rules == RulesOf(cfg.codec.factId, kinds)
    requires Dependency(version) in kinds
    requires start != map[] && Steps(cfg, start, n).status.Finished? && Steps(cfg, start, n).codes == {}
    ensures Edge(Steps(cfg, start, n).known, a, c) <==> Edge(start, a, c) || (a != c && Reach(start, a, c))
    ensures Edge(Steps(cfg, start, n).known, a, a) <==> Edge(start, a, a)
  {
    hide Steps, Edge, Reach, LoopsIsolated, Quiet, WellFormed, Accounted, ConnectedVia;
    var end := Steps(cfg, start, n).known;
    var factId, scope := cfg.codec.factId, cfg.scope;
    ShippedRunSound(cfg, start, kinds, n);
    FinishedIsQuietFor(cfg, start, kinds, n);
    assert Quiet(RuleOf(factId, Dependency(version)), end);
    if Edge(end, a, c) {
      EdgesSound(factId, start, scope, kinds, end, a, c);
      if ConnectedVia(start, a, c) { NoSelfConnection(start, a, c); }
    }
    if Edge(start, a, c) { KeptEdge(start, end, a, c); }
    if a != c && Reach(start, a, c) { ReachedAreEdges(factId, start, scope, end, version, a, c); }
    if Edge(end, a, a) { LoopIsInput(factId, start, scope, kinds, end, a); }
    if Edge(start, a, a) { KeptEdge(start, end, a, a); }
  }

  lemma NoSelfConnection(known: Known, a: Participant, c: Participant)
    requires ConnectedVia(known, a, c)
    ensures a != c
  {
  }
}
