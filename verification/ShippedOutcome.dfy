/** The shipped rules end to end: they always finish and always succeed, their result does not
    depend on limits that are not reached, and the evidence of a derived fact is the evidence of the
    inputs behind it. */
module ShippedOutcome {
  import opened Ordering
  import opened Facts
  import opened Engine
  import opened EngineLaws
  import opened FixedPoint
  import opened ShippedRules
  import DependencyRule
  import MembershipRule

  // ---------- a finite universe ----------

  ghost function Ends(f: Fact): set<Participant> {
    {f.sem.subject} + (if f.sem.obj.Some? then {f.sem.obj.value} else {})
  }

  ghost function Participants(known: Known): set<Participant> {
    set id, p | id in known && p in Ends(known[id]) :: p
  }

  ghost function Versions(kinds: seq<Shipped>): set<string> {
    set k | k in kinds :: k.version
  }

  ghost function PossibleEdges(factId: Semantics -> string, start: Known, scope: Scope,
      kinds: seq<Shipped>): set<string> {
    set v, a, c | v in Versions(kinds) && a in Participants(start) && c in Participants(start) ::
      factId(DependencyRule.EdgeSemantics(scope, v, a, c))
  }

  ghost function Definitions(start: Known): set<Fact> {
    set id | id in start && MembershipRule.IsDefinition(start[id]) :: start[id]
  }

  ghost function PossibleMemberships(factId: Semantics -> string, start: Known, kinds: seq<Shipped>): set<string> {
    set v, d | v in Versions(kinds) && d in Definitions(start) ::
      factId(if MembershipRule.IsDefinition(d) then MembershipRule.MembershipSemantics(v, d) else d.sem)
  }

  ghost function Universe(factId: Semantics -> string, start: Known, scope: Scope, kinds: seq<Shipped>): set<string> {
    start.Keys + PossibleEdges(factId, start, scope, kinds) + PossibleMemberships(factId, start, kinds)
  }

  lemma EdgeEnds(known: Known, a: Participant, b: Participant)
    requires Edge(known, a, b)
    ensures a in Participants(known) && b in Participants(known)
  {
    var id :| EdgeAt(known, id, a, b);
    assert a in Ends(known[id]) && b in Ends(known[id]);
  }

  lemma ReachEnds(known: Known, a: Participant, b: Participant)
    requires Reach(known, a, b)
    ensures a in Participants(known) && b in Participants(known)
  {
    hide Edge, Participants;
    var p :| PathFromTo(known, p, a, b);
    assert Edge(known, p[0], p[0 + 1]);
    assert Edge(known, p[|p| - 2], p[|p| - 2 + 1]);
    EdgeEnds(known, p[0], p[1]);
    EdgeEnds(known, p[|p| - 2], p[|p| - 1]);
  }

  lemma DerivedEdgeIsPossible(factId: Semantics -> string, start: Known, scope: Scope, kinds: seq<Shipped>,
      sem: Semantics)
    requires DerivedEdge(start, scope, kinds, sem)
    ensures factId(sem) in PossibleEdges(factId, start, scope, kinds)
  {
    hide Reach, Participants;
    var m :| Between(start, sem.subject, m, sem.obj.value);
    ReachEnds(start, sem.subject, m);
    ReachEnds(start, m, sem.obj.value);
    assert Dependency(sem.producer.version).version in Versions(kinds);
  }

  lemma DerivedMembershipIsPossible(factId: Semantics -> string, start: Known, scope: Scope, kinds: seq<Shipped>,
      sem: Semantics)
    requires WellFormed(factId, scope, start) && DerivedMembership(start, kinds, sem)
    ensures factId(sem) in PossibleMemberships(factId, start, kinds)
  {
    var v := sem.producer.version;
    var d :| MembershipRule.Sole(OrderedFacts(start), d) && sem == MembershipRule.MembershipSemantics(v, d);
    ViewIsStored(factId, scope, start);
    assert Stored(start, d);
    assert d in Definitions(start);
    assert Membership(v).version in Versions(kinds);
  }

  lemma SoundIsBounded(factId: Semantics -> string, start: Known, scope: Scope, kinds: seq<Shipped>, known: Known)
    requires WellFormed(factId, scope, start) && Sound(factId, start, scope, kinds, known)
    ensures |known| <= |Universe(factId, start, scope, kinds)|
  {
    hide DerivedEdge, DerivedMembership, PossibleEdges, PossibleMemberships;
    forall id | id in known
      ensures id in Universe(factId, start, scope, kinds)
    {
      if id !in start {
        assert id == factId(known[id].sem);
        if DerivedEdge(start, scope, kinds, known[id].sem) {
          DerivedEdgeIsPossible(factId, start, scope, kinds, known[id].sem);
        } else {
          DerivedMembershipIsPossible(factId, start, scope, kinds, known[id].sem);
        }
      }
    }
    SubsetSize(known.Keys, Universe(factId, start, scope, kinds));
  }

  /** The shipped rules always come to an end without an error, with or without limits. */
  lemma ShippedRunFinishes(cfg: Config, start: Known, kinds: seq<Shipped>)
    requires Setting(cfg.codec.factId, start, cfg.scope, kinds) && cfg.rules == RulesOf(cfg.codec.factId, kinds)
    ensures Terminates(cfg, start) && Final(cfg, start).status.Finished?
    ensures exists n: nat :: Halts(cfg, start, n) && Final(cfg, start) == Steps(cfg, start, n)
    ensures cfg.limits == UNLIMITED ==> Final(cfg, start).codes == {}
  {
    hide Steps, Sound, Universe;
    var bound := |Universe(cfg.codec.factId, start, cfg.scope, kinds)|;
    forall n: nat
      ensures |Steps(cfg, start, n).known| <= bound
    {
      ShippedRunSound(cfg, start, kinds, n);
      SoundIsBounded(cfg.codec.factId, start, cfg.scope, kinds, Steps(cfg, start, n).known);
    }
    BoundedRunTerminates(cfg, start, bound);
    FinalIs(cfg, start, bound + 1);
    ShippedRunSound(cfg, start, kinds, bound + 1);
    CodesOnlyWithLimits(cfg, start, bound + 1);
  }

  lemma CodesOnlyWithLimits(cfg: Config, start: Known, n: nat)
    ensures cfg.limits == UNLIMITED ==> Steps(cfg, start, n).codes == {}
  {
    hide Steps;
    if cfg.limits == UNLIMITED { CodesOnlyFromLimits(cfg, start, n); }
  }

  // ---------- evidence ----------

  ghost function UnionOver(known: Known, ids: seq<string>): set<string>
    requires forall i | i in ids :: i in known
  {
    set i, e | i in ids && e in EvidenceIds(known[i]) :: e
  }

  ghost predicate SupportKnownAt(known: Known, id: string)
    requires id in known
  {
    known[id].lineage.Some? && forall i | i in known[id].lineage.value.inputs :: i in known
  }

  /** A derived fact cites exactly the evidence of the facts it was derived from. */
  ghost predicate EvidenceInherited(start: Known, known: Known) {
    forall id | id in known && id !in start ::
      SupportKnownAt(known, id) && EvidenceIds(known[id]) == UnionOver(known, known[id].lineage.value.inputs)
  }

  lemma ComposeEvidence(factId: Semantics -> string, version: string, l: Fact, r: Fact)
    requires DependencyRule.Composable(l, r)
    ensures EvidenceIds(DependencyRule.Compose(factId, version, l, r)) == EvidenceIds(l) + EvidenceIds(r)
    ensures InputIds(DependencyRule.Compose(factId, version, l, r)) == {l.id, r.id}
  {
    hide DependencyRule.MergeEvidence, SortStrings;
    DependencyRule.MergeEvidenceIds(l.evidence, r.evidence);
    SortedPair(l.id, r.id);
  }

  lemma SortedPair(a: string, b: string)
    ensures forall i :: i in SortStrings([a, b]) <==> i == a || i == b
  {
    SortMembers(ByKey(Identity), [a, b]);
  }

  lemma CandidateEvidence(factId: Semantics -> string, scope: Scope, known: Known, kind: Shipped, c: Fact)
    requires WellFormed(factId, scope, known) && c in OutFacts(RuleOf(factId, kind), known)
    ensures forall i | i in InputIds(c) :: i in known
    ensures EvidenceIds(c) == set i, e | i in InputIds(c) && e in EvidenceIds(known[i]) :: e
  {
    hide WellFormed, DependencyRule.Composable;
    match kind {
      case Dependency(v) =>
        var l, r := DependencyCandidate(factId, scope, known, v, c);
        ComposeEvidence(factId, v, l, r);
      case Membership(v) =>
        var d := MembershipCandidate(factId, known, v, c);
        ViewIsStored(factId, scope, known);
        assert Stored(known, d);
        MembershipRule.SustainingEvidenceIds(d.evidence);
        assert InputIds(c) == {d.id} && known[d.id] == d;
        assert EvidenceIds(c) == EvidenceIds(d);
    }
  }

  lemma InheritedPreserved(cfg: Config, start: Known, kinds: seq<Shipped>, rule: RegisteredRule, before: Known,
      after: Known)
    requires cfg.rules == RulesOf(cfg.codec.factId, kinds) && rule in cfg.rules
    requires WellFormed(cfg.codec.factId, cfg.scope, before) && Keeps(start, before)
    requires EvidenceInherited(start, before) && Extends(cfg, rule, before, after)
    ensures EvidenceInherited(start, after)
  {
    hide EvidenceIds, WellFormed, ShapeOk;
    var kind := RuleHasKind(cfg.codec.factId, kinds, rule);
    forall id | id in after && id !in start
      ensures SupportKnownAt(after, id) && EvidenceIds(after[id]) == UnionOver(after, after[id].lineage.value.inputs)
    {
      if id in before {
        SameUnion(before, after, before[id].lineage.value.inputs);
      } else {
        ProducedInherits(cfg, kind, rule, before, after, id);
      }
    }
  }

  lemma SameUnion(before: Known, after: Known, ids: seq<string>)
    requires forall id | id in before :: id in after && after[id] == before[id]
    requires forall i | i in ids :: i in before
    ensures UnionOver(before, ids) == UnionOver(after, ids)
  {
    hide EvidenceIds;
  }

  lemma ProducedInherits(cfg: Config, kind: Shipped, rule: RegisteredRule, before: Known, after: Known, id: string)
    requires WellFormed(cfg.codec.factId, cfg.scope, before) && rule == RuleOf(cfg.codec.factId, kind)
    requires Extends(cfg, rule, before, after) && id in after && id !in before
    ensures SupportKnownAt(after, id) && EvidenceIds(after[id]) == UnionOver(after, after[id].lineage.value.inputs)
  {
    hide EvidenceIds, WellFormed;
    var inputs := SupportOfProduced(cfg, rule, before, after[id]);
    var c :| && c in OutFacts(rule, before) && after[id] == CloneFact(c)
             && ShapeOk(cfg.codec.factId, cfg.scope, rule.version, c) && SupportKnown(c, before);
    CloneKeeps(cfg.codec.factId, c);
    CandidateEvidence(cfg.codec.factId, cfg.scope, before, kind, c);
    assert forall i :: i in InputIds(c) <==> i in inputs;
    SameUnion(before, after, inputs);
    assert UnionOver(before, inputs) == set i, e | i in InputIds(c) && e in EvidenceIds(before[i]) :: e;
  }

  lemma RunInheritsEvidence(cfg: Config, start: Known, kinds: seq<Shipped>, n: nat)
    requires WellFormed(cfg.codec.factId, cfg.scope, start) && cfg.rules == RulesOf(cfg.codec.factId, kinds)
    ensures EvidenceInherited(start, Steps(cfg, start, n).known)
  {
    hide Steps, Extends, EvidenceInherited, WellFormed, RulesOf;
    var inv := (k: Known) => Keeps(start, k) && WellFormed(cfg.codec.factId, cfg.scope, k) && EvidenceInherited(start,
        k);
    assert EvidenceInherited(start, start) by { StartInherits(start); }
    forall rule, before, after | rule in cfg.rules && inv(before) && Extends(cfg, rule, before, after)
      ensures inv(after)
    {
      ExtendsWellFormed(cfg, rule, before, after);
      InheritedPreserved(cfg, start, kinds, rule, before, after);
      ExtendsKeeps(cfg, rule, start, before, after);
    }
    RunInvariant(cfg, start, n, inv);
  }

  lemma StartInherits(start: Known)
    ensures EvidenceInherited(start, start)
  {
  }

  lemma ExtendsKeeps(cfg: Config, rule: RegisteredRule, start: Known, before: Known, after: Known)
    requires Keeps(start, before) && Extends(cfg, rule, before, after)
    ensures Keeps(start, after)
  {
  }

  ghost function LeafEvidence(start: Known, t: Tree): set<string>
    decreases t
  {
    match t
    case Leaf(id) => if id in start then EvidenceIds(start[id]) else {}
    case Node(_, children) => set i, e | 0 <= i < |children| && e in LeafEvidence(start, children[i]) :: e
  }

  /** For every derivation tree: the root cites exactly the evidence of its leaves, all of them inputs. */
  lemma {:induction false} EvidenceIsThatOfTheLeaves(start: Known, known: Known, t: Tree)
    requires Keeps(start, known) && EvidenceInherited(start, known) && ValidTree(start, known, t)
    ensures EvidenceIds(known[t.id]) == LeafEvidence(start, t)
    decreases t
  {
    hide EvidenceIds;
    if t.Node? {
      var inputs := known[t.id].lineage.value.inputs;
      forall i | 0 <= i < |t.children|
        ensures EvidenceIds(known[inputs[i]]) == LeafEvidence(start, t.children[i])
      {
        EvidenceIsThatOfTheLeaves(start, known, t.children[i]);
      }
      var all := UnionOver(known, inputs);
      forall e
        ensures e in all <==> e in LeafEvidence(start, t)
      {
        if e in all {
          var id :| id in inputs && e in EvidenceIds(known[id]);
          var i :| 0 <= i < |inputs| && inputs[i] == id;
          assert e in LeafEvidence(start, t.children[i]);
        }
        if e in LeafEvidence(start, t) {
          var i :| 0 <= i < |t.children| && e in LeafEvidence(start, t.children[i]);
          assert inputs[i] in inputs && e in EvidenceIds(known[inputs[i]]);
        }
      }
    }
  }

  /** The evidence theorem for runs: every fact known after any number of iterations has a finite
      derivation tree, and cites exactly the evidence of the input facts at its leaves. */
  lemma DerivedEvidenceComesFromInputs(cfg: Config, start: Known, kinds: seq<Shipped>, n: nat, id: string)
    returns (t: Tree)
    requires WellFormed(cfg.codec.factId, cfg.scope, start) && cfg.rules == RulesOf(cfg.codec.factId, kinds)
    requires id in Steps(cfg, start, n).known
    ensures t.id == id && ValidTree(start, Steps(cfg, start, n).known, t)
    ensures EvidenceIds(Steps(cfg, start, n).known[id]) == LeafEvidence(start, t)
  {
    hide Steps, EvidenceInherited, WellFormed;
    EveryFactHasADerivation(cfg, start, n);
    t :| t.id == id && ValidTree(start, Steps(cfg, start, n).known, t);
    RunInheritsEvidence(cfg, start, kinds, n);
    RunKeepsInputs(cfg, start, n);
    EvidenceIsThatOfTheLeaves(start, Steps(cfg, start, n).known, t);
  }

  // ---------- the published outcome ----------

  /** What callers must bring: an injective digest, distinct gap identities, inputs the engine takes,
      whose own lineage is closed and whose self-loops touch nothing else. */
  ghost predicate GoodInputs(codec: Codec, kinds: seq<Shipped>, inputs: seq<Fact>, limits: Limits) {
    && Accepts(codec, inputs, limits)
    && Setting(codec.factId, Prepare(codec.factId, inputs).known, Prepare(codec.factId, inputs).scope, kinds)
    && DistinctGapIds(codec, Prepare(codec.factId, inputs).scope)
    && LineageClosed(Prepare(codec.factId, inputs).known, Prepare(codec.factId, inputs).known)
  }

  /** On such inputs the shipped engine always succeeds; without limits the coverage is "produced"
      and the facts are exactly the expected ones, in identity order. */
  lemma ShippedDeriveSucceeds(codec: Codec, kinds: seq<Shipped>, inputs: seq<Fact>, limits: Limits)
    requires GoodInputs(codec, kinds, inputs, limits)
    ensures Completes(codec, RulesOf(codec.factId, kinds), inputs, limits)
    ensures Derive(codec, RulesOf(codec.factId, kinds), inputs, limits).Success?
    ensures limits == UNLIMITED && inputs != [] ==>
              var r := Derive(codec, RulesOf(codec.factId, kinds), inputs, limits).result;
              && r.coverage == CoverageProduced && r.gaps == []
              && StrictlyIncreasing(FactIdOf, r.facts)
              && forall id :: HasId(r.facts, id) <==>
                   Expected(codec.factId, Prepare(codec.factId, inputs).known, Prepare(codec.factId, inputs).scope,
                       kinds, id)
  {
    hide Steps, Final, Setting, Publish, Expected, Sound, RulesOf;
    var rules := RulesOf(codec.factId, kinds);
    var p := Prepare(codec.factId, inputs);
    var cfg := ConfigFor(codec, rules, inputs, limits);
    assert WellFormed(codec.factId, p.scope, p.known) by { PrepareExact(codec.factId, inputs); }
    ShippedRunFinishes(cfg, p.known, kinds);
    var n: nat :| Halts(cfg, p.known, n) && Final(cfg, p.known) == Steps(cfg, p.known, n);
    SelfValidationExact(cfg, p.known, n);
    var end := Final(cfg, p.known);
    assert Derive(codec, rules, inputs, limits) == Publish(codec, p.scope, end.known, end.codes);
    if limits == UNLIMITED && inputs != [] {
      InputsAreKnown(codec.factId, inputs);
      ShippedRulesExact(cfg, p.known, kinds, n);
      RunKeepsInputs(cfg, p.known, n);
      PublishedFacts(codec, p.scope, end.known, end.codes);
    }
  }

  lemma InputsAreKnown(factId: Semantics -> string, inputs: seq<Fact>)
    requires Prepare(factId, inputs).Prepared? && inputs != []
    ensures Prepare(factId, inputs).known != map[]
  {
    PrepareExact(factId, inputs);
    assert inputs[0] in inputs;
  }

  lemma PublishedFacts(codec: Codec, scope: Scope, known: Known, codes: set<LimitCode>)
    requires WellFormed(codec.factId, scope, known) && DistinctGapIds(codec, scope)
    requires Publish(codec, scope, known, codes).Success?
    ensures var r := Publish(codec, scope, known, codes).result;
            && StrictlyIncreasing(FactIdOf, r.facts)
            && (forall id :: HasId(r.facts, id) <==> id in known)
            && (codes == {} ==> r.coverage == CoverageProduced && r.gaps == [])
            && (codes != {} ==> r.coverage == CoverageIncomplete && r.gaps != [])
  {
    hide ValidResult, HasId;
    GapsProps(codec, scope, codes);
    OrderedFactsStrict(codec.factId, scope, known);
    ViewHasIds(codec.factId, scope, known);
  }
}
