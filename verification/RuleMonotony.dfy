/** Which shipped rule is monotone, and which is not (internal/derivation/dependency_rule.go:58-133,
    internal/derivation/membership_rule.go:72-121). */
module RuleMonotony {
  import opened Ordering
  import opened Facts
  import opened Engine
  import opened EngineLaws
  import opened FixedPoint
  import DependencyRule
  import MembershipRule

  /** A fact of a smaller knowledge is in the larger one with the same meaning. */
  lemma Carried(cfg: Config, a: Known, b: Known, f: Fact) returns (j: nat)
    requires InjectiveId(cfg.codec.factId) && WellFormed(cfg.codec.factId, cfg.scope, a)
    requires WellFormed(cfg.codec.factId, cfg.scope, b)
    requires a.Keys <= b.Keys && f in OrderedFacts(a)
    ensures j < |OrderedFacts(b)| && OrderedFacts(b)[j].sem == f.sem && OrderedFacts(b)[j].id == f.id
  {
    OrderedFactsProps(a);
    OrderedFactsProps(b);
    var id :| id in a && a[id] == f;
    assert id in b && b[id] in OrderedFacts(b);
    j :| 0 <= j < |OrderedFacts(b)| && OrderedFacts(b)[j] == b[id];
  }

  lemma OrderedIsDistinct(cfg: Config, a: Known, x: nat, y: nat)
    requires WellFormed(cfg.codec.factId, cfg.scope, a) && x < |OrderedFacts(a)| && y < |OrderedFacts(a)| && x != y
    ensures OrderedFacts(a)[x].id != OrderedFacts(a)[y].id
  {
    OrderedFactsProps(a);
    SortedKeysProps(a.Keys);
  }

  /** More dependencies never make the rule compose less. */
  lemma DependencyRuleIsMonotone(cfg: Config, version: string)
    requires InjectiveId(cfg.codec.factId)
    ensures Monotone(cfg, DependencyRule.Registered(cfg.codec.factId, version))
  {
    hide WellFormed, OrderedFacts, DependencyRule.Apply;
    var factId, rule := cfg.codec.factId, DependencyRule.Registered(cfg.codec.factId, version);
    forall a: Known, b: Known | WellFormed(factId, cfg.scope, a) && WellFormed(factId, cfg.scope, b) && a.Keys <= b.Keys
      ensures OutIds(rule, a) <= OutIds(rule, b)
    {
      var small, large := OrderedFacts(a), OrderedFacts(b);
      DependencyRule.ApplyExact(factId, version, small);
      DependencyRule.ApplyExact(factId, version, large);
      forall f | f in DependencyRule.Apply(factId, version, small)
        ensures HasId(DependencyRule.Apply(factId, version, large), f.id)
      {
        var x: nat, y: nat :| DependencyRule.FirstMade(factId, version, small, |small|, 0, f, x, y);
        OrderedIsDistinct(cfg, a, x, y);
        var i := Carried(cfg, a, b, small[x]);
        var j := Carried(cfg, a, b, small[y]);
        assert DependencyRule.PairAt(large, i, j);
        assert DependencyRule.ComposedId(factId, version, large[i], large[j]) == f.id;
      }
    }
  }

  /** A second definition of a symbol in another artifact silences the rule about it. */
  lemma MembershipRuleIsNotMonotone(cfg: Config, version: string, d: Fact, e: Fact)
    requires MembershipRule.IsDefinition(d) && MembershipRule.IsDefinition(e)
    requires MembershipRule.SymbolOf(d) == MembershipRule.SymbolOf(e)
    requires d.sem.obj.value.id != e.sem.obj.value.id && d.id != e.id
    requires WellFormed(cfg.codec.factId, cfg.scope, map[d.id := d])
    requires WellFormed(cfg.codec.factId, cfg.scope, map[d.id := d, e.id := e])
    ensures !Monotone(cfg, MembershipRule.Registered(cfg.codec.factId, version))
  {
    hide WellFormed, OrderedFacts, MembershipRule.Apply, MembershipRule.MembershipFact;
    var factId, rule := cfg.codec.factId, MembershipRule.Registered(cfg.codec.factId, version);
    var a, b: Known := map[d.id := d], map[d.id := d, e.id := e];
    OrderedFactsProps(a);
    OrderedFactsProps(b);
    MembershipRule.ApplyExact(factId, version, OrderedFacts(a));
    MembershipRule.ApplyExact(factId, version, OrderedFacts(b));
    assert MembershipRule.Sole(OrderedFacts(a), d);
    var f := MembershipRule.MembershipFact(factId, MembershipRule.EffectiveVersion(version), d);
    assert f in OutFacts(rule, a);
    assert f.id in OutIds(rule, a);
    assert d.id in b && e.id in b && b[d.id] == d && b[e.id] == e;
    assert d in OrderedFacts(b) && e in OrderedFacts(b);
    forall x
      ensures !MembershipRule.Sole(OrderedFacts(b), x)
    {
    }
    assert OutIds(rule, b) == {};
  }
}
