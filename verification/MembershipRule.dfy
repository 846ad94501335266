/** The membership rule (internal/derivation/membership_rule.go): a symbol belongs to an artifact
    when the view defines it in exactly one. */
module MembershipRule {
  import opened Ordering
  import opened Facts
  import opened Engine

  const RULE_ID := "membership"
  const VERSION := "1"
  const METHOD := "membership"

  /** An empty rule version stands for the initial one. */
  function EffectiveVersion(version: string): string {
    if version == "" then VERSION else version
  }

  predicate IsDefinition(f: Fact) {
    && f.sem.relation == PredicateDefinition
    && f.sem.subject.kind == ParticipantSymbol
    && f.sem.obj.Some? && f.sem.obj.value.kind == ParticipantArtifact
    && f.sem.value.None?
  }

  predicate Defines(f: Fact, symbol: string, artifact: string) {
    IsDefinition(f) && f.sem.subject.id == symbol && f.sem.obj.value.id == artifact
  }

  predicate Refers(s: seq<EvidenceRef>, id: string) {
    exists g | g in s :: g.id == id
  }

  function KeepFirst(s: seq<EvidenceRef>): seq<EvidenceRef> {
    if s == [] then [] else
    var r := KeepFirst(s[..|s| - 1]);
    var e := s[|s| - 1];
    if Refers(r, e.id) then r else r + [e]
  }

  function SustainingEvidence(evidence: seq<EvidenceRef>): seq<EvidenceRef> {
    Sort(ByKey(EvidenceId), KeepFirst(evidence))
  }

  function MembershipSemantics(version: string, d: Fact): Semantics
    requires IsDefinition(d)
  {
    Semantics(d.sem.scope, PredicateMembership, d.sem.subject,
        Some(Participant(ParticipantArtifact, d.sem.obj.value.id)),
              None, map[], Producer(RULE_ID, version, METHOD))
  }

  function MembershipFact(factId: Semantics -> string, version: string, d: Fact): Fact
    requires IsDefinition(d)
  {
    var sem := MembershipSemantics(version, d);
    Fact(factId(sem), sem, SustainingEvidence(d.evidence), Some(Lineage(RULE_ID, version, [d.id])))
  }

  lemma RefersAppend(s: seq<EvidenceRef>, e: EvidenceRef, id: string)
    ensures Refers(s + [e], id) <==> Refers(s, id) || e.id == id
  {
    if Refers(s, id) {
      var g :| g in s && g.id == id;
      assert g in s + [e];
    }
    assert e in s + [e];
  }

  /** `e` is the first reference with its identity. */
  ghost predicate FirstOfId(s: seq<EvidenceRef>, e: EvidenceRef) {
    exists i: nat :: i < |s| && s[i] == e && forall j: nat | j < i :: s[j].id != e.id
  }

  lemma {:induction false} KeepFirstProps(s: seq<EvidenceRef>)
    ensures DistinctKeys(EvidenceId, KeepFirst(s))
    ensures forall id :: Refers(KeepFirst(s), id) <==> Refers(s, id)
  {
    if s != [] {
      var n := |s| - 1;
      KeepFirstProps(s[..n]);
      assert s == s[..n] + [s[n]];
      var r := KeepFirst(s[..n]);
      if !Refers(r, s[n].id) {
        DistinctAppend(EvidenceId, r, s[n]);
      }
      forall id
        ensures Refers(KeepFirst(s), id) <==> Refers(s, id)
      {
        RefersAppend(s[..n], s[n], id);
        RefersAppend(r, s[n], id);
      }
    }
  }

  lemma {:induction false} KeptIsFirst(s: seq<EvidenceRef>, e: EvidenceRef)
    requires e in KeepFirst(s)
    ensures FirstOfId(s, e)
  {
    var n := |s| - 1;
    var front := s[..n];
    if e in KeepFirst(front) {
      KeptIsFirst(front, e);
      FirstOfLonger(s, e);
    } else {
      KeepFirstProps(front);
      LastIsFirst(s);
    }
  }

  lemma FirstOfLonger(s: seq<EvidenceRef>, e: EvidenceRef)
    requires s != [] && FirstOfId(s[..|s| - 1], e)
    ensures FirstOfId(s, e)
  {
    var front := s[..|s| - 1];
    var i: nat :| i < |front| && front[i] == e && forall j: nat | j < i :: front[j].id != e.id;
    assert s[i] == e && forall j: nat | j < i :: s[j] == front[j];
  }

  lemma LastIsFirst(s: seq<EvidenceRef>)
    requires s != [] && !Refers(s[..|s| - 1], s[|s| - 1].id)
    ensures FirstOfId(s, s[|s| - 1])
  {
    var front := s[..|s| - 1];
    assert forall j: nat | j < |s| - 1 :: s[j] == front[j] && front[j] in front;
  }

  /** The support keeps every evidence identity of the definition, once, in order. */
  lemma SustainingEvidenceIds(evidence: seq<EvidenceRef>)
    ensures StrictlyIncreasing(EvidenceId, SustainingEvidence(evidence))
    ensures RefIds(SustainingEvidence(evidence)) == RefIds(evidence)
    ensures forall e | e in SustainingEvidence(evidence) :: FirstOfId(evidence, e)
  {
    hide FirstOfId;
    forall e | e in KeepFirst(evidence)
      ensures FirstOfId(evidence, e)
    {
      KeptIsFirst(evidence, e);
    }
    KeepFirstProps(evidence);
    SortByKeyStrict(EvidenceId, KeepFirst(evidence));
    SortMembers(ByKey(EvidenceId), KeepFirst(evidence));
    SameReferences(SustainingEvidence(evidence), KeepFirst(evidence));
    var ids, all := RefIds(SustainingEvidence(evidence)), RefIds(evidence);
    forall id: string
      ensures id in ids <==> id in all
    {
      assert id in ids <==> Refers(SustainingEvidence(evidence), id);
      assert id in all <==> Refers(evidence, id);
      assert Refers(KeepFirst(evidence), id) <==> Refers(evidence, id);
    }
  }

  lemma SameReferences(s: seq<EvidenceRef>, t: seq<EvidenceRef>)
    requires forall e :: e in s <==> e in t
    ensures forall id :: Refers(s, id) <==> Refers(t, id)
  {
  }

  // ---------- which definitions speak for their symbol ----------

  /** All definitions of this symbol name one artifact, and `d` is the first of them by identity. */
  predicate Sole(view: seq<Fact>, d: Fact) {
    && d in view && IsDefinition(d)
    && forall e | e in view && IsDefinition(e) && e.sem.subject.id == d.sem.subject.id ::
         e.sem.obj.value.id == d.sem.obj.value.id && StrLe(d.id, e.id)
  }

  function Soles(view: seq<Fact>, n: nat): seq<Fact>
    requires n <= |view|
  {
    if n == 0 then [] else
    if Sole(view, view[n - 1]) then Soles(view, n - 1) + [view[n - 1]] else Soles(view, n - 1)
  }

  function SymbolOf(f: Fact): string { f.sem.subject.id }

  function Memberships(factId: Semantics -> string, version: string, ds: seq<Fact>): seq<Fact>
    requires forall d | d in ds :: IsDefinition(d)
  {
    if ds == [] then [] else
    Memberships(factId, version, ds[..|ds| - 1]) + [MembershipFact(factId, version, ds[|ds| - 1])]
  }

  function Apply(factId: Semantics -> string, version: string, view: seq<Fact>): seq<Fact> {
    SolesProps(view, |view|);
    SortMembers(ByKey(SymbolOf), Soles(view, |view|));
    Sort(ByKey(FactIdOf), Memberships(factId, EffectiveVersion(version), Sort(ByKey(SymbolOf), Soles(view, |view|))))
  }

  function Registered(factId: Semantics -> string, version: string): RegisteredRule {
    RegisteredRule(RuleVersion(RULE_ID, version), (view: seq<Fact>) => Candidates(Apply(factId, version, view)))
  }

  lemma {:induction false} SolesProps(view: seq<Fact>, n: nat)
    requires n <= |view|
    ensures forall d :: d in Soles(view, n) <==> d in view[..n] && Sole(view, d)
  {
    if n > 0 {
      SolesProps(view, n - 1);
      assert view[..n] == view[..n - 1] + [view[n - 1]];
    }
  }

  lemma {:induction false} SolesDistinct(view: seq<Fact>, n: nat)
    requires n <= |view| && DistinctKeys(FactIdOf, view)
    ensures DistinctKeys(SymbolOf, Soles(view, n))
  {
    if n > 0 {
      SolesDistinct(view, n - 1);
      SolesProps(view, n - 1);
      var d := view[n - 1];
      if Sole(view, d) {
        forall e | e in Soles(view, n - 1)
          ensures SymbolOf(e) != SymbolOf(d)
        {
          var k :| 0 <= k < n - 1 && view[k] == e;
          assert FactIdOf(view[k]) != FactIdOf(view[n - 1]);
          if SymbolOf(e) == SymbolOf(d) {
            StrLeAntisymmetric(e.id, d.id);
          }
        }
        DistinctAppend(SymbolOf, Soles(view, n - 1), d);
      }
    }
  }

  lemma {:induction false} MembershipsProps(factId: Semantics -> string, version: string, ds: seq<Fact>)
    requires forall d | d in ds :: IsDefinition(d)
    ensures forall f ::
        f in Memberships(factId, version, ds) <==> exists d | d in ds :: f == MembershipFact(factId, version, d)
  {
    if ds != [] {
      var n := |ds| - 1;
      MembershipsProps(factId, version, ds[..n]);
      assert ds == ds[..n] + [ds[n]];
      forall f
        ensures f in Memberships(factId, version, ds) <==> exists d | d in ds :: f == MembershipFact(factId, version, d)
      {
        if f in Memberships(factId, version, ds[..n]) {
          var d :| d in ds[..n] && f == MembershipFact(factId, version, d);
          assert d in ds;
        }
        assert ds[n] in ds;
      }
    }
  }

  /** The rule says exactly the memberships of the symbols with one defining artifact. */
  lemma ApplyExact(factId: Semantics -> string, version: string, view: seq<Fact>)
    ensures forall f :: f in Apply(factId, version, view) <==>
              exists d | Sole(view, d) :: f == MembershipFact(factId, EffectiveVersion(version), d)
  {
    SolesProps(view, |view|);
    assert view[..|view|] == view;
    var ds := Sort(ByKey(SymbolOf), Soles(view, |view|));
    SortMembers(ByKey(SymbolOf), Soles(view, |view|));
    MembershipsProps(factId, EffectiveVersion(version), ds);
    SortMembers(ByKey(FactIdOf), Memberships(factId, EffectiveVersion(version), ds));
    forall f
      ensures f in Apply(factId, version, view) <==>
              exists d | Sole(view, d) :: f == MembershipFact(factId, EffectiveVersion(version), d)
    {
      if f in Apply(factId, version, view) {
        var d :| d in ds && f == MembershipFact(factId, EffectiveVersion(version), d);
        assert Sole(view, d);
      }
      if d :| Sole(view, d) && f == MembershipFact(factId, EffectiveVersion(version), d) {
        assert d in ds;
      }
    }
  }

  /** `d` is a definition: the source symbol and the artifact it is defined in, and no value. */
  ghost predicate Places(d: Fact, symbol: string, artifact: string) {
    && d.sem.relation == PredicateDefinition && d.sem.value.None?
    && d.sem.subject.kind == ParticipantSymbol && d.sem.subject.id == symbol
    && d.sem.obj == Some(Participant(ParticipantArtifact, artifact))
  }

  /** `f` says that the symbol of `d` belongs to its artifact: a membership found by this version of the
      rule, from this definition. */
  ghost predicate IsMembership(factId: Semantics -> string, version: string, d: Fact, f: Fact) {
    && f.sem.scope == d.sem.scope && f.sem.relation == PredicateMembership && f.sem.value.None?
    && f.sem.subject == d.sem.subject && f.sem.obj == d.sem.obj && f.sem.qualifiers == map[]
    && f.sem.producer.id == "membership" && f.sem.producer.methodName == "membership"
    && f.sem.producer.version == (if version == "" then "1" else version) && f.id == factId(f.sem)
    && f.evidence == SustainingEvidence(d.evidence) && f.lineage.Some? && f.lineage.value.inputs == [d.id]
    && f.lineage.value.ruleId == "membership" && f.lineage.value.ruleVersion == f.sem.producer.version
  }

  /** Every definition of the symbol names this artifact, and `d` is one with the least identity. */
  ghost predicate Settles(view: seq<Fact>, d: Fact, symbol: string, artifact: string) {
    && d in view && Places(d, symbol, artifact)
    && forall e, other: string | e in view && Places(e, symbol, other) :: other == artifact && StrLe(d.id, e.id)
  }

  lemma SettlesExact(view: seq<Fact>, d: Fact)
    ensures Sole(view, d) <==> d.sem.obj.Some? && Settles(view, d, d.sem.subject.id, d.sem.obj.value.id)
  {
    assert forall e | IsDefinition(e) :: Places(e, e.sem.subject.id, e.sem.obj.value.id);
  }

  /** Field by field: the rule derives exactly the memberships of symbols that have one artifact. */
  lemma ApplySettles(factId: Semantics -> string, version: string, view: seq<Fact>)
    ensures forall f | f in Apply(factId, version, view) :: exists d, symbol, artifact ::
              Settles(view, d, symbol, artifact) && IsMembership(factId, version, d, f)
    ensures forall d, symbol, artifact | Settles(view, d, symbol, artifact) ::
              exists f :: f in Apply(factId, version, view) && IsMembership(factId, version, d, f)
  {
    hide Apply, Sole, Settles, SustainingEvidence;
    ApplyExact(factId, version, view);
    forall d | Sole(view, d)
      ensures IsDefinition(d)
    {
      SoleDefines(view, d);
    }
    forall f | f in Apply(factId, version, view)
      ensures exists d, symbol, artifact ::
                Settles(view, d, symbol, artifact) && IsMembership(factId, version, d, f)
    {
      var d :| Sole(view, d) && f == MembershipFact(factId, EffectiveVersion(version), d);
      SettlesExact(view, d);
      assert IsMembership(factId, version, d, f);
    }
    forall d, symbol, artifact | Settles(view, d, symbol, artifact)
      ensures exists f :: f in Apply(factId, version, view) && IsMembership(factId, version, d, f)
    {
      SettledSubject(view, d, symbol, artifact);
      SettlesExact(view, d);
      SoleDefines(view, d);
      var f := MembershipFact(factId, EffectiveVersion(version), d);
      assert IsMembership(factId, version, d, f);
    }
  }

  lemma SettledSubject(view: seq<Fact>, d: Fact, symbol: string, artifact: string)
    requires Settles(view, d, symbol, artifact)
    ensures symbol == d.sem.subject.id && d.sem.obj.Some? && artifact == d.sem.obj.value.id
  {
  }

  lemma SoleDefines(view: seq<Fact>, d: Fact)
    requires Sole(view, d)
    ensures IsDefinition(d)
  {
  }

  /** Not monotone: a second artifact makes the rule withdraw what it said about the symbol. */
  lemma Withdraws(factId: Semantics -> string, version: string, d: Fact, e: Fact)
    requires IsDefinition(d) && IsDefinition(e) && SymbolOf(d) == SymbolOf(e)
    requires d.sem.obj.value.id != e.sem.obj.value.id
    ensures MembershipFact(factId, EffectiveVersion(version), d) in Apply(factId, version, [d])
    ensures forall f :: f !in Apply(factId, version, [d, e])
  {
    hide MembershipFact;
    StrLeTotal(d.id, d.id);
    ApplyExact(factId, version, [d]);
    ApplyExact(factId, version, [d, e]);
    assert Sole([d], d);
    assert d in [d, e] && e in [d, e];
    forall f
      ensures f !in Apply(factId, version, [d, e])
    {
      assert forall x :: !Sole([d, e], x);
    }
  }

  // ---------- the loops of Apply ----------

  type Index = map<string, map<string, Fact>>

  /** `f` is a definition of `s` in `a` with the least identity among `seen`. */
  ghost predicate LeastDefinition(seen: seq<Fact>, s: string, a: string, f: Fact) {
    f in seen && Defines(f, s, a) && forall e | e in seen && Defines(e, s, a) :: StrLe(f.id, e.id)
  }

  ghost predicate Indexed(index: Index, seen: seq<Fact>) {
    && (forall s | s in index :: index[s] != map[])
    && (forall s, a | s in index && a in index[s] :: LeastDefinition(seen, s, a, index[s][a]))
    && (forall e | e in seen && IsDefinition(e) :: InIndex(index, e.sem.subject.id, e.sem.obj.value.id))
  }

  ghost predicate InIndex(index: Index, s: string, a: string) {
    s in index && a in index[s]
  }

  function Put(index: Index, f: Fact): Index
    requires IsDefinition(f)
  {
    var s, a := f.sem.subject.id, f.sem.obj.value.id;
    var byArtifact := if s in index then index[s] else map[];
    if a !in byArtifact || StrLt(f.id, byArtifact[a].id) then index[s := byArtifact[a := f]] else index
  }

  lemma LeastStays(seen: seq<Fact>, s: string, a: string, g: Fact, f: Fact)
    requires LeastDefinition(seen, s, a, g) && (Defines(f, s, a) ==> StrLe(g.id, f.id))
    ensures LeastDefinition(seen + [f], s, a, g)
  {
  }

  lemma LeastIsNew(seen: seq<Fact>, s: string, a: string, f: Fact)
    requires Defines(f, s, a)
    requires (forall e | e in seen :: !Defines(e, s, a)) || exists g ::
        LeastDefinition(seen, s, a, g) && StrLt(f.id, g.id)
    ensures LeastDefinition(seen + [f], s, a, f)
  {
    StrLeTotal(f.id, f.id);
    forall e | e in seen + [f] && Defines(e, s, a)
      ensures StrLe(f.id, e.id)
    {
      if e in seen {
        var g :| LeastDefinition(seen, s, a, g) && StrLt(f.id, g.id);
        StrLeTransitive(f.id, g.id, e.id);
      }
    }
  }

  lemma PutIndexes(index: Index, seen: seq<Fact>, f: Fact)
    requires Indexed(index, seen) && IsDefinition(f)
    ensures Indexed(Put(index, f), seen + [f])
  {
    hide LeastDefinition, Defines;
    var next: Index := Put(index, f);
    var t, b := f.sem.subject.id, f.sem.obj.value.id;
    forall s: string, a: string | s in next && a in next[s]
      ensures LeastDefinition(seen + [f], s, a, next[s][a])
    {
      PutOne(index, seen, f, s, a);
    }
    forall e | e in seen + [f] && IsDefinition(e)
      ensures InIndex(next, e.sem.subject.id, e.sem.obj.value.id)
    {
      if e in seen { assert InIndex(index, e.sem.subject.id, e.sem.obj.value.id); }
    }
  }

  lemma PutOne(index: Index, seen: seq<Fact>, f: Fact, s: string, a: string)
    requires Indexed(index, seen) && IsDefinition(f) && InIndex(Put(index, f), s, a)
    ensures LeastDefinition(seen + [f], s, a, Put(index, f)[s][a])
  {
    hide LeastDefinition;
    if s == f.sem.subject.id && a == f.sem.obj.value.id {
      if InIndex(index, s, a) {
        var g := index[s][a];
        StrLeTotal(g.id, f.id);
        if StrLt(f.id, g.id) { LeastIsNew(seen, s, a, f); } else { LeastStays(seen, s, a, g, f); }
      } else {
        assert forall e | e in seen && IsDefinition(e) :: InIndex(index, e.sem.subject.id, e.sem.obj.value.id);
        LeastIsNew(seen, s, a, f);
      }
    } else {
      assert InIndex(index, s, a);
      LeastStays(seen, s, a, index[s][a], f);
    }
  }

  lemma SkipIndexes(index: Index, seen: seq<Fact>, f: Fact)
    requires Indexed(index, seen) && !IsDefinition(f)
    ensures Indexed(index, seen + [f])
  {
    hide LeastDefinition;
    forall s: string, a: string | s in index && a in index[s]
      ensures LeastDefinition(seen + [f], s, a, index[s][a])
    {
      LeastStays(seen, s, a, index[s][a], f);
    }
  }

  /** A symbol has a sole definition exactly when its row holds one artifact. */
  lemma RowExact(index: Index, view: seq<Fact>, s: string, a: string)
    requires Indexed(index, view) && InIndex(index, s, a) && DistinctKeys(FactIdOf, view)
    ensures |index[s]| == 1 ==> Sole(view, index[s][a])
    ensures forall d | Sole(view, d) && d.sem.subject.id == s :: |index[s]| == 1 && d == index[s][a]
  {
    var row := index[s];
    assert LeastDefinition(view, s, a, row[a]);
    if |row| == 1 {
      assert row.Keys == {a} by { assert |row.Keys - {a}| == 0; }
      forall e | e in view && IsDefinition(e) && e.sem.subject.id == s
        ensures e.sem.obj.value.id == a
      {
        assert InIndex(index, s, e.sem.obj.value.id);
      }
    }
    forall d | Sole(view, d) && d.sem.subject.id == s
      ensures |row| == 1 && d == row[a]
    {
      SoleRow(index, view, s, a, d);
    }
  }

  lemma SoleRow(index: Index, view: seq<Fact>, s: string, a: string, d: Fact)
    requires Indexed(index, view) && InIndex(index, s, a) && DistinctKeys(FactIdOf, view)
    requires Sole(view, d) && d.sem.subject.id == s
    ensures |index[s]| == 1 && d == index[s][a]
  {
    var row := index[s];
    forall b | b in row
      ensures b == d.sem.obj.value.id
    {
      assert LeastDefinition(view, s, b, row[b]);
    }
    assert row.Keys == {a};
    assert LeastDefinition(view, s, a, row[a]);
    StrLeAntisymmetric(d.id, row[a].id);
    SameIdSameFact(view, d, row[a]);
  }

  lemma SameIdSameFact(view: seq<Fact>, d: Fact, e: Fact)
    requires DistinctKeys(FactIdOf, view) && d in view && e in view && d.id == e.id
    ensures d == e
  {
    var i :| 0 <= i < |view| && view[i] == d;
    var j :| 0 <= j < |view| && view[j] == e;
    assert FactIdOf(view[i]) == FactIdOf(view[j]);
  }

  method Collect(facts: seq<Fact>) returns (index: Index)
    ensures Indexed(index, facts)
  {
    index := map[];
    var i := 0;
    while i < |facts|
      invariant 0 <= i <= |facts|
      invariant Indexed(index, facts[..i])
    {
      var f := facts[i];
      assert facts[..i + 1] == facts[..i] + [f];
      if IsDefinition(f) {
        PutIndexes(index, facts[..i], f);
        var s, a := f.sem.subject.id, f.sem.obj.value.id;
        var byArtifact := if s in index then index[s] else map[];
        if a !in byArtifact || StrLt(f.id, byArtifact[a].id) {
          index := index[s := byArtifact[a := f]];
        }
      } else {
        SkipIndexes(index, facts[..i], f);
      }
      i := i + 1;
    }
    assert facts[..i] == facts;
  }

  method Keys(index: Index) returns (ids: seq<string>)
    ensures StrictlyIncreasing(Identity, ids)
    ensures forall s :: s in ids <==> s in index
  {
    var list: seq<string> := [];
    var rest := index.Keys;
    while rest != {}
      invariant rest <= index.Keys && DistinctKeys(Identity, list)
      invariant forall s :: s in list <==> s in index && s !in rest
      decreases |rest|
    {
      var s :| s in rest;
      DistinctAppend(Identity, list, s);
      list := list + [s];
      rest := rest - {s};
    }
    ids := SortStrings(list);
    SortByKeyStrict(Identity, list);
    SortMembers(ByKey(Identity), list);
  }

  /** `ds` lists the sole definitions of the symbols handled so far, in symbol order. */
  ghost predicate Handled(view: seq<Fact>, ds: seq<Fact>, ids: seq<string>) {
    && StrictlyIncreasing(SymbolOf, ds)
    && forall d :: d in ds <==> Sole(view, d) && d.sem.subject.id in ids
  }

  lemma NoMemberships(factId: Semantics -> string, version: string)
    ensures forall v: string :: Memberships(factId, v, []) == []
    ensures EffectiveVersion(version) == if version == "" then VERSION else version
  {
  }

  lemma NextMembership(factId: Semantics -> string, version: string, ds: seq<Fact>, d: Fact)
    requires (forall e | e in ds :: IsDefinition(e)) && IsDefinition(d)
    ensures Memberships(factId, version, ds + [d]) ==
            Memberships(factId, version, ds) + [MembershipFact(factId, version, d)]
  {
    hide MembershipFact;
    assert (ds + [d])[..|ds|] == ds;
  }

  /** `MembershipRule.Apply`: index definitions by symbol and artifact, then read the rows that hold
      one artifact, in symbol order. */
  method ApplyRule(factId: Semantics -> string, version: string, facts: seq<Fact>) returns (out: seq<Fact>)
    requires DistinctKeys(FactIdOf, facts)
    ensures out == Apply(factId, version, facts)
  {
    hide Sole, MembershipFact, Indexed, Memberships, KeepFirst, Sort;
    NoMemberships(factId, version);
    var effective := if version == "" then VERSION else version;
    var index := Collect(facts);
    var ids := Keys(index);
    var derived: seq<Fact> := [];
    ghost var ds: seq<Fact> := [];
    var i := 0;
    while i < |ids|
      invariant 0 <= i <= |ids|
      invariant Handled(facts, ds, ids[..i])
      invariant forall d | d in ds :: IsDefinition(d)
      invariant derived == Memberships(factId, effective, ds)
    {
      var s := ids[i];
      assert s in ids;
      assert ids[..i + 1] == ids[..i] + [s];
      RowsAreFilled(index, facts, s);
      var a :| a in index[s];
      RowExact(index, facts, s, a);
      var d := index[s][a];
      if |index[s]| == 1 {
        SoleIsDefinition(facts, d, index, s, a);
        derived := derived + [MembershipFact(factId, effective, d)];
        NextSymbol(facts, ds, d, ids, i);
        NextMembership(factId, effective, ds, d);
        ds := ds + [d];
      } else {
        forall e
          ensures e in ds <==> Sole(facts, e) && e.sem.subject.id in ids[..i + 1]
        {
        }
      }
      i := i + 1;
    }
    assert ids[..i] == ids;
    AllHandled(index, facts, ids, ds);
    out := Sort(ByKey(FactIdOf), derived);
  }

  lemma RowsAreFilled(index: Index, view: seq<Fact>, s: string)
    requires Indexed(index, view) && s in index
    ensures exists a :: a in index[s]
  {
    assert index[s] != map[];
  }

  lemma SoleIsDefinition(view: seq<Fact>, d: Fact, index: Index, s: string, a: string)
    requires Sole(view, d) && Indexed(index, view) && InIndex(index, s, a) && d == index[s][a]
    ensures IsDefinition(d) && d.sem.subject.id == s
  {
    assert LeastDefinition(view, s, a, d);
  }

  lemma AllHandled(index: Index, view: seq<Fact>, ids: seq<string>, ds: seq<Fact>)
    requires Indexed(index, view) && DistinctKeys(FactIdOf, view)
    requires (forall s :: s in ids <==> s in index) && Handled(view, ds, ids)
    ensures ds == Sort(ByKey(SymbolOf), Soles(view, |view|))
  {
    hide Sole, Indexed;
    SolesProps(view, |view|);
    assert view[..|view|] == view;
    SolesDistinct(view, |view|);
    SortByKeyStrict(SymbolOf, Soles(view, |view|));
    SortMembers(ByKey(SymbolOf), Soles(view, |view|));
    var all := Sort(ByKey(SymbolOf), Soles(view, |view|));
    forall d
      ensures d in ds <==> d in all
    {
      if Sole(view, d) { SoleIsIndexed(index, view, d); }
    }
    StrictListUnique(SymbolOf, ds, all);
  }

  lemma SoleIsIndexed(index: Index, view: seq<Fact>, d: Fact)
    requires Indexed(index, view) && Sole(view, d)
    ensures d in view && d.sem.subject.id in index
  {
    assert InIndex(index, d.sem.subject.id, d.sem.obj.value.id);
  }

  lemma NextSymbol(view: seq<Fact>, ds: seq<Fact>, d: Fact, ids: seq<string>, i: nat)
    requires i < |ids| && StrictlyIncreasing(Identity, ids) && Handled(view, ds, ids[..i])
    requires Sole(view, d) && d.sem.subject.id == ids[i]
    requires forall e | Sole(view, e) && e.sem.subject.id == ids[i] :: e == d
    ensures Handled(view, ds + [d], ids[..i + 1])
  {
    hide Sole;
    var t := ds + [d];
    assert ids[..i + 1] == ids[..i] + [ids[i]];
    forall x, y | 0 <= x < y < |t|
      ensures StrLt(SymbolOf(t[x]), SymbolOf(t[y]))
    {
      if y == |ds| {
        assert ds[x] in ds;
        var k :| 0 <= k < i && ids[k] == ds[x].sem.subject.id;
        assert StrLt(Identity(ids[k]), Identity(ids[i]));
      }
    }
  }
}
