/** Canonical facts: the values the derivation engine reads and produces
    (internal/fact/types.go, internal/fact/identity.go, internal/derivation/clone.go). */
module Facts {
  import opened Ordering

  datatype Option<+T> = None | Some(value: T)

  datatype Scope = Scope(organizationId: string, sourceId: string, snapshotId: string)

  datatype Predicate =
    | PredicateArtifact | PredicateSymbol | PredicateNamedElement | PredicateDefinition
    | PredicateReference | PredicateCall | PredicateDependency | PredicateConfiguration
    | PredicateEndpoint | PredicateMessage | PredicateMembership

  datatype ParticipantKind = ParticipantArtifact | ParticipantSymbol | ParticipantNamedElement

  datatype Participant = Participant(kind: ParticipantKind, id: string)

  /** A number is a finite float64; its JSON text stands for it. */
  datatype TypedValue =
    | ValueString(text: string) | ValueInteger(integer: int) | ValueNumber(number: string)
    | ValueBoolean(boolean: bool) | ValueNull

  datatype Producer = Producer(id: string, version: string, methodName: string)

  /** A locator is carried, never inspected; its JSON text stands for it. */
  datatype EvidenceRef = EvidenceRef(id: string, locator: string)

  datatype Lineage = Lineage(ruleId: string, ruleVersion: string, inputs: seq<string>)

  /** The fields that make up a fact's identity. Qualifiers have unique names and are compared
      in name order, so a map carries them. Evidence and lineage are not part of it. */
  datatype Semantics = Semantics(
    scope: Scope, relation: Predicate, subject: Participant, obj: Option<Participant>,
    value: Option<TypedValue>, qualifiers: map<string, TypedValue>, producer: Producer)

  datatype Fact = Fact(id: string, sem: Semantics, evidence: seq<EvidenceRef>, lineage: Option<Lineage>)

  /** What the engine takes from outside: the digest behind `FactID`, the transport encoding used
      as a tie-breaker, and the digest behind `GapID` for each of the three limit codes. */
  datatype LimitCode = IterationLimit | FactLimit | FanoutLimit

  datatype Codec = Codec(factId: Semantics -> string, encode: Fact -> string, gapId: (Scope, LimitCode) -> string)

  ghost predicate InjectiveId(factId: Semantics -> string) {
    forall a: Semantics, b: Semantics :: factId(a) == factId(b) ==> a == b
  }

  /** The encoding sorts evidence and lineage before it writes them, so it tells canonical copies apart. */
  ghost predicate InjectiveEncoding(encode: Fact -> string) {
    forall a: Fact, b: Fact | CloneFact(a) == a && CloneFact(b) == b :: encode(a) == encode(b) ==> a == b
  }

  function EvidenceId(e: EvidenceRef): string { e.id }

  /** `Lineage.Validate`: named, non-repeating support that is not the fact itself. */
  predicate ValidLineage(l: Lineage, self: string) {
    && l.inputs != []
    && self !in l.inputs
    && forall i, j | 0 <= i < j < |l.inputs| :: l.inputs[i] != l.inputs[j]
  }

  /** `CanonicalFact.Validate`, without the checks on single fields. */
  predicate ValidFact(factId: Semantics -> string, f: Fact) {
    && !(f.sem.obj.Some? && f.sem.value.Some?)
    && f.evidence != []
    && (forall i, j | 0 <= i < |f.evidence| && 0 <= j < |f.evidence| && i != j ::
          EvidenceId(f.evidence[i]) != EvidenceId(f.evidence[j]))
    && (f.lineage.Some? ==> ValidLineage(f.lineage.value, f.id))
    && f.id == factId(f.sem)
  }

  /** `cloneFact`: the detached copy also puts evidence and lineage in canonical order. */
  function CloneFact(f: Fact): Fact {
    f.(evidence := Sort(ByKey(EvidenceId), f.evidence),
       lineage := match f.lineage
                  case None => None
                  case Some(l) => Some(l.(inputs := SortStrings(l.inputs))))
  }

  function RefIds(s: seq<EvidenceRef>): set<string> {
    set e | e in s :: e.id
  }

  function EvidenceIds(f: Fact): set<string> {
    RefIds(f.evidence)
  }

  function InputIds(f: Fact): set<string> {
    if f.lineage.None? then {} else set i | i in f.lineage.value.inputs
  }

  /** Copies keep identity, validity, and the sets of evidence and support. */
  lemma CloneKeeps(factId: Semantics -> string, f: Fact)
    requires ValidFact(factId, f)
    ensures ValidFact(factId, CloneFact(f))
    ensures CloneFact(f).id == f.id && CloneFact(f).sem == f.sem
    ensures EvidenceIds(CloneFact(f)) == EvidenceIds(f) && InputIds(CloneFact(f)) == InputIds(f)
    ensures CloneFact(f).lineage.Some? <==> f.lineage.Some?
  {
    var c := CloneFact(f);
    SortMembers(ByKey(EvidenceId), f.evidence);
    assert DistinctKeys(EvidenceId, f.evidence);
    DistinctKeysAfterSort(EvidenceId, ByKey(EvidenceId), f.evidence);
    assert DistinctKeys(EvidenceId, c.evidence);
    if f.lineage.Some? {
      var l := f.lineage.value;
      SortMembers(ByKey(Identity), l.inputs);
      assert DistinctKeys(Identity, l.inputs);
      DistinctKeysAfterSort(Identity, ByKey(Identity), l.inputs);
      var k := c.lineage.value.inputs;
      assert DistinctKeys(Identity, k);
      forall i, j | 0 <= i < j < |k|
        ensures k[i] != k[j]
      {
        assert Identity(k[i]) != Identity(k[j]);
      }
    }
  }

  /** Further copies change nothing, which is why one copy per fact is enough in this model. */
  lemma CloneIdempotent(f: Fact)
    ensures CloneFact(CloneFact(f)) == CloneFact(f)
  {
    ByKeyPreorder(EvidenceId);
    SortSorted(ByKey(EvidenceId), f.evidence);
    SortOfSorted(ByKey(EvidenceId), Sort(ByKey(EvidenceId), f.evidence));
    if f.lineage.Some? {
      ByKeyPreorder(Identity);
      SortSorted(ByKey(Identity), f.lineage.value.inputs);
      SortOfSorted(ByKey(Identity), SortStrings(f.lineage.value.inputs));
    }
  }

  /** On valid facts the copy depends on the sets of references only, not on their order. */
  lemma CloneForgetsOrder(factId: Semantics -> string, f: Fact, g: Fact)
    requires ValidFact(factId, f) && ValidFact(factId, g)
    requires f.sem == g.sem && multiset(f.evidence) == multiset(g.evidence)
    requires match (f.lineage, g.lineage)
             case (None, None) => true
             case (Some(a), Some(b)) =>
               a.ruleId == b.ruleId && a.ruleVersion == b.ruleVersion && multiset(a.inputs) == multiset(b.inputs)
             case _ => false
    ensures CloneFact(f) == CloneFact(g)
  {
    ByKeyPreorder(EvidenceId);
    AntisymmetricByDistinctKeys(EvidenceId, f.evidence);
    SortPermutation(ByKey(EvidenceId), f.evidence, g.evidence);
    if f.lineage.Some? {
      ByKeyPreorder(Identity);
      AntisymmetricByDistinctKeys(Identity, f.lineage.value.inputs);
      SortPermutation(ByKey(Identity), f.lineage.value.inputs, g.lineage.value.inputs);
    }
  }

  lemma AntisymmetricByDistinctKeys<T>(key: T -> string, s: seq<T>)
    requires DistinctKeys(key, s)
    ensures AntisymmetricOn(ByKey(key), s)
  {
    var le := ByKey(key);
    forall i, j | 0 <= i < |s| && 0 <= j < |s| && le(s[i], s[j]) && le(s[j], s[i])
      ensures s[i] == s[j]
    {
      StrLeAntisymmetric(key(s[i]), key(s[j]));
    }
  }

  // ---------- the known set and its ordered view ----------

  type Known = map<string, Fact>

  /** Every stored fact is valid, in scope, canonical, and filed under its own identity. */
  ghost predicate WellFormed(factId: Semantics -> string, scope: Scope, known: Known) {
    forall id | id in known ::
      && known[id].id == id
      && ValidFact(factId, known[id])
      && known[id].sem.scope == scope
      && CloneFact(known[id]) == known[id]
  }

  lemma {:induction false} LeastExists(s: set<string>) returns (m: string)
    requires s != {}
    ensures m in s && forall x | x in s :: StrLe(m, x)
  {
    m :| m in s;
    StrLeTotal(m, m);
    if s != {m} {
      var rest := s - {m};
      var n := LeastExists(rest);
      StrLeTotal(m, n);
      forall x | x in s && StrLe(m, n)
        ensures StrLe(m, x)
      {
        if x != m { StrLeTransitive(m, n, x); }
      }
      if !StrLe(m, n) {
        forall x | x in s
          ensures StrLe(n, x)
        {
          assert x == m || x in rest;
        }
        m := n;
      }
    }
  }

  ghost predicate IsLeast(s: set<string>, m: string) {
    m in s && forall x | x in s :: StrLe(m, x)
  }

  ghost function Least(s: set<string>): (m: string)
    requires s != {}
    ensures IsLeast(s, m)
  {
    assert exists m :: IsLeast(s, m) by {
      var m := LeastExists(s);
      assert IsLeast(s, m);
    }
    var m :| IsLeast(s, m);
    m
  }

  ghost function SortedKeys(s: set<string>): seq<string>
    decreases |s|
  {
    if s == {} then [] else
    var m := Least(s);
    [m] + SortedKeys(s - {m})
  }

  lemma {:induction false} SortedKeysProps(s: set<string>)
    ensures |SortedKeys(s)| == |s|
    ensures forall x :: x in SortedKeys(s) <==> x in s
    ensures StrictlyIncreasing(Identity, SortedKeys(s))
    decreases |s|
  {
    if s != {} {
      var m := Least(s);
      SortedKeysProps(s - {m});
      var rest := SortedKeys(s - {m});
      forall j | 0 <= j < |rest|
        ensures StrLt(m, rest[j])
      {
        assert rest[j] in s - {m};
      }
    }
  }

  /** `orderedFacts` and `newFactView`: the facts in identity order. */
  ghost function OrderedFacts(known: Known): seq<Fact> {
    SortedKeysProps(known.Keys);
    var ids := SortedKeys(known.Keys);
    seq(|ids|, i requires 0 <= i < |ids| => assert ids[i] in ids; known[ids[i]])
  }

  lemma OrderedFactsProps(known: Known)
    ensures |OrderedFacts(known)| == |known|
    ensures forall i | 0 <= i < |known| ::
              SortedKeys(known.Keys)[i] in known && OrderedFacts(known)[i] == known[SortedKeys(known.Keys)[i]]
    ensures forall f :: f in OrderedFacts(known) <==> exists id :: id in known && known[id] == f
  {
    SortedKeysProps(known.Keys);
    var ids := SortedKeys(known.Keys);
    var view := OrderedFacts(known);
    forall i | 0 <= i < |known|
      ensures ids[i] in known && view[i] == known[ids[i]]
    {
      assert ids[i] in ids;
    }
    forall f
      ensures f in view <==> exists id :: id in known && known[id] == f
    {
      if f in view {
        var i :| 0 <= i < |view| && view[i] == f;
        assert ids[i] in known && known[ids[i]] == f;
      }
      if id :| id in known && known[id] == f {
        assert id in ids;
        var i :| 0 <= i < |ids| && ids[i] == id;
        assert view[i] == f;
      }
    }
  }

  /** A well-formed known set can be read back from its view: distinct identities, rising order. */
  lemma OrderedFactsIds(factId: Semantics -> string, scope: Scope, known: Known)
    requires WellFormed(factId, scope, known)
    ensures forall i | 0 <= i < |known| ::
              |OrderedFacts(known)| == |known| && OrderedFacts(known)[i].id == SortedKeys(known.Keys)[i]
    ensures forall i, j | 0 <= i < j < |known| ::
              |OrderedFacts(known)| == |known| && StrLt(OrderedFacts(known)[i].id, OrderedFacts(known)[j].id)
  {
    SortedKeysProps(known.Keys);
    OrderedFactsProps(known);
    var ids := SortedKeys(known.Keys);
    forall i, j | 0 <= i < j < |known|
      ensures StrLt(OrderedFacts(known)[i].id, OrderedFacts(known)[j].id)
    {
      assert StrLt(Identity(ids[i]), Identity(ids[j]));
    }
  }
}
