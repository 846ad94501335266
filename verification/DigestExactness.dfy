/** What the digests of a bundle identify: exactly its facts, in whatever order they are listed
    (internal/bundle/factual.go:23-207, internal/contract/facts.go). */
module DigestExactness {
  import opened Facts
  import opened Ordering
  import opened AnalyzerOutput
  import opened FactualForm

  // ---------- lists under two maps ----------

  /** On these two lists the first map tells apart what the second does. */
  ghost predicate Finer<T(!new), U, V>(f: T -> U, g: T -> V, a: seq<T>, b: seq<T>) {
    forall x, y | x in a && y in b :: f(x) == f(y) ==> g(x) == g(y)
  }

  lemma FinerWithout<T(!new), U, V>(f: T -> U, g: T -> V, a: seq<T>, b: seq<T>, j: nat, k: nat)
    requires Finer(f, g, a, b) && j < |a| && k < |b|
    ensures Finer(f, g, Without(a, j), Without(b, k))
  {
    assert forall x | x in Without(a, j) :: x in a;
    assert forall y | y in Without(b, k) :: y in b;
  }

  /** Lists alike under the finer map are alike under the other one. */
  lemma {:induction false} FinerAlike<T(!new), U, V>(f: T -> U, g: T -> V, a: seq<T>, b: seq<T>)
    requires Finer(f, g, a, b) && multiset(Map(f, a)) == multiset(Map(f, b))
    ensures multiset(Map(g, a)) == multiset(Map(g, b))
    decreases |a|
  {
    hide Without, Map, Finer;
    MapAt(f, a);
    MapAt(f, b);
    assert |a| == |multiset(Map(f, a))| == |multiset(Map(f, b))| == |b|;
    if a == [] {
      assert a == b;
    } else {
      assert Map(f, a)[0] in multiset(Map(f, b));
      var k :| 0 <= k < |b| && Map(f, b)[k] == Map(f, a)[0];
      FinerHere(f, g, a, b, 0, k);
      FinerWithout(f, g, a, b, 0, k);
      MapWithout(f, a, 0);
      MapWithout(f, b, k);
      assert f(a[0]) == f(b[k]) && multiset(Map(f, Without(a, 0))) == multiset(Map(f, a)) - multiset{f(a[0])};
      WithoutMultiset(a, 0);
      FinerAlike(f, g, Without(a, 0), Without(b, k));
      MapWithout(g, a, 0);
      MapWithout(g, b, k);
    }
  }

  lemma FinerHere<T(!new), U, V>(f: T -> U, g: T -> V, a: seq<T>, b: seq<T>, j: nat, k: nat)
    requires Finer(f, g, a, b) && j < |a| && k < |b| && f(a[j]) == f(b[k])
    ensures g(a[j]) == g(b[k])
  {
  }

  ghost predicate InjectiveMap<T(!new), U>(f: T -> U) {
    forall x: T, y: T :: f(x) == f(y) ==> x == y
  }

  lemma MapInjective<T(!new), U>(f: T -> U, a: seq<T>, b: seq<T>)
    requires InjectiveMap(f)
    ensures Map(f, a) == Map(f, b) <==> a == b
  {
    hide Map;
    MapAt(f, a);
    MapAt(f, b);
    if Map(f, a) == Map(f, b) {
      assert forall i | 0 <= i < |a| :: f(a[i]) == Map(f, a)[i] == f(b[i]);
    }
  }

  /** Elements with distinct keys: sorted, they are equal exactly when they are the same elements. */
  lemma SortedExact<T(!new)>(key: T -> string, a: seq<T>, b: seq<T>)
    requires DistinctKeys(key, a)
    ensures Sort(ByKey(key), a) == Sort(ByKey(key), b) <==> multiset(a) == multiset(b)
  {
    if multiset(a) == multiset(b) { SortByKeyIgnoresOrder(key, a, b); }
    SortMultiset(ByKey(key), a);
    SortMultiset(ByKey(key), b);
  }

  // ---------- the four sequences ----------

  /** What a unit says: its identity, the set of its findings, and the rest. */
  ghost function UnitFact(u: Unit): (string, set<string>, string) {
    (u.id, (set x | x in u.findings), u.rest)
  }

  lemma UnitFactExact(u: Unit, v: Unit)
    ensures ProjectedUnit(u) == ProjectedUnit(v) <==> UnitFact(u) == UnitFact(v)
  {
    hide CanonicalFindings;
    FindingsIgnoreOrderAndRepetition(u.findings, v.findings);
    if UnitFact(u) == UnitFact(v) {
      assert forall x :: x in UnitFact(u).1 <==> x in u.findings;
      assert forall x :: x in UnitFact(v).1 <==> x in v.findings;
      assert CanonicalFindings(u.findings) == CanonicalFindings(v.findings);
    }
    if ProjectedUnit(u) == ProjectedUnit(v) {
      assert u.id == ProjectedUnit(u).id == v.id && u.rest == ProjectedUnit(u).rest == v.rest;
      assert ProjectedUnit(u).findings == CanonicalFindings(u.findings);
      assert ProjectedUnit(v).findings == CanonicalFindings(v.findings);
      assert UnitFact(u).1 == UnitFact(v).1;
    }
  }

  lemma UnitsExact(a: seq<Unit>, b: seq<Unit>)
    requires DistinctKeys(IdOfUnit, a)
    ensures Sort(ByKey(IdOfUnit), Map(ProjectedUnit, a)) == Sort(ByKey(IdOfUnit), Map(ProjectedUnit, b)) <==>
            multiset(Map(UnitFact, a)) == multiset(Map(UnitFact, b))
  {
    hide Map, Sort, ProjectedUnit, UnitFact, DistinctKeys, ByKey;
    ProjectionKeepsIds(a);
    SortedExact(IdOfUnit, Map(ProjectedUnit, a), Map(ProjectedUnit, b));
    forall u, v
      ensures ProjectedUnit(u) == ProjectedUnit(v) <==> UnitFact(u) == UnitFact(v)
    {
      UnitFactExact(u, v);
    }
    if multiset(Map(ProjectedUnit, a)) == multiset(Map(ProjectedUnit, b)) { FinerAlike(ProjectedUnit, UnitFact, a, b); }
    if multiset(Map(UnitFact, a)) == multiset(Map(UnitFact, b)) { FinerAlike(UnitFact, ProjectedUnit, a, b); }
  }

  lemma ManifestKeysDiffer(benv: BundleEnv, a: seq<FrontendManifest>)
    requires CleanManifests(benv) && AllOf(benv.validManifest, a) && DistinctKeys(IdOfManifest, a)
    ensures DistinctKeys(ManifestKey, Map(benv.canonicalManifest, a))
  {
    var c := Map(benv.canonicalManifest, a);
    MapAt(benv.canonicalManifest, a);
    forall i, j | 0 <= i < |c| && 0 <= j < |c| && i != j
      ensures ManifestKey(c[i]) != ManifestKey(c[j])
    {
      KeysOfManifestsDiffer(benv, a[i], a[j]);
    }
  }

  lemma ManifestsExact(benv: BundleEnv, a: seq<FrontendManifest>, b: seq<FrontendManifest>)
    requires CleanManifests(benv) && InjectiveMap(benv.encodeManifest)
    requires DigestedManifests(benv, a).Some? && DigestedManifests(benv, b).Some?
    ensures DigestedManifests(benv, a) == DigestedManifests(benv, b) <==>
            multiset(Map(benv.canonicalManifest, a)) == multiset(Map(benv.canonicalManifest, b))
  {
    hide Map, Sort, DistinctKeys, AllOf, ByKey, CleanManifests, InjectiveMap;
    var c, d := Map(benv.canonicalManifest, a), Map(benv.canonicalManifest, b);
    ManifestKeysDiffer(benv, a);
    SortedExact(ManifestKey, c, d);
    MapInjective(benv.encodeManifest, Sort(ByKey(ManifestKey), c), Sort(ByKey(ManifestKey), d));
  }

  /** The canonical bytes of a fact hold its identity. */
  ghost predicate BytesNameFact(benv: BundleEnv) {
    forall x: Fact, y: Fact | benv.canonicalBytes(x).Some? && benv.canonicalBytes(x) == benv.canonicalBytes(y) ::
        x.id == y.id
  }

  ghost function NamedBytes(benv: BundleEnv): Fact -> (string, string) {
    (f: Fact) => (f.id, ValueOf(benv.canonicalBytes)(f))
  }

  function NameOf(p: (string, string)): string { p.0 }

  lemma NamedBytesAlike(benv: BundleEnv, a: seq<Fact>, b: seq<Fact>)
    requires BytesNameFact(benv) && AllOf(Encoded(benv.canonicalBytes), a) && AllOf(Encoded(benv.canonicalBytes), b)
    ensures Finer(ValueOf(benv.canonicalBytes), NamedBytes(benv), a, b)
    ensures Finer(NamedBytes(benv), ValueOf(benv.canonicalBytes), a, b)
  {
    forall x, y | x in a && y in b && ValueOf(benv.canonicalBytes)(x) == ValueOf(benv.canonicalBytes)(y)
      ensures NamedBytes(benv)(x) == NamedBytes(benv)(y)
    {
      assert Encoded(benv.canonicalBytes)(x) && Encoded(benv.canonicalBytes)(y);
    }
  }

  lemma FactsExact(benv: BundleEnv, a: seq<Fact>, b: seq<Fact>)
    requires BytesNameFact(benv) && DigestedFacts(benv, a).Some? && DigestedFacts(benv, b).Some?
    ensures DigestedFacts(benv, a) == DigestedFacts(benv, b) <==>
            multiset(Map(ValueOf(benv.canonicalBytes), a)) == multiset(Map(ValueOf(benv.canonicalBytes), b))
  {
    hide Map, Sort, DistinctKeys, AllOf, BytesNameFact, Finer, ValueOf, Encoded;
    var bytes, named := ValueOf(benv.canonicalBytes), NamedBytes(benv);
    var x, y := Sort(ByKey(IdOfFact), a), Sort(ByKey(IdOfFact), b);
    SortMultiset(ByKey(IdOfFact), a);
    SortMultiset(ByKey(IdOfFact), b);
    MapAlike(bytes, x, a);
    MapAlike(bytes, y, b);
    if multiset(Map(bytes, a)) == multiset(Map(bytes, b)) {
      NamedBytesAlike(benv, a, b);
      FinerAlike(bytes, named, a, b);
      NamesSort(benv, a);
      NamesSort(benv, b);
      SortByKeyIgnoresOrder(NameOf, Map(named, a), Map(named, b));
      assert Map(named, x) == Map(named, y);
      BytesOfNamed(benv, x);
      BytesOfNamed(benv, y);
      assert Map(bytes, x) == Map(bytes, y);
    }
  }

  lemma NamesSort(benv: BundleEnv, a: seq<Fact>)
    requires DistinctKeys(IdOfFact, a)
    ensures Map(NamedBytes(benv), Sort(ByKey(IdOfFact), a)) == Sort(ByKey(NameOf), Map(NamedBytes(benv), a))
    ensures DistinctKeys(NameOf, Map(NamedBytes(benv), a))
  {
    hide Map, Sort;
    forall y: Fact, z: Fact
      ensures ByKey(IdOfFact)(y, z) == ByKey(NameOf)(NamedBytes(benv)(y), NamedBytes(benv)(z))
    {
      assert IdOfFact(y) == NameOf(NamedBytes(benv)(y)) && IdOfFact(z) == NameOf(NamedBytes(benv)(z));
    }
    SortMap(NamedBytes(benv), ByKey(IdOfFact), ByKey(NameOf), a);
    MapAt(NamedBytes(benv), a);
  }

  lemma BytesOfNamed(benv: BundleEnv, s: seq<Fact>)
    ensures |Map(NamedBytes(benv), s)| == |Map(ValueOf(benv.canonicalBytes), s)| == |s|
    ensures forall i | 0 <= i < |s| :: Map(ValueOf(benv.canonicalBytes), s)[i] == Map(NamedBytes(benv), s)[i].1
  {
    hide Map;
    MapAt(NamedBytes(benv), s);
    MapAt(ValueOf(benv.canonicalBytes), s);
  }

  lemma ExtensionsExact(benv: BundleEnv, a: seq<string>, b: seq<string>)
    requires DigestedExtensions(benv, a).Some? && DigestedExtensions(benv, b).Some?
    ensures DigestedExtensions(benv, a) == DigestedExtensions(benv, b) <==>
            multiset(Map(ValueOf(benv.canonicalExtension), a)) == multiset(Map(ValueOf(benv.canonicalExtension), b))
  {
    hide Map, Sort, ValueOf;
    var c, d := Map(ValueOf(benv.canonicalExtension), a), Map(ValueOf(benv.canonicalExtension), b);
    SortMultiset(ByKey(Identity), c);
    SortMultiset(ByKey(Identity), d);
    if multiset(c) == multiset(d) { SortedTextsIgnoreOrder(c, d); }
  }

  // ---------- the digests ----------

  /** Every unit is valid and the identities differ. */
  ghost predicate GoodUnits(benv: BundleEnv, units: seq<Unit>) {
    && (forall i | 0 <= i < |units| :: benv.validUnit(units[i]))
    && (forall i, j | 0 <= i < j < |units| :: units[i].id != units[j].id)
  }

  /** So it is with manifests and facts; every fact and every extension has canonical bytes. */
  ghost predicate GoodSequences(benv: BundleEnv, b: Bundle) {
    && (forall i | 0 <= i < |b.manifests| :: benv.validManifest(b.manifests[i]))
    && (forall i, j | 0 <= i < j < |b.manifests| :: b.manifests[i].id != b.manifests[j].id)
    && (forall i | 0 <= i < |b.facts| :: benv.canonicalBytes(b.facts[i]).Some?)
    && (forall i, j | 0 <= i < j < |b.facts| :: b.facts[i].id != b.facts[j].id)
    && (forall i | 0 <= i < |b.extensions| :: benv.canonicalExtension(b.extensions[i]).Some?)
  }

  /** A bundle has a digest exactly when its sequences are good. */
  lemma DigestExists(env: Env, benv: BundleEnv, b: Bundle)
    ensures LegacyDigest(env, benv, b).Some? <==> GoodUnits(benv, b.evidence)
    ensures DigestV2(env, benv, b).Some? <==> GoodUnits(benv, b.evidence) && GoodSequences(benv, b)
  {
    hide FactualDigest, Map, Sort;
    DistinctPairs(IdOfUnit, b.evidence);
    DistinctPairs(IdOfManifest, b.manifests);
    DistinctPairs(IdOfFact, b.facts);
  }

  lemma DistinctPairs<T>(id: T -> string, s: seq<T>)
    ensures DistinctKeys(id, s) <==> forall i, j | 0 <= i < j < |s| :: id(s[i]) != id(s[j])
  {
  }

  /** JSON and the hash lose nothing. */
  ghost predicate LosesNothing(env: Env, benv: BundleEnv) {
    && InjectiveEncode(env) && InjectiveHash(env.hash)
    && (forall x, y, u, v :: benv.encodeLegacy(x, y) == benv.encodeLegacy(u, v) ==> x == u && y == v)
    && (forall x, y, z, w, p, q, r, s :: benv.encodeV2(x, y, z, w) == benv.encodeV2(p, q, r, s) ==>
        x == p && y == q && z == r && w == s)
    && InjectiveMap(benv.encodeManifest) && BytesNameFact(benv) && CleanManifests(benv)
  }

  /** The same facts of the result, and units that say the same. */
  ghost predicate SameCore(env: Env, a: Bundle, b: Bundle) {
    && SameFacts(FactsOf(env, a.result), FactsOf(env, b.result))
    && multiset(Map(UnitFact, a.evidence)) == multiset(Map(UnitFact, b.evidence))
  }

  /** The same canonical manifests, canonical facts and canonical extensions, in any order. */
  ghost predicate SameSequences(benv: BundleEnv, a: Bundle, b: Bundle) {
    && multiset(Map(benv.canonicalManifest, a.manifests)) == multiset(Map(benv.canonicalManifest, b.manifests))
    && multiset(Map(ValueOf(benv.canonicalBytes), a.facts)) == multiset(Map(ValueOf(benv.canonicalBytes), b.facts))
    && multiset(Map(ValueOf(benv.canonicalExtension), a.extensions))
       == multiset(Map(ValueOf(benv.canonicalExtension), b.extensions))
  }

  /** The first-version digests of two bundles are equal exactly when their results have the same facts and
      their units say the same. */
  lemma LegacyDigestExact(env: Env, benv: BundleEnv, a: Bundle, b: Bundle)
    requires LosesNothing(env, benv) && DistinctIds(FactsOf(env, a.result))
    requires GoodUnits(benv, a.evidence) && GoodUnits(benv, b.evidence)
    ensures LegacyDigest(env, benv, a) == LegacyDigest(env, benv, b) <==> SameCore(env, a, b)
  {
    hide FactualDigest, FactsOf, SameFacts, DistinctIds, Map, Sort, UnitFact, ProjectedUnit, InjectiveEncode;
    DigestExists(env, benv, a);
    DigestExists(env, benv, b);
    EquivalentExact(env, a.result, b.result);
    UnitsExact(a.evidence, b.evidence);
  }

  lemma DomainIsPrefix(a: string, b: string)
    ensures DOMAIN + a == DOMAIN + b <==> a == b
  {
    if DOMAIN + a == DOMAIN + b { SameFront(DOMAIN, a, b); }
  }

  /** The second-version digests are equal exactly when, besides, the canonical manifests, facts and
      extensions are the same. */
  lemma DigestV2Exact(env: Env, benv: BundleEnv, a: Bundle, b: Bundle)
    requires LosesNothing(env, benv) && DistinctIds(FactsOf(env, a.result))
    requires GoodUnits(benv, a.evidence) && GoodSequences(benv, a)
    requires GoodUnits(benv, b.evidence) && GoodSequences(benv, b)
    ensures DigestV2(env, benv, a) == DigestV2(env, benv, b) <==> SameCore(env, a, b) && SameSequences(benv, a, b)
  {
    hide DistinctIds, FactsOf, Map, Sort, SameCore, GoodUnits, GoodSequences, LegacyDigest, DigestedManifests,
        DigestedFacts, DigestedExtensions, InjectiveEncode, BytesNameFact, CleanManifests, InjectiveMap;
    DigestExists(env, benv, a);
    DigestExists(env, benv, b);
    LegacyDigestExact(env, benv, a, b);
    ManifestsExact(benv, a.manifests, b.manifests);
    FactsExact(benv, a.facts, b.facts);
    ExtensionsExact(benv, a.extensions, b.extensions);
    if DigestV2(env, benv, a) == DigestV2(env, benv, b) {
      var l, m, f, e := LegacyDigest(env, benv, a).value, DigestedManifests(benv, a.manifests).value,
        DigestedFacts(benv, a.facts).value, DigestedExtensions(benv, a.extensions).value;
      var l', m', f', e' := LegacyDigest(env, benv, b).value, DigestedManifests(benv, b.manifests).value,
        DigestedFacts(benv, b.facts).value, DigestedExtensions(benv, b.extensions).value;
      DomainIsPrefix(benv.encodeV2(l, m, f, e), benv.encodeV2(l', m', f', e'));
    }
  }

  /** The digests of the two versions never meet: no first-version payload begins with the domain of the
      second version. */
  lemma VersionsNeverMeet(env: Env, benv: BundleEnv, a: Bundle, b: Bundle)
    requires InjectiveHash(env.hash) && LegacyDigest(env, benv, a).Some? && DigestV2(env, benv, b).Some?
    requires forall x, y :: !("manu:bundle:factual:v1alpha2\0" <= benv.encodeLegacy(x, y))
    ensures LegacyDigest(env, benv, a) != DigestV2(env, benv, b)
  {
    hide FactualDigest, Map, Sort, DigestedManifests, DigestedFacts, DigestedExtensions;
    var units := Sort(ByKey(IdOfUnit), Map(ProjectedUnit, a.evidence));
    assert !(DOMAIN <= benv.encodeLegacy(FactualDigest(env, a.result), units));
  }
}
