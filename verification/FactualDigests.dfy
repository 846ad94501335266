/** The loops that normalise a result in place and digest a bundle, against their definitions
    (internal/contract/identity.go:116-200, internal/bundle/factual.go:23-207). */
module FactualDigests {
  import opened Facts
  import opened Ordering
  import opened AnalyzerOutput
  import opened FactualForm

  lemma {:induction false} MapMore<T, U>(f: T -> U, s: seq<T>, x: T)
    ensures Map(f, s + [x]) == Map(f, s) + [f(x)]
  {
    if s == [] {
      assert [] + [x] == [x];
      assert [x][1..] == [];
    } else {
      MapMore(f, s[1..], x);
      assert (s + [x])[1..] == s[1..] + [x];
    }
  }

  /** Every element replaced by what `fill` makes of it. */
  method FillAll<T, U>(fill: T -> U, s: seq<T>) returns (r: seq<U>)
    ensures r == Map(fill, s)
  {
    hide Map;
    r := [];
    var i := 0;
    MapOfNothing(fill);
    while i < |s|
      invariant 0 <= i <= |s| && r == Map(fill, s[..i])
    {
      MapMore(fill, s[..i], s[i]);
      assert s[..i + 1] == s[..i] + [s[i]];
      r := r + [fill(s[i])];
      i := i + 1;
    }
    assert s[..i] == s;
  }

  lemma MapOfNothing<T, U>(f: T -> U)
    ensures Map(f, []) == []
  {
  }

  /** A result whose collections are filled in and sorted in place. */
  class MutableResult {
    var core: Core
    var artifacts: seq<Artifact>
    var contributions: seq<Observed>
    var coverage: seq<Coverage>
    var gaps: seq<Gap>
    var failures: seq<Failure>

    function Value(): Result
      reads this
    {
      Result(core, artifacts, contributions, coverage, gaps, failures)
    }

    /** `Normalize`, up to its validation. */
    method Normalize(env: Env)
      modifies this
      ensures Value() == FactualForm.Normalize(env, old(Value()))
    {
      hide Map, Sort;
      core := env.complete(core);
      artifacts := FillAll(FillArtifact(env, core), artifacts);
      contributions := FillAll(FillContribution(env), contributions);
      coverage := FillAll(FillCoverage(env), coverage);
      gaps := FillAll(FillGap(env), gaps);
      failures := FillAll(FillFailure(env), failures);
      artifacts := Sort(ByTuple(ArtifactKeys), artifacts);
      contributions := Sort(ByTuple(ObservedKeys), contributions);
      coverage := Sort(ByTuple(CoverageKeys), coverage);
      gaps := Sort(ByTuple(GapKeys), gaps);
      failures := Sort(ByTuple(FailureKeys), failures);
    }
  }

  // ---------- the sequences of a bundle ----------

  /** The loop that validates every element and refuses a repeated identity. */
  method AllValidAndDistinct<T>(valid: T -> bool, id: T -> string, s: seq<T>) returns (fine: bool)
    ensures fine <==> AllOf(valid, s) && DistinctKeys(id, s)
  {
    var seen: set<string> := {};
    var i := 0;
    while i < |s|
      invariant 0 <= i <= |s| && AllOf(valid, s[..i]) && DistinctKeys(id, s[..i])
      invariant forall x :: x in seen <==> exists j :: 0 <= j < i && id(s[j]) == x
    {
      if !valid(s[i]) { return false; }
      if id(s[i]) in seen { return false; }
      seen := seen + {id(s[i])};
      assert s[..i + 1] == s[..i] + [s[i]];
      DistinctAppend(id, s[..i], s[i]);
      i := i + 1;
    }
    assert s[..i] == s;
    fine := true;
  }

  lemma {:induction false} DeduplicatedMore(s: seq<string>, x: string)
    ensures Deduplicated(s + [x]) == if s != [] && s[|s| - 1] == x then Deduplicated(s) else Deduplicated(s) + [x]
    ensures s != [] ==> Deduplicated(s) != [] && Deduplicated(s)[|Deduplicated(s)| - 1] == s[|s| - 1]
  {
    var more := s + [x];
    if |s| <= 1 {
      assert s == [] ==> more == [x];
      assert |s| == 1 ==> more[1..] == [x];
    } else {
      assert more[1..] == s[1..] + [x];
      DeduplicatedMore(s[1..], x);
    }
  }

  /** `canonicalFindings`. */
  method Findings(findings: seq<string>) returns (r: seq<string>)
    ensures r == CanonicalFindings(findings)
  {
    hide Deduplicated;
    var ordered := SortStrings(findings);
    r := [];
    NothingRepeated();
    var i := 0;
    while i < |ordered|
      invariant 0 <= i <= |ordered| && r == Deduplicated(ordered[..i])
      invariant i > 0 ==> r != [] && r[|r| - 1] == ordered[i - 1]
    {
      DeduplicatedMore(ordered[..i], ordered[i]);
      assert ordered[..i + 1] == ordered[..i] + [ordered[i]];
      if |r| == 0 || r[|r| - 1] != ordered[i] {
        r := r + [ordered[i]];
      }
      i := i + 1;
    }
    assert ordered[..i] == ordered;
  }

  lemma NothingRepeated()
    ensures Deduplicated([]) == []
  {
  }

  method LegacyDigestOf(env: Env, benv: BundleEnv, b: Bundle) returns (r: Option<string>)
    ensures r == LegacyDigest(env, benv, b)
  {
    hide AllOf, DistinctKeys, FactualDigest, Map, Sort;
    var legacy := FactualDigest(env, b.result);
    var fine := AllValidAndDistinct(benv.validUnit, IdOfUnit, b.evidence);
    if !fine { return None; }
    var projected := FillAll(ProjectedUnit, b.evidence);
    r := Some(env.hash(benv.encodeLegacy(legacy, Sort(ByKey(IdOfUnit), projected))));
  }

  method Manifests(benv: BundleEnv, manifests: seq<FrontendManifest>) returns (r: Option<seq<string>>)
    ensures r == DigestedManifests(benv, manifests)
  {
    hide AllOf, DistinctKeys, Map, Sort;
    var fine := AllValidAndDistinct(benv.validManifest, IdOfManifest, manifests);
    if !fine { return None; }
    var ordered := FillAll(benv.canonicalManifest, manifests);
    ordered := Sort(ByKey(ManifestKey), ordered);
    var encoded := FillAll(benv.encodeManifest, ordered);
    r := Some(encoded);
  }

  method EncodeAll<T>(encode: T -> Option<string>, s: seq<T>) returns (r: Option<seq<string>>)
    ensures r == if AllOf(Encoded(encode), s) then Some(Map(ValueOf(encode), s)) else None
  {
    hide Map;
    var encoded: seq<string> := [];
    var i := 0;
    MapOfNothing(ValueOf(encode));
    while i < |s|
      invariant 0 <= i <= |s| && AllOf(Encoded(encode), s[..i]) && encoded == Map(ValueOf(encode), s[..i])
    {
      var bytes := encode(s[i]);
      if bytes.None? { return None; }
      MapMore(ValueOf(encode), s[..i], s[i]);
      assert s[..i + 1] == s[..i] + [s[i]];
      encoded := encoded + [bytes.value];
      i := i + 1;
    }
    assert s[..i] == s;
    r := Some(encoded);
  }

  /** The facts, sorted before repetitions are looked for. */
  method CanonicalFacts(benv: BundleEnv, facts: seq<Fact>) returns (r: Option<seq<string>>)
    ensures r == DigestedFacts(benv, facts)
  {
    hide AllOf, DistinctKeys, Map, Sort;
    var ordered := Sort(ByKey(IdOfFact), facts);
    SortMultiset(ByKey(IdOfFact), facts);
    DistinctBoth(IdOfFact, ordered, facts);
    AllOfPermutes(Encoded(benv.canonicalBytes), ordered, facts);
    AllOfTrue(ordered);
    var fine := AllValidAndDistinct((f: Fact) => true, IdOfFact, ordered);
    if !fine { return None; }
    r := EncodeAll(benv.canonicalBytes, ordered);
  }

  lemma AllOfTrue<T>(s: seq<T>)
    ensures AllOf((x: T) => true, s)
  {
  }

  method CanonicalExtensions(benv: BundleEnv, extensions: seq<string>) returns (r: Option<seq<string>>)
    ensures r == DigestedExtensions(benv, extensions)
  {
    hide AllOf, Map, Sort;
    var encoded := EncodeAll(benv.canonicalExtension, extensions);
    r := match encoded case None => None case Some(values) => Some(SortStrings(values));
  }

  /** `FactualDigestV2`. */
  method FactualDigestV2(env: Env, benv: BundleEnv, b: Bundle) returns (r: Option<string>)
    ensures r == DigestV2(env, benv, b)
  {
    hide LegacyDigest, DigestedManifests, DigestedFacts, DigestedExtensions;
    var legacy := LegacyDigestOf(env, benv, b);
    if legacy.None? { return None; }
    var manifests := Manifests(benv, b.manifests);
    if manifests.None? { return None; }
    var facts := CanonicalFacts(benv, b.facts);
    if facts.None? { return None; }
    var extensions := CanonicalExtensions(benv, b.extensions);
    if extensions.None? { return None; }
    r := Some(env.hash(DOMAIN + benv.encodeV2(legacy.value, manifests.value, facts.value, extensions.value)));
  }
}
