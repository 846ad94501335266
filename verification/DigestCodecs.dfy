/** Encodings with everything the theorems about digests ask of JSON: every field is written behind its
    length, every list as the frame of its elements (internal/contract/identity.go:314-323). */
module DigestCodecs {
  import opened Facts
  import opened AnalyzerOutput
  import opened IdentityFraming
  import opened FactualForm
  import opened DigestExactness

  function ListText<T>(text: T -> string, s: seq<T>): string {
    Frame(Map(text, s))
  }

  lemma ListTextInjective<T(!new)>(text: T -> string, a: seq<T>, b: seq<T>)
    requires InjectiveMap(text)
    ensures ListText(text, a) == ListText(text, b) ==> a == b
  {
    hide Map, Frame;
    FramingIsInjective(Map(text, a), Map(text, b));
    MapInjective(text, a, b);
  }

  function PlaceText(l: Locator): string { Frame([l.sourceId, l.artifactId, l.path, l.span]) }

  function MaybePlaceText(l: Option<Locator>): string {
    Frame(if l.None? then [] else [PlaceText(l.value)])
  }

  function ArtifactText(a: Artifact): string { Frame([a.id, a.sourceId, a.path, a.hash, a.rest]) }

  function ContributionText(c: Contribution): string {
    Frame([c.id, c.artifactId, c.analyzerId, c.analyzerVersion, c.methodName, c.kind, c.value, PlaceText(c.locator)])
  }

  function CoverageText(c: Coverage): string {
    Frame([c.id, c.dimension, c.scope, c.state, c.analyzerId, c.message, MaybePlaceText(c.locator)])
  }

  function GapText(g: Gap): string {
    Frame([g.id, g.code, g.dimension, g.scope, g.message, g.analyzerId, MaybePlaceText(g.locator)])
  }

  function FailureText(f: Failure): string {
    Frame([f.id, f.code, f.operation, f.message, f.artifactId, f.analyzerId, if f.partial then "t" else "f",
        MaybePlaceText(f.locator)])
  }

  function CoreText(c: Core): string { Frame([c.contractVersion, c.resultId, c.sourceId, c.source, c.snapshot]) }

  function ResultText(r: FactualResult): string {
    Frame([CoreText(r.core), ListText(ArtifactText, r.artifacts), ListText(ContributionText, r.contributions),
        ListText(CoverageText, r.coverage), ListText(GapText, r.gaps), ListText(FailureText, r.failures)])
  }

  function UnitText(u: Unit): string { Frame([u.id, Frame(u.findings), u.rest]) }

  function ManifestText(m: FrontendManifest): string { Frame([m.id, m.version, m.methodName, m.rest]) }

  function LegacyText(digest: string, units: seq<Unit>): string { Frame([digest, ListText(UnitText, units)]) }

  function V2Text(legacy: string, manifests: seq<string>, facts: seq<string>, extensions: seq<string>): string {
    Frame([legacy, Frame(manifests), Frame(facts), Frame(extensions)])
  }

  lemma PlaceTextInjective()
    ensures InjectiveMap(PlaceText) && InjectiveMap(MaybePlaceText)
  {
    hide Frame;
    forall a: Locator, b: Locator | PlaceText(a) == PlaceText(b)
      ensures a == b
    {
      var x, y := [a.sourceId, a.artifactId, a.path, a.span], [b.sourceId, b.artifactId, b.path, b.span];
      FramingIsInjective(x, y);
      assert x[0] == y[0] && x[1] == y[1] && x[2] == y[2] && x[3] == y[3];
    }
    forall a: Option<Locator>, b: Option<Locator> | MaybePlaceText(a) == MaybePlaceText(b)
      ensures a == b
    {
      var x: seq<string> := if a.None? then [] else [PlaceText(a.value)];
      var y: seq<string> := if b.None? then [] else [PlaceText(b.value)];
      FramingIsInjective(x, y);
      assert |x| == |y|;
      if a.Some? { assert x[0] == y[0]; }
    }
  }

  lemma ItemTextsInjective()
    ensures InjectiveMap(ArtifactText) && InjectiveMap(ContributionText)
  {
    hide Frame, PlaceText, MaybePlaceText;
    PlaceTextInjective();
    forall a: Artifact, b: Artifact | ArtifactText(a) == ArtifactText(b)
      ensures a == b
    {
      var x, y := [a.id, a.sourceId, a.path, a.hash, a.rest], [b.id, b.sourceId, b.path, b.hash, b.rest];
      FramingIsInjective(x, y);
      assert x[0] == y[0] && x[1] == y[1] && x[2] == y[2] && x[3] == y[3] && x[4] == y[4];
    }
    forall a: Contribution, b: Contribution | ContributionText(a) == ContributionText(b)
      ensures a == b
    {
      var x := [a.id, a.artifactId, a.analyzerId, a.analyzerVersion, a.methodName, a.kind, a.value,
        PlaceText(a.locator)];
      var y := [b.id, b.artifactId, b.analyzerId, b.analyzerVersion, b.methodName, b.kind, b.value,
        PlaceText(b.locator)];
      FramingIsInjective(x, y);
      assert x[0] == y[0] && x[1] == y[1] && x[2] == y[2] && x[3] == y[3] && x[4] == y[4] && x[5] == y[5];
      assert x[6] == y[6] && x[7] == y[7];
    }
  }

  lemma ReportTextsInjective()
    ensures InjectiveMap(CoverageText) && InjectiveMap(GapText) && InjectiveMap(FailureText)
  {
    hide Frame, PlaceText, MaybePlaceText;
    PlaceTextInjective();
    forall a: Coverage, b: Coverage | CoverageText(a) == CoverageText(b)
      ensures a == b
    {
      var x := [a.id, a.dimension, a.scope, a.state, a.analyzerId, a.message, MaybePlaceText(a.locator)];
      var y := [b.id, b.dimension, b.scope, b.state, b.analyzerId, b.message, MaybePlaceText(b.locator)];
      FramingIsInjective(x, y);
      assert x[0] == y[0] && x[1] == y[1] && x[2] == y[2] && x[3] == y[3] && x[4] == y[4] && x[5] == y[5];
      assert x[6] == y[6];
    }
    forall a: Gap, b: Gap | GapText(a) == GapText(b)
      ensures a == b
    {
      var x := [a.id, a.code, a.dimension, a.scope, a.message, a.analyzerId, MaybePlaceText(a.locator)];
      var y := [b.id, b.code, b.dimension, b.scope, b.message, b.analyzerId, MaybePlaceText(b.locator)];
      FramingIsInjective(x, y);
      assert x[0] == y[0] && x[1] == y[1] && x[2] == y[2] && x[3] == y[3] && x[4] == y[4] && x[5] == y[5];
      assert x[6] == y[6];
    }
    forall a: Failure, b: Failure | FailureText(a) == FailureText(b)
      ensures a == b
    {
      var x := [a.id, a.code, a.operation, a.message, a.artifactId, a.analyzerId, if a.partial then "t" else "f",
        MaybePlaceText(a.locator)];
      var y := [b.id, b.code, b.operation, b.message, b.artifactId, b.analyzerId, if b.partial then "t" else "f",
        MaybePlaceText(b.locator)];
      FramingIsInjective(x, y);
      assert x[0] == y[0] && x[1] == y[1] && x[2] == y[2] && x[3] == y[3] && x[4] == y[4] && x[5] == y[5];
      assert x[6] == y[6] && x[7] == y[7] && "t"[0] != "f"[0];
    }
  }

  lemma ResultTextInjective(a: FactualResult, b: FactualResult)
    requires ResultText(a) == ResultText(b)
    ensures a == b
  {
    hide Frame, ListText, InjectiveMap, ArtifactText, ContributionText, CoverageText, GapText, FailureText, CoreText;
    var x := [CoreText(a.core), ListText(ArtifactText, a.artifacts), ListText(ContributionText, a.contributions),
      ListText(CoverageText, a.coverage), ListText(GapText, a.gaps), ListText(FailureText, a.failures)];
    var y := [CoreText(b.core), ListText(ArtifactText, b.artifacts), ListText(ContributionText, b.contributions),
      ListText(CoverageText, b.coverage), ListText(GapText, b.gaps), ListText(FailureText, b.failures)];
    FramingIsInjective(x, y);
    assert x[0] == y[0] && x[1] == y[1] && x[2] == y[2] && x[3] == y[3] && x[4] == y[4] && x[5] == y[5];
    CoreTextInjective(a.core, b.core);
    ItemTextsInjective();
    ReportTextsInjective();
    ListTextInjective(ArtifactText, a.artifacts, b.artifacts);
    ListTextInjective(ContributionText, a.contributions, b.contributions);
    ListTextInjective(CoverageText, a.coverage, b.coverage);
    ListTextInjective(GapText, a.gaps, b.gaps);
    ListTextInjective(FailureText, a.failures, b.failures);
  }

  lemma CoreTextInjective(a: Core, b: Core)
    requires CoreText(a) == CoreText(b)
    ensures a == b
  {
    hide Frame;
    var x := [a.contractVersion, a.resultId, a.sourceId, a.source, a.snapshot];
    var y := [b.contractVersion, b.resultId, b.sourceId, b.source, b.snapshot];
    FramingIsInjective(x, y);
    assert x[0] == y[0] && x[1] == y[1] && x[2] == y[2] && x[3] == y[3] && x[4] == y[4];
  }

  lemma UnitAndManifestTextsInjective()
    ensures InjectiveMap(UnitText) && InjectiveMap(ManifestText)
  {
    hide Frame;
    forall a: Unit, b: Unit | UnitText(a) == UnitText(b)
      ensures a == b
    {
      var x, y := [a.id, Frame(a.findings), a.rest], [b.id, Frame(b.findings), b.rest];
      FramingIsInjective(x, y);
      assert x[0] == y[0] && x[1] == y[1] && x[2] == y[2];
      FramingIsInjective(a.findings, b.findings);
    }
    forall a: FrontendManifest, b: FrontendManifest | ManifestText(a) == ManifestText(b)
      ensures a == b
    {
      var x, y := [a.id, a.version, a.methodName, a.rest], [b.id, b.version, b.methodName, b.rest];
      FramingIsInjective(x, y);
      assert x[0] == y[0] && x[1] == y[1] && x[2] == y[2] && x[3] == y[3];
    }
  }

  lemma LegacyTextInjective(x: string, y: seq<Unit>, u: string, v: seq<Unit>)
    requires LegacyText(x, y) == LegacyText(u, v)
    ensures x == u && y == v
  {
    hide Frame, ListText, UnitText;
    var a, b := [x, ListText(UnitText, y)], [u, ListText(UnitText, v)];
    FramingIsInjective(a, b);
    assert a[0] == b[0] && a[1] == b[1];
    UnitAndManifestTextsInjective();
    ListTextInjective(UnitText, y, v);
  }

  lemma V2TextInjective(x: string, y: seq<string>, z: seq<string>, w: seq<string>, p: string, q: seq<string>,
      r: seq<string>, s: seq<string>)
    requires V2Text(x, y, z, w) == V2Text(p, q, r, s)
    ensures x == p && y == q && z == r && w == s
  {
    hide Frame;
    var a, b := [x, Frame(y), Frame(z), Frame(w)], [p, Frame(q), Frame(r), Frame(s)];
    FramingIsInjective(a, b);
    assert a[0] == b[0] && a[1] == b[1] && a[2] == b[2] && a[3] == b[3];
    FramingIsInjective(y, q);
    FramingIsInjective(z, r);
    FramingIsInjective(w, s);
  }

  /** These encodings lose nothing, with any digests of items and any cleaning of paths. */
  function FramedEnv(ids: Ids, artifactId: (string, string, string) -> string, canonicalPath: string -> string): Env {
    Env(ids, artifactId, canonicalPath, (c: Core) => c, ResultText, (s: string) => s)
  }

  function FramedBundleEnv(): BundleEnv {
    BundleEnv((u: Unit) => true, (m: FrontendManifest) => '\0' !in m.id, (m: FrontendManifest) => m,
              (f: Fact) => Some(f.id), (s: string) => Some(s), ManifestText, LegacyText, V2Text)
  }

  lemma FramedEncodingsMeetAll(ids: Ids, artifactId: (string, string, string) -> string,
      canonicalPath: string -> string)
    ensures LosesNothing(FramedEnv(ids, artifactId, canonicalPath), FramedBundleEnv())
  {
    hide ResultText, ManifestText, LegacyText, V2Text;
    var env, benv := FramedEnv(ids, artifactId, canonicalPath), FramedBundleEnv();
    UnitAndManifestTextsInjective();
    forall a: FactualResult, b: FactualResult | env.encode(a) == env.encode(b)
      ensures a == b
    {
      ResultTextInjective(a, b);
    }
    forall x, y, u, v | benv.encodeLegacy(x, y) == benv.encodeLegacy(u, v)
      ensures x == u && y == v
    {
      LegacyTextInjective(x, y, u, v);
    }
    forall x, y, z, w, p, q, r, s | benv.encodeV2(x, y, z, w) == benv.encodeV2(p, q, r, s)
      ensures x == p && y == q && z == r && w == s
    {
      V2TextInjective(x, y, z, w, p, q, r, s);
    }
  }
}
