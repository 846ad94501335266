/** The canonical factual form of results and bundles, and its digests (internal/contract/identity.go:114-312,
    internal/contract/facts.go, internal/bundle/factual.go). JSON and SHA-256 are parameters. */
module FactualForm {
  import opened Facts
  import opened Ordering
  import opened AnalyzerOutput
  import OrderIndependence

  // ---------- comparing tuples of texts ----------

  predicate TupleLe(a: seq<string>, b: seq<string>) {
    if a == [] then true
    else if b == [] then false
    else if a[0] != b[0] then StrLe(a[0], b[0])
    else TupleLe(a[1..], b[1..])
  }

  lemma {:induction false} TupleLeTotal(a: seq<string>, b: seq<string>)
    ensures TupleLe(a, b) || TupleLe(b, a)
  {
    if a != [] && b != [] {
      StrLeTotal(a[0], b[0]);
      if a[0] == b[0] { TupleLeTotal(a[1..], b[1..]); }
    }
  }

  lemma {:induction false} TupleLeAntisymmetric(a: seq<string>, b: seq<string>)
    requires TupleLe(a, b) && TupleLe(b, a)
    ensures a == b
  {
    if a != [] && b != [] {
      if a[0] != b[0] {
        StrLeAntisymmetric(a[0], b[0]);
      } else {
        TupleLeAntisymmetric(a[1..], b[1..]);
        assert a == [a[0]] + a[1..] && b == [b[0]] + b[1..];
      }
    }
  }

  lemma {:induction false} TupleLeTransitive(a: seq<string>, b: seq<string>, c: seq<string>)
    requires TupleLe(a, b) && TupleLe(b, c)
    ensures TupleLe(a, c)
  {
    if a != [] && b != [] && c != [] {
      if a[0] == b[0] == c[0] {
        TupleLeTransitive(a[1..], b[1..], c[1..]);
      } else {
        if a[0] != b[0] && b[0] != c[0] { StrLeTransitive(a[0], b[0], c[0]); }
        if a[0] == c[0] { StrLeAntisymmetric(a[0], b[0]); }
      }
    }
  }

  /** The comparison functions of the source: one text after the other. */
  function ByTuple<T>(keys: T -> seq<string>): (T, T) -> bool {
    (x: T, y: T) => TupleLe(keys(x), keys(y))
  }

  lemma ByTuplePreorder<T(!new)>(keys: T -> seq<string>)
    ensures Preorder(ByTuple(keys))
  {
    var le := ByTuple(keys);
    forall x: T, y: T
      ensures le(x, y) || le(y, x)
    {
      TupleLeTotal(keys(x), keys(y));
    }
    forall x: T, y: T, z: T | le(x, y) && le(y, z)
      ensures le(x, z)
    {
      TupleLeTransitive(keys(x), keys(y), keys(z));
    }
  }

  /** The identity is the last of the compared texts. */
  ghost predicate EndsInId<T(!new)>(keys: T -> seq<string>, id: T -> string) {
    forall x: T :: keys(x) != [] && keys(x)[|keys(x)| - 1] == id(x)
  }

  /** Sorting elements with distinct identities forgets the order they came in. */
  lemma SortByTupleIgnoresOrder<T(!new)>(keys: T -> seq<string>, id: T -> string, a: seq<T>, b: seq<T>)
    requires EndsInId(keys, id) && DistinctKeys(id, a) && multiset(a) == multiset(b)
    ensures Sort(ByTuple(keys), a) == Sort(ByTuple(keys), b)
  {
    var le := ByTuple(keys);
    ByTuplePreorder(keys);
    forall i, j | 0 <= i < |a| && 0 <= j < |a| && le(a[i], a[j]) && le(a[j], a[i])
      ensures a[i] == a[j]
    {
      TupleLeAntisymmetric(keys(a[i]), keys(a[j]));
      assert id(a[i]) == id(a[j]);
    }
    SortPermutation(le, a, b);
  }

  // ---------- lists ----------

  function Map<T, U>(f: T -> U, s: seq<T>): seq<U> {
    if s == [] then [] else [f(s[0])] + Map(f, s[1..])
  }

  lemma {:induction false} MapAt<T, U>(f: T -> U, s: seq<T>)
    ensures |Map(f, s)| == |s| && forall i | 0 <= i < |s| :: Map(f, s)[i] == f(s[i])
  {
    if s != [] { MapAt(f, s[1..]); }
  }

  function Without<T>(s: seq<T>, k: nat): seq<T>
    requires k < |s|
  {
    s[..k] + s[k + 1..]
  }

  lemma {:induction false} WithoutMultiset<T>(s: seq<T>, k: nat)
    requires k < |s|
    ensures multiset(Without(s, k)) == multiset(s) - multiset{s[k]} && |Without(s, k)| == |s| - 1
  {
    assert s == s[..k] + [s[k]] + s[k + 1..];
  }

  lemma {:induction false} MapWithout<T, U>(f: T -> U, s: seq<T>, k: nat)
    requires k < |s|
    ensures multiset(Map(f, s)) == multiset(Map(f, Without(s, k))) + multiset{f(s[k])}
  {
    MapAt(f, s);
    MapAt(f, Without(s, k));
    WithoutMultiset(s, k);
    WithoutMultiset(Map(f, s), k);
    assert Map(f, Without(s, k)) == Without(Map(f, s), k);
  }

  lemma {:induction false} MapAlike<T, U>(f: T -> U, a: seq<T>, b: seq<T>)
    requires multiset(a) == multiset(b)
    ensures multiset(Map(f, a)) == multiset(Map(f, b))
    decreases |a|
  {
    hide Without;
    assert |a| == |multiset(a)| == |multiset(b)| == |b|;
    if a != [] {
      assert a[0] in multiset(b);
      var k :| 0 <= k < |b| && b[k] == a[0];
      WithoutMultiset(a, 0);
      WithoutMultiset(b, k);
      MapAlike(f, Without(a, 0), Without(b, k));
      MapWithout(f, a, 0);
      MapWithout(f, b, k);
    }
  }

  lemma {:induction false} InsertMap<T, U>(f: T -> U, le: (T, T) -> bool, le': (U, U) -> bool, x: T, s: seq<T>)
    requires forall y, z :: le(y, z) == le'(f(y), f(z))
    ensures Map(f, Insert(le, x, s)) == Insert(le', f(x), Map(f, s))
  {
    if s == [] {
      assert [x][1..] == [];
    } else {
      InsertMap(f, le, le', x, s[1..]);
      assert ([x] + s)[1..] == s;
      assert ([s[0]] + Insert(le, x, s[1..]))[1..] == Insert(le, x, s[1..]);
    }
  }

  /** Dropping what is not compared may come before or after sorting. */
  lemma {:induction false} SortMap<T(!new), U>(f: T -> U, le: (T, T) -> bool, le': (U, U) -> bool, s: seq<T>)
    requires forall y, z :: le(y, z) == le'(f(y), f(z))
    ensures Map(f, Sort(le, s)) == Sort(le', Map(f, s))
  {
    if s != [] {
      SortMap(f, le, le', s[1..]);
      InsertMap(f, le, le', s[0], Sort(le, s[1..]));
    }
  }

  lemma {:induction false} DistinctPermutes<T>(id: T -> string, a: seq<T>, b: seq<T>)
    requires multiset(a) == multiset(b) && DistinctKeys(id, a)
    ensures DistinctKeys(id, b)
  {
    forall i, j | 0 <= i < |b| && 0 <= j < |b| && i != j
      ensures id(b[i]) != id(b[j])
    {
      assert b[i] in multiset(a) && b[j] in multiset(a);
      var k :| 0 <= k < |a| && a[k] == b[i];
      var l :| 0 <= l < |a| && a[l] == b[j];
      if k == l {
        OneOccurrence(a, k);
        if i < j { TwoOccurrences(b, i, j); } else { TwoOccurrences(b, j, i); }
      }
    }
  }

  // ---------- results ----------

  datatype Artifact = Artifact(id: string, sourceId: string, path: string, hash: string, rest: string)

  /** A contribution with the time it was observed, which is no fact. */
  datatype Observed = Observed(contribution: Contribution, observedAt: string)

  /** The factual part of a manifest. */
  datatype Core = Core(contractVersion: string, resultId: string, sourceId: string, source: string, snapshot: string)

  datatype Result = Result(core: Core, artifacts: seq<Artifact>, contributions: seq<Observed>, coverage: seq<Coverage>,
      gaps: seq<Gap>, failures: seq<Failure>)

  datatype FactualResult = FactualResult(core: Core, artifacts: seq<Artifact>, contributions: seq<Contribution>,
      coverage: seq<Coverage>, gaps: seq<Gap>, failures: seq<Failure>)

  /** Digests, path cleaning, the defaults of a manifest and JSON. */
  datatype Env = Env(ids: Ids, artifactId: (string, string, string) -> string, canonicalPath: string -> string,
      complete: Core -> Core,
                     encode: FactualResult -> string, hash: string -> string)

  function FillArtifact(env: Env, core: Core): Artifact -> Artifact {
    (a: Artifact) =>
      var b := if a.sourceId == "" then a.(sourceId := core.sourceId) else a;
      var c := if b.id == "" then b.(id := env.artifactId(b.sourceId, b.path, b.hash)) else b;
      if c.path != "" then c.(path := env.canonicalPath(c.path)) else c
  }

  function FillContribution(env: Env): Observed -> Observed {
    (o: Observed) => if o.contribution.id != "" then o
      else o.(contribution := o.contribution.(id := ContributionIdOf(env.ids, o.contribution,
          o.contribution.methodName)))
  }

  function FillCoverage(env: Env): Coverage -> Coverage {
    (c: Coverage) => if c.id != "" then c else c.(id := CoverageIdOf(env.ids, c, c.scope))
  }

  function FillGap(env: Env): Gap -> Gap {
    (g: Gap) => if g.id != "" then g else g.(id := GapIdOf(env.ids, g, g.scope))
  }

  function FillFailure(env: Env): Failure -> Failure {
    (f: Failure) => if f.id != "" then f else f.(id := FailureId(env.ids, f, f.message))
  }

  function ArtifactKeys(a: Artifact): seq<string> { [a.sourceId, a.path, a.hash, a.id] }
  function ContributionKeys(c: Contribution): seq<string> {
    [c.artifactId, c.analyzerId, c.analyzerVersion, c.methodName, c.id]
  }
  function ObservedKeys(o: Observed): seq<string> { ContributionKeys(o.contribution) }
  function CoverageKeys(c: Coverage): seq<string> { [c.dimension, c.scope, c.analyzerId, c.state, c.id] }
  function GapKeys(g: Gap): seq<string> { [g.dimension, g.scope, g.code, g.message, g.id] }
  function FailureKeys(f: Failure): seq<string> { [f.operation, f.artifactId, f.analyzerId, f.code, f.message, f.id] }
  function IdOfArtifact(a: Artifact): string { a.id }
  function FactOf(o: Observed): Contribution { o.contribution }

  /** `Normalize`: identities filled in, then everything sorted. */
  function Normalize(env: Env, r: Result): Result {
    var core := env.complete(r.core);
    Result(core,
           Sort(ByTuple(ArtifactKeys), Map(FillArtifact(env, core), r.artifacts)),
           Sort(ByTuple(ObservedKeys), Map(FillContribution(env), r.contributions)),
           Sort(ByTuple(CoverageKeys), Map(FillCoverage(env), r.coverage)),
           Sort(ByTuple(GapKeys), Map(FillGap(env), r.gaps)),
           Sort(ByTuple(FailureKeys), Map(FillFailure(env), r.failures)))
  }

  /** What is blank is filled in from the rest, and what is given is kept; only paths are cleaned. */
  lemma FillExact(env: Env, core: Core, a: Artifact, o: Observed, c: Coverage, g: Gap, f: Failure)
    ensures var b := FillArtifact(env, core)(a);
      && b.hash == a.hash && b.rest == a.rest && b.path == (if a.path != "" then env.canonicalPath(a.path) else "")
      && b.sourceId == (if a.sourceId != "" then a.sourceId else core.sourceId)
      && b.id == (if a.id != "" then a.id else env.artifactId(b.sourceId, a.path, a.hash))
    ensures var b, was := FillContribution(env)(o), o.contribution;
      && b.observedAt == o.observedAt && b.contribution == was.(id := b.contribution.id)
      && b.contribution.id == (if was.id != "" then was.id
          else env.ids.contribution(was.artifactId, was.analyzerId, was.analyzerVersion, Trim(was.methodName)))
    ensures FillCoverage(env)(c) ==
      c.(id := if c.id != "" then c.id else env.ids.coverage(c.dimension, Trim(c.scope), c.state, c.analyzerId))
    ensures FillGap(env)(g) ==
      g.(id := if g.id != "" then g.id else env.ids.gap(g.code, g.dimension, Trim(g.scope), g.message, g.analyzerId))
    ensures FillFailure(env)(f) ==
      f.(id := if f.id != "" then f.id
               else env.ids.failure(f.code, f.operation, f.artifactId, f.analyzerId, Trim(f.message)))
  {
    hide Trim;
  }

  /** Compared by the first text that differs. */
  predicate Then(a: string, b: string, rest: bool) {
    if a != b then StrLe(a, b) else rest
  }

  ghost function ArtifactOrder(): (Artifact, Artifact) -> bool {
    (a: Artifact, b: Artifact) =>
      Then(a.sourceId, b.sourceId, Then(a.path, b.path, Then(a.hash, b.hash, Then(a.id, b.id, true))))
  }

  ghost function ContributionOrder(): (Observed, Observed) -> bool {
    (x: Observed, y: Observed) =>
      var a, b := x.contribution, y.contribution;
      Then(a.artifactId, b.artifactId, Then(a.analyzerId, b.analyzerId, Then(a.analyzerVersion, b.analyzerVersion,
          Then(a.methodName, b.methodName, Then(a.id, b.id, true)))))
  }

  ghost function CoverageOrder(): (Coverage, Coverage) -> bool {
    (a: Coverage, b: Coverage) =>
      Then(a.dimension, b.dimension, Then(a.scope, b.scope, Then(a.analyzerId, b.analyzerId,
          Then(a.state, b.state, Then(a.id, b.id, true)))))
  }

  ghost function GapOrder(): (Gap, Gap) -> bool {
    (a: Gap, b: Gap) =>
      Then(a.dimension, b.dimension, Then(a.scope, b.scope, Then(a.code, b.code,
          Then(a.message, b.message, Then(a.id, b.id, true)))))
  }

  ghost function FailureOrder(): (Failure, Failure) -> bool {
    (a: Failure, b: Failure) =>
      Then(a.operation, b.operation, Then(a.artifactId, b.artifactId, Then(a.analyzerId, b.analyzerId,
          Then(a.code, b.code, Then(a.message, b.message, Then(a.id, b.id, true))))))
  }

  lemma TupleLeStep(a: string, b: string, r: seq<string>, s: seq<string>)
    ensures TupleLe([a] + r, [b] + s) == Then(a, b, TupleLe(r, s))
  {
    assert ([a] + r)[1..] == r && ([b] + s)[1..] == s;
  }

  lemma TupleLe4(a: seq<string>, b: seq<string>)
    requires |a| == |b| == 4
    ensures TupleLe(a, b) == Then(a[0], b[0], Then(a[1], b[1], Then(a[2], b[2], Then(a[3], b[3], true))))
  {
    hide TupleLe, Then;
    assert a == [a[0]] + a[1..] && b == [b[0]] + b[1..];
    TupleLeStep(a[0], b[0], a[1..], b[1..]);
    TupleLe3(a[1..], b[1..]);
  }

  lemma TupleLe3(a: seq<string>, b: seq<string>)
    requires |a| == |b| == 3
    ensures TupleLe(a, b) == Then(a[0], b[0], Then(a[1], b[1], Then(a[2], b[2], true)))
  {
    hide Then;
    assert a == [a[0]] + ([a[1]] + ([a[2]] + [])) && b == [b[0]] + ([b[1]] + ([b[2]] + []));
    TupleLeStep(a[0], b[0], [a[1]] + ([a[2]] + []), [b[1]] + ([b[2]] + []));
    TupleLeStep(a[1], b[1], [a[2]] + [], [b[2]] + []);
    TupleLeStep(a[2], b[2], [], []);
  }

  lemma TupleLe5(a: seq<string>, b: seq<string>)
    requires |a| == |b| == 5
    ensures TupleLe(a, b) ==
            Then(a[0], b[0], Then(a[1], b[1], Then(a[2], b[2], Then(a[3], b[3], Then(a[4], b[4], true)))))
  {
    hide TupleLe, Then;
    assert a == [a[0]] + a[1..] && b == [b[0]] + b[1..];
    TupleLeStep(a[0], b[0], a[1..], b[1..]);
    TupleLe4(a[1..], b[1..]);
  }

  lemma TupleLe6(a: seq<string>, b: seq<string>)
    requires |a| == |b| == 6
    ensures TupleLe(a, b) == Then(a[0], b[0],
        Then(a[1], b[1], Then(a[2], b[2], Then(a[3], b[3], Then(a[4], b[4], Then(a[5], b[5], true))))))
  {
    hide TupleLe, Then;
    assert a == [a[0]] + a[1..] && b == [b[0]] + b[1..];
    TupleLeStep(a[0], b[0], a[1..], b[1..]);
    TupleLe5(a[1..], b[1..]);
  }

  lemma SortedAs<T(!new)>(keys: T -> seq<string>, order: (T, T) -> bool, s: seq<T>)
    requires forall a, b :: TupleLe(keys(a), keys(b)) == order(a, b)
    ensures Sorted(order, Sort(ByTuple(keys), s)) && multiset(Sort(ByTuple(keys), s)) == multiset(s)
  {
    ByTuplePreorder(keys);
    SortSorted(ByTuple(keys), s);
    SortMultiset(ByTuple(keys), s);
    forall a, b
      ensures ByTuple(keys)(a, b) == order(a, b)
    {
    }
  }

  /** The normal form lists what was filled in, ordered field by field. */
  lemma NormalizeSorts(env: Env, r: Result)
    ensures var n, core := Normalize(env, r), env.complete(r.core);
      && n.core == core
      && Sorted(ArtifactOrder(), n.artifacts)
      && multiset(n.artifacts) == multiset(Map(FillArtifact(env, core), r.artifacts))
      && Sorted(ContributionOrder(), n.contributions)
      && multiset(n.contributions) == multiset(Map(FillContribution(env), r.contributions))
      && Sorted(CoverageOrder(), n.coverage) && multiset(n.coverage) == multiset(Map(FillCoverage(env), r.coverage))
      && Sorted(GapOrder(), n.gaps) && multiset(n.gaps) == multiset(Map(FillGap(env), r.gaps))
      && Sorted(FailureOrder(), n.failures) && multiset(n.failures) == multiset(Map(FillFailure(env), r.failures))
  {
    hide Map, Sort, TupleLe, ByTuple, Then;
    forall a, b
      ensures TupleLe(ArtifactKeys(a), ArtifactKeys(b)) == ArtifactOrder()(a, b)
    {
      TupleLe4(ArtifactKeys(a), ArtifactKeys(b));
    }
    forall a, b
      ensures TupleLe(ObservedKeys(a), ObservedKeys(b)) == ContributionOrder()(a, b)
    {
      TupleLe5(ObservedKeys(a), ObservedKeys(b));
    }
    forall a, b
      ensures TupleLe(CoverageKeys(a), CoverageKeys(b)) == CoverageOrder()(a, b)
    {
      TupleLe5(CoverageKeys(a), CoverageKeys(b));
    }
    forall a, b
      ensures TupleLe(GapKeys(a), GapKeys(b)) == GapOrder()(a, b)
    {
      TupleLe5(GapKeys(a), GapKeys(b));
    }
    forall a, b
      ensures TupleLe(FailureKeys(a), FailureKeys(b)) == FailureOrder()(a, b)
    {
      TupleLe6(FailureKeys(a), FailureKeys(b));
    }
    SortedAs(ArtifactKeys, ArtifactOrder(), Map(FillArtifact(env, env.complete(r.core)), r.artifacts));
    SortedAs(ObservedKeys, ContributionOrder(), Map(FillContribution(env), r.contributions));
    SortedAs(CoverageKeys, CoverageOrder(), Map(FillCoverage(env), r.coverage));
    SortedAs(GapKeys, GapOrder(), Map(FillGap(env), r.gaps));
    SortedAs(FailureKeys, FailureOrder(), Map(FillFailure(env), r.failures));
  }

  /** What `factualJSON` encodes. */
  function Factual(env: Env, r: Result): FactualResult {
    var n := Normalize(env, r);
    FactualResult(n.core, n.artifacts, Map(FactOf, n.contributions), n.coverage, n.gaps, n.failures)
  }

  /** `EquivalentFacts`. */
  predicate EquivalentFacts(env: Env, a: Result, b: Result) {
    env.encode(Factual(env, a)) == env.encode(Factual(env, b))
  }

  /** `FactualDigest`. */
  function FactualDigest(env: Env, r: Result): string {
    env.hash(env.encode(Factual(env, r)))
  }

  /** The facts of a result in the order they came. */
  function FactsOf(env: Env, r: Result): FactualResult {
    var core := env.complete(r.core);
    FactualResult(core, Map(FillArtifact(env, core), r.artifacts),
        Map(FactOf, Map(FillContribution(env), r.contributions)),
                  Map(FillCoverage(env), r.coverage), Map(FillGap(env), r.gaps), Map(FillFailure(env), r.failures))
  }

  /** Sorted facts. */
  function Ordered(f: FactualResult): FactualResult {
    FactualResult(f.core, Sort(ByTuple(ArtifactKeys), f.artifacts), Sort(ByTuple(ContributionKeys), f.contributions),
                  Sort(ByTuple(CoverageKeys), f.coverage), Sort(ByTuple(GapKeys), f.gaps),
                      Sort(ByTuple(FailureKeys), f.failures))
  }

  ghost predicate DistinctIds(f: FactualResult) {
    DistinctKeys(IdOfArtifact, f.artifacts) && DistinctKeys(IdOfContribution, f.contributions)
        && DistinctKeys(IdOfCoverage, f.coverage)
    && DistinctKeys(IdOfGap, f.gaps) && DistinctKeys(IdOfFailure, f.failures)
  }

  /** The same facts, in whatever order. */
  ghost predicate SameFacts(a: FactualResult, b: FactualResult) {
    && a.core == b.core && multiset(a.artifacts) == multiset(b.artifacts)
    && multiset(a.contributions) == multiset(b.contributions)
    && multiset(a.coverage) == multiset(b.coverage) && multiset(a.gaps) == multiset(b.gaps)
    && multiset(a.failures) == multiset(b.failures)
  }

  lemma FactualIsOrdered(env: Env, r: Result)
    ensures Factual(env, r) == Ordered(FactsOf(env, r))
  {
    forall y: Observed, z: Observed
      ensures ByTuple(ObservedKeys)(y, z) == ByTuple(ContributionKeys)(FactOf(y), FactOf(z))
    {
      assert ObservedKeys(y) == ContributionKeys(FactOf(y)) && ObservedKeys(z) == ContributionKeys(FactOf(z));
    }
    SortMap(FactOf, ByTuple(ObservedKeys), ByTuple(ContributionKeys), Map(FillContribution(env), r.contributions));
  }

  /** Sorting keeps exactly the facts. */
  lemma OrderedExact(a: FactualResult, b: FactualResult)
    requires DistinctIds(a)
    ensures Ordered(a) == Ordered(b) <==> SameFacts(a, b)
  {
    hide Sort, ByTuple, DistinctKeys;
    if SameFacts(a, b) {
      SortByTupleIgnoresOrder(ArtifactKeys, IdOfArtifact, a.artifacts, b.artifacts);
      SortByTupleIgnoresOrder(ContributionKeys, IdOfContribution, a.contributions, b.contributions);
      SortByTupleIgnoresOrder(CoverageKeys, IdOfCoverage, a.coverage, b.coverage);
      SortByTupleIgnoresOrder(GapKeys, IdOfGap, a.gaps, b.gaps);
      SortByTupleIgnoresOrder(FailureKeys, IdOfFailure, a.failures, b.failures);
    }
    if Ordered(a) == Ordered(b) {
      SortedFrom(ArtifactKeys, a.artifacts, b.artifacts);
      SortedFrom(ContributionKeys, a.contributions, b.contributions);
      SortedFrom(CoverageKeys, a.coverage, b.coverage);
      SortedFrom(GapKeys, a.gaps, b.gaps);
      SortedFrom(FailureKeys, a.failures, b.failures);
    }
  }

  lemma SortedFrom<T(!new)>(keys: T -> seq<string>, a: seq<T>, b: seq<T>)
    requires Sort(ByTuple(keys), a) == Sort(ByTuple(keys), b)
    ensures multiset(a) == multiset(b)
  {
    SortMultiset(ByTuple(keys), a);
    SortMultiset(ByTuple(keys), b);
  }

  ghost predicate InjectiveEncode(env: Env) {
    forall a: FactualResult, b: FactualResult :: env.encode(a) == env.encode(b) ==> a == b
  }

  ghost predicate InjectiveHash(hash: string -> string) {
    forall a: string, b: string :: hash(a) == hash(b) ==> a == b
  }

  /** Two results are equivalent exactly when they have the same facts, in any order and whenever they were
      observed; and exactly then they have the same factual digest. */
  lemma EquivalentExact(env: Env, a: Result, b: Result)
    requires InjectiveEncode(env) && InjectiveHash(env.hash) && DistinctIds(FactsOf(env, a))
    ensures EquivalentFacts(env, a, b) <==> SameFacts(FactsOf(env, a), FactsOf(env, b))
    ensures FactualDigest(env, a) == FactualDigest(env, b) <==> SameFacts(FactsOf(env, a), FactsOf(env, b))
  {
    hide SameFacts, DistinctIds, Ordered, Factual, FactsOf;
    FactualIsOrdered(env, a);
    FactualIsOrdered(env, b);
    OrderedExact(FactsOf(env, a), FactsOf(env, b));
  }

  /** The same collections in another order. */
  ghost predicate Permuted(a: Result, b: Result) {
    && a.core == b.core && multiset(a.artifacts) == multiset(b.artifacts)
    && multiset(a.contributions) == multiset(b.contributions)
    && multiset(a.coverage) == multiset(b.coverage) && multiset(a.gaps) == multiset(b.gaps)
    && multiset(a.failures) == multiset(b.failures)
  }

  /** Order never changes the digest. */
  lemma DigestIgnoresOrder(env: Env, a: Result, b: Result)
    requires DistinctIds(FactsOf(env, a)) && Permuted(a, b)
    ensures FactualDigest(env, a) == FactualDigest(env, b) && EquivalentFacts(env, a, b)
  {
    var core := env.complete(a.core);
    MapAlike(FillArtifact(env, core), a.artifacts, b.artifacts);
    MapAlike(FillContribution(env), a.contributions, b.contributions);
    MapAlike(FactOf, Map(FillContribution(env), a.contributions), Map(FillContribution(env), b.contributions));
    MapAlike(FillCoverage(env), a.coverage, b.coverage);
    MapAlike(FillGap(env), a.gaps, b.gaps);
    MapAlike(FillFailure(env), a.failures, b.failures);
    hide Ordered, Factual, DistinctIds;
    FactualIsOrdered(env, a);
    FactualIsOrdered(env, b);
    OrderedExact(FactsOf(env, a), FactsOf(env, b));
  }

  // ---------- bundles ----------

  /** An evidence unit without its content: identity, findings, and the rest of its projection. */
  datatype Unit = Unit(id: string, findings: seq<string>, rest: string)

  datatype FrontendManifest = FrontendManifest(id: string, version: string, methodName: string, rest: string)

  datatype Bundle = Bundle(result: Result, evidence: seq<Unit>, manifests: seq<FrontendManifest>, facts: seq<Fact>,
      extensions: seq<string>)

  /** Validators, canonical values and encodings of the bundle's own sequences. */
  datatype BundleEnv = BundleEnv(
    validUnit: Unit -> bool, validManifest: FrontendManifest -> bool,
    canonicalManifest: FrontendManifest -> FrontendManifest,
    canonicalBytes: Fact -> Option<string>, canonicalExtension: string -> Option<string>,
    encodeManifest: FrontendManifest -> string,
    encodeLegacy: (string, seq<Unit>) -> string, encodeV2: (string, seq<string>, seq<string>, seq<string>) -> string)

  const DOMAIN := "manu:bundle:factual:v1alpha2\0"

  function IdOfUnit(u: Unit): string { u.id }
  function IdOfManifest(m: FrontendManifest): string { m.id }
  function IdOfFact(f: Fact): string { f.id }
  function ManifestKey(m: FrontendManifest): string { m.id + "\0" + (m.version + "\0" + m.methodName) }

  /** Adjacent repetitions removed. */
  function Deduplicated(s: seq<string>): seq<string> {
    if |s| <= 1 then s else if s[0] == s[1] then Deduplicated(s[1..]) else [s[0]] + Deduplicated(s[1..])
  }

  function CanonicalFindings(findings: seq<string>): seq<string> {
    Deduplicated(SortStrings(findings))
  }

  function ProjectedUnit(u: Unit): Unit {
    u.(findings := CanonicalFindings(u.findings))
  }

  ghost predicate AllOf<T>(p: T -> bool, s: seq<T>) {
    forall i | 0 <= i < |s| :: p(s[i])
  }

  /** `FactualDigest` of a bundle of the first version. */
  ghost function LegacyDigest(env: Env, benv: BundleEnv, b: Bundle): Option<string> {
    if !AllOf(benv.validUnit, b.evidence) || !DistinctKeys(IdOfUnit, b.evidence) then None
    else Some(env.hash(benv.encodeLegacy(FactualDigest(env, b.result),
        Sort(ByKey(IdOfUnit), Map(ProjectedUnit, b.evidence)))))
  }

  function Encoded<T>(encode: T -> Option<string>): T -> bool {
    (x: T) => encode(x).Some?
  }

  function ValueOf<T>(encode: T -> Option<string>): T -> string {
    (x: T) => match encode(x) case Some(bytes) => bytes case None => ""
  }

  ghost function DigestedManifests(benv: BundleEnv, manifests: seq<FrontendManifest>): Option<seq<string>> {
    if !AllOf(benv.validManifest, manifests) || !DistinctKeys(IdOfManifest, manifests) then None
    else Some(Map(benv.encodeManifest, Sort(ByKey(ManifestKey), Map(benv.canonicalManifest, manifests))))
  }

  ghost function DigestedFacts(benv: BundleEnv, facts: seq<Fact>): Option<seq<string>> {
    if !DistinctKeys(IdOfFact, facts) || !AllOf(Encoded(benv.canonicalBytes), facts) then None
    else Some(Map(ValueOf(benv.canonicalBytes), Sort(ByKey(IdOfFact), facts)))
  }

  ghost function DigestedExtensions(benv: BundleEnv, extensions: seq<string>): Option<seq<string>> {
    if !AllOf(Encoded(benv.canonicalExtension), extensions) then None
    else Some(SortStrings(Map(ValueOf(benv.canonicalExtension), extensions)))
  }

  /** `FactualDigestV2`. */
  ghost function DigestV2(env: Env, benv: BundleEnv, b: Bundle): Option<string> {
    var legacy, manifests, facts, extensions :=
      LegacyDigest(env, benv, b), DigestedManifests(benv, b.manifests), DigestedFacts(benv,
          b.facts), DigestedExtensions(benv, b.extensions);
    if legacy.None? || manifests.None? || facts.None? || extensions.None? then None
    else Some(env.hash(DOMAIN + benv.encodeV2(legacy.value, manifests.value, facts.value, extensions.value)))
  }

  /** The same bundle with its sequences in another order. */
  ghost predicate PermutedBundle(a: Bundle, b: Bundle) {
    && Permuted(a.result, b.result) && multiset(a.evidence) == multiset(b.evidence)
    && multiset(a.manifests) == multiset(b.manifests)
    && multiset(a.facts) == multiset(b.facts) && multiset(a.extensions) == multiset(b.extensions)
  }

  lemma AllOfPermutes<T>(p: T -> bool, a: seq<T>, b: seq<T>)
    requires multiset(a) == multiset(b)
    ensures AllOf(p, a) <==> AllOf(p, b)
  {
    forall i | AllOf(p, a) && 0 <= i < |b|
      ensures p(b[i])
    {
      assert b[i] in multiset(a);
    }
    forall i | AllOf(p, b) && 0 <= i < |a|
      ensures p(a[i])
    {
      assert a[i] in multiset(b);
    }
  }

  lemma DistinctBoth<T>(id: T -> string, a: seq<T>, b: seq<T>)
    requires multiset(a) == multiset(b)
    ensures DistinctKeys(id, a) <==> DistinctKeys(id, b)
  {
    if DistinctKeys(id, a) { DistinctPermutes(id, a, b); }
    if DistinctKeys(id, b) { DistinctPermutes(id, b, a); }
  }

  lemma SortByKeyIgnoresOrder<T(!new)>(key: T -> string, a: seq<T>, b: seq<T>)
    requires DistinctKeys(key, a) && multiset(a) == multiset(b)
    ensures Sort(ByKey(key), a) == Sort(ByKey(key), b)
  {
    var le := ByKey(key);
    ByKeyPreorder(key);
    forall i, j | 0 <= i < |a| && 0 <= j < |a| && le(a[i], a[j]) && le(a[j], a[i])
      ensures a[i] == a[j]
    {
      StrLeAntisymmetric(key(a[i]), key(a[j]));
    }
    SortPermutation(le, a, b);
  }

  lemma UnitsIgnoreOrder(a: seq<Unit>, b: seq<Unit>)
    requires multiset(a) == multiset(b) && DistinctKeys(IdOfUnit, a)
    ensures Sort(ByKey(IdOfUnit), Map(ProjectedUnit, a)) == Sort(ByKey(IdOfUnit), Map(ProjectedUnit, b))
  {
    hide ProjectedUnit;
    MapAlike(ProjectedUnit, a, b);
    MapAt(ProjectedUnit, a);
    assert DistinctKeys(IdOfUnit, Map(ProjectedUnit, a)) by {
      ProjectionKeepsIds(a);
    }
    SortByKeyIgnoresOrder(IdOfUnit, Map(ProjectedUnit, a), Map(ProjectedUnit, b));
  }

  lemma ProjectionKeepsIds(a: seq<Unit>)
    requires DistinctKeys(IdOfUnit, a)
    ensures DistinctKeys(IdOfUnit, Map(ProjectedUnit, a))
  {
    MapAt(ProjectedUnit, a);
  }

  /** Canonical values of valid manifests keep their identities, which hold no NUL. */
  ghost predicate CleanManifests(benv: BundleEnv) {
    forall m: FrontendManifest | benv.validManifest(m) :: benv.canonicalManifest(m).id == m.id && '\0' !in m.id
  }

  lemma KeysOfManifestsDiffer(benv: BundleEnv, m: FrontendManifest, n: FrontendManifest)
    requires CleanManifests(benv) && benv.validManifest(m) && benv.validManifest(n) && m.id != n.id
    ensures ManifestKey(benv.canonicalManifest(m)) != ManifestKey(benv.canonicalManifest(n))
  {
    var c, d := benv.canonicalManifest(m), benv.canonicalManifest(n);
    if ManifestKey(c) == ManifestKey(d) {
      OrderIndependence.SplitAtNul(c.id, d.id, c.version + "\0" + c.methodName, d.version + "\0" + d.methodName);
    }
  }

  lemma ManifestsIgnoreOrder(benv: BundleEnv, a: seq<FrontendManifest>, b: seq<FrontendManifest>)
    requires CleanManifests(benv) && multiset(a) == multiset(b)
    ensures DigestedManifests(benv, a) == DigestedManifests(benv, b)
  {
    AllOfPermutes(benv.validManifest, a, b);
    DistinctBoth(IdOfManifest, a, b);
    if AllOf(benv.validManifest, a) && DistinctKeys(IdOfManifest, a) {
      var f := benv.canonicalManifest;
      MapAlike(f, a, b);
      MapAt(f, a);
      var c := Map(f, a);
      forall i, j | 0 <= i < |c| && 0 <= j < |c| && i != j
        ensures ManifestKey(c[i]) != ManifestKey(c[j])
      {
        assert benv.validManifest(a[i]) && benv.validManifest(a[j]);
        assert IdOfManifest(a[i]) != IdOfManifest(a[j]);
        KeysOfManifestsDiffer(benv, a[i], a[j]);
      }
      SortByKeyIgnoresOrder(ManifestKey, c, Map(f, b));
    }
  }

  lemma FactsIgnoreOrder(benv: BundleEnv, a: seq<Fact>, b: seq<Fact>)
    requires multiset(a) == multiset(b)
    ensures DigestedFacts(benv, a) == DigestedFacts(benv, b)
  {
    AllOfPermutes(Encoded(benv.canonicalBytes), a, b);
    DistinctBoth(IdOfFact, a, b);
    if DistinctKeys(IdOfFact, a) { SortByKeyIgnoresOrder(IdOfFact, a, b); }
  }

  lemma ExtensionsIgnoreOrder(benv: BundleEnv, a: seq<string>, b: seq<string>)
    requires multiset(a) == multiset(b)
    ensures DigestedExtensions(benv, a) == DigestedExtensions(benv, b)
  {
    AllOfPermutes(Encoded(benv.canonicalExtension), a, b);
    var f := ValueOf(benv.canonicalExtension);
    MapAlike(f, a, b);
    SortedTextsIgnoreOrder(Map(f, a), Map(f, b));
  }

  lemma SortedTextsIgnoreOrder(a: seq<string>, b: seq<string>)
    requires multiset(a) == multiset(b)
    ensures SortStrings(a) == SortStrings(b)
  {
    var le := ByKey(Identity);
    ByKeyPreorder(Identity);
    forall i, j | 0 <= i < |a| && 0 <= j < |a| && le(a[i], a[j]) && le(a[j], a[i])
      ensures a[i] == a[j]
    {
      assert Identity(a[i]) == a[i] && Identity(a[j]) == a[j];
      StrLeAntisymmetric(a[i], a[j]);
    }
    SortPermutation(le, a, b);
  }

  /** Reordering any of its sequences never changes a bundle's digest, nor whether it has one. */
  lemma BundleDigestIgnoresOrder(env: Env, benv: BundleEnv, a: Bundle, b: Bundle)
    requires CleanManifests(benv) && DistinctIds(FactsOf(env, a.result)) && PermutedBundle(a, b)
    ensures LegacyDigest(env, benv, a) == LegacyDigest(env, benv, b)
    ensures DigestV2(env, benv, a) == DigestV2(env, benv, b)
  {
    hide FactualDigest, FactsOf, DistinctIds, DistinctKeys, AllOf, Permuted, CleanManifests, DigestedManifests,
        DigestedFacts, DigestedExtensions, Map;
    DigestIgnoresOrder(env, a.result, b.result);
    AllOfPermutes(benv.validUnit, a.evidence, b.evidence);
    DistinctBoth(IdOfUnit, a.evidence, b.evidence);
    if DistinctKeys(IdOfUnit, a.evidence) { UnitsIgnoreOrder(a.evidence, b.evidence); }
    ManifestsIgnoreOrder(benv, a.manifests, b.manifests);
    FactsIgnoreOrder(benv, a.facts, b.facts);
    ExtensionsIgnoreOrder(benv, a.extensions, b.extensions);
  }

  /** Findings become a strictly increasing list of the same texts. */
  lemma {:induction false} DeduplicatedExact(s: seq<string>)
    requires Sorted(ByKey(Identity), s)
    ensures StrictlyIncreasing(Identity, Deduplicated(s)) && (forall x :: x in Deduplicated(s) <==> x in s)
    ensures s != [] ==> Deduplicated(s) != [] && Deduplicated(s)[0] == s[0]
  {
    if |s| > 1 {
      var rest := s[1..];
      DeduplicatedExact(rest);
      if s[0] != s[1] {
        var d := Deduplicated(rest);
        forall i | 0 <= i < |d|
          ensures StrLt(s[0], d[i])
        {
          assert ByKey(Identity)(s[0], s[1]) && Identity(s[0]) == s[0] && Identity(s[1]) == s[1];
          assert StrLe(s[0], d[0]) && d[0] == s[1];
          if i > 0 {
            assert StrLt(d[0], d[i]);
            StrLeTransitive(s[0], d[0], d[i]);
            if s[0] == d[i] { StrLeAntisymmetric(s[0], d[0]); }
          }
        }
      }
    }
  }

  lemma FindingsIgnoreOrderAndRepetition(a: seq<string>, b: seq<string>)
    ensures CanonicalFindings(a) == CanonicalFindings(b) <==> forall x :: x in a <==> x in b
  {
    hide Deduplicated;
    ByKeyPreorder(Identity);
    SortSorted(ByKey(Identity), a);
    SortSorted(ByKey(Identity), b);
    SortMembers(ByKey(Identity), a);
    SortMembers(ByKey(Identity), b);
    DeduplicatedExact(SortStrings(a));
    DeduplicatedExact(SortStrings(b));
    if forall x :: x in a <==> x in b {
      StrictListUnique(Identity, CanonicalFindings(a), CanonicalFindings(b));
    } else {
      var x :| x in a <==> x !in b;
      assert x in CanonicalFindings(a) <==> x !in CanonicalFindings(b);
    }
  }
}
