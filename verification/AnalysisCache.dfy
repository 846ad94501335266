/** The incremental analysis of a source: per artifact and analyzer, what an earlier run stored is used
    instead of running the analyzer again (internal/analysis/runner.go). What the analyzers do, the
    digests, and what the files hold while a run goes on are parameters. */
module AnalysisCache {
  import opened Facts
  import opened AnalyzerOutput
  import opened IdentityFraming

  /** One discovered artifact of a run. `evidence` says whether the run collects evidence. */
  datatype Input = Input(sourceId: string, path: string, hash: string, evidence: bool)

  /** What one invocation of an analyzer came to, after `normalizeOutput`. */
  datatype Observation = Observation(output: CollectedOutput, failed: bool)

  datatype Key = Key(sourceId: string, path: string, hash: string, contractVersion: string, analyzerId: string,
      analyzerVersion: string, analyzerMethod: string)

  datatype Entry = Entry(key: Key, artifactId: string, contributions: seq<Contribution>, coverage: seq<Coverage>,
      gaps: seq<Gap>)

  /** The fixed registry and limits: which analyzers apply to an artifact, what each observes on a given
      content, the digests, the path cleaning of artifact identities and of keys, and the entry validator. */
  datatype Lab = Lab(
    select: Input -> seq<Descriptor>,
    observe: (Descriptor, Input, string) -> Observation,
    hash: string -> string,
    artifactId: (string, string, string) -> string,
    canonicalPath: string -> string,
    clean: string -> string,
    validEntry: Entry -> bool)

  function NewKey(lab: Lab, i: Input, d: Descriptor): Key {
    Key(Trim(i.sourceId), lab.clean(i.path), Trim(i.hash), Trim(d.contractVersion), Trim(d.id), Trim(d.version),
        Trim(d.methodName))
  }

  function ArtifactIdOf(lab: Lab, i: Input): string {
    lab.artifactId(i.sourceId, i.path, i.hash)
  }

  /** What a run meets at one artifact: the content each selected analyzer read, the content found by the
      revalidation (or a read error), and from which look at the context on it is cancelled. */
  datatype Scene = Scene(seen: nat -> string, final: Option<string>, stop: Option<nat>)

  datatype Options = Options(index: map<Key, Entry>, cache: bool, invalidated: set<string>, forceReprocess: bool)

  datatype ArtifactRun = ArtifactRun(output: CollectedOutput, reused: bool, reprocessed: bool, entries: seq<Entry>)

  const NOTHING := CollectedOutput([], [], [], [], [])
  const UNSUPPORTED := "no compatible analyzer was registered"
  const INVENTORY := "landscape_inventory_structure"
  const CHANGED := "source changed during analysis; analyzer observations were discarded"
  const UNREADABLE := "source could not be revalidated after analysis; analyzer observations were discarded"

  function Append(a: CollectedOutput, b: CollectedOutput): CollectedOutput {
    CollectedOutput(a.contributions + b.contributions, a.coverage + b.coverage, a.gaps + b.gaps,
        a.failures + b.failures, a.evidence + b.evidence)
  }

  function AnalyzerFailure(lab: Lab, i: Input, d: Descriptor, code: string, message: string): Failure {
    Failure("", code, "analyze", message, ArtifactIdOf(lab, i), d.id, true,
        Some(Locator(i.sourceId, ArtifactIdOf(lab, i), i.path, "")))
  }

  function Cancelled(lab: Lab, i: Input, d: Descriptor): Failure {
    AnalyzerFailure(lab, i, d, "cancelled", "analyzer work was cancelled")
  }

  function Broken(lab: Lab, i: Input, d: Descriptor): Failure {
    AnalyzerFailure(lab, i, d, "analyzer_failed", "analyzer failed")
  }

  function SourceChanged(lab: Lab, i: Input, message: string): (Failure, Gap) {
    var at := Some(Locator(i.sourceId, ArtifactIdOf(lab, i), i.path, ""));
    (Failure("", "source_changed_during_analysis", "revalidate", message, ArtifactIdOf(lab, i), "", true, at),
     Gap("", "source_changed_during_analysis", "evidence_provenance_uncertainty_gaps", i.path, message, "", at))
  }

  function NotSupported(i: Input): CollectedOutput {
    NOTHING.(coverage := [Coverage("", INVENTORY, i.path, "not_supported", "", UNSUPPORTED, None)],
             gaps := [Gap("", "analyzer_unavailable", INVENTORY, i.path, UNSUPPORTED, "", None)])
  }

  /** `lookupStateEntry`. */
  function Lookup(lab: Lab, index: map<Key, Entry>, key: Key, i: Input): Option<Entry> {
    if key in index && index[key].artifactId == ArtifactIdOf(lab, i) && lab.validEntry(index[key]) then Some(index[key])
        else None
  }

  /** The stored entry used for an analyzer, if any. */
  function Reusable(lab: Lab, i: Input, o: Options, d: Descriptor): Option<Entry> {
    if o.cache && !o.forceReprocess && i.path !in o.invalidated then Lookup(lab, o.index, NewKey(lab, i, d), i)
        else None
  }

  function EntryOf(lab: Lab, i: Input, d: Descriptor, output: CollectedOutput): Entry {
    Entry(NewKey(lab, i, d), ArtifactIdOf(lab, i), output.contributions, output.coverage, output.gaps)
  }

  function FromEntry(e: Entry): CollectedOutput {
    CollectedOutput(e.contributions, e.coverage, e.gaps, [], [])
  }

  // ---------- one artifact ----------

  datatype Progress = Progress(output: CollectedOutput, entries: seq<Entry>, allReused: bool, anyReprocessed: bool,
      stopped: bool)

  predicate StoppedAt(s: Scene, n: nat) {
    s.stop.Some? && s.stop.value <= n
  }

  /** An analyzer is run: what it yields is added, and stored if nothing went wrong. */
  function Invoke(lab: Lab, i: Input, d: Descriptor, seen: Observation, p: Progress): Progress {
    var more := Append(p.output, seen.output);
    var q := p.(output := more, allReused := false, anyReprocessed := true);
    if seen.failed then q.(output := more.(failures := more.failures + [Broken(lab, i, d)]))
    else if seen.output.failures == []
        && lab.validEntry(EntryOf(lab, i, d,
        seen.output)) then q.(entries := p.entries + [EntryOf(lab, i, d, seen.output)])
    else q
  }

  /** One turn of the loop over the selected analyzers. */
  function Turn(lab: Lab, i: Input, o: Options, s: Scene, n: nat, p: Progress): Progress
    requires n < |lab.select(i)|
  {
    var d := lab.select(i)[n];
    if StoppedAt(s, n) then p.(output := p.output.(failures := p.output.failures + [Cancelled(lab, i, d)]),
        stopped := true)
    else match Reusable(lab, i, o, d)
      case Some(e) => p.(output := Append(p.output, FromEntry(e)), entries := p.entries + [e])
      case None => Invoke(lab, i, d, lab.observe(d, i, s.seen(n)), p)
  }

  function After(lab: Lab, i: Input, o: Options, s: Scene, n: nat): Progress
    requires n <= |lab.select(i)|
  {
    if n == 0 then Progress(NOTHING, [], true, false, false)
    else var p := After(lab, i, o, s, n - 1); if p.stopped then p else Turn(lab, i, o, s, n - 1, p)
  }

  /** The revalidation at the end of `runArtifact`. */
  function Revalidated(lab: Lab, i: Input, s: Scene, p: Progress): Progress {
    if p.stopped || StoppedAt(s, |lab.select(i)|) || (s.final.Some? && lab.hash(s.final.value) == i.hash) then p
    else
      var (failure, gap) := SourceChanged(lab, i, if s.final.None? then UNREADABLE else CHANGED);
      Progress(NOTHING.(failures := p.output.failures + [failure], gaps := [gap]), [], false, p.anyReprocessed,
          p.stopped)
  }

  function RunOf(lab: Lab, i: Input, o: Options, s: Scene): ArtifactRun {
    if lab.select(i) == [] then ArtifactRun(NotSupported(i), false, false, [])
    else
      var p := Revalidated(lab, i, s, After(lab, i, o, s, |lab.select(i)|));
      ArtifactRun(p.output, p.allReused, !p.allReused && p.anyReprocessed, p.entries)
  }

  lemma {:induction false} StoppedStays(lab: Lab, i: Input, o: Options, s: Scene, n: nat, m: nat)
    requires n <= m <= |lab.select(i)| && After(lab, i, o, s, n).stopped
    ensures After(lab, i, o, s, m) == After(lab, i, o, s, n)
    decreases m - n
  {
    if n < m { StoppedStays(lab, i, o, s, n + 1, m); }
  }

  // ---------- what a run over one artifact holds ----------

  /** One list of the first `n` outputs, joined. */
  ghost function Concat<T>(list: CollectedOutput -> seq<T>, share: nat -> CollectedOutput, n: nat): seq<T> {
    if n == 0 then [] else Concat(list, share, n - 1) + list(share(n - 1))
  }

  function ContributionsIn(c: CollectedOutput): seq<Contribution> { c.contributions }
  function CoverageIn(c: CollectedOutput): seq<Coverage> { c.coverage }
  function GapsIn(c: CollectedOutput): seq<Gap> { c.gaps }
  function FailuresIn(c: CollectedOutput): seq<Failure> { c.failures }
  function EvidenceIn(c: CollectedOutput): seq<Draft> { c.evidence }

  /** A stored entry is used for the analyzer: the cache is on and not overridden, the path is not
      invalidated, and the index holds a valid entry of this very artifact under the key. */
  ghost predicate HasEntry(lab: Lab, i: Input, o: Options, d: Descriptor) {
    && o.cache && !o.forceReprocess && i.path !in o.invalidated && NewKey(lab, i, d) in o.index
    && var e := o.index[NewKey(lab, i, d)];
      e.artifactId == lab.artifactId(i.sourceId, i.path, i.hash) && lab.validEntry(e)
  }

  ghost function ItsFailure(lab: Lab, i: Input, analyzerId: string, code: string, operation: string, message: string)
    : Failure
  {
    var id := lab.artifactId(i.sourceId, i.path, i.hash);
    Failure("", code, operation, message, id, analyzerId, true, Some(Locator(i.sourceId, id, i.path, "")))
  }

  /** What the `n`-th selected analyzer adds: what its stored entry holds, or else what it yields now, its own
      failure last. */
  ghost function Share(lab: Lab, i: Input, o: Options, s: Scene, n: nat): CollectedOutput {
    if n >= |lab.select(i)| then CollectedOutput([], [], [], [], [])
    else
      var d := lab.select(i)[n];
      if HasEntry(lab, i, o, d) then
        var e := o.index[NewKey(lab, i, d)];
        CollectedOutput(e.contributions, e.coverage, e.gaps, [], [])
      else
        var seen := lab.observe(d, i, s.seen(n));
        var own := if seen.failed then [ItsFailure(lab, i, d.id, "analyzer_failed", "analyze", "analyzer failed")]
                   else [];
        seen.output.(failures := seen.output.failures + own)
  }

  ghost function Shares(lab: Lab, i: Input, o: Options, s: Scene): nat -> CollectedOutput {
    (n: nat) => Share(lab, i, o, s, n)
  }

  /** What is stored for the `n`-th selected analyzer: the entry that was used, or else what it yields now if it
      did not fail, none of its output was rejected and the entry is valid. */
  ghost function StoredShare(lab: Lab, i: Input, o: Options, s: Scene, n: nat): seq<Entry> {
    if n >= |lab.select(i)| then []
    else
      var d := lab.select(i)[n];
      if HasEntry(lab, i, o, d) then [o.index[NewKey(lab, i, d)]]
      else
        var seen := lab.observe(d, i, s.seen(n));
        var e := Entry(NewKey(lab, i, d), lab.artifactId(i.sourceId, i.path, i.hash), seen.output.contributions,
                       seen.output.coverage, seen.output.gaps);
        if !seen.failed && seen.output.failures == [] && lab.validEntry(e) then [e] else []
  }

  ghost function Stored(lab: Lab, i: Input, o: Options, s: Scene, n: nat): seq<Entry> {
    if n == 0 then [] else Stored(lab, i, o, s, n - 1) + StoredShare(lab, i, o, s, n - 1)
  }

  /** Each of the five lists joins the lists of the first `n` analyzers, in order; `more` failures follow. */
  ghost predicate Joins(lab: Lab, i: Input, o: Options, s: Scene, n: nat, output: CollectedOutput,
      more: seq<Failure>) {
    var share := Shares(lab, i, o, s);
    && output.contributions == Concat(ContributionsIn, share, n) && output.coverage == Concat(CoverageIn, share, n)
    && output.gaps == Concat(GapsIn, share, n) && output.evidence == Concat(EvidenceIn, share, n)
    && output.failures == Concat(FailuresIn, share, n) + more
  }

  ghost predicate AllStored(lab: Lab, i: Input, o: Options, n: nat) {
    forall k: nat | k < n && k < |lab.select(i)| :: HasEntry(lab, i, o, lab.select(i)[k])
  }

  /** How many analyzers had their turn. */
  ghost function Turns(lab: Lab, i: Input, s: Scene): nat {
    if s.stop.Some? && s.stop.value < |lab.select(i)| then s.stop.value else |lab.select(i)|
  }

  /** A run that keeps what was found: the analyzers that had their turn, and who was cancelled. */
  ghost predicate KeepsAll(lab: Lab, i: Input, o: Options, s: Scene, run: ArtifactRun) {
    var n := Turns(lab, i, s);
    var cancelled :=
      if n == |lab.select(i)| then []
      else [ItsFailure(lab, i, lab.select(i)[n].id, "cancelled", "analyze", "analyzer work was cancelled")];
    && Joins(lab, i, o, s, n, run.output, cancelled) && run.entries == Stored(lab, i, o, s, n)
    && run.reused == AllStored(lab, i, o, n) && run.reprocessed == !run.reused
  }

  /** A run over an artifact that changed, or could not be read, meanwhile: only the failures are kept. */
  ghost predicate DropsAll(lab: Lab, i: Input, o: Options, s: Scene, run: ArtifactRun, message: string) {
    var n := |lab.select(i)|;
    var id := lab.artifactId(i.sourceId, i.path, i.hash);
    && run.output.contributions == [] && run.output.coverage == [] && run.output.evidence == []
    && run.output.gaps == [Gap("", "source_changed_during_analysis", "evidence_provenance_uncertainty_gaps", i.path,
        message, "", Some(Locator(i.sourceId, id, i.path, "")))]
    && run.output.failures == Concat(FailuresIn, Shares(lab, i, o, s), n)
        + [ItsFailure(lab, i, "", "source_changed_during_analysis", "revalidate", message)]
    && run.entries == [] && !run.reused && run.reprocessed == !AllStored(lab, i, o, n)
  }

  /** An artifact without an analyzer is reported as not supported, by its path. */
  ghost predicate ReportsUnsupported(i: Input, run: ArtifactRun) {
    && run.output.contributions == [] && run.output.failures == [] && run.output.evidence == [] && run.entries == []
    && run.output.coverage == [Coverage("", "landscape_inventory_structure", i.path, "not_supported", "",
        "no compatible analyzer was registered", None)]
    && run.output.gaps == [Gap("", "analyzer_unavailable", "landscape_inventory_structure", i.path,
        "no compatible analyzer was registered", "", None)]
    && !run.reused && !run.reprocessed
  }

  /** What `runArtifact` returns, in each case. */
  ghost predicate Holds(lab: Lab, i: Input, o: Options, s: Scene, run: ArtifactRun) {
    if lab.select(i) == [] then ReportsUnsupported(i, run)
    else if s.stop.Some? && s.stop.value <= |lab.select(i)| then KeepsAll(lab, i, o, s, run)
    else if s.final.None? then DropsAll(lab, i, o, s, run,
        "source could not be revalidated after analysis; analyzer observations were discarded")
    else if lab.hash(s.final.value) != i.hash then DropsAll(lab, i, o, s, run,
        "source changed during analysis; analyzer observations were discarded")
    else KeepsAll(lab, i, o, s, run)
  }

  /** Before the revalidation: what the loop has put together after `n` turns. */
  ghost predicate Gathered(lab: Lab, i: Input, o: Options, s: Scene, n: nat, p: Progress) {
    && Joins(lab, i, o, s, n, p.output, []) && p.entries == Stored(lab, i, o, s, n)
    && p.allReused == AllStored(lab, i, o, n) && p.anyReprocessed == !p.allReused && !p.stopped
  }

  lemma TurnGathers(lab: Lab, i: Input, o: Options, s: Scene, n: nat, p: Progress)
    requires n < |lab.select(i)| && Gathered(lab, i, o, s, n, p) && !StoppedAt(s, n)
    ensures Gathered(lab, i, o, s, n + 1, Turn(lab, i, o, s, n, p))
  {
    hide NewKey, Share, StoredShare, HasEntry, Turn, Concat;
    TurnShares(lab, i, o, s, n, p);
    JoinsNext(lab, i, o, s, n, p.output);
  }

  /** A turn adds the share of its analyzer. */
  lemma TurnShares(lab: Lab, i: Input, o: Options, s: Scene, n: nat, p: Progress)
    requires n < |lab.select(i)| && !StoppedAt(s, n)
    ensures var q, d := Turn(lab, i, o, s, n, p), lab.select(i)[n];
      && q.output == Append(p.output, Share(lab, i, o, s, n)) && q.stopped == p.stopped
      && q.entries == p.entries + StoredShare(lab, i, o, s, n)
      && q.allReused == (p.allReused && HasEntry(lab, i, o, d))
      && q.anyReprocessed == (p.anyReprocessed || !HasEntry(lab, i, o, d))
  {
    hide NewKey;
  }

  lemma JoinsNext(lab: Lab, i: Input, o: Options, s: Scene, n: nat, output: CollectedOutput)
    requires Joins(lab, i, o, s, n, output, [])
    ensures Joins(lab, i, o, s, n + 1, Append(output, Share(lab, i, o, s, n)), [])
  {
    hide Share;
    assert Shares(lab, i, o, s)(n) == Share(lab, i, o, s, n);
  }

  lemma {:induction false} AfterGathers(lab: Lab, i: Input, o: Options, s: Scene, n: nat)
    requires n <= Turns(lab, i, s)
    ensures Gathered(lab, i, o, s, n, After(lab, i, o, s, n))
  {
    hide Gathered, Turn;
    if n == 0 {
      NothingGathered(lab, i, o, s);
    } else {
      AfterGathers(lab, i, o, s, n - 1);
      TurnGathers(lab, i, o, s, n - 1, After(lab, i, o, s, n - 1));
      GatheredGoesOn(lab, i, o, s, n - 1);
    }
  }

  lemma NothingGathered(lab: Lab, i: Input, o: Options, s: Scene)
    ensures Gathered(lab, i, o, s, 0, Progress(NOTHING, [], true, false, false))
  {
  }

  lemma GatheredGoesOn(lab: Lab, i: Input, o: Options, s: Scene, n: nat)
    requires n < |lab.select(i)| && Gathered(lab, i, o, s, n, After(lab, i, o, s, n))
    ensures After(lab, i, o, s, n + 1) == Turn(lab, i, o, s, n, After(lab, i, o, s, n))
  {
    hide Joins, AllStored;
  }

  /** A run holds what its analyzers hold. */
  lemma RunHolds(lab: Lab, i: Input, o: Options, s: Scene)
    ensures Holds(lab, i, o, s, RunOf(lab, i, o, s))
  {
    hide Share, StoredShare, AllStored, After;
    var all := |lab.select(i)|;
    if all > 0 {
      var n := Turns(lab, i, s);
      AfterGathers(lab, i, o, s, n);
      if n < all {
        GatheredGoesOn(lab, i, o, s, n);
        StoppedStays(lab, i, o, s, n + 1, all);
      }
    }
  }

  /** `runArtifact`. */
  method RunArtifact(lab: Lab, i: Input, o: Options, s: Scene) returns (run: ArtifactRun)
    ensures Holds(lab, i, o, s, run)
    ensures run == RunOf(lab, i, o, s)
  {
    hide Reusable, Append, EntryOf, FromEntry, Broken, Cancelled, Holds;
    RunHolds(lab, i, o, s);
    var selected := lab.select(i);
    if selected == [] { return ArtifactRun(NotSupported(i), false, false, []); }
    var output, entries, allReused, anyReprocessed, stopped := NOTHING, [], true, false, false;
    var n := 0;
    while n < |selected| && !stopped
      invariant 0 <= n <= |selected|
      invariant After(lab, i, o, s, n) == Progress(output, entries, allReused, anyReprocessed, stopped)
      decreases |selected| - n
    {
      var d := selected[n];
      if StoppedAt(s, n) {
        output := output.(failures := output.failures + [Cancelled(lab, i, d)]);
        stopped := true;
      } else {
        var stored := Reusable(lab, i, o, d);
        if stored.Some? {
          output := Append(output, FromEntry(stored.value));
          entries := entries + [stored.value];
        } else {
          allReused, anyReprocessed := false, true;
          var seen := lab.observe(d, i, s.seen(n));
          output := Append(output, seen.output);
          if seen.failed {
            output := output.(failures := output.failures + [Broken(lab, i, d)]);
          } else if seen.output.failures == [] && lab.validEntry(EntryOf(lab, i, d, seen.output)) {
            entries := entries + [EntryOf(lab, i, d, seen.output)];
          }
        }
      }
      n := n + 1;
    }
    if stopped { StoppedStays(lab, i, o, s, n, |selected|); }
    if !stopped && !StoppedAt(s, |selected|) {
      if s.final.None? || lab.hash(s.final.value) != i.hash {
        var (failure, gap) := SourceChanged(lab, i, if s.final.None? then UNREADABLE else CHANGED);
        output := NOTHING.(failures := output.failures + [failure], gaps := [gap]);
        entries, allReused := [], false;
      }
    }
    run := ArtifactRun(output, allReused, !allReused && anyReprocessed, entries);
  }

  // ---------- what makes the cache right ----------

  /** A source, path and hash as discovery writes them: the digest of an artifact leaves them as they are. */
  predicate CanonicalTriple(lab: Lab, sourceId: string, path: string, hash: string) {
    Trim(sourceId) == sourceId && lab.canonicalPath(path) == path && Trim(hash) == hash
  }

  predicate Canonical(lab: Lab, i: Input) {
    CanonicalTriple(lab, i.sourceId, i.path, i.hash)
  }

  /** Artifacts that discovery tells apart have different identities. */
  ghost predicate IdentifiesArtifacts(lab: Lab) {
    forall a: string, b: string, c: string, x: string, y: string, z: string
      | CanonicalTriple(lab, a, b, c) && CanonicalTriple(lab, x, y, z) ::
      lab.artifactId(a, b, c) == lab.artifactId(x, y, z) ==> a == x && b == y && c == z
  }

  ghost predicate DistinctContents(lab: Lab) {
    forall a: string, b: string :: lab.hash(a) == lab.hash(b) ==> a == b
  }

  /** The analyzers of one artifact have different keys, and which apply does not depend on the mode. */
  ghost predicate KnowsAnalyzers(lab: Lab) {
    && (forall i: Input, m: nat, n: nat | m < n < |lab.select(i)| ::
          NewKey(lab, i, lab.select(i)[m]) != NewKey(lab, i, lab.select(i)[n]))
    && (forall i: Input, mode: bool :: lab.select(i.(evidence := mode)) == lab.select(i))
  }

  ghost predicate PlainHasNoDrafts(observe: (Descriptor, Input, string) -> Observation) {
    forall d: Descriptor, i: Input, c: string | !i.evidence :: observe(d, i, c).output.evidence == []
  }

  /** Different analyzers of one artifact, different artifacts and different contents are told apart by
      what goes into a key; outside an evidence run no drafts come out. */
  ghost predicate Distinguishes(lab: Lab) {
    DistinctContents(lab) && IdentifiesArtifacts(lab) && KnowsAnalyzers(lab) && PlainHasNoDrafts(lab.observe)
  }

  /** `ArtifactID`: trimmed texts and a cleaned path, framed. */
  function FramedArtifactId(digest: string -> string, canonicalPath: string -> string)
    : (string, string, string) -> string
  {
    (a: string, b: string, c: string) => DigestId(digest, "artifact", [Trim(a), canonicalPath(b), Trim(c)])
  }

  /** Identities of artifacts as the program makes them tell artifacts apart, with any digest that tells
      texts apart and any cleaning of paths. */
  lemma FramedArtifactsAreIdentified(lab: Lab, digest: string -> string)
    requires lab.artifactId == FramedArtifactId(digest, lab.canonicalPath)
    requires forall x: string, y: string :: digest(x) == digest(y) ==> x == y
    ensures IdentifiesArtifacts(lab)
  {
    hide Trim, DigestId;
    forall a: string, b: string, c: string, x: string, y: string, z: string
      | CanonicalTriple(lab, a, b, c) && CanonicalTriple(lab, x, y, z)
          && lab.artifactId(a, b, c) == lab.artifactId(x, y, z)
      ensures a == x && b == y && c == z
    {
      IdentityDeterminesParts(digest, "artifact", [a, b, c], [x, y, z]);
      assert [a, b, c][0] == [x, y, z][0] && [a, b, c][1] == [x, y, z][1] && [a, b, c][2] == [x, y, z][2];
    }
  }

  /** The entry is what the analyzer of its key yields on the content of its key. */
  ghost predicate Yields(lab: Lab, e: Entry, i: Input, n: nat, content: string)
    requires n < |lab.select(i)|
  {
    var seen := lab.observe(lab.select(i)[n], i, content);
    !seen.failed && seen.output == FromEntry(e).(evidence := seen.output.evidence)
  }

  ghost predicate Concerns(lab: Lab, e: Entry, i: Input, n: nat, content: string) {
    && n < |lab.select(i)| && NewKey(lab, i, lab.select(i)[n]) == e.key && ArtifactIdOf(lab, i) == e.artifactId
    && Canonical(lab, i) && lab.hash(content) == i.hash
  }

  /** In runs of this mode, the entry can stand for running the analyzer. */
  ghost predicate Faithful(lab: Lab, evidence: bool, e: Entry) {
    forall i: Input, n: nat, content: string | i.evidence == evidence && Concerns(lab, e, i, n, content) ::
        Yields(lab, e, i, n, content)
  }

  ghost predicate FaithfulIndex(lab: Lab, evidence: bool, index: map<Key, Entry>) {
    forall k | k in index :: index[k].key == k && Faithful(lab, evidence, index[k])
  }

  /** All analyzers read the content the artifact was discovered with. */
  ghost predicate Settled(lab: Lab, i: Input, s: Scene) {
    forall n: nat | n < |lab.select(i)| :: lab.hash(s.seen(n)) == i.hash
  }

  ghost predicate Unchanged(lab: Lab, i: Input, s: Scene) {
    s.final.Some? && lab.hash(s.final.value) == i.hash
  }

  /** What the analyzers found is kept: the revalidation finds no change, or is skipped because the context
      is cancelled by then. */
  ghost predicate Keeps(lab: Lab, i: Input, s: Scene) {
    StoppedAt(s, |lab.select(i)|) || Unchanged(lab, i, s)
  }

  /** Where findings are kept, every analyzer that had its turn read the content that was discovered. */
  ghost predicate ReadsDiscovered(lab: Lab, i: Input, s: Scene) {
    Keeps(lab, i, s) ==> forall n: nat | n < |lab.select(i)| && !StoppedAt(s, n) :: lab.hash(s.seen(n)) == i.hash
  }

  function NoCache(o: Options): Options {
    o.(cache := false)
  }

  lemma ReusedIsYielded(lab: Lab, i: Input, o: Options, s: Scene, n: nat)
    requires Distinguishes(lab) && FaithfulIndex(lab, i.evidence, o.index) && !i.evidence && Canonical(lab, i)
    requires n < |lab.select(i)| && lab.hash(s.seen(n)) == i.hash && Reusable(lab, i, o, lab.select(i)[n]).Some?
    ensures lab.observe(lab.select(i)[n], i,
        s.seen(n)) == Observation(FromEntry(Reusable(lab, i, o, lab.select(i)[n]).value), false)
  {
    hide Yields;
    var d := lab.select(i)[n];
    var e := Reusable(lab, i, o, d).value;
    assert Faithful(lab, i.evidence, e);
    assert Concerns(lab, e, i, n, s.seen(n));
    assert Yields(lab, e, i, n, s.seen(n));
    YieldsPlainly(lab, e, i, n, s.seen(n));
  }

  lemma YieldsPlainly(lab: Lab, e: Entry, i: Input, n: nat, content: string)
    requires Distinguishes(lab) && !i.evidence && n < |lab.select(i)| && Yields(lab, e, i, n, content)
    ensures lab.observe(lab.select(i)[n], i, content) == Observation(FromEntry(e), false)
  {
  }

  /** On the content the artifact was discovered with, using what is stored changes nothing. */
  lemma {:induction false} SettledIsFresh(lab: Lab, i: Input, o: Options, s: Scene, n: nat)
    requires Distinguishes(lab) && FaithfulIndex(lab, i.evidence, o.index) && (i.evidence ==> o.forceReprocess)
    requires Canonical(lab, i) && s.stop == None && Settled(lab, i, s) && n <= |lab.select(i)|
    ensures After(lab, i, o, s, n).output == After(lab, i, NoCache(o), s, n).output
    ensures !After(lab, i, o, s, n).stopped && !After(lab, i, NoCache(o), s, n).stopped
  {
    hide FaithfulIndex, Distinguishes, Append, Turn;
    if n > 0 {
      SettledIsFresh(lab, i, o, s, n - 1);
      TurnIsFresh(lab, i, o, s, n - 1, After(lab, i, o, s, n - 1), After(lab, i, NoCache(o), s, n - 1));
    }
  }

  lemma TurnIsFresh(lab: Lab, i: Input, o: Options, s: Scene, n: nat, p: Progress, q: Progress)
    requires Distinguishes(lab) && FaithfulIndex(lab, i.evidence, o.index) && (i.evidence ==> o.forceReprocess)
    requires Canonical(lab, i) && s.stop == None && Settled(lab, i, s) && n < |lab.select(i)| && p.output == q.output
    requires !p.stopped && !q.stopped
    ensures Turn(lab, i, o, s, n, p).output == Turn(lab, i, NoCache(o), s, n, q).output
    ensures !Turn(lab, i, o, s, n, p).stopped && !Turn(lab, i, NoCache(o), s, n, q).stopped
  {
    hide FaithfulIndex, Distinguishes, Append;
    if Reusable(lab, i, o, lab.select(i)[n]).Some? {
      ReusedIsYielded(lab, i, o, s, n);
    }
  }

  lemma {:induction false} NeverStops(lab: Lab, i: Input, o: Options, s: Scene, n: nat)
    requires !StoppedAt(s, |lab.select(i)|) && n <= |lab.select(i)|
    ensures !After(lab, i, o, s, n).stopped
  {
    hide Append, Lookup;
    if n > 0 { NeverStops(lab, i, o, s, n - 1); }
  }

  /** A run that uses what is stored observes the same as one that does not: always the same contributions,
      coverage and gaps, and the same failures too unless the source changed meanwhile. */
  lemma ReuseIsFresh(lab: Lab, i: Input, o: Options, s: Scene)
    requires Distinguishes(lab) && FaithfulIndex(lab, i.evidence, o.index) && (i.evidence ==> o.forceReprocess)
    requires Canonical(lab, i) && s.stop == None && ReadsDiscovered(lab, i, s)
    ensures var cached, fromScratch := RunOf(lab, i, o, s).output, RunOf(lab, i, NoCache(o), s).output;
      && cached.(failures := fromScratch.failures) == fromScratch
      && (Unchanged(lab, i, s) ==> cached == fromScratch)
  {
    hide FaithfulIndex, Distinguishes, Turn, After;
    NeverStops(lab, i, o, s, |lab.select(i)|);
    NeverStops(lab, i, NoCache(o), s, |lab.select(i)|);
    if Unchanged(lab, i, s) {
      SettledIsFresh(lab, i, o, s, |lab.select(i)|);
    }
  }

  // ---------- what a run stores ----------

  lemma StoredIsFaithful(lab: Lab, i: Input, n: nat, content: string)
    requires Distinguishes(lab) && Canonical(lab, i) && n < |lab.select(i)| && lab.hash(content) == i.hash
    requires var seen := lab.observe(lab.select(i)[n], i, content); !seen.failed && seen.output.failures == []
    ensures Faithful(lab, i.evidence,
        EntryOf(lab, i, lab.select(i)[n], lab.observe(lab.select(i)[n], i, content).output))
  {
    var e := EntryOf(lab, i, lab.select(i)[n], lab.observe(lab.select(i)[n], i, content).output);
    forall j: Input, m: nat, c: string | j.evidence == i.evidence && Concerns(lab, e, j, m, c)
      ensures Yields(lab, e, j, m, c)
    {
      assert j == i;
      assert c == content;
    }
  }

  ghost predicate AllFaithful(lab: Lab, evidence: bool, entries: seq<Entry>) {
    forall k | 0 <= k < |entries| :: Faithful(lab, evidence, entries[k])
  }

  lemma {:induction false} StoresFaithfully(lab: Lab, i: Input, o: Options, s: Scene, n: nat)
    requires Distinguishes(lab) && Canonical(lab, i) && FaithfulIndex(lab, i.evidence, o.index) && n <= |lab.select(i)|
    requires forall m: nat | m < |lab.select(i)| && !StoppedAt(s, m) :: lab.hash(s.seen(m)) == i.hash
    ensures AllFaithful(lab, i.evidence, After(lab, i, o, s, n).entries)
  {
    hide Distinguishes, Faithful, Append, Trim;
    if n > 0 {
      StoresFaithfully(lab, i, o, s, n - 1);
      var p := After(lab, i, o, s, n - 1);
      var d := lab.select(i)[n - 1];
      if !p.stopped && !StoppedAt(s, n - 1) && Reusable(lab, i, o, d).None? {
        var seen := lab.observe(d, i, s.seen(n - 1));
        if !seen.failed && seen.output.failures == [] { StoredIsFaithful(lab, i, n - 1, s.seen(n - 1)); }
      }
    }
  }

  /** Whatever happens during a run, what it stores can stand for the analyzers. */
  lemma RunStoresFaithfully(lab: Lab, i: Input, o: Options, s: Scene)
    requires Distinguishes(lab) && Canonical(lab, i) && FaithfulIndex(lab, i.evidence, o.index)
    requires ReadsDiscovered(lab, i, s)
    ensures AllFaithful(lab, i.evidence, RunOf(lab, i, o, s).entries)
  {
    hide Distinguishes, FaithfulIndex, Faithful, Turn, After;
    if Keeps(lab, i, s) {
      StoresFaithfully(lab, i, o, s, |lab.select(i)|);
    } else {
      NeverStops(lab, i, o, s, |lab.select(i)|);
    }
  }

  // ---------- histories ----------

  /** One run over a source: the artifacts in the order their results arrive, what is met at each, the
      invalidated paths, and whether the new state could be saved. */
  datatype Visit = Visit(inputs: seq<Input>, scene: Input -> Scene, invalidated: set<string>, usable: bool, saved: bool)

  /** `buildStateIndex`: later entries replace earlier ones. */
  function IndexOf(entries: seq<Entry>): map<Key, Entry> {
    if entries == [] then map[] else
    IndexOf(entries[..|entries| - 1])[entries[|entries| - 1].key := entries[|entries| - 1]]
  }

  function OptionsOf(evidence: bool, v: Visit, entries: seq<Entry>): Options {
    Options(IndexOf(entries), v.usable, v.invalidated, evidence)
  }

  function RunAll(lab: Lab, evidence: bool, v: Visit, entries: seq<Entry>, n: nat): seq<ArtifactRun>
    requires n <= |v.inputs|
  {
    if n == 0 then [] else
    RunAll(lab, evidence, v, entries, n - 1)
    + [RunOf(lab, v.inputs[n - 1], OptionsOf(evidence, v, entries), v.scene(v.inputs[n - 1]))]
  }

  function EntriesOf(runs: seq<ArtifactRun>): seq<Entry> {
    if runs == [] then [] else EntriesOf(runs[..|runs| - 1]) + runs[|runs| - 1].entries
  }

  /** `buildStateSnapshot` and `Replace`: the entries of all artifacts, or the old state if that fails. */
  function NextState(lab: Lab, evidence: bool, v: Visit, entries: seq<Entry>): seq<Entry> {
    if v.saved then EntriesOf(RunAll(lab, evidence, v, entries, |v.inputs|)) else entries
  }

  function StateAfter(lab: Lab, evidence: bool, history: seq<Visit>, n: nat): seq<Entry>
    requires n <= |history|
  {
    if n == 0 then [] else NextState(lab, evidence, history[n - 1], StateAfter(lab, evidence, history, n - 1))
  }

  ghost predicate HonestVisit(lab: Lab, evidence: bool, v: Visit) {
    forall k | 0 <= k < |v.inputs| ::
      v.inputs[k].evidence == evidence && Canonical(lab, v.inputs[k])
          && ReadsDiscovered(lab, v.inputs[k], v.scene(v.inputs[k]))
  }

  lemma {:induction false} IndexIsFaithful(lab: Lab, evidence: bool, entries: seq<Entry>)
    requires AllFaithful(lab, evidence, entries)
    ensures FaithfulIndex(lab, evidence, IndexOf(entries))
  {
    hide Faithful;
    if entries != [] { IndexIsFaithful(lab, evidence, entries[..|entries| - 1]); }
  }

  lemma {:induction false} RunAllStoresFaithfully(lab: Lab, evidence: bool, v: Visit, entries: seq<Entry>, n: nat)
    requires Distinguishes(lab) && AllFaithful(lab, evidence, entries) && HonestVisit(lab, evidence, v)
    requires n <= |v.inputs|
    ensures AllFaithful(lab, evidence, EntriesOf(RunAll(lab, evidence, v, entries, n)))
  {
    hide Distinguishes, AllFaithful, FaithfulIndex, ReadsDiscovered, RunOf, Canonical, IndexOf;
    NoneIsFaithful(lab, evidence);
    if n > 0 {
      RunAllStoresFaithfully(lab, evidence, v, entries, n - 1);
      IndexIsFaithful(lab, evidence, entries);
      RunStoresFaithfully(lab, v.inputs[n - 1], OptionsOf(evidence, v, entries), v.scene(v.inputs[n - 1]));
      var earlier := RunAll(lab, evidence, v, entries, n - 1);
      var last := RunOf(lab, v.inputs[n - 1], OptionsOf(evidence, v, entries), v.scene(v.inputs[n - 1]));
      EntriesOfMore(earlier, last);
      FaithfulTogether(lab, evidence, EntriesOf(earlier), last.entries);
    }
  }

  lemma NoneIsFaithful(lab: Lab, evidence: bool)
    ensures AllFaithful(lab, evidence, [])
  {
  }

  lemma FaithfulTogether(lab: Lab, evidence: bool, a: seq<Entry>, b: seq<Entry>)
    requires AllFaithful(lab, evidence, a) && AllFaithful(lab, evidence, b)
    ensures AllFaithful(lab, evidence, a + b)
  {
    hide Faithful;
  }

  lemma {:induction false} StateStaysFaithful(lab: Lab, evidence: bool, history: seq<Visit>, n: nat)
    requires Distinguishes(lab) && n <= |history| && forall k | 0 <= k < n :: HonestVisit(lab, evidence, history[k])
    ensures AllFaithful(lab, evidence, StateAfter(lab, evidence, history, n))
  {
    hide Distinguishes, Faithful, HonestVisit;
    if n > 0 {
      StateStaysFaithful(lab, evidence, history, n - 1);
      var before := StateAfter(lab, evidence, history, n - 1);
      RunAllStoresFaithfully(lab, evidence, history[n - 1], before, |history[n - 1].inputs|);
    }
  }

  /** Over any history of runs and edits, in any order of arrival and with any set of invalidated paths,
      every uncancelled run finds at every artifact what a run without a cache finds there. */
  lemma EveryRunIsFresh(lab: Lab, evidence: bool, history: seq<Visit>, n: nat, k: nat)
    requires Distinguishes(lab) && n < |history| && (forall m | 0 <= m <= n :: HonestVisit(lab, evidence, history[m]))
    requires k < |history[n].inputs| && history[n].scene(history[n].inputs[k]).stop == None
    ensures var i, v := history[n].inputs[k], history[n];
      var cached := RunOf(lab, i, OptionsOf(evidence, v, StateAfter(lab, evidence, history, n)), v.scene(i)).output;
      var fromScratch := RunOf(lab, i, OptionsOf(evidence, v, []).(cache := false), v.scene(i)).output;
      cached.(failures := fromScratch.failures) == fromScratch
          && (Unchanged(lab, i, v.scene(i)) ==> cached == fromScratch)
  {
    hide Distinguishes, Faithful, FaithfulIndex, ReadsDiscovered, RunOf, AllFaithful;
    var i, v := history[n].inputs[k], history[n];
    StateStaysFaithful(lab, evidence, history, n);
    var entries := StateAfter(lab, evidence, history, n);
    IndexIsFaithful(lab, evidence, entries);
    assert HonestVisit(lab, evidence, v);
    ReuseIsFresh(lab, i, OptionsOf(evidence, v, entries), v.scene(i));
    IndexUnused(lab, i, NoCache(OptionsOf(evidence, v, entries)), NoCache(OptionsOf(evidence, v, [])), v.scene(i));
  }

  lemma {:induction false} IndexUnusedAfter(lab: Lab, i: Input, a: Options, b: Options, s: Scene, n: nat)
    requires !a.cache && !b.cache && n <= |lab.select(i)|
    ensures After(lab, i, a, s, n) == After(lab, i, b, s, n)
  {
    hide Invoke, Lookup;
    if n > 0 { IndexUnusedAfter(lab, i, a, b, s, n - 1); }
  }

  /** Without the cache it does not matter what is stored. */
  lemma IndexUnused(lab: Lab, i: Input, a: Options, b: Options, s: Scene)
    requires !a.cache && !b.cache
    ensures RunOf(lab, i, a, s) == RunOf(lab, i, b, s)
  {
    hide After;
    IndexUnusedAfter(lab, i, a, b, s, |lab.select(i)|);
  }

  // ---------- nothing to do ----------

  ghost predicate StoredAt(lab: Lab, i: Input, index: map<Key, Entry>, s: Scene, n: nat)
    requires n < |lab.select(i)|
  {
    var e := OwnEntry(lab, i, s, n);
    e.key in index && index[e.key] == e && lab.validEntry(e)
  }

  lemma StoredTurn(lab: Lab, i: Input, o: Options, s: Scene, n: nat, p: Progress)
    requires o.cache && !o.forceReprocess && i.path !in o.invalidated && s.stop == None && n < |lab.select(i)|
    requires StoredAt(lab, i, o.index, s, n)
    ensures Turn(lab, i, o, s, n, p) == p.(output := Turn(lab, i, o, s, n, p).output,
        entries := Turn(lab, i, o, s, n, p).entries)
  {
    hide Append, Invoke, Trim;
  }

  lemma {:induction false} NothingReprocessed(lab: Lab, i: Input, o: Options, s: Scene, n: nat)
    requires o.cache && !o.forceReprocess && i.path !in o.invalidated && s.stop == None && n <= |lab.select(i)|
    requires forall m: nat | m < |lab.select(i)| :: StoredAt(lab, i, o.index, s, m)
    ensures After(lab, i, o, s, n).allReused && !After(lab, i, o, s, n).anyReprocessed
    ensures !After(lab, i, o, s, n).stopped
  {
    hide Turn, StoredAt;
    if n > 0 {
      NothingReprocessed(lab, i, o, s, n - 1);
      StoredTurn(lab, i, o, s, n - 1, After(lab, i, o, s, n - 1));
    }
  }

  /** An artifact whose every observation is stored, which no change invalidates and which does not change
      meanwhile, is reused as a whole: no analyzer runs. */
  lemma UnchangedIsReused(lab: Lab, i: Input, o: Options, s: Scene)
    requires o.cache && !o.forceReprocess && i.path !in o.invalidated && s.stop == None && lab.select(i) != []
    requires Unchanged(lab, i, s) && forall m: nat | m < |lab.select(i)| :: StoredAt(lab, i, o.index, s, m)
    ensures RunOf(lab, i, o, s).reused && !RunOf(lab, i, o, s).reprocessed
  {
    hide After, StoredAt;
    NothingReprocessed(lab, i, o, s, |lab.select(i)|);
  }

  /** The observation is complete and can be stored. */
  ghost predicate Clean(lab: Lab, i: Input, s: Scene, n: nat)
    requires n < |lab.select(i)|
  {
    var seen := lab.observe(lab.select(i)[n], i, s.seen(n));
    !seen.failed && seen.output.failures == [] && lab.validEntry(OwnEntry(lab, i, s, n))
  }

  function OwnEntry(lab: Lab, i: Input, s: Scene, n: nat): Entry
    requires n < |lab.select(i)|
  {
    EntryOf(lab, i, lab.select(i)[n], lab.observe(lab.select(i)[n], i, s.seen(n)).output)
  }

  lemma CleanTurn(lab: Lab, i: Input, o: Options, s: Scene, n: nat, p: Progress)
    requires s.stop == None && n < |lab.select(i)| && Reusable(lab, i, o, lab.select(i)[n]) == None
    requires Clean(lab, i, s, n)
    ensures Turn(lab, i, o, s, n, p).entries == p.entries + [OwnEntry(lab, i, s, n)]
    ensures Turn(lab, i, o, s, n, p).stopped == p.stopped
  {
  }

  /** A run without failures whose entries are valid stores one for every analyzer it ran. */
  lemma {:induction false} CleanRunStoresAll(lab: Lab, i: Input, o: Options, s: Scene, n: nat)
    requires s.stop == None && n <= |lab.select(i)|
    requires forall m: nat | m < |lab.select(i)| :: Clean(lab, i, s, m) && Reusable(lab, i, o, lab.select(i)[m]) == None
    ensures !After(lab, i, o, s, n).stopped && |After(lab, i, o, s, n).entries| == n
    ensures forall m: nat | m < n :: After(lab, i, o, s, n).entries[m] == OwnEntry(lab, i, s, m)
  {
    hide Turn, Clean, OwnEntry, Reusable;
    if n > 0 {
      CleanRunStoresAll(lab, i, o, s, n - 1);
      CleanTurn(lab, i, o, s, n - 1, After(lab, i, o, s, n - 1));
    }
  }

  lemma {:induction false} IndexHolds(entries: seq<Entry>, e: Entry)
    requires e in entries && forall f | f in entries && f.key == e.key :: f == e
    ensures e.key in IndexOf(entries) && IndexOf(entries)[e.key] == e
  {
    var rest, last := entries[..|entries| - 1], entries[|entries| - 1];
    if last.key != e.key {
      assert e in rest;
      IndexHolds(rest, e);
    }
  }

  /** An artifact analyzed without failures from start to end, with nothing stored before. */
  ghost predicate CleanVisit(lab: Lab, i: Input, s: Scene) {
    && s.stop == None && Unchanged(lab, i, s) && Settled(lab, i, s) && lab.select(i) != []
    && forall m: nat | m < |lab.select(i)| :: Clean(lab, i, s, m)
  }

  /** Its entry is the one of analyzer `m`. */
  ghost predicate IsOwn(lab: Lab, i: Input, s: Scene, e: Entry, m: nat) {
    m < |lab.select(i)| && e == OwnEntry(lab, i, s, m)
  }

  lemma FirstRunStores(lab: Lab, i: Input, o: Options, s: Scene)
    requires CleanVisit(lab, i, s) && o.index == map[]
    ensures forall e | e in RunOf(lab, i, o, s).entries :: exists m :: IsOwn(lab, i, s, e, m)
    ensures forall m: nat | m < |lab.select(i)| :: OwnEntry(lab, i, s, m) in RunOf(lab, i, o, s).entries
  {
    hide Clean, OwnEntry, After;
    var n := |lab.select(i)|;
    CleanRunStoresAll(lab, i, o, s, n);
    var entries := RunOf(lab, i, o, s).entries;
    assert entries == After(lab, i, o, s, n).entries;
    forall e | e in entries
      ensures exists m :: IsOwn(lab, i, s, e, m)
    {
      var m: nat :| m < n && entries[m] == e;
      assert IsOwn(lab, i, s, e, m);
    }
    forall m: nat | m < n
      ensures OwnEntry(lab, i, s, m) in entries
    {
      assert entries[m] == OwnEntry(lab, i, s, m);
    }
  }

  ghost predicate OwnOf(lab: Lab, v: Visit, e: Entry, k: nat, m: nat) {
    k < |v.inputs| && IsOwn(lab, v.inputs[k], v.scene(v.inputs[k]), e, m)
  }

  /** Every entry belongs to an analyzer of one of the first `n` artifacts, and all of those have theirs. */
  ghost predicate HoldsAll(lab: Lab, v: Visit, n: nat, entries: seq<Entry>)
    requires n <= |v.inputs|
  {
    && (forall e | e in entries :: exists k: nat, m: nat :: OwnOf(lab, v, e, k, m))
    && (forall k: nat, m: nat | k < n && m < |lab.select(v.inputs[k])| ::
        OwnEntry(lab, v.inputs[k], v.scene(v.inputs[k]), m) in entries)
  }

  lemma HoldsMore(lab: Lab, v: Visit, n: nat, entries: seq<Entry>, more: seq<Entry>)
    requires n < |v.inputs| && HoldsAll(lab, v, n, entries)
    requires forall e | e in more :: exists m :: IsOwn(lab, v.inputs[n], v.scene(v.inputs[n]), e, m)
    requires forall m: nat | m < |lab.select(v.inputs[n])| ::
        OwnEntry(lab, v.inputs[n], v.scene(v.inputs[n]), m) in more
    ensures HoldsAll(lab, v, n + 1, entries + more)
  {
    hide OwnEntry, IsOwn;
    forall e | e in entries + more
      ensures exists k: nat, m: nat :: OwnOf(lab, v, e, k, m)
    {
      if e in more {
        var m :| IsOwn(lab, v.inputs[n], v.scene(v.inputs[n]), e, m);
        assert OwnOf(lab, v, e, n, m);
      }
    }
  }

  lemma EmptyIndex()
    ensures IndexOf([]) == map[]
  {
  }

  lemma {:induction false} FirstVisitStores(lab: Lab, v: Visit, n: nat)
    requires n <= |v.inputs| && forall k | 0 <= k < n :: CleanVisit(lab, v.inputs[k], v.scene(v.inputs[k]))
    ensures HoldsAll(lab, v, n, EntriesOf(RunAll(lab, false, v, [], n)))
  {
    hide CleanVisit, OwnEntry, RunOf, IsOwn, OwnOf, IndexOf, Trim;
    if n > 0 {
      FirstVisitStores(lab, v, n - 1);
      var i := v.inputs[n - 1];
      var earlier, last := RunAll(lab, false, v, [], n - 1), RunOf(lab, i, OptionsOf(false, v, []), v.scene(i));
      EntriesOfMore(earlier, last);
      EmptyIndex();
      FirstRunStores(lab, i, OptionsOf(false, v, []), v.scene(i));
      HoldsMore(lab, v, n - 1, EntriesOf(earlier), last.entries);
    }
  }

  lemma EntriesOfMore(runs: seq<ArtifactRun>, last: ArtifactRun)
    ensures EntriesOf(runs + [last]) == EntriesOf(runs) + last.entries
  {
    assert (runs + [last])[..|runs|] == runs;
  }

  /** Different artifacts of a run have different paths, also in keys. */
  ghost predicate DistinctPaths(lab: Lab, inputs: seq<Input>) {
    forall j, k | 0 <= j < |inputs| && 0 <= k < |inputs| && lab.clean(inputs[j].path) == lab.clean(inputs[k].path) ::
        inputs[j] == inputs[k]
  }

  lemma SameKeySameEntry(lab: Lab, v: Visit, e: Entry, j: nat, m: nat, f: Entry, k: nat, n: nat)
    requires Distinguishes(lab) && DistinctPaths(lab, v.inputs) && OwnOf(lab, v, e, j, m) && OwnOf(lab, v, f, k, n)
    requires e.key == f.key
    ensures e == f
  {
    hide Distinguishes, Trim;
    assert v.inputs[j] == v.inputs[k];
    SamePlace(lab, v.inputs[j], m, n);
  }

  lemma SamePlace(lab: Lab, i: Input, m: nat, n: nat)
    requires Distinguishes(lab) && m < |lab.select(i)| && n < |lab.select(i)|
    requires NewKey(lab, i, lab.select(i)[m]) == NewKey(lab, i, lab.select(i)[n])
    ensures m == n
  {
    hide NewKey, IdentifiesArtifacts, DistinctContents, PlainHasNoDrafts;
    if m < n || n < m { assert false; }
  }

  /** After a complete run without failures, a run over the same artifacts whose contents stay the same
      reuses every one of them. */
  lemma SecondRunReusesAll(lab: Lab, first: Visit, second: Visit, k: nat)
    requires Distinguishes(lab) && DistinctPaths(lab, first.inputs) && first.saved && second.inputs == first.inputs
    requires k < |first.inputs|
    requires forall j | 0 <= j < |first.inputs| ::
        !first.inputs[j].evidence && CleanVisit(lab, first.inputs[j], first.scene(first.inputs[j]))
    requires second.usable && second.invalidated == {}
    requires CleanVisit(lab, second.inputs[k], second.scene(second.inputs[k]))
    ensures var i := second.inputs[k]; var stored := StateAfter(lab, false, [first], 1);
      var run := RunOf(lab, i, OptionsOf(false, second, stored), second.scene(i));
      run.reused && !run.reprocessed
  {
    hide Distinguishes, OwnEntry, Clean, RunOf, IndexOf, IsOwn;
    var i := second.inputs[k];
    var stored := StateAfter(lab, false, [first], 1);
    assert StateAfter(lab, false, [first], 0) == [];
    FirstVisitStores(lab, first, |first.inputs|);
    forall m: nat | m < |lab.select(i)|
      ensures StoredAt(lab, i, IndexOf(stored), second.scene(i), m)
    {
      OwnIsSame(lab, i, first.scene(i), second.scene(i), m);
      var e := OwnEntry(lab, i, second.scene(i), m);
      assert OwnOf(lab, first, e, k, m);
      forall f | f in stored && f.key == e.key
        ensures f == e
      {
        var j: nat, n: nat :| OwnOf(lab, first, f, j, n);
        SameKeySameEntry(lab, first, e, k, m, f, j, n);
      }
      IndexHolds(stored, e);
    }
    UnchangedIsReused(lab, i, OptionsOf(false, second, stored), second.scene(i));
  }

  lemma OwnIsSame(lab: Lab, i: Input, a: Scene, b: Scene, m: nat)
    requires Distinguishes(lab) && m < |lab.select(i)| && Settled(lab, i, a) && Settled(lab, i, b)
    requires Clean(lab, i, b, m)
    ensures OwnEntry(lab, i, a, m) == OwnEntry(lab, i, b, m) && IsOwn(lab, i, a, OwnEntry(lab, i, b, m), m)
    ensures lab.validEntry(OwnEntry(lab, i, b, m))
  {
    assert lab.hash(a.seen(m)) == lab.hash(b.seen(m));
  }
}
