/** Exactly when a stored entry may stand for running the analyzer, over all deterministic analyzers: for
    runs that are cancelled, that collect evidence, or that meet edits which are taken back
    (internal/analysis/runner.go:556-660). */
module CacheExactness {
  import opened Facts
  import opened AnalyzerOutput
  import opened IdentityFraming
  import opened AnalysisCache

  /** The same digests, keys and selection with other analyzers and another entry validator. */
  function With(lab: Lab, observe: (Descriptor, Input, string) -> Observation, validEntry: Entry -> bool): Lab {
    lab.(observe := observe, validEntry := validEntry)
  }

  function Stored(lab: Lab, i: Input, s: Scene): seq<Entry> {
    RunOf(lab, i, Options(map[], true, {}, i.evidence), s).entries
  }

  /** A run over one artifact with a given state, and one without a cache. */
  function CachedRun(lab: Lab, i: Input, stored: seq<Entry>, s: Scene): ArtifactRun {
    RunOf(lab, i, Options(IndexOf(stored), true, {}, i.evidence), s)
  }

  function FreshRun(lab: Lab, i: Input, s: Scene): ArtifactRun {
    RunOf(lab, i, Options(map[], false, {}, i.evidence), s)
  }

  /** After a run over `before` that met `was`, a run over the same artifact that meets `s` finds what a run
      without a cache finds. */
  ghost predicate FreshAfter(lab: Lab, before: Input, was: Scene, i: Input, s: Scene) {
    CachedRun(lab, i, Stored(lab, before, was), s).output == FreshRun(lab, i, s).output
  }

  /** Whatever deterministic analyzers and validators are plugged in. */
  ghost predicate AlwaysFresh(lab: Lab, before: Input, was: Scene, i: Input, s: Scene) {
    forall observe: (Descriptor, Input, string) -> Observation, validEntry: Entry -> bool | PlainHasNoDrafts(observe) ::
      FreshAfter(With(lab, observe, validEntry), before, was, i, s)
  }

  /** Every analyzer whose findings were kept ran in plain mode on the content that was discovered. */
  ghost predicate KeepsHonestly(lab: Lab, i: Input, s: Scene) {
    Keeps(lab, i, s) ==>
      forall n: nat | n < |lab.select(i)| && !StoppedAt(s, n) :: !i.evidence && lab.hash(s.seen(n)) == i.hash
  }

  /** A plain run that meets the discovered content from start to end. */
  ghost predicate PlainRun(lab: Lab, i: Input, s: Scene) {
    !i.evidence && Canonical(lab, i) && s.stop == None && Settled(lab, i, s) && Unchanged(lab, i, s)
  }

  ghost predicate Framed(lab: Lab) {
    DistinctContents(lab) && IdentifiesArtifacts(lab) && KnowsAnalyzers(lab)
  }

  lemma FramedStays(lab: Lab, observe: (Descriptor, Input, string) -> Observation, validEntry: Entry -> bool)
    requires Framed(lab) && PlainHasNoDrafts(observe)
    ensures Distinguishes(With(lab, observe, validEntry))
  {
    var other := With(lab, observe, validEntry);
    assert forall i: Input, d: Descriptor :: NewKey(other, i, d) == NewKey(lab, i, d);
    assert forall i: Input :: other.select(i) == lab.select(i);
    assert forall a: string, b: string, c: string :: CanonicalTriple(other, a, b, c) == CanonicalTriple(lab, a, b, c);
  }

  /** A run with nothing stored keeps nothing unless some analyzer had its turn and its findings are kept. */
  lemma {:induction false} NothingRan(lab: Lab, i: Input, o: Options, s: Scene, n: nat)
    requires n <= |lab.select(i)| && forall m: nat | m < |lab.select(i)| :: StoppedAt(s, m)
    ensures After(lab, i, o, s, n).entries == []
  {
    hide Append;
    if n > 0 { NothingRan(lab, i, o, s, n - 1); }
  }

  lemma NothingKept(lab: Lab, i: Input, s: Scene)
    requires Keeps(lab, i, s) ==> forall m: nat | m < |lab.select(i)| :: StoppedAt(s, m)
    ensures Stored(lab, i, s) == []
  {
    hide After;
    var o := Options(map[], true, {}, i.evidence);
    if Keeps(lab, i, s) {
      NothingRan(lab, i, o, s, |lab.select(i)|);
    } else {
      NeverStops(lab, i, o, s, |lab.select(i)|);
    }
  }

  lemma HonestIsFresh(lab: Lab, before: Input, was: Scene, i: Input, s: Scene)
    requires Distinguishes(lab) && PlainRun(lab, i, s) && before == i.(evidence := before.evidence)
    requires KeepsHonestly(lab, before, was)
    ensures FreshAfter(lab, before, was, i, s)
  {
    hide Distinguishes, RunOf, Faithful, FaithfulIndex, Settled, IndexOf;
    var stored := Stored(lab, before, was);
    if !before.evidence {
      IndexIsFaithful(lab, false, []);
      EmptyIndex();
      RunStoresFaithfully(lab, before, Options(map[], true, {}, false), was);
    } else {
      NothingKept(lab, before, was);
    }
    IndexIsFaithful(lab, false, stored);
    SettledReads(lab, i, s);
    var o := Options(IndexOf(stored), true, {}, false);
    ReuseIsFresh(lab, i, o, s);
    IndexUnused(lab, i, NoCache(o), Options(map[], false, {}, false), s);
  }

  lemma SettledReads(lab: Lab, i: Input, s: Scene)
    requires Settled(lab, i, s)
    ensures ReadsDiscovered(lab, i, s)
  {
  }

  // ---------- analyzers that report what they read ----------

  /** One contribution that tells in which mode and what the analyzer read. */
  function Sighting(evidence: bool, content: string): Contribution {
    Contribution("", "", "", "", if evidence then "evidence" else "plain", "text", content, Locator("", "", "", ""))
  }

  function Report(evidence: bool, content: string): CollectedOutput {
    NOTHING.(contributions := [Sighting(evidence, content)])
  }

  ghost function Reporting(lab: Lab): Lab {
    With(lab, (d: Descriptor, i: Input, content: string) => Observation(Report(i.evidence, content), false),
        (e: Entry) => true)
  }

  ghost function ReportAt(lab: Lab, i: Input, s: Scene, n: nat): Entry
    requires n < |lab.select(i)|
  {
    EntryOf(lab, i, lab.select(i)[n], Report(i.evidence, s.seen(n)))
  }

  lemma ReportTurn(lab: Lab, i: Input, s: Scene, n: nat, p: Progress)
    requires n < |lab.select(i)| && !StoppedAt(s, n)
    ensures var q := Turn(Reporting(lab), i, Options(map[], true, {}, i.evidence), s, n, p);
      q.stopped == p.stopped && q.entries == p.entries + [ReportAt(lab, i, s, n)]
  {
    hide Append, Trim;
    assert Reusable(Reporting(lab), i, Options(map[], true, {}, i.evidence), lab.select(i)[n]) == None;
  }

  /** With nothing stored, every analyzer that has its turn stores what it read. */
  lemma {:induction false} ReportsAreStored(lab: Lab, i: Input, s: Scene, n: nat)
    requires n <= |lab.select(i)| && forall m: nat | m < n :: !StoppedAt(s, m)
    ensures var p := After(Reporting(lab), i, Options(map[], true, {}, i.evidence), s, n);
      !p.stopped && |p.entries| == n && forall m: nat | m < n :: p.entries[m] == ReportAt(lab, i, s, m)
  {
    hide Turn, EntryOf;
    if n > 0 {
      ReportsAreStored(lab, i, s, n - 1);
      ReportTurn(lab, i, s, n - 1, After(Reporting(lab), i, Options(map[], true, {}, i.evidence), s, n - 1));
    }
  }

  /** The number of analyzers that have their turn. */
  function Turns(s: Scene, selected: nat): nat {
    if s.stop.Some? && s.stop.value < selected then s.stop.value else selected
  }

  lemma StopTurn(lab: Lab, i: Input, o: Options, s: Scene, n: nat, p: Progress)
    requires n < |lab.select(i)| && StoppedAt(s, n)
    ensures Turn(lab, i, o, s, n, p).stopped && Turn(lab, i, o, s, n, p).entries == p.entries
  {
  }

  lemma AfterTheStop(lab: Lab, i: Input, o: Options, s: Scene, n: nat)
    requires s.stop.Some? && s.stop.value < n <= |lab.select(i)| && !After(lab, i, o, s, s.stop.value).stopped
    ensures After(lab, i, o, s, n).entries == After(lab, i, o, s, s.stop.value).entries
  {
    hide Turn;
    StopTurn(lab, i, o, s, s.stop.value, After(lab, i, o, s, s.stop.value));
    StoppedStays(lab, i, o, s, s.stop.value + 1, n);
  }

  lemma ReportsAreKept(lab: Lab, i: Input, s: Scene)
    requires Keeps(lab, i, s)
    ensures var turns, stored := Turns(s, |lab.select(i)|), Stored(Reporting(lab), i, s);
      |stored| == turns && forall m: nat | m < turns :: stored[m] == ReportAt(lab, i, s, m)
  {
    hide After, EntryOf;
    var o := Options(map[], true, {}, i.evidence);
    var turns := Turns(s, |lab.select(i)|);
    ReportsAreStored(lab, i, s, turns);
    if turns < |lab.select(i)| { AfterTheStop(Reporting(lab), i, o, s, |lab.select(i)|); }
    assert Keeps(Reporting(lab), i, s);
  }

  lemma ReportKeysDiffer(lab: Lab, i: Input, s: Scene, m: nat, n: nat)
    requires Framed(lab) && m < |lab.select(i)| && n < |lab.select(i)| && m != n
    ensures ReportAt(lab, i, s, m).key != ReportAt(lab, i, s, n).key
  {
    hide NewKey;
    assert if m < n then NewKey(lab, i, lab.select(i)[m]) != NewKey(lab, i, lab.select(i)[n])
           else NewKey(lab, i, lab.select(i)[n]) != NewKey(lab, i, lab.select(i)[m]);
  }

  /** What was kept is what a plain run over the artifact looks up. */
  lemma ReportIsFound(lab: Lab, before: Input, was: Scene, i: Input, n: nat)
    requires Framed(lab) && before == i.(evidence := before.evidence) && !i.evidence && Keeps(lab, before, was)
    requires n < Turns(was, |lab.select(before)|)
    ensures lab.select(before) == lab.select(i)
    ensures var o := Options(IndexOf(Stored(Reporting(lab), before, was)), true, {}, false);
      Reusable(Reporting(lab), i, o, lab.select(i)[n]) == Some(ReportAt(lab, before, was, n))
  {
    hide RunOf, IndexOf, Report, Trim;
    assert lab.select(i.(evidence := before.evidence)) == lab.select(i);
    ReportsAreKept(lab, before, was);
    var stored, e := Stored(Reporting(lab), before, was), ReportAt(lab, before, was, n);
    assert stored[n] == e;
    forall f | f in stored && f.key == e.key
      ensures f == e
    {
      var m: nat :| m < |stored| && stored[m] == f;
      if m != n { ReportKeysDiffer(lab, before, was, m, n); }
    }
    IndexHolds(stored, e);
    assert NewKey(Reporting(lab), i, lab.select(i)[n]) == e.key;
  }

  /** Each analyzer of an uncancelled run contributes one sighting: the stored one, or its own. */
  lemma {:induction false} OneSightingEach(lab: Lab, i: Input, o: Options, s: Scene, n: nat)
    requires s.stop == None && n <= |lab.select(i)|
    requires forall m: nat | m < n && Reusable(Reporting(lab), i, o, lab.select(i)[m]).Some? ::
               |Reusable(Reporting(lab), i, o, lab.select(i)[m]).value.contributions| == 1
    ensures var p := After(Reporting(lab), i, o, s, n);
      && !p.stopped && |p.output.contributions| == n
      && forall m: nat | m < n :: p.output.contributions[m] ==
           match Reusable(Reporting(lab), i, o, lab.select(i)[m])
           case Some(e) => e.contributions[0]
           case None => Sighting(i.evidence, s.seen(m))
  {
    hide Reusable, EntryOf, Sighting;
    if n > 0 { OneSightingEach(lab, i, o, s, n - 1); }
  }

  lemma NotThereIsNotReused(lab: Lab, i: Input, before: Input, was: Scene, n: nat)
    requires Framed(lab) && before == i.(evidence := before.evidence) && Keeps(lab, before, was)
    requires n < |lab.select(i)|
    ensures var o := Options(IndexOf(Stored(Reporting(lab), before, was)), true, {}, false);
      Reusable(Reporting(lab), i, o, lab.select(i)[n]).Some? ==>
        |Reusable(Reporting(lab), i, o, lab.select(i)[n]).value.contributions| == 1
  {
    hide RunOf, NewKey;
    ReportsAreKept(lab, before, was);
    var stored := Stored(Reporting(lab), before, was);
    IndexFrom(stored);
    forall e | e in stored
      ensures |e.contributions| == 1
    {
      var m: nat :| m < |stored| && stored[m] == e;
    }
  }

  lemma {:induction false} IndexFrom(entries: seq<Entry>)
    ensures forall k | k in IndexOf(entries) :: IndexOf(entries)[k] in entries
  {
    if entries != [] { IndexFrom(entries[..|entries| - 1]); }
  }

  /** Analyzers that report what they read expose every finding that was not kept honestly. */
  lemma DishonestMisleads(lab: Lab, before: Input, was: Scene, i: Input, s: Scene)
    requires Framed(lab) && PlainRun(lab, i, s) && before == i.(evidence := before.evidence)
    requires !KeepsHonestly(lab, before, was)
    ensures !FreshAfter(Reporting(lab), before, was, i, s)
  {
    hide After, Reusable, IndexOf, Sighting;
    var n: nat :| n < |lab.select(before)| && !StoppedAt(was,
        n) && (before.evidence || lab.hash(was.seen(n)) != before.hash);
    ReportIsFound(lab, before, was, i, n);
    var o, plain := Options(IndexOf(Stored(Reporting(lab), before, was)), true, {}, false), Options(map[], false, {},
        false);
    forall m: nat | m < |lab.select(i)|
      ensures Reusable(Reporting(lab), i, o, lab.select(i)[m]).Some? ==>
                |Reusable(Reporting(lab), i, o, lab.select(i)[m]).value.contributions| == 1
      ensures Reusable(Reporting(lab), i, plain, lab.select(i)[m]) == None
    {
      NotThereIsNotReused(lab, i, before, was, m);
      NoCacheNoReuse(Reporting(lab), i, plain, lab.select(i)[m]);
    }
    OneSightingEach(lab, i, o, s, |lab.select(i)|);
    OneSightingEach(lab, i, plain, s, |lab.select(i)|);
    assert Unchanged(Reporting(lab), i, s);
    SightingsDiffer(before.evidence, was.seen(n), s.seen(n));
  }

  lemma NoCacheNoReuse(lab: Lab, i: Input, o: Options, d: Descriptor)
    requires !o.cache
    ensures Reusable(lab, i, o, d) == None
  {
  }

  lemma SightingsDiffer(evidence: bool, content: string, other: string)
    requires evidence || content != other
    ensures Sighting(evidence, content) != Sighting(false, other)
  {
    assert "evidence"[0] != "plain"[0];
  }

  /** A plain run that finds an artifact as discovered reports the same with and without the cache, under all
      deterministic analyzers, exactly when every analyzer whose findings an earlier run kept ran in plain
      mode on the content discovered then. */
  lemma FreshExact(lab: Lab, before: Input, was: Scene, i: Input, s: Scene)
    requires Framed(lab) && PlainRun(lab, i, s) && before == i.(evidence := before.evidence)
    ensures AlwaysFresh(lab, before, was, i, s) <==> KeepsHonestly(lab, before, was)
  {
    hide FreshAfter, PlainRun, KeepsHonestly, Framed;
    if KeepsHonestly(lab, before, was) {
      forall observe: (Descriptor, Input, string) -> Observation, validEntry: Entry -> bool | PlainHasNoDrafts(observe)
        ensures FreshAfter(With(lab, observe, validEntry), before, was, i, s)
      {
        FramedStays(lab, observe, validEntry);
        SameHonesty(lab, With(lab, observe, validEntry), before, was, i, s);
        HonestIsFresh(With(lab, observe, validEntry), before, was, i, s);
      }
    } else {
      DishonestMisleads(lab, before, was, i, s);
      var reporting := Reporting(lab);
      assert PlainHasNoDrafts(reporting.observe);
      assert reporting == With(lab, reporting.observe, reporting.validEntry);
    }
  }

  lemma SameHonesty(lab: Lab, other: Lab, before: Input, was: Scene, i: Input, s: Scene)
    requires other == With(lab, other.observe, other.validEntry)
    ensures KeepsHonestly(lab, before, was) <==> KeepsHonestly(other, before, was)
    ensures PlainRun(lab, i, s) <==> PlainRun(other, i, s)
  {
  }

  // ---------- three ways to keep something else ----------

  /** An edit that is made while an uncancelled run analyzes and taken back before it looks again. */
  lemma UndoneEditMisleads(lab: Lab, i: Input, s: Scene, edit: string)
    requires Framed(lab) && PlainRun(lab, i, s) && lab.select(i) != [] && lab.hash(edit) != i.hash
    ensures !AlwaysFresh(lab, i, Scene((n: nat) => edit, s.final, None), i, s)
  {
    hide AlwaysFresh;
    var was := Scene((n: nat) => edit, s.final, None);
    FreshExact(lab, i, was, i, s);
    assert lab.hash(was.seen(0)) != i.hash;
  }

  /** A run that is cancelled after its first analyzer does not look again at all. */
  lemma CancelledRunKeepsUnchecked(lab: Lab, i: Input, s: Scene, edit: string, final: Option<string>, stop: nat)
    requires Framed(lab) && PlainRun(lab, i, s) && lab.select(i) != [] && lab.hash(edit) != i.hash
    ensures 0 < stop <= |lab.select(i)| ==> !AlwaysFresh(lab, i, Scene((n: nat) => edit, final, Some(stop)), i, s)
    ensures stop == 0 ==> AlwaysFresh(lab, i, Scene((n: nat) => edit, final, Some(stop)), i, s)
  {
    hide AlwaysFresh;
    var was := Scene((n: nat) => edit, final, Some(stop));
    FreshExact(lab, i, was, i, s);
    if 0 < stop <= |lab.select(i)| { assert lab.hash(was.seen(0)) != i.hash && !StoppedAt(was, 0); }
  }

  /** The mode is not part of a key although it changes what is found. */
  lemma MixedModesDiffer(lab: Lab, i: Input, s: Scene)
    requires Framed(lab) && PlainRun(lab, i, s) && lab.select(i) != []
    ensures !AlwaysFresh(lab, i.(evidence := true), s, i, s)
  {
    hide AlwaysFresh;
    var before := i.(evidence := true);
    assert lab.select(i.(evidence := true)) == lab.select(i);
    FreshExact(lab, before, s, i, s);
    assert !StoppedAt(s, 0);
  }

  // ---------- such labs exist ----------

  const ANALYZER := Descriptor("analyzer", "1", "read", "1")

  function Itself(x: string): string { x }

  /** One analyzer, artifact identities made as the program makes them. */
  function OneAnalyzerLab(): Lab {
    Lab((i: Input) => [ANALYZER],
        (d: Descriptor, i: Input, content: string) => Observation(Report(i.evidence, content), false),
        Itself, FramedArtifactId(Itself, Itself), Itself, Itself, (e: Entry) => true)
  }

  lemma OneAnalyzerLabMeetsAll()
    ensures Distinguishes(OneAnalyzerLab()) && Framed(OneAnalyzerLab())
    ensures exists i: Input, s: Scene :: PlainRun(OneAnalyzerLab(), i, s)
  {
    hide IdentifiesArtifacts, FramedArtifactId;
    var lab := OneAnalyzerLab();
    FramedArtifactsAreIdentified(lab, Itself);
    var i, s := Input("", "file", "", false), Scene((n: nat) => "", Some(""), None);
    assert Trim("") == "";
    assert PlainRun(lab, i, s);
  }
}
