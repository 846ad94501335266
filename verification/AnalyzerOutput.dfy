/** What the runner makes of one analyzer's output: claims on other artifacts are turned into
    failures, and identities that are already taken get an ordinal (internal/analysis/runner.go). */
module AnalyzerOutput {
  import opened Ordering
  import opened Facts

  datatype Locator = Locator(sourceId: string, artifactId: string, path: string, span: string)

  datatype Contribution = Contribution(
    id: string, artifactId: string, analyzerId: string, analyzerVersion: string, methodName: string,
    kind: string, value: string, locator: Locator)

  datatype Coverage = Coverage(id: string, dimension: string, scope: string, state: string, analyzerId: string,
      message: string, locator: Option<Locator>)

  datatype Gap = Gap(id: string, code: string, dimension: string, scope: string, message: string, analyzerId: string,
      locator: Option<Locator>)

  datatype Failure = Failure(id: string, code: string, operation: string, message: string, artifactId: string,
      analyzerId: string, partial: bool, locator: Option<Locator>)

  datatype Draft = Draft(contributionId: string, locator: Locator, text: string)

  datatype Output = Output(contributions: seq<Contribution>, coverage: seq<Coverage>, gaps: seq<Gap>,
      evidence: seq<Draft>)

  datatype CollectedOutput = CollectedOutput(contributions: seq<Contribution>, coverage: seq<Coverage>, gaps: seq<Gap>,
      failures: seq<Failure>, evidence: seq<Draft>)

  datatype Descriptor = Descriptor(id: string, version: string, methodName: string, contractVersion: string)

  /** The artifact an analyzer is run on. */
  datatype Subject = Subject(sourceId: string, artifactId: string, path: string, evidenceEnabled: bool)

  /** The digests behind the identities, the field validators and the sorting key. */
  datatype Ids = Ids(
    contribution: (string, string, string, string) -> string,
    coverage: (string, string, string, string) -> string,
    gap: (string, string, string, string, string) -> string,
    failure: (string, string, string, string, string) -> string,
    validContribution: Contribution -> bool,
    validCoverage: Coverage -> bool,
    validGap: Gap -> bool,
    validLocator: Locator -> bool,
    key: Contribution -> string,
    safeMethod: string -> string)

  // ---------- blanks and decimals ----------

  /** `unicode.IsSpace`. */
  predicate IsSpace(c: char) {
    || c in " \t\n\r" || c as int in {0x0B, 0x0C, 0x85, 0xA0, 0x1680, 0x2028, 0x2029, 0x202F, 0x205F, 0x3000}
    || 0x2000 <= c as int <= 0x200A
  }

  function TrimLeft(s: string): string {
    if s != "" && IsSpace(s[0]) then TrimLeft(s[1..]) else s
  }

  function TrimRight(s: string): string {
    if s != "" && IsSpace(s[|s| - 1]) then TrimRight(s[..|s| - 1]) else s
  }

  /** `strings.TrimSpace`. */
  function Trim(s: string): string {
    TrimRight(TrimLeft(s))
  }

  function Digit(d: nat): char
    requires d < 10
  {
    "0123456789"[d]
  }

  function Decimal(n: nat): (s: string)
    ensures s != "" && !IsSpace(s[|s| - 1])
  {
    if n < 10 then [Digit(n)] else Decimal(n / 10) + [Digit(n % 10)]
  }

  lemma {:induction false} DecimalLength(n: nat)
    ensures |Decimal(n)| >= 2 <==> n >= 10
  {
    if n >= 10 { assert |Decimal(n / 10)| >= 1; }
  }

  lemma {:induction false} DecimalInjective(a: nat, b: nat)
    requires Decimal(a) == Decimal(b)
    ensures a == b
  {
    var s := Decimal(a);
    assert s[|s| - 1] == Digit(a % 10) == Digit(b % 10);
    DecimalLength(a);
    DecimalLength(b);
    if a >= 10 {
      assert Decimal(a / 10) == s[..|s| - 1] == Decimal(b / 10);
      DecimalInjective(a / 10, b / 10);
    }
  }

  /** Trimming cuts off the blanks at both ends and nothing else. */
  lemma TrimCuts(s: string) returns (i: nat, j: nat)
    ensures i <= j <= |s| && Trim(s) == s[i..j]
    ensures (forall c | c in s[..i] :: IsSpace(c)) && (forall c | c in s[j..] :: IsSpace(c))
    ensures Trim(s) != "" ==> !IsSpace(Trim(s)[0]) && !IsSpace(Trim(s)[|Trim(s)| - 1])
  {
    i := TrimLeftCuts(s);
    var k := TrimRightCuts(s[i..]);
    j := i + k;
    assert s[i..][..k] == s[i..j] && s[i..][k..] == s[j..];
    if k > 0 { assert s[i..][0] == s[i]; }
  }

  lemma {:induction false} TrimLeftCuts(s: string) returns (i: nat)
    ensures i <= |s| && TrimLeft(s) == s[i..] && (forall c | c in s[..i] :: IsSpace(c))
    ensures i < |s| ==> !IsSpace(s[i])
  {
    if s != "" && IsSpace(s[0]) {
      i := TrimLeftCuts(s[1..]);
      assert s[..i + 1] == [s[0]] + s[1..][..i];
      i := i + 1;
    } else {
      i := 0;
    }
  }

  lemma {:induction false} TrimRightCuts(s: string) returns (j: nat)
    ensures j <= |s| && TrimRight(s) == s[..j] && (forall c | c in s[j..] :: IsSpace(c))
    ensures j > 0 ==> !IsSpace(s[j - 1])
  {
    if s != "" && IsSpace(s[|s| - 1]) {
      var t := s[..|s| - 1];
      j := TrimRightCuts(t);
      assert s[j..] == t[j..] + [s[|s| - 1]];
    } else {
      j := |s|;
    }
  }

  lemma {:induction false} TrimLeftAppend(base: string, tail: string)
    requires tail != "" && !IsSpace(tail[0])
    ensures TrimLeft(base + tail) == TrimLeft(base) + tail
  {
    if base == "" {
      assert base + tail == tail;
    } else {
      assert (base + tail)[1..] == base[1..] + tail;
      TrimLeftAppend(base[1..], tail);
    }
  }

  lemma TrimKeepsEnd(s: string)
    requires s != "" && !IsSpace(s[|s| - 1])
    ensures Trim(s) == TrimLeft(s) && Trim(s) != ""
  {
    TrimLeftKeepsEnd(s);
  }

  lemma {:induction false} TrimLeftKeepsEnd(s: string)
    requires s != "" && !IsSpace(s[|s| - 1])
    ensures TrimLeft(s) != "" && !IsSpace(TrimLeft(s)[|TrimLeft(s)| - 1])
  {
    if IsSpace(s[0]) { TrimLeftKeepsEnd(s[1..]); }
  }

  lemma SameFront(p: string, a: string, b: string)
    requires p + a == p + b
    ensures a == b
  {
    assert a == (p + a)[|p|..] == (p + b)[|p|..] == b;
  }

  /** `base#n`. */
  function Suffixed(base: string, n: nat): string {
    base + "#" + Decimal(n)
  }

  lemma SuffixedTrim(base: string, n: nat)
    ensures Trim(Suffixed(base, n)) == TrimLeft(base) + "#" + Decimal(n)
  {
    var tail := "#" + Decimal(n);
    assert Suffixed(base, n) == base + tail;
    TrimKeepsEnd(Suffixed(base, n));
    TrimLeftAppend(base, tail);
    assert TrimLeft(base) + tail == TrimLeft(base) + "#" + Decimal(n);
  }

  lemma SuffixedInjective(base: string, a: nat, b: nat)
    requires Trim(Suffixed(base, a)) == Trim(Suffixed(base, b))
    ensures a == b
  {
    SuffixedTrim(base, a);
    SuffixedTrim(base, b);
    SameFront(TrimLeft(base) + "#", Decimal(a), Decimal(b));
    DecimalInjective(a, b);
  }

  /** `base (occurrence n)`. */
  function Occurrence(base: string, n: nat): string {
    base + " (occurrence " + Decimal(n) + ")"
  }

  lemma SameBack(a: string, b: string, t: string)
    requires a + t == b + t
    ensures a == b
  {
    assert |a| == |b|;
    assert a == (a + t)[..|a|] == (b + t)[..|b|] == b;
  }

  lemma {:induction false} OccurrenceTrim(base: string, n: nat)
    ensures Trim(Occurrence(base, n)) == TrimLeft(base + " ") + ("(occurrence " + (Decimal(n) + ")"))
  {
    hide Decimal;
    var tail := "(occurrence " + (Decimal(n) + ")");
    assert Occurrence(base, n) == (base + " ") + tail;
    TrimKeepsEnd(Occurrence(base, n));
    TrimLeftAppend(base + " ", tail);
  }

  lemma {:induction false} OccurrenceInjective(base: string, a: nat, b: nat)
    requires Trim(Occurrence(base, a)) == Trim(Occurrence(base, b))
    ensures a == b
  {
    hide Decimal, Trim, TrimLeft, Occurrence;
    OccurrenceTrim(base, a);
    OccurrenceTrim(base, b);
    SameFront(TrimLeft(base + " "), "(occurrence " + (Decimal(a) + ")"), "(occurrence " + (Decimal(b) + ")"));
    SameFront("(occurrence ", Decimal(a) + ")", Decimal(b) + ")");
    SameBack(Decimal(a), Decimal(b), ")");
    DecimalInjective(a, b);
  }

  // ---------- running out of taken identities ----------

  /** Pairwise different names that are all taken are no more than the taken ones. */
  lemma {:induction false} Pigeonhole(name: nat -> string, n: nat, taken: set<string>)
    requires forall k: nat | k < n :: name(k) in taken
    requires forall j: nat, k: nat | j < k < n :: name(j) != name(k)
    ensures n <= |taken|
  {
    if n > 0 {
      Pigeonhole(name, n - 1, taken - {name(n - 1)});
    }
  }

  // ---------- failures ----------

  /** `FailureID` of a failure whose message is `message`. */
  function FailureId(ids: Ids, f: Failure, message: string): string {
    ids.failure(f.code, f.operation, f.artifactId, f.analyzerId, Trim(message))
  }

  function IdOfFailure(f: Failure): string { f.id }
  function IdOfContribution(c: Contribution): string { c.id }
  function IdOfCoverage(c: Coverage): string { c.id }
  function IdOfGap(g: Gap): string { g.id }

  /** The digests distinguish messages, methods and scopes. */
  ghost predicate Injective(ids: Ids) {
    && (forall a: string, b: string, c: string, d: string, m: string, n: string ::
        ids.failure(a, b, c, d, m) == ids.failure(a, b, c, d, n) ==> m == n)
    && (forall a: string, b: string, c: string, m: string, n: string ::
        ids.contribution(a, b, c, m) == ids.contribution(a, b, c, n) ==> m == n)
    && (forall a: string, b: string, c: string, m: string, n: string ::
        ids.coverage(a, m, b, c) == ids.coverage(a, n, b, c) ==> m == n)
    && (forall a: string, b: string, c: string, d: string, m: string, n: string ::
        ids.gap(a, b, m, c, d) == ids.gap(a, b, n, c, d) ==> m == n)
  }

  /** The chosen name is the first of those tried whose identity is free. */
  ghost predicate FirstFree(tried: nat -> string, id: string -> string, taken: set<string>, chosen: string) {
    exists k: nat :: chosen == tried(k) && id(chosen) !in taken && AllTaken(tried, id, k, taken)
  }

  ghost predicate AllTaken(tried: nat -> string, id: string -> string, k: nat, taken: set<string>) {
    forall j: nat | j < k :: id(tried(j)) in taken
  }

  /** What the search has found after `k` names. */
  lemma FoundFree(tried: nat -> string, id: string -> string, taken: set<string>, k: nat)
    requires id(tried(k)) !in taken && AllTaken(tried, id, k, taken)
    ensures FirstFree(tried, id, taken, tried(k))
  {
  }

  /** The identities tried from the second on differ. */
  ghost predicate AllDiffer(tried: nat -> string, id: string -> string) {
    forall j: nat, k: nat | 1 <= j < k :: id(tried(j)) != id(tried(k))
  }

  /** A search comes to an end: the names tried in vain are no more than the taken ones, plus one. */
  lemma SearchEnds(tried: nat -> string, id: string -> string, k: nat, taken: set<string>)
    requires AllDiffer(tried, id) && AllTaken(tried, id, k, taken)
    ensures k <= |taken| + 1
  {
    if k > 0 {
      var name := (j: nat) => id(tried(j + 1));
      forall j: nat | j < k - 1
        ensures name(j) in taken
      {
        assert id(tried(j + 1)) in taken;
      }
      Pigeonhole(name, k - 1, taken);
    }
  }

  /** The messages tried: the own one, then `base (occurrence 2)`, `base (occurrence 3)`... */
  ghost function MessagesTried(base: string): nat -> string {
    (k: nat) => if k == 0 then base else base + " (occurrence " + Decimal(k + 1) + ")"
  }

  ghost function FailureIds(ids: Ids, f: Failure): string -> string {
    (message: string) => ids.failure(f.code, f.operation, f.artifactId, f.analyzerId, Trim(message))
  }

  lemma MessagesDiffer(ids: Ids, f: Failure)
    requires Injective(ids)
    ensures AllDiffer(MessagesTried(f.message), FailureIds(ids, f))
  {
    hide Trim, Occurrence, MessagesTried;
    OccurrenceIsTried(f.message);
    forall j: nat, k: nat | 1 <= j < k
      ensures FailureIds(ids, f)(MessagesTried(f.message)(j)) != FailureIds(ids, f)(MessagesTried(f.message)(k))
    {
      assert MessagesTried(f.message)(j) == Occurrence(f.message, j + 1);
      assert MessagesTried(f.message)(k) == Occurrence(f.message, k + 1);
      if Trim(Occurrence(f.message, j + 1)) == Trim(Occurrence(f.message, k + 1)) {
        OccurrenceInjective(f.message, j + 1, k + 1);
      }
    }
  }

  /** The message of `f` that no identity in `seen` belongs to: its own, or the first free occurrence. */
  method FreeMessage(ids: Ids, f: Failure, seen: set<string>) returns (message: string)
    requires Injective(ids)
    ensures FirstFree(MessagesTried(f.message), FailureIds(ids, f), seen, message)
  {
    hide Occurrence, Trim, FirstFree, Injective, MessagesTried, AllDiffer;
    message := f.message;
    ghost var tried, id := MessagesTried(f.message), FailureIds(ids, f);
    OccurrenceIsTried(f.message);
    MessagesDiffer(ids, f);
    if FailureId(ids, f, message) in seen {
      var ordinal: nat := 2;
      message := Occurrence(f.message, ordinal);
      while FailureId(ids, f, message) in seen
        invariant ordinal >= 2 && message == tried(ordinal - 1) && AllTaken(tried, id, ordinal - 1, seen)
        decreases |seen| + 2 - ordinal
      {
        SearchEnds(tried, id, ordinal, seen);
        ordinal := ordinal + 1;
        message := Occurrence(f.message, ordinal);
      }
      FoundFree(tried, id, seen, ordinal - 1);
    } else {
      FoundFree(tried, id, seen, 0);
    }
  }

  lemma OccurrenceIsTried(base: string)
    ensures MessagesTried(base)(0) == base
    ensures forall n: nat | n >= 2 :: Occurrence(base, n) == MessagesTried(base)(n - 1)
  {
    hide Decimal;
  }

  /** What has become of the `i`-th failure: it has the first message whose identity no failure before it
      has, and that identity. Everything else is as it was. */
  ghost predicate UniqueAt(ids: Ids, result: seq<Failure>, failures: seq<Failure>, i: nat)
    requires i < |result| && i < |failures|
  {
    var f, r := failures[i], result[i];
    && r == f.(id := r.id, message := r.message) && r.id == FailureIds(ids, f)(r.message)
    && FirstFree(MessagesTried(f.message), FailureIds(ids, f), IdsOfFailures(result[..i]), r.message)
  }

  /** What `uniqueFailures` has made of the first failures. */
  ghost predicate MadeUnique(ids: Ids, result: seq<Failure>, failures: seq<Failure>) {
    && |result| <= |failures| && DistinctKeys(IdOfFailure, result)
    && (forall i: nat | i < |result| :: UniqueAt(ids, result, failures, i))
  }

  ghost function IdsOfFailures(fs: seq<Failure>): set<string> {
    set i | 0 <= i < |fs| :: fs[i].id
  }

  lemma MadeUniqueNext(ids: Ids, result: seq<Failure>, failures: seq<Failure>, message: string)
    requires MadeUnique(ids, result, failures) && |result| < |failures|
    requires var f := failures[|result|];
      FirstFree(MessagesTried(f.message), FailureIds(ids, f), IdsOfFailures(result), message)
    ensures var f := failures[|result|];
      var kept := f.(id := FailureId(ids, f, message), message := message);
      && MadeUnique(ids, result + [kept], failures)
      && IdsOfFailures(result + [kept]) == IdsOfFailures(result) + {kept.id}
  {
    hide MessagesTried, Trim;
    var f := failures[|result|];
    var kept := f.(id := FailureId(ids, f, message), message := message);
    var more := result + [kept];
    assert forall y | y in result :: IdOfFailure(y) in IdsOfFailures(result);
    DistinctAppend(IdOfFailure, result, kept);
    forall x
      ensures x in IdsOfFailures(more) <==> x in IdsOfFailures(result) + {kept.id}
    {
      if x in IdsOfFailures(result) {
        var i :| 0 <= i < |result| && result[i].id == x;
        assert more[i].id == x;
      }
      assert more[|result|] == kept;
    }
    forall i: nat | i < |more|
      ensures UniqueAt(ids, more, failures, i)
    {
      hide FirstFree, FailureIds;
      if i < |result| {
        assert UniqueAt(ids, result, failures, i);
        assert more[..i] == result[..i];
      } else {
        assert more[..i] == result;
      }
    }
  }

  /** `uniqueFailures`: every failure kept, in order, with an identity of its own. An identity is never
      counted twice, so the search for a free occurrence always starts at the second. */
  method UniqueFailures(ids: Ids, failures: seq<Failure>) returns (result: seq<Failure>)
    requires Injective(ids)
    ensures |result| == |failures| && MadeUnique(ids, result, failures)
  {
    hide Occurrence, Trim, Injective, MadeUnique, FirstFree, IdsOfFailures;
    result := [];
    var seen: set<string> := {};
    NothingMadeUnique(ids, failures);
    while |result| < |failures|
      invariant |result| <= |failures| && MadeUnique(ids, result, failures) && seen == IdsOfFailures(result)
    {
      var f := failures[|result|];
      var message := FreeMessage(ids, f, seen);
      var id := FailureId(ids, f, message);
      MadeUniqueNext(ids, result, failures, message);
      result := result + [f.(id := id, message := message)];
      seen := seen + {id};
    }
  }

  lemma NothingMadeUnique(ids: Ids, failures: seq<Failure>)
    ensures MadeUnique(ids, [], failures) && IdsOfFailures([]) == {}
  {
  }

  // ---------- one analyzer's output ----------

  const INVALID_OUTPUT := "invalid_analyzer_output"

  /** `analyzerFailure(input, descriptor, err, failureCodeInvalidOutput)`. */
  function InvalidOutput(t: Subject, d: Descriptor): Failure {
    Failure("", INVALID_OUTPUT, "analyze", "analyzer output was invalid", t.artifactId, d.id, true,
            Some(Locator(t.sourceId, t.artifactId, t.path, "")))
  }

  /** Every failure says that this analyzer's output for this artifact was invalid. */
  ghost predicate AllInvalid(failures: seq<Failure>, t: Subject, d: Descriptor) {
    forall f | f in failures ::
      && f.id == "" && f.code == "invalid_analyzer_output" && f.operation == "analyze" && f.partial
      && f.message == "analyzer output was invalid" && f.artifactId == t.artifactId && f.analyzerId == d.id
      && f.locator == Some(Here(t, ""))
  }

  /** The artifact itself, with a span. */
  ghost function Here(t: Subject, span: string): Locator {
    Locator(t.sourceId, t.artifactId, t.path, span)
  }

  /** Every field of the locator is blank or names the artifact. */
  ghost predicate PointsHere(l: Locator, t: Subject) {
    l.sourceId in {"", t.sourceId} && l.artifactId in {"", t.artifactId} && l.path in {"", t.path}
  }

  ghost predicate MayPointHere(l: Option<Locator>, t: Subject) {
    l.Some? ==> PointsHere(l.value, t)
  }

  ghost function SpanOf(l: Option<Locator>): string {
    if l.Some? then l.value.span else ""
  }

  predicate LocatorMatches(l: Locator, t: Subject) {
    && (l.sourceId == "" || l.sourceId == t.sourceId)
    && (l.artifactId == "" || l.artifactId == t.artifactId)
    && (l.path == "" || l.path == t.path)
  }

  function CompleteLocator(l: Option<Locator>, t: Subject): Locator {
    var base := if l.None? then Locator("", "", "", "") else l.value;
    Locator(if base.sourceId == "" then t.sourceId else base.sourceId,
            if base.artifactId == "" then t.artifactId else base.artifactId,
            if base.path == "" then t.path else base.path, base.span)
  }

  lemma MatchesExact(l: Locator, t: Subject)
    ensures LocatorMatches(l, t) <==> PointsHere(l, t)
    ensures PointsHere(l, t) ==> CompleteLocator(Some(l), t) == Here(t, l.span)
    ensures CompleteLocator(None, t) == Here(t, "")
  {
  }

  // ---------- keeping some items of a list ----------

  /** What a loop of `normalizeOutput` has made of the first `|seen| - 1` items: those at `from` were kept,
      in order, and none of the others could be. `seen[i]` holds the identities that were taken when the
      loop came to item `i`; `next` says which identities an item takes. */
  ghost predicate Sifted<T(!new)>(items: seq<T>, seen: seq<set<string>>, from: seq<nat>, kept: seq<T>,
      keeps: (set<string>, T, T) -> bool, next: (set<string>, T, set<string>) -> bool) {
    && 1 <= |seen| <= |items| + 1 && seen[0] == {} && |from| == |kept|
    && (forall i: nat | i < |seen| - 1 :: next(seen[i], items[i], seen[i + 1]))
    && (forall j: nat | j < |kept| :: from[j] < |seen| - 1 && keeps(seen[from[j]], kept[j], items[from[j]]))
    && (forall i, j | 0 <= i < j < |from| :: from[i] < from[j])
    && (forall i: nat | i < |seen| - 1 && i !in from :: NoneKept(keeps, seen[i], items[i]))
  }

  /** Nothing can be kept of the item. */
  ghost predicate NoneKept<T(!new)>(keeps: (set<string>, T, T) -> bool, before: set<string>, was: T) {
    forall x :: !keeps(before, x, was)
  }

  lemma SiftReject<T(!new)>(items: seq<T>, seen: seq<set<string>>, from: seq<nat>, kept: seq<T>,
      keeps: (set<string>, T, T) -> bool, next: (set<string>, T, set<string>) -> bool, after: set<string>)
    requires Sifted(items, seen, from, kept, keeps, next) && |seen| <= |items|
    requires var n := |seen| - 1; NoneKept(keeps, seen[n], items[n]) && next(seen[n], items[n], after)
    ensures Sifted(items, seen + [after], from, kept, keeps, next)
  {
    hide NoneKept;
  }

  lemma SiftKeep<T(!new)>(items: seq<T>, seen: seq<set<string>>, from: seq<nat>, kept: seq<T>,
      keeps: (set<string>, T, T) -> bool, next: (set<string>, T, set<string>) -> bool, item: T, after: set<string>)
    requires Sifted(items, seen, from, kept, keeps, next) && |seen| <= |items|
    requires var n := |seen| - 1; keeps(seen[n], item, items[n]) && next(seen[n], items[n], after)
    ensures Sifted(items, seen + [after], from + [|seen| - 1], kept + [item], keeps, next)
  {
    hide NoneKept;
    var n: nat, now, more := |seen| - 1, seen + [after], from + [|seen| - 1];
    forall i: nat | i < n + 1 && i !in more
      ensures NoneKept(keeps, now[i], items[i])
    {
      assert more[|from|] == n;
      assert i !in from;
    }
  }

  lemma SiftNothing<T(!new)>(items: seq<T>, keeps: (set<string>, T, T) -> bool,
      next: (set<string>, T, set<string>) -> bool)
    ensures Sifted(items, [{}], [], [], keeps, next)
  {
  }

  lemma FirstFreeUnique(tried: nat -> string, id: string -> string, taken: set<string>, a: string, b: string)
    requires FirstFree(tried, id, taken, a) && FirstFree(tried, id, taken, b)
    ensures a == b
  {
    var j: nat :| a == tried(j) && id(a) !in taken && AllTaken(tried, id, j, taken);
    var k: nat :| b == tried(k) && id(b) !in taken && AllTaken(tried, id, k, taken);
    assert j == k;
  }

  // ---------- contributions ----------

  /** The claims of a contribution agree with what was analyzed. */
  predicate Belongs(c: Contribution, t: Subject, d: Descriptor) {
    && (c.artifactId == "" || c.artifactId == t.artifactId)
    && (c.analyzerId == "" || c.analyzerId == d.id)
    && (c.analyzerVersion == "" || c.analyzerVersion == d.version)
    && LocatorMatches(c.locator, t)
  }

  function Completed(ids: Ids, c: Contribution, t: Subject, d: Descriptor): Contribution {
    var named := if c.methodName == "" then d.methodName else c.methodName;
    c.(artifactId := t.artifactId, analyzerId := d.id, analyzerVersion := d.version,
       methodName := if t.evidenceEnabled then ids.safeMethod(named) else named,
       locator := CompleteLocator(Some(c.locator), t))
  }

  function ContributionIdOf(ids: Ids, c: Contribution, methodName: string): string {
    ids.contribution(c.artifactId, c.analyzerId, c.analyzerVersion, Trim(methodName))
  }

  ghost function ContributionIds(ids: Ids, t: Subject, d: Descriptor): string -> string {
    (methodName: string) => ids.contribution(t.artifactId, d.id, d.version, Trim(methodName))
  }

  /** The methods tried: the own one, then `base#2`, `base#3`... */
  ghost function MethodsTried(base: string): nat -> string {
    (k: nat) => if k == 0 then base else base + "#" + Decimal(k + 1)
  }

  lemma SuffixedIsTried(base: string)
    ensures MethodsTried(base)(0) == base
    ensures forall n: nat | n >= 2 :: Suffixed(base, n) == MethodsTried(base)(n - 1)
  {
    hide Decimal;
  }

  lemma MethodsDiffer(ids: Ids, t: Subject, d: Descriptor, base: string)
    requires Injective(ids)
    ensures AllDiffer(MethodsTried(base), ContributionIds(ids, t, d))
  {
    hide Trim, Suffixed, MethodsTried;
    SuffixedIsTried(base);
    forall j: nat, k: nat | 1 <= j < k
      ensures ContributionIds(ids, t, d)(MethodsTried(base)(j)) != ContributionIds(ids, t, d)(MethodsTried(base)(k))
    {
      assert MethodsTried(base)(j) == Suffixed(base, j + 1) && MethodsTried(base)(k) == Suffixed(base, k + 1);
      if Trim(Suffixed(base, j + 1)) == Trim(Suffixed(base, k + 1)) { SuffixedInjective(base, j + 1, k + 1); }
    }
  }

  /** The first method whose identity is free. */
  method FreeMethod(ids: Ids, c: Contribution, t: Subject, d: Descriptor, seen: set<string>)
    returns (methodName: string)
    requires Injective(ids) && c.artifactId == t.artifactId && c.analyzerId == d.id && c.analyzerVersion == d.version
    ensures FirstFree(MethodsTried(c.methodName), ContributionIds(ids, t, d), seen, methodName)
  {
    hide Suffixed, Trim, FirstFree, Injective, MethodsTried, AllDiffer;
    methodName := c.methodName;
    var ordinal: nat := 1;
    ghost var tried, id := MethodsTried(c.methodName), ContributionIds(ids, t, d);
    SuffixedIsTried(c.methodName);
    MethodsDiffer(ids, t, d, c.methodName);
    while ContributionIdOf(ids, c, methodName) in seen
      invariant ordinal >= 1 && methodName == tried(ordinal - 1) && AllTaken(tried, id, ordinal - 1, seen)
      decreases |seen| + 2 - ordinal
    {
      SearchEnds(tried, id, ordinal, seen);
      ordinal := ordinal + 1;
      methodName := Suffixed(c.methodName, ordinal);
    }
    FoundFree(tried, id, seen, ordinal - 1);
  }

  /** The method before any ordinal. */
  ghost function BaseMethod(ids: Ids, t: Subject, d: Descriptor, was: Contribution): string {
    var named := if was.methodName != "" then was.methodName else d.methodName;
    if t.evidenceEnabled then ids.safeMethod(named) else named
  }

  /** It claims nothing foreign and has a type and a method. */
  ghost predicate Admissible(ids: Ids, t: Subject, d: Descriptor, was: Contribution) {
    && was.artifactId in {"", t.artifactId} && was.analyzerId in {"", d.id} && was.analyzerVersion in {"", d.version}
    && PointsHere(was.locator, t) && was.kind != "" && BaseMethod(ids, t, d, was) != ""
  }

  ghost predicate NamedAs(ids: Ids, t: Subject, d: Descriptor, before: set<string>, was: Contribution, m: string) {
    FirstFree(MethodsTried(BaseMethod(ids, t, d, was)), ContributionIds(ids, t, d), before, m)
  }

  /** A retained contribution: valid, about this artifact, by this analyzer, under the first method whose
      identity is free, and under that identity. */
  ghost predicate ContributionKept(ids: Ids, t: Subject, d: Descriptor, before: set<string>, c: Contribution,
      was: Contribution) {
    && Admissible(ids, t, d, was) && NamedAs(ids, t, d, before, was, c.methodName) && ids.validContribution(c)
    && c == Contribution(ContributionIds(ids, t, d)(c.methodName), t.artifactId, d.id, d.version, c.methodName,
        was.kind, was.value, Here(t, was.locator.span))
  }

  ghost function KeptContribution(ids: Ids, t: Subject, d: Descriptor)
    : (set<string>, Contribution, Contribution) -> bool
  {
    (before: set<string>, c: Contribution, was: Contribution) => ContributionKept(ids, t, d, before, c, was)
  }

  /** An admissible contribution takes the identity it was tried under, valid or not. */
  ghost predicate ContributionTakes(ids: Ids, t: Subject, d: Descriptor, before: set<string>, was: Contribution,
      after: set<string>) {
    if Admissible(ids, t, d, was)
    then exists m: string :: NamedAs(ids, t, d, before, was, m) && after == before + {ContributionIds(ids, t, d)(m)}
    else after == before
  }

  ghost function NextContribution(ids: Ids, t: Subject, d: Descriptor)
    : (set<string>, Contribution, set<string>) -> bool
  {
    (before: set<string>, was: Contribution, after: set<string>) => ContributionTakes(ids, t, d, before, was, after)
  }

  lemma AdmissibleExact(ids: Ids, t: Subject, d: Descriptor, was: Contribution)
    ensures var c := Completed(ids, was, t, d);
      && (Admissible(ids, t, d, was) <==> Belongs(was, t, d) && c.kind != "" && c.methodName != "")
      && c.methodName == BaseMethod(ids, t, d, was)
      && (Belongs(was, t, d) ==> c.locator == Here(t, was.locator.span))
  {
    MatchesExact(was.locator, t);
  }

  /** What becomes of an admissible contribution under the first free method. */
  lemma OwnIsKept(ids: Ids, t: Subject, d: Descriptor, before: set<string>, was: Contribution, m: string)
    requires Admissible(ids, t, d, was) && NamedAs(ids, t, d, before, was, m)
    ensures var c := Completed(ids, was, t, d);
      var own := c.(id := ContributionIdOf(ids, c, m), methodName := m);
      && (if ids.validContribution(own) then KeptContribution(ids, t, d)(before, own, was)
          else NoneKept(KeptContribution(ids, t, d), before, was))
      && NextContribution(ids, t, d)(before, was, before + {own.id}) && own.id !in before
  {
    hide Completed, FirstFree, BaseMethod, Trim, Admissible;
    AdmissibleExact(ids, t, d, was);
    var c := Completed(ids, was, t, d);
    var own := c.(id := ContributionIdOf(ids, c, m), methodName := m);
    SameContent(ids, was, t, d);
    FreeIsFree(MethodsTried(BaseMethod(ids, t, d, was)), ContributionIds(ids, t, d), before, m);
    forall x | KeptContribution(ids, t, d)(before, x, was)
      ensures x == own
    {
      FirstFreeUnique(MethodsTried(BaseMethod(ids, t, d, was)), ContributionIds(ids, t, d), before, x.methodName, m);
    }
  }

  lemma FreeIsFree(tried: nat -> string, id: string -> string, taken: set<string>, chosen: string)
    requires FirstFree(tried, id, taken, chosen)
    ensures id(chosen) !in taken
  {
  }

  lemma SameContent(ids: Ids, was: Contribution, t: Subject, d: Descriptor)
    ensures var c := Completed(ids, was, t, d);
      && c.artifactId == t.artifactId && c.analyzerId == d.id && c.analyzerVersion == d.version
      && c.kind == was.kind && c.value == was.value
  {
  }

  lemma ForeignIsNotKept(ids: Ids, t: Subject, d: Descriptor, before: set<string>, was: Contribution)
    requires !Admissible(ids, t, d, was)
    ensures NoneKept(KeptContribution(ids, t, d), before, was) && NextContribution(ids, t, d)(before, was, before)
  {
    hide Admissible;
  }

  function IdsOfContributions(cs: seq<Contribution>): set<string> {
    set i | 0 <= i < |cs| :: cs[i].id
  }

  // ---------- what a draft may cite ----------

  /** A draft cites the `k`-th retained contribution by its identity, or by the one its input item carried. */
  ghost predicate Cites(sorted: seq<Contribution>, from: seq<nat>, kept: seq<Contribution>, k: nat, x: string) {
    && k < |kept| && k < |from| && from[k] < |sorted|
    && (x == kept[k].id || (x != "" && x == sorted[from[k]].id))
  }

  /** The last retained contribution that is cited so. */
  ghost predicate CitesLast(sorted: seq<Contribution>, from: seq<nat>, kept: seq<Contribution>, k: nat, x: string) {
    Cites(sorted, from, kept, k, x) && forall l: nat | k < l < |kept| :: !Cites(sorted, from, kept, l, x)
  }

  ghost predicate Resolved(sorted: seq<Contribution>, from: seq<nat>, kept: seq<Contribution>, x: string, id: string) {
    exists k: nat :: CitesLast(sorted, from, kept, k, x) && kept[k].id == id
  }

  /** The links of the drafts are those citations. */
  ghost predicate LinksExact(sorted: seq<Contribution>, from: seq<nat>, kept: seq<Contribution>,
      refs: map<string, string>) {
    && (forall x | x in refs :: Resolved(sorted, from, kept, x, refs[x]))
    && (forall k: nat, x | Cites(sorted, from, kept, k, x) :: x in refs)
  }

  function Linked(refs: map<string, string>, was: string, id: string): map<string, string> {
    if was != "" then refs[id := id][was := id] else refs[id := id]
  }

  lemma LinksNext(sorted: seq<Contribution>, from: seq<nat>, kept: seq<Contribution>, refs: map<string, string>,
      c: Contribution, n: nat)
    requires LinksExact(sorted, from, kept, refs) && |from| == |kept| && n < |sorted|
    ensures LinksExact(sorted, from + [n], kept + [c], Linked(refs, sorted[n].id, c.id))
  {
    var more, now, links := from + [n], kept + [c], Linked(refs, sorted[n].id, c.id);
    assert forall k: nat, x | k < |kept| :: Cites(sorted, more, now, k, x) <==> Cites(sorted, from, kept, k, x);
    assert forall x :: Cites(sorted, more, now, |kept|, x) <==> x == c.id || (x != "" && x == sorted[n].id);
    forall x | x in links
      ensures Resolved(sorted, more, now, x, links[x])
    {
      if x == c.id || (x != "" && x == sorted[n].id) {
        assert CitesLast(sorted, more, now, |kept|, x);
      } else {
        assert Resolved(sorted, from, kept, x, refs[x]);
        var k: nat :| CitesLast(sorted, from, kept, k, x) && kept[k].id == refs[x];
        assert CitesLast(sorted, more, now, k, x);
      }
    }
  }

  lemma ResolvedOnce(sorted: seq<Contribution>, from: seq<nat>, kept: seq<Contribution>, x: string, a: string,
      b: string)
    requires Resolved(sorted, from, kept, x, a) && Resolved(sorted, from, kept, x, b)
    ensures a == b
  {
  }

  /** The contributions of `normalizeOutput`. */
  method NormalizeContributions(ids: Ids, t: Subject, d: Descriptor, contributions: seq<Contribution>)
    returns (kept: seq<Contribution>, failures: seq<Failure>, refs: map<string, string>, ghost from: seq<nat>,
        ghost seen: seq<set<string>>)
    requires Injective(ids)
    ensures |kept| + |failures| == |contributions| && DistinctKeys(IdOfContribution, kept) && AllInvalid(failures, t, d)
    ensures |seen| == |contributions| + 1
    ensures var sorted := Sort(ByKey(ids.key), contributions);
      && Sifted(sorted, seen, from, kept, KeptContribution(ids, t, d), NextContribution(ids, t, d))
      && LinksExact(sorted, from, kept, refs)
  {
    hide Completed, Belongs, ContributionIdOf, Suffixed, Injective, Admissible, FirstFree, MethodsTried, Sifted,
        LinksExact, Linked, NoneKept, ContributionKept, ContributionTakes;
    var sorted := Sort(ByKey(ids.key), contributions);
    SortMembers(ByKey(ids.key), contributions);
    var taken: set<string> := {};
    kept, failures, refs, from, seen := [], [], map[], [], [taken];
    ghost var keeps, next := KeptContribution(ids, t, d), NextContribution(ids, t, d);
    SiftNothing(sorted, keeps, next);
    NothingLinked(sorted);
    var n := 0;
    while n < |sorted|
      invariant 0 <= n <= |sorted| && |kept| + |failures| == n && |seen| == n + 1 && seen[n] == taken
      invariant DistinctKeys(IdOfContribution, kept) && (forall c | c in kept :: c.id in taken)
      invariant AllInvalid(failures, t, d) && |from| == |kept|
      invariant Sifted(sorted, seen, from, kept, keeps, next) && LinksExact(sorted, from, kept, refs)
    {
      var c := Completed(ids, sorted[n], t, d);
      AdmissibleExact(ids, t, d, sorted[n]);
      if !Belongs(sorted[n], t, d) || c.kind == "" || c.methodName == "" {
        ForeignIsNotKept(ids, t, d, taken, sorted[n]);
        SiftReject(sorted, seen, from, kept, keeps, next, taken);
        failures := failures + [InvalidOutput(t, d)];
      } else {
        SameContent(ids, sorted[n], t, d);
        var methodName := FreeMethod(ids, c, t, d, taken);
        var id := ContributionIdOf(ids, c, methodName);
        var own := c.(id := id, methodName := methodName);
        OwnIsKept(ids, t, d, taken, sorted[n], methodName);
        if !ids.validContribution(own) {
          SiftReject(sorted, seen, from, kept, keeps, next, taken + {id});
          failures := failures + [InvalidOutput(t, d)];
        } else {
          DistinctAppend(IdOfContribution, kept, own);
          SiftKeep(sorted, seen, from, kept, keeps, next, own, taken + {id});
          LinksNext(sorted, from, kept, refs, own, n);
          kept, from := kept + [own], from + [n];
          refs := Linked(refs, sorted[n].id, id);
        }
        taken := taken + {id};
      }
      n, seen := n + 1, seen + [taken];
    }
  }

  lemma NothingLinked(sorted: seq<Contribution>)
    ensures LinksExact(sorted, [], [], map[])
  {
  }

  // ---------- evidence drafts ----------

  function TargetOf(refs: map<string, string>, id: string): string {
    if id in refs then refs[id] else id
  }

  /** A retained draft: it points into the artifact and cites the contribution that the draft of the
      analyzer cited last. */
  ghost predicate DraftKept(ids: Ids, t: Subject, sorted: seq<Contribution>, cited: seq<nat>, own: seq<Contribution>,
      e: Draft, was: Draft) {
    && was.contributionId != "" && Resolved(sorted, cited, own, was.contributionId, e.contributionId)
    && PointsHere(was.locator, t) && e.locator == Here(t, was.locator.span) && ids.validLocator(e.locator)
    && e.text == was.text
  }

  ghost function KeptDraft(ids: Ids, t: Subject, sorted: seq<Contribution>, cited: seq<nat>, own: seq<Contribution>)
    : (set<string>, Draft, Draft) -> bool
  {
    (before: set<string>, e: Draft, was: Draft) => DraftKept(ids, t, sorted, cited, own, e, was)
  }

  /** Drafts have no identities. */
  ghost function NextDraft(): (set<string>, Draft, set<string>) -> bool {
    (before: set<string>, was: Draft, after: set<string>) => after == before
  }

  /** What the three tests of a draft decide. */
  lemma DraftExact(ids: Ids, t: Subject, sorted: seq<Contribution>, cited: seq<nat>, own: seq<Contribution>,
      refs: map<string, string>, was: Draft)
    requires LinksExact(sorted, cited, own, refs) && |cited| == |own| && (forall k | k in cited :: k < |sorted|)
    ensures var e := was.(contributionId := TargetOf(refs, was.contributionId),
                          locator := CompleteLocator(Some(was.locator), t));
      if was.contributionId != "" && e.contributionId in IdsOfContributions(own) && LocatorMatches(was.locator, t)
          && ids.validLocator(e.locator)
      then DraftKept(ids, t, sorted, cited, own, e, was)
      else forall x :: !DraftKept(ids, t, sorted, cited, own, x, was)
  {
    hide LocatorMatches, CompleteLocator, PointsHere, Resolved;
    var target := TargetOf(refs, was.contributionId);
    MatchesExact(was.locator, t);
    TargetExact(sorted, cited, own, refs, was.contributionId);
    forall x | DraftKept(ids, t, sorted, cited, own, x, was)
      ensures x.contributionId == target && target in IdsOfContributions(own)
    {
      ResolvedOnce(sorted, cited, own, was.contributionId, x.contributionId, target);
    }
  }

  lemma TargetExact(sorted: seq<Contribution>, cited: seq<nat>, own: seq<Contribution>, refs: map<string, string>,
      x: string)
    requires LinksExact(sorted, cited, own, refs) && |cited| == |own| && (forall k | k in cited :: k < |sorted|)
    ensures TargetOf(refs, x) in IdsOfContributions(own) ==> Resolved(sorted, cited, own, x, TargetOf(refs, x))
    ensures (exists y :: Resolved(sorted, cited, own, x, y)) ==>
      Resolved(sorted, cited, own, x, TargetOf(refs, x)) && TargetOf(refs, x) in IdsOfContributions(own)
  {
    if x in refs {
      assert Resolved(sorted, cited, own, x, refs[x]);
    } else {
      forall k: nat
        ensures !Cites(sorted, cited, own, k, x)
      {
      }
      if x in IdsOfContributions(own) {
        var k :| 0 <= k < |own| && own[k].id == x;
        assert cited[k] in cited;
        assert Cites(sorted, cited, own, k, x);
      }
    }
  }

  /** The evidence drafts of `normalizeOutput`: none outside an evidence run; otherwise each is retained,
      citing a retained contribution, or answered by a failure. */
  method NormalizeEvidence(ids: Ids, t: Subject, d: Descriptor, drafts: seq<Draft>, refs: map<string, string>,
      kept: seq<Contribution>, ghost sorted: seq<Contribution>, ghost cited: seq<nat>)
    returns (evidence: seq<Draft>, failures: seq<Failure>, ghost from: seq<nat>, ghost seen: seq<set<string>>)
    requires LinksExact(sorted, cited, kept, refs) && |cited| == |kept| && forall k | k in cited :: k < |sorted|
    ensures AllInvalid(failures, t, d)
    ensures !t.evidenceEnabled ==> evidence == [] && failures == []
    ensures t.evidenceEnabled ==>
      && |evidence| + |failures| == |drafts| && |seen| == |drafts| + 1
      && Sifted(drafts, seen, from, evidence, KeptDraft(ids, t, sorted, cited, kept), NextDraft())
  {
    hide Sifted, CompleteLocator, LinksExact, DraftKept, LocatorMatches;
    evidence, failures, from, seen := [], [], [], [{}];
    ghost var keeps, next := KeptDraft(ids, t, sorted, cited, kept), NextDraft();
    SiftNothing(drafts, keeps, next);
    var n := 0;
    while n < |drafts|
      invariant 0 <= n <= |drafts| && AllInvalid(failures, t, d)
      invariant !t.evidenceEnabled ==> evidence == [] && failures == []
      invariant t.evidenceEnabled ==>
          |evidence| + |failures| == n && |seen| == n + 1 && Sifted(drafts, seen, from, evidence, keeps, next)
    {
      var draft := drafts[n];
      if t.evidenceEnabled {
        var target := TargetOf(refs, draft.contributionId);
        var located := CompleteLocator(Some(draft.locator), t);
        DraftExact(ids, t, sorted, cited, kept, refs, draft);
        if draft.contributionId == "" || target !in IdsOfContributions(kept) || !LocatorMatches(draft.locator, t)
            || !ids.validLocator(located) {
          SiftReject(drafts, seen, from, evidence, keeps, next, seen[n]);
          failures := failures + [InvalidOutput(t, d)];
        } else {
          SiftKeep(drafts, seen, from, evidence, keeps, next, draft.(contributionId := target, locator := located),
              seen[n]);
          evidence, from := evidence + [draft.(contributionId := target, locator := located)], from + [n];
        }
        seen := seen + [seen[n]];
      }
      n := n + 1;
    }
  }

  // ---------- coverage and gaps ----------

  predicate StartsWith(s: string, prefix: string) {
    prefix <= s
  }

  /** The scope inside the artifact. */
  function ScopeOf(scope: string, t: Subject): string {
    if scope == "" then t.path
    else if scope != t.path && !StartsWith(scope, t.path + "::") then t.path + "::" + scope
    else scope
  }

  /** The first scope tried: the path for no scope, a scope inside the path as it is, any other one put
      behind the path. */
  ghost predicate IsFirstScope(first: string, scope: string, t: Subject) {
    if scope == "" then first == t.path
    else if scope == t.path || t.path + "::" <= scope then first == scope
    else first == t.path + "::" + scope
  }

  function CoverageIdOf(ids: Ids, c: Coverage, scope: string): string {
    ids.coverage(c.dimension, Trim(scope), c.state, c.analyzerId)
  }

  function GapIdOf(ids: Ids, g: Gap, scope: string): string {
    ids.gap(g.code, g.dimension, Trim(scope), g.message, g.analyzerId)
  }

  /** `scope#2#3...`: the ordinals pile up. */
  ghost function Piled(scope: string, n: nat): string {
    if n <= 1 then scope else Piled(scope, n - 1) + "#" + Decimal(n)
  }

  ghost function ScopesTried(first: string): nat -> string {
    (k: nat) => Piled(first, k + 1)
  }

  lemma {:induction false} PiledGrows(scope: string, j: nat, k: nat)
    requires 1 < j < k
    ensures |Trim(Piled(scope, j))| < |Trim(Piled(scope, k))|
    decreases k
  {
    SuffixedTrim(Piled(scope, k - 1), k);
    SuffixedTrim(Piled(scope, k - 2), k - 1);
    TrimKeepsEnd(Piled(scope, k - 1));
    if j < k - 1 { PiledGrows(scope, j, k - 1); }
  }

  lemma {:induction false} PiledKeepsPrefix(scope: string, n: nat)
    ensures scope <= Piled(scope, n)
  {
    if n > 1 { PiledKeepsPrefix(scope, n - 1); }
  }

  lemma ScopesDiffer(name: string -> string, first: string)
    requires forall a: string, b: string :: name(a) == name(b) ==> Trim(a) == Trim(b)
    ensures AllDiffer(ScopesTried(first), name)
  {
    hide Piled, Trim;
    forall j: nat, k: nat | 1 <= j < k
      ensures name(ScopesTried(first)(j)) != name(ScopesTried(first)(k))
    {
      PiledGrows(first, j + 1, k + 1);
    }
  }

  /** The first scope in the pile whose identity is free. */
  method FreeScope(name: string -> string, scope: string, taken: set<string>) returns (free: string)
    requires forall a: string, b: string :: name(a) == name(b) ==> Trim(a) == Trim(b)
    ensures FirstFree(ScopesTried(scope), name, taken, free)
  {
    hide Piled, Suffixed, Trim, FirstFree, AllDiffer;
    var ordinal: nat := 1;
    free := scope;
    PiledNext(scope);
    ScopesDiffer(name, scope);
    ghost var tried := ScopesTried(scope);
    while name(free) in taken
      invariant ordinal >= 1 && free == tried(ordinal - 1) && AllTaken(tried, name, ordinal - 1, taken)
      decreases |taken| + 2 - ordinal
    {
      SearchEnds(tried, name, ordinal, taken);
      ordinal := ordinal + 1;
      free := Suffixed(free, ordinal);
    }
    FoundFree(tried, name, taken, ordinal - 1);
  }

  lemma PiledNext(scope: string)
    ensures Piled(scope, 1) == scope
    ensures forall n: nat | n > 1 :: Piled(scope, n) == Suffixed(Piled(scope, n - 1), n)
  {
    hide Decimal;
  }

  function IdsOfCoverage(cs: seq<Coverage>): set<string> {
    set i | 0 <= i < |cs| :: cs[i].id
  }

  function IdsOfGaps(gs: seq<Gap>): set<string> {
    set i | 0 <= i < |gs| :: gs[i].id
  }

  lemma IdsOfMoreCoverage(cs: seq<Coverage>, c: Coverage)
    ensures IdsOfCoverage(cs + [c]) == IdsOfCoverage(cs) + {c.id}
  {
    var more := cs + [c];
    assert forall i | 0 <= i < |cs| :: more[i].id == cs[i].id;
    assert more[|cs|] == c;
  }

  lemma IdsOfMoreGaps(gs: seq<Gap>, g: Gap)
    ensures IdsOfGaps(gs + [g]) == IdsOfGaps(gs) + {g.id}
  {
    var more := gs + [g];
    assert forall i | 0 <= i < |gs| :: more[i].id == gs[i].id;
    assert more[|gs|] == g;
  }

  /** The item as it is retained under a scope. */
  function LocatedCoverage(ids: Ids, c: Coverage, t: Subject, d: Descriptor, scope: string): Coverage {
    var own := c.(analyzerId := d.id, locator := Some(CompleteLocator(c.locator, t)));
    own.(scope := scope, id := CoverageIdOf(ids, own, scope))
  }

  predicate ForeignCoverage(c: Coverage, t: Subject, d: Descriptor) {
    (c.analyzerId != "" && c.analyzerId != d.id) || (c.locator.Some? && !LocatorMatches(c.locator.value, t))
  }

  ghost function CoverageIds(ids: Ids, d: Descriptor, was: Coverage): string -> string {
    (scope: string) => ids.coverage(was.dimension, Trim(scope), was.state, d.id)
  }

  /** The scope is the first one in the pile above the first scope whose identity is free. */
  ghost predicate ScopedAs(id: string -> string, t: Subject, before: set<string>, was: string, scope: string) {
    exists first: string :: IsFirstScope(first, was, t) && FirstFree(ScopesTried(first), id, before, scope)
  }

  lemma ScopedOnce(id: string -> string, t: Subject, before: set<string>, was: string, a: string, b: string)
    requires ScopedAs(id, t, before, was, a) && ScopedAs(id, t, before, was, b)
    ensures a == b
  {
    hide FirstFree;
    var p: string :| IsFirstScope(p, was, t) && FirstFree(ScopesTried(p), id, before, a);
    var q: string :| IsFirstScope(q, was, t) && FirstFree(ScopesTried(q), id, before, b);
    FirstFreeUnique(ScopesTried(p), id, before, a, b);
  }

  /** Retained coverage: valid, about this artifact, by this analyzer, under the first scope whose identity
      is free, and under that identity. */
  ghost predicate CoverageKept(ids: Ids, t: Subject, d: Descriptor, before: set<string>, c: Coverage, was: Coverage) {
    && was.analyzerId in {"", d.id} && MayPointHere(was.locator, t)
    && ScopedAs(CoverageIds(ids, d, was), t, before, was.scope, c.scope) && ids.validCoverage(c)
    && c == Coverage(CoverageIds(ids, d, was)(c.scope), was.dimension, c.scope, was.state, d.id, was.message,
        Some(Here(t, SpanOf(was.locator))))
  }

  ghost function KeptCoverage(ids: Ids, t: Subject, d: Descriptor): (set<string>, Coverage, Coverage) -> bool {
    (before: set<string>, c: Coverage, was: Coverage) => CoverageKept(ids, t, d, before, c, was)
  }

  /** Only retained coverage takes its identity. */
  ghost function NextCoverage(ids: Ids, t: Subject, d: Descriptor): (set<string>, Coverage, set<string>) -> bool {
    (before: set<string>, was: Coverage, after: set<string>) =>
      if NoneKept(KeptCoverage(ids, t, d), before, was) then after == before
      else exists c: Coverage :: CoverageKept(ids, t, d, before, c, was) && after == before + {c.id}
  }

  lemma ForeignCoverageIsNotKept(ids: Ids, t: Subject, d: Descriptor, before: set<string>, was: Coverage)
    requires ForeignCoverage(was, t, d)
    ensures NoneKept(KeptCoverage(ids, t, d), before, was) && NextCoverage(ids, t, d)(before, was, before)
  {
    hide ScopedAs;
  }

  lemma CoverageExact(ids: Ids, t: Subject, d: Descriptor, before: set<string>, was: Coverage, scope: string)
    requires FirstFree(ScopesTried(ScopeOf(was.scope, t)), CoverageIds(ids, d, was), before, scope)
    requires !ForeignCoverage(was, t, d)
    ensures var own := LocatedCoverage(ids, was, t, d, scope);
      && own.id !in before
      && (if ids.validCoverage(own)
          then CoverageKept(ids, t, d, before, own, was) && NextCoverage(ids, t, d)(before, was, before + {own.id})
          else NoneKept(KeptCoverage(ids, t, d), before, was) && NextCoverage(ids, t, d)(before, was, before))
  {
    hide FirstFree, ScopesTried, Trim, CompleteLocator, LocatorMatches, PointsHere;
    var own := LocatedCoverage(ids, was, t, d, scope);
    MatchesExact(if was.locator.Some? then was.locator.value else Here(t, ""), t);
    FreeIsFree(ScopesTried(ScopeOf(was.scope, t)), CoverageIds(ids, d, was), before, scope);
    assert IsFirstScope(ScopeOf(was.scope, t), was.scope, t);
    assert ScopedAs(CoverageIds(ids, d, was), t, before, was.scope, scope);
    forall x | CoverageKept(ids, t, d, before, x, was)
      ensures x == own
    {
      ScopedOnce(CoverageIds(ids, d, was), t, before, was.scope, x.scope, scope);
    }
    assert ids.validCoverage(own) ==> KeptCoverage(ids, t, d)(before, own, was);
  }

  method NormalizeCoverage(ids: Ids, t: Subject, d: Descriptor, coverage: seq<Coverage>)
    returns (kept: seq<Coverage>, failures: seq<Failure>, ghost from: seq<nat>, ghost seen: seq<set<string>>)
    requires Injective(ids)
    ensures |kept| + |failures| == |coverage| && AllInvalid(failures, t, d) && DistinctKeys(IdOfCoverage, kept)
    ensures |seen| == |coverage| + 1
    ensures Sifted(coverage, seen, from, kept, KeptCoverage(ids, t, d), NextCoverage(ids, t, d))
  {
    hide Trim, CompleteLocator, ScopeOf, Sifted, FirstFree, ScopesTried, ForeignCoverage, NoneKept, CoverageKept;
    kept, failures, from, seen := [], [], [], [{}];
    ghost var keeps, next := KeptCoverage(ids, t, d), NextCoverage(ids, t, d);
    SiftNothing(coverage, keeps, next);
    var n := 0;
    while n < |coverage|
      invariant 0 <= n <= |coverage| && |kept| + |failures| == n && AllInvalid(failures, t, d)
      invariant DistinctKeys(IdOfCoverage, kept) && |seen| == n + 1 && seen[n] == IdsOfCoverage(kept)
      invariant Sifted(coverage, seen, from, kept, keeps, next)
    {
      var c := coverage[n];
      if ForeignCoverage(c, t, d) {
        ForeignCoverageIsNotKept(ids, t, d, seen[n], c);
        SiftReject(coverage, seen, from, kept, keeps, next, seen[n]);
        failures := failures + [InvalidOutput(t, d)];
      } else {
        var named := c.(analyzerId := d.id, locator := Some(CompleteLocator(c.locator, t)));
        var name := (s: string) => CoverageIdOf(ids, named, s);
        var scope := FreeScope(name, ScopeOf(c.scope, t), IdsOfCoverage(kept));
        var own := LocatedCoverage(ids, c, t, d, scope);
        SameFirstFree(ScopesTried(ScopeOf(c.scope, t)), name, CoverageIds(ids, d, c), seen[n], scope);
        CoverageExact(ids, t, d, seen[n], c, scope);
        if ids.validCoverage(own) {
          assert forall y | y in kept :: IdOfCoverage(y) in IdsOfCoverage(kept);
          DistinctAppend(IdOfCoverage, kept, own);
          SiftKeep(coverage, seen, from, kept, keeps, next, own, seen[n] + {own.id});
          IdsOfMoreCoverage(kept, own);
          kept, from := kept + [own], from + [n];
        } else {
          SiftReject(coverage, seen, from, kept, keeps, next, seen[n]);
          failures := failures + [InvalidOutput(t, d)];
        }
      }
      n, seen := n + 1, seen + [IdsOfCoverage(kept)];
    }
  }

  /** The same search under a name for the same identities. */
  lemma SameFirstFree(tried: nat -> string, a: string -> string, b: string -> string, taken: set<string>,
      chosen: string)
    requires FirstFree(tried, a, taken, chosen) && forall s: string :: a(s) == b(s)
    ensures FirstFree(tried, b, taken, chosen)
  {
    var k: nat :| chosen == tried(k) && a(chosen) !in taken && AllTaken(tried, a, k, taken);
    assert AllTaken(tried, b, k, taken);
  }

  /** The item as it is retained under a scope. */
  function LocatedGap(ids: Ids, g: Gap, t: Subject, d: Descriptor, scope: string): Gap {
    var own := g.(analyzerId := d.id, locator := Some(CompleteLocator(g.locator, t)));
    own.(scope := scope, id := GapIdOf(ids, own, scope))
  }

  predicate ForeignGap(g: Gap, t: Subject, d: Descriptor) {
    (g.analyzerId != "" && g.analyzerId != d.id) || (g.locator.Some? && !LocatorMatches(g.locator.value, t))
  }

  ghost function GapIds(ids: Ids, d: Descriptor, was: Gap): string -> string {
    (scope: string) => ids.gap(was.code, was.dimension, Trim(scope), was.message, d.id)
  }

  /** A retained gap: valid, about this artifact, by this analyzer, under the first scope whose identity
      is free, and under that identity. */
  ghost predicate GapKept(ids: Ids, t: Subject, d: Descriptor, before: set<string>, g: Gap, was: Gap) {
    && was.analyzerId in {"", d.id} && MayPointHere(was.locator, t)
    && ScopedAs(GapIds(ids, d, was), t, before, was.scope, g.scope) && ids.validGap(g)
    && g == Gap(GapIds(ids, d, was)(g.scope), was.code, was.dimension, g.scope, was.message, d.id,
        Some(Here(t, SpanOf(was.locator))))
  }

  ghost function KeptGap(ids: Ids, t: Subject, d: Descriptor): (set<string>, Gap, Gap) -> bool {
    (before: set<string>, g: Gap, was: Gap) => GapKept(ids, t, d, before, g, was)
  }

  /** Only a retained gap takes its identity. */
  ghost function NextGap(ids: Ids, t: Subject, d: Descriptor): (set<string>, Gap, set<string>) -> bool {
    (before: set<string>, was: Gap, after: set<string>) =>
      if NoneKept(KeptGap(ids, t, d), before, was) then after == before
      else exists g: Gap :: GapKept(ids, t, d, before, g, was) && after == before + {g.id}
  }

  lemma ForeignGapIsNotKept(ids: Ids, t: Subject, d: Descriptor, before: set<string>, was: Gap)
    requires ForeignGap(was, t, d)
    ensures NoneKept(KeptGap(ids, t, d), before, was) && NextGap(ids, t, d)(before, was, before)
  {
    hide ScopedAs;
  }

  lemma GapExact(ids: Ids, t: Subject, d: Descriptor, before: set<string>, was: Gap, scope: string)
    requires FirstFree(ScopesTried(ScopeOf(was.scope, t)), GapIds(ids, d, was), before, scope)
    requires !ForeignGap(was, t, d)
    ensures var own := LocatedGap(ids, was, t, d, scope);
      && own.id !in before
      && (if ids.validGap(own)
          then GapKept(ids, t, d, before, own, was) && NextGap(ids, t, d)(before, was, before + {own.id})
          else NoneKept(KeptGap(ids, t, d), before, was) && NextGap(ids, t, d)(before, was, before))
  {
    hide FirstFree, ScopesTried, Trim, CompleteLocator, LocatorMatches, PointsHere;
    var own := LocatedGap(ids, was, t, d, scope);
    MatchesExact(if was.locator.Some? then was.locator.value else Here(t, ""), t);
    FreeIsFree(ScopesTried(ScopeOf(was.scope, t)), GapIds(ids, d, was), before, scope);
    assert IsFirstScope(ScopeOf(was.scope, t), was.scope, t);
    assert ScopedAs(GapIds(ids, d, was), t, before, was.scope, scope);
    forall x | GapKept(ids, t, d, before, x, was)
      ensures x == own
    {
      ScopedOnce(GapIds(ids, d, was), t, before, was.scope, x.scope, scope);
    }
    assert ids.validGap(own) ==> KeptGap(ids, t, d)(before, own, was);
  }

  method NormalizeGaps(ids: Ids, t: Subject, d: Descriptor, gaps: seq<Gap>)
    returns (kept: seq<Gap>, failures: seq<Failure>, ghost from: seq<nat>, ghost seen: seq<set<string>>)
    requires Injective(ids)
    ensures |kept| + |failures| == |gaps| && AllInvalid(failures, t, d) && DistinctKeys(IdOfGap, kept)
    ensures |seen| == |gaps| + 1
    ensures Sifted(gaps, seen, from, kept, KeptGap(ids, t, d), NextGap(ids, t, d))
  {
    hide Trim, CompleteLocator, ScopeOf, Sifted, FirstFree, ScopesTried, ForeignGap, NoneKept, GapKept;
    kept, failures, from, seen := [], [], [], [{}];
    ghost var keeps, next := KeptGap(ids, t, d), NextGap(ids, t, d);
    SiftNothing(gaps, keeps, next);
    var n := 0;
    while n < |gaps|
      invariant 0 <= n <= |gaps| && |kept| + |failures| == n && AllInvalid(failures, t, d)
      invariant DistinctKeys(IdOfGap, kept) && |seen| == n + 1 && seen[n] == IdsOfGaps(kept)
      invariant Sifted(gaps, seen, from, kept, keeps, next)
    {
      var g := gaps[n];
      if ForeignGap(g, t, d) {
        ForeignGapIsNotKept(ids, t, d, seen[n], g);
        SiftReject(gaps, seen, from, kept, keeps, next, seen[n]);
        failures := failures + [InvalidOutput(t, d)];
      } else {
        var named := g.(analyzerId := d.id, locator := Some(CompleteLocator(g.locator, t)));
        var name := (s: string) => GapIdOf(ids, named, s);
        var scope := FreeScope(name, ScopeOf(g.scope, t), IdsOfGaps(kept));
        var own := LocatedGap(ids, g, t, d, scope);
        SameFirstFree(ScopesTried(ScopeOf(g.scope, t)), name, GapIds(ids, d, g), seen[n], scope);
        GapExact(ids, t, d, seen[n], g, scope);
        if ids.validGap(own) {
          assert forall y | y in kept :: IdOfGap(y) in IdsOfGaps(kept);
          DistinctAppend(IdOfGap, kept, own);
          SiftKeep(gaps, seen, from, kept, keeps, next, own, seen[n] + {own.id});
          IdsOfMoreGaps(kept, own);
          kept, from := kept + [own], from + [n];
        } else {
          SiftReject(gaps, seen, from, kept, keeps, next, seen[n]);
          failures := failures + [InvalidOutput(t, d)];
        }
      }
      n, seen := n + 1, seen + [IdsOfGaps(kept)];
    }
  }

  /** `normalizeOutput`: every item of the output is retained under an identity of its own or answered by
      one failure; what is retained keeps its content and its order, and every retained draft cites a
      retained contribution. */
  method NormalizeOutput(ids: Ids, t: Subject, d: Descriptor, output: Output)
    returns (r: CollectedOutput, ghost from: seq<seq<nat>>, ghost seen: seq<seq<set<string>>>)
    requires Injective(ids)
    ensures |r.contributions| + |r.coverage| + |r.gaps| + |r.evidence| + |r.failures|
            == |output.contributions| + |output.coverage| + |output.gaps|
               + (if t.evidenceEnabled then |output.evidence| else 0)
    ensures AllInvalid(r.failures, t, d) && |from| == |seen| == 4
    ensures DistinctKeys(IdOfContribution, r.contributions) && DistinctKeys(IdOfCoverage, r.coverage)
    ensures DistinctKeys(IdOfGap, r.gaps)
    ensures |seen[0]| == |output.contributions| + 1 && |seen[1]| == |output.coverage| + 1
    ensures |seen[2]| == |output.gaps| + 1
    ensures Sifted(Sort(ByKey(ids.key), output.contributions), seen[0], from[0], r.contributions,
        KeptContribution(ids, t, d), NextContribution(ids, t, d))
    ensures Sifted(output.coverage, seen[1], from[1], r.coverage, KeptCoverage(ids, t, d), NextCoverage(ids, t, d))
    ensures Sifted(output.gaps, seen[2], from[2], r.gaps, KeptGap(ids, t, d), NextGap(ids, t, d))
    ensures if t.evidenceEnabled
            then |seen[3]| == |output.evidence| + 1
              && Sifted(output.evidence, seen[3], from[3], r.evidence,
                  KeptDraft(ids, t, Sort(ByKey(ids.key), output.contributions), from[0], r.contributions), NextDraft())
            else r.evidence == []
  {
    hide Sifted, LinksExact, Injective;
    var contributions, f0, links, from0, seen0 := NormalizeContributions(ids, t, d, output.contributions);
    ghost var sorted := Sort(ByKey(ids.key), output.contributions);
    SiftedInside(sorted, seen0, from0, contributions, KeptContribution(ids, t, d), NextContribution(ids, t, d));
    var evidence, f1, from1, seen1 :=
      NormalizeEvidence(ids, t, d, output.evidence, links, contributions, sorted, from0);
    var coverage, f2, from2, seen2 := NormalizeCoverage(ids, t, d, output.coverage);
    var gaps, f3, from3, seen3 := NormalizeGaps(ids, t, d, output.gaps);
    r := CollectedOutput(contributions, coverage, gaps, f0 + f1 + f2 + f3, evidence);
    from, seen := [from0, from2, from3, from1], [seen0, seen2, seen3, seen1];
  }

  lemma SiftedInside<T(!new)>(items: seq<T>, seen: seq<set<string>>, from: seq<nat>, kept: seq<T>,
      keeps: (set<string>, T, T) -> bool, next: (set<string>, T, set<string>) -> bool)
    requires Sifted(items, seen, from, kept, keeps, next)
    ensures |from| == |kept| && forall k | k in from :: k < |items|
  {
  }

  /** The method of a retained contribution is the own one or that one with an ordinal. */
  lemma RetainedContributionIsOwn(ids: Ids, t: Subject, d: Descriptor, before: set<string>, c: Contribution,
      was: Contribution)
    requires ContributionKept(ids, t, d, before, c, was)
    ensures var base := BaseMethod(ids, t, d, was);
      c.methodName == base || exists k: nat :: k >= 2 && c.methodName == base + "#" + Decimal(k)
    ensures c.methodName != BaseMethod(ids, t, d, was) ==>
        ids.contribution(t.artifactId, d.id, d.version, Trim(BaseMethod(ids, t, d, was))) in before
    ensures c.id !in before
  {
    hide BaseMethod, Decimal, Trim;
    var base := BaseMethod(ids, t, d, was);
    var tried, id := MethodsTried(base), ContributionIds(ids, t, d);
    var k: nat :| c.methodName == tried(k) && id(c.methodName) !in before && AllTaken(tried, id, k, before);
    if k > 0 {
      assert c.methodName == base + "#" + Decimal(k + 1);
      assert id(tried(0)) in before;
    }
  }

  /** The scope of retained coverage lies inside the path. */
  lemma RetainedCoverageIsOwn(ids: Ids, t: Subject, d: Descriptor, before: set<string>, c: Coverage, was: Coverage)
    requires CoverageKept(ids, t, d, before, c, was)
    ensures t.path <= c.scope && c.id !in before
  {
    ScopedInside(CoverageIds(ids, d, was), t, before, was.scope, c.scope);
  }

  lemma RetainedGapIsOwn(ids: Ids, t: Subject, d: Descriptor, before: set<string>, g: Gap, was: Gap)
    requires GapKept(ids, t, d, before, g, was)
    ensures t.path <= g.scope && g.id !in before
  {
    ScopedInside(GapIds(ids, d, was), t, before, was.scope, g.scope);
  }

  lemma ScopedInside(id: string -> string, t: Subject, before: set<string>, was: string, scope: string)
    requires ScopedAs(id, t, before, was, scope)
    ensures t.path <= scope && id(scope) !in before
  {
    hide Piled, AllTaken;
    var first: string :| IsFirstScope(first, was, t) && FirstFree(ScopesTried(first), id, before, scope);
    var k: nat :|
      scope == ScopesTried(first)(k) && id(scope) !in before && AllTaken(ScopesTried(first), id, k, before);
    PiledKeepsPrefix(first, k + 1);
    assert t.path <= first;
  }
}
