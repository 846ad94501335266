/** The transitive dependency rule (internal/derivation/dependency_rule.go). */
module DependencyRule {
  import opened Ordering
  import opened Facts
  import opened Engine

  const RULE_ID := "dependency"
  const METHOD := "transitive"

  // ---------- merging evidence ----------

  function Without(s: seq<EvidenceRef>, id: string): seq<EvidenceRef> {
    if s == [] then [] else
    var r := Without(s[..|s| - 1], id);
    if s[|s| - 1].id == id then r else r + [s[|s| - 1]]
  }

  /** `best` among the references of one identity: the least locator wins. */
  function KeepLeast(s: seq<EvidenceRef>): seq<EvidenceRef> {
    if s == [] then [] else
    var r := KeepLeast(s[..|s| - 1]);
    var e := s[|s| - 1];
    if exists g | g in r :: g.id == e.id && StrLe(g.locator, e.locator) then r else Without(r, e.id) + [e]
  }

  function MergeEvidence(left: seq<EvidenceRef>, right: seq<EvidenceRef>): seq<EvidenceRef> {
    Sort(ByKey(EvidenceId), KeepLeast(left + right))
  }

  /** `e` is the reference with the least locator among those of its identity in `s`. */
  ghost predicate LeastIn(s: seq<EvidenceRef>, e: EvidenceRef) {
    e in s && forall g | g in s && g.id == e.id :: StrLe(e.locator, g.locator)
  }

  lemma {:induction false} WithoutProps(s: seq<EvidenceRef>, id: string)
    requires DistinctKeys(EvidenceId, s)
    ensures forall e :: e in Without(s, id) <==> e in s && e.id != id
    ensures DistinctKeys(EvidenceId, Without(s, id))
  {
    if s != [] {
      var n := |s| - 1;
      WithoutProps(s[..n], id);
      assert s == s[..n] + [s[n]];
      var r := Without(s[..n], id);
      forall i | 0 <= i < |r|
        ensures EvidenceId(r[i]) != EvidenceId(s[n])
      {
        assert r[i] in s[..n];
        var k :| 0 <= k < n && s[k] == r[i];
      }
    }
  }

  lemma NoneLeast()
    ensures forall e :: !LeastIn([], e)
  {
  }

  lemma {:induction false} KeepLeastProps(s: seq<EvidenceRef>)
    ensures DistinctKeys(EvidenceId, KeepLeast(s))
    ensures forall e :: e in KeepLeast(s) <==> LeastIn(s, e)
  {
    hide LeastIn;
    if s == [] {
      NoneLeast();
    } else {
      var n := |s| - 1;
      var before, e := s[..n], s[n];
      KeepLeastProps(before);
      assert s == before + [e];
      var r := KeepLeast(before);
      StrLeTotal(e.locator, e.locator);
      if exists g | g in r :: g.id == e.id && StrLe(g.locator, e.locator) {
        var g :| g in r && g.id == e.id && StrLe(g.locator, e.locator);
        LeastKept(before, e, g);
      } else {
        WithoutProps(r, e.id);
        DistinctAppend(EvidenceId, Without(r, e.id), e);
        LeastReplaced(before, e, r);
      }
    }
  }

  lemma LeastKept(before: seq<EvidenceRef>, e: EvidenceRef, g: EvidenceRef)
    requires LeastIn(before, g) && g.id == e.id && StrLe(g.locator, e.locator)
    ensures forall x :: LeastIn(before + [e], x) <==> LeastIn(before, x)
  {
    forall x
      ensures LeastIn(before + [e], x) <==> LeastIn(before, x)
    {
      if LeastIn(before, x) && x.id == e.id {
        StrLeTransitive(x.locator, g.locator, e.locator);
      }
      if LeastIn(before + [e], x) && x == e {
        assert g in before + [e];
        StrLeAntisymmetric(g.locator, e.locator);
        assert g == EvidenceRef(g.id, g.locator) && e == EvidenceRef(e.id, e.locator);
      }
      if LeastIn(before + [e], x) {
        forall y | y in before && y.id == x.id
          ensures StrLe(x.locator, y.locator)
        {
          assert y in before + [e];
        }
      }
    }
  }

  lemma {:induction false} SomeLeast(s: seq<EvidenceRef>, id: string)
    requires exists g | g in s :: g.id == id
    ensures exists g :: LeastIn(s, g) && g.id == id
  {
    var n := |s| - 1;
    var e := s[n];
    assert s == s[..n] + [e];
    StrLeTotal(e.locator, e.locator);
    if g :| g in s[..n] && g.id == id {
      SomeLeast(s[..n], id);
      var m :| LeastIn(s[..n], m) && m.id == id;
      StrLeTotal(m.locator, e.locator);
      if e.id == id && !StrLe(m.locator, e.locator) {
        forall y | y in s && y.id == id
          ensures StrLe(e.locator, y.locator)
        {
          if y in s[..n] { StrLeTransitive(e.locator, m.locator, y.locator); }
        }
        assert LeastIn(s, e);
      } else {
        assert LeastIn(s, m);
      }
    } else {
      assert LeastIn(s, e);
    }
  }

  lemma LeastReplaced(before: seq<EvidenceRef>, e: EvidenceRef, r: seq<EvidenceRef>)
    requires forall x :: x in r <==> LeastIn(before, x)
    requires forall g | g in r && g.id == e.id :: !StrLe(g.locator, e.locator)
    ensures forall x :: LeastIn(before + [e], x) <==> x == e || (LeastIn(before, x) && x.id != e.id)
  {
    StrLeTotal(e.locator, e.locator);
    forall y | y in before && y.id == e.id
      ensures StrLe(e.locator, y.locator) && !(StrLe(y.locator, e.locator))
    {
      SomeLeast(before, e.id);
      var m :| LeastIn(before, m) && m.id == e.id;
      assert m in r;
      StrLeTotal(m.locator, e.locator);
      StrLeTransitive(e.locator, m.locator, y.locator);
      if StrLe(y.locator, e.locator) {
        StrLeTransitive(m.locator, y.locator, e.locator);
      }
    }
    forall x
      ensures LeastIn(before + [e], x) <==> x == e || (LeastIn(before, x) && x.id != e.id)
    {
      assert e in before + [e];
      assert forall y | y in before :: y in before + [e];
    }
  }

  /** The merge holds exactly one reference per identity, the one with the least locator, in
      identity order. */
  lemma MergeEvidenceExact(left: seq<EvidenceRef>, right: seq<EvidenceRef>)
    ensures StrictlyIncreasing(EvidenceId, MergeEvidence(left, right))
    ensures forall e :: e in MergeEvidence(left, right) <==> LeastIn(left + right, e)
  {
    KeepLeastProps(left + right);
    SortByKeyStrict(EvidenceId, KeepLeast(left + right));
    SortMembers(ByKey(EvidenceId), KeepLeast(left + right));
  }

  lemma MergeEvidenceIds(left: seq<EvidenceRef>, right: seq<EvidenceRef>)
    ensures RefIds(MergeEvidence(left, right)) == RefIds(left) + RefIds(right)
  {
    MergeEvidenceExact(left, right);
    var ids := RefIds(MergeEvidence(left, right));
    forall id
      ensures id in ids <==> id in RefIds(left) + RefIds(right)
    {
      if id in RefIds(left) + RefIds(right) {
        assert exists g | g in left + right :: g.id == id by {
          if g :| g in left && g.id == id { assert g in left + right; }
          if g :| g in right && g.id == id { assert g in left + right; }
        }
        SomeLeast(left + right, id);
        var m :| LeastIn(left + right, m) && m.id == id;
        assert m in MergeEvidence(left, right);
      }
      if id in ids {
        var e :| e in MergeEvidence(left, right) && e.id == id;
        assert e in left + right;
      }
    }
  }

  /** Merging does not depend on which fact is on the left. */
  lemma MergeEvidenceCommutes(left: seq<EvidenceRef>, right: seq<EvidenceRef>)
    ensures MergeEvidence(left, right) == MergeEvidence(right, left)
  {
    MergeEvidenceExact(left, right);
    MergeEvidenceExact(right, left);
    assert forall e :: e in left + right <==> e in right + left;
    StrictListUnique(EvidenceId, MergeEvidence(left, right), MergeEvidence(right, left));
  }

  /** `mergeDependencyEvidence`: a map by identity filled group by group, read back in order. */
  method MergeDependencyEvidence(groups: seq<seq<EvidenceRef>>) returns (merged: seq<EvidenceRef>)
    ensures StrictlyIncreasing(EvidenceId, merged)
    ensures forall e :: e in merged <==> LeastIn(Flatten(groups), e)
    ensures |groups| == 2 ==> merged == MergeEvidence(groups[0], groups[1])
  {
    hide LeastIn, HoldsLeast, Flatten, KeepLeast, MergeEvidence, Sort;
    var byId: map<string, EvidenceRef> := map[];
    NothingHeld(groups);
    var g := 0;
    while g < |groups|
      invariant 0 <= g <= |groups|
      invariant HoldsLeast(byId, Flatten(groups[..g]))
    {
      var k := 0;
      FlattenStep(groups, g);
      assert Flatten(groups[..g]) + groups[g][..0] == Flatten(groups[..g]);
      while k < |groups[g]|
        invariant 0 <= k <= |groups[g]|
        invariant HoldsLeast(byId, Flatten(groups[..g]) + groups[g][..k])
      {
        var e := groups[g][k];
        ghost var before := Flatten(groups[..g]) + groups[g][..k];
        HoldsLeastStep(byId, before, e);
        assert before + [e] == Flatten(groups[..g]) + groups[g][..k + 1];
        if e.id !in byId || StrLt(e.locator, byId[e.id].locator) {
          byId := byId[e.id := e];
        }
        k := k + 1;
      }
      assert groups[g][..k] == groups[g];
      g := g + 1;
    }
    assert groups[..g] == groups;
    HoldsLeastExact(byId, Flatten(groups));
    merged := ReadBack(byId);
    if |groups| == 2 {
      FlattenTwo(groups);
      MergeEvidenceExact(groups[0], groups[1]);
      StrictListUnique(EvidenceId, merged, MergeEvidence(groups[0], groups[1]));
    }
  }

  /** The references of the map in identity order. */
  method ReadBack(byId: map<string, EvidenceRef>) returns (merged: seq<EvidenceRef>)
    requires forall id | id in byId :: byId[id].id == id
    ensures StrictlyIncreasing(EvidenceId, merged)
    ensures forall e: EvidenceRef :: e in merged <==> e.id in byId && byId[e.id] == e
  {
    hide Sort;
    var list: seq<EvidenceRef> := [];
    var rest := byId.Keys;
    while rest != {}
      invariant rest <= byId.Keys
      invariant DistinctKeys(EvidenceId, list)
      invariant forall e :: e in list <==> e.id in byId && e.id !in rest && byId[e.id] == e
      decreases |rest|
    {
      var id :| id in rest;
      assert byId[id].id == id;
      DistinctAppend(EvidenceId, list, byId[id]);
      list := list + [byId[id]];
      rest := rest - {id};
    }
    merged := Sort(ByKey(EvidenceId), list);
    SortByKeyStrict(EvidenceId, list);
    SortMembers(ByKey(EvidenceId), list);
  }

  function Flatten<T>(groups: seq<seq<T>>): seq<T> {
    if groups == [] then [] else Flatten(groups[..|groups| - 1]) + groups[|groups| - 1]
  }

  lemma FlattenStep<T>(groups: seq<seq<T>>, g: nat)
    requires g < |groups|
    ensures Flatten(groups[..g + 1]) == Flatten(groups[..g]) + groups[g]
  {
    assert groups[..g + 1][..g] == groups[..g];
  }

  lemma FlattenTwo<T>(groups: seq<seq<T>>)
    requires |groups| == 2
    ensures Flatten(groups) == groups[0] + groups[1]
  {
    assert groups[..2] == groups;
    FlattenStep(groups, 0);
    FlattenStep(groups, 1);
  }

  ghost predicate HoldsLeast(byId: map<string, EvidenceRef>, s: seq<EvidenceRef>) {
    (forall id | id in byId :: byId[id].id == id) &&
    forall e: EvidenceRef :: e.id in byId && byId[e.id] == e <==> LeastIn(s, e)
  }

  lemma NothingHeld(groups: seq<seq<EvidenceRef>>)
    ensures HoldsLeast(map[], Flatten(groups[..0]))
  {
    hide LeastIn;
    NoneLeast();
  }

  lemma HoldsLeastExact(byId: map<string, EvidenceRef>, s: seq<EvidenceRef>)
    requires HoldsLeast(byId, s)
    ensures forall id | id in byId :: byId[id].id == id
    ensures forall e: EvidenceRef :: e.id in byId && byId[e.id] == e <==> LeastIn(s, e)
  {
    hide LeastIn;
  }

  lemma HoldsLeastStep(byId: map<string, EvidenceRef>, before: seq<EvidenceRef>, e: EvidenceRef)
    requires HoldsLeast(byId, before)
    ensures HoldsLeast(if e.id !in byId || StrLt(e.locator, byId[e.id].locator) then byId[e.id := e]
        else byId, before + [e])
  {
    hide LeastIn, KeepLeast;
    if e.id in byId && !StrLt(e.locator, byId[e.id].locator) {
      var g := byId[e.id];
      StrLeTotal(e.locator, g.locator);
      LeastKept(before, e, g);
    } else {
      KeepLeastProps(before);
      NoBetterOne(byId, before, e);
      LeastReplaced(before, e, KeepLeast(before));
    }
  }

  lemma NoBetterOne(byId: map<string, EvidenceRef>, before: seq<EvidenceRef>, e: EvidenceRef)
    requires HoldsLeast(byId, before) && (e.id in byId ==> StrLt(e.locator, byId[e.id].locator))
    requires forall x :: x in KeepLeast(before) <==> LeastIn(before, x)
    ensures forall g | g in KeepLeast(before) && g.id == e.id :: !StrLe(g.locator, e.locator)
  {
    hide LeastIn, KeepLeast;
    forall g | g in KeepLeast(before) && g.id == e.id
      ensures !StrLe(g.locator, e.locator)
    {
      if StrLe(g.locator, e.locator) { StrLeAntisymmetric(g.locator, e.locator); }
    }
  }

  // ---------- composing two edges ----------

  predicate IsDependency(f: Fact) {
    f.sem.relation == PredicateDependency && f.sem.obj.Some?
  }

  /** `left` ends where `right` starts, and the composed edge is not a loop. */
  predicate Composable(left: Fact, right: Fact) {
    && IsDependency(left) && IsDependency(right)
    && left.sem.obj.value == right.sem.subject
    && left.sem.subject != right.sem.obj.value
  }

  /** The identity of a derived edge: support does not enter it. */
  function EdgeSemantics(scope: Scope, version: string, from: Participant, to: Participant): Semantics {
    Semantics(scope, PredicateDependency, from, Some(to), None, map[], Producer(RULE_ID, version, METHOD))
  }

  function Compose(factId: Semantics -> string, version: string, left: Fact, right: Fact): Fact
    requires Composable(left, right)
  {
    var sem := EdgeSemantics(left.sem.scope, version, left.sem.subject, right.sem.obj.value);
    Fact(factId(sem), sem, MergeEvidence(left.evidence, right.evidence),
         Some(Lineage(RULE_ID, version, SortStrings([left.id, right.id]))))
  }

  function ComposedId(factId: Semantics -> string, version: string, left: Fact, right: Fact): string
    requires Composable(left, right)
  {
    factId(EdgeSemantics(left.sem.scope, version, left.sem.subject, right.sem.obj.value))
  }

  // ---------- scanning all pairs ----------

  function AddPair(factId: Semantics -> string, version: string, view: seq<Fact>, i: nat, j: nat,
      acc: seq<Fact>): seq<Fact>
    requires i < |view| && j < |view|
  {
    if i == j || !Composable(view[i], view[j]) then acc
    else if HasId(acc, ComposedId(factId, version, view[i], view[j])) then acc
    else acc + [Compose(factId, version, view[i], view[j])]
  }

  /** What the two loops have collected after the rows before `i` and `j` columns of row `i`. */
  function Scanned(factId: Semantics -> string, version: string, view: seq<Fact>, i: nat, j: nat): seq<Fact>
    requires i <= |view| && j <= |view| && (i == |view| ==> j == 0)
    decreases i, j
  {
    if j > 0 then AddPair(factId, version, view, i, j - 1, Scanned(factId, version, view, i, j - 1))
    else if i > 0 then Scanned(factId, version, view, i - 1, |view|)
    else []
  }

  function Apply(factId: Semantics -> string, version: string, view: seq<Fact>): seq<Fact> {
    Sort(ByKey(FactIdOf), Scanned(factId, version, view, |view|, 0))
  }

  function Registered(factId: Semantics -> string, version: string): RegisteredRule {
    RegisteredRule(RuleVersion(RULE_ID, version), (view: seq<Fact>) => Candidates(Apply(factId, version, view)))
  }

  /** Position (a, b) was visited before the scan reached (i, j). */
  predicate Visited(n: nat, i: nat, j: nat, a: nat, b: nat) {
    a < n && b < n && (a < i || (a == i && b < j))
  }

  predicate PairAt(view: seq<Fact>, a: nat, b: nat) {
    a < |view| && b < |view| && a != b && Composable(view[a], view[b])
  }

  /** `f` was made by the first visited pair that makes its identity. */
  ghost predicate FirstMade(factId: Semantics -> string, version: string, view: seq<Fact>, i: nat, j: nat, f: Fact,
      a: nat, b: nat) {
    && Visited(|view|, i, j, a, b) && PairAt(view, a, b) && f == Compose(factId, version, view[a], view[b])
    && forall c: nat, d: nat | Visited(|view|, a, b, c, d) && PairAt(view, c, d) ::
         ComposedId(factId, version, view[c], view[d]) != f.id
  }

  ghost predicate Made(factId: Semantics -> string, version: string, view: seq<Fact>, i: nat, j: nat, f: Fact) {
    exists a: nat, b: nat :: FirstMade(factId, version, view, i, j, f, a, b)
  }

  ghost predicate ScanInvariant(factId: Semantics -> string, version: string, view: seq<Fact>, i: nat, j: nat,
      acc: seq<Fact>) {
    && (forall f | f in acc :: Made(factId, version, view, i, j, f))
    && (forall a: nat, b: nat | Visited(|view|, i, j, a, b) && PairAt(view, a, b) ::
          HasId(acc, ComposedId(factId, version, view[a], view[b])))
    && DistinctKeys(FactIdOf, acc)
  }

  lemma StillMade(factId: Semantics -> string, version: string, view: seq<Fact>, i: nat, j: nat, k: nat, l: nat,
      f: Fact)
    requires Made(factId, version, view, i, j, f)
    requires forall a: nat, b: nat | Visited(|view|, i, j, a, b) :: Visited(|view|, k, l, a, b)
    ensures Made(factId, version, view, k, l, f)
  {
    hide Composable, Compose, ComposedId;
    var a: nat, b: nat :| FirstMade(factId, version, view, i, j, f, a, b);
    assert FirstMade(factId, version, view, k, l, f, a, b);
  }

  lemma AppendKeeps(factId: Semantics -> string, version: string, view: seq<Fact>, i: nat, j: nat, acc: seq<Fact>)
    requires i < |view| && j < |view| && ScanInvariant(factId, version, view, i, j, acc)
    requires PairAt(view, i, j) && !HasId(acc, ComposedId(factId, version, view[i], view[j]))
    ensures ScanInvariant(factId, version, view, i, j + 1, acc + [Compose(factId, version, view[i], view[j])])
  {
    hide Composable, Compose, ComposedId, HasId, Made;
    var made := Compose(factId, version, view[i], view[j]);
    ComposeId(factId, version, view[i], view[j]);
    var next := acc + [made];
    forall f | f in next
      ensures Made(factId, version, view, i, j + 1, f)
    {
      if f in acc {
        StillMade(factId, version, view, i, j, i, j + 1, f);
      } else {
        LatestMade(factId, version, view, i, j, acc);
      }
    }
    forall a: nat, b: nat | Visited(|view|, i, j + 1, a, b) && PairAt(view, a, b)
      ensures HasId(next, ComposedId(factId, version, view[a], view[b]))
    {
      assert (a == i && b == j) || Visited(|view|, i, j, a, b);
      HasIdAppend(acc, made, ComposedId(factId, version, view[a], view[b]));
    }
    forall g | g in acc
      ensures FactIdOf(g) != FactIdOf(made)
    {
      IsListed(acc, g);
    }
    DistinctAppend(FactIdOf, acc, made);
  }

  lemma LatestMade(factId: Semantics -> string, version: string, view: seq<Fact>, i: nat, j: nat, acc: seq<Fact>)
    requires i < |view| && j < |view| && ScanInvariant(factId, version, view, i, j, acc)
    requires PairAt(view, i, j) && !HasId(acc, ComposedId(factId, version, view[i], view[j]))
    ensures Made(factId, version, view, i, j + 1, Compose(factId, version, view[i], view[j]))
  {
    hide Composable, Compose, ComposedId, HasId;
    var made := Compose(factId, version, view[i], view[j]);
    ComposeId(factId, version, view[i], view[j]);
    assert FirstMade(factId, version, view, i, j + 1, made, i, j);
  }

  lemma AddPairKeeps(factId: Semantics -> string, version: string, view: seq<Fact>, i: nat, j: nat, acc: seq<Fact>)
    requires i < |view| && j < |view| && ScanInvariant(factId, version, view, i, j, acc)
    ensures ScanInvariant(factId, version, view, i, j + 1, AddPair(factId, version, view, i, j, acc))
  {
    hide Composable, Compose, ComposedId, HasId;
    if PairAt(view, i, j) && !HasId(acc, ComposedId(factId, version, view[i], view[j])) {
      AppendKeeps(factId, version, view, i, j, acc);
    } else {
      forall f | f in acc
        ensures Made(factId, version, view, i, j + 1, f)
      {
        StillMade(factId, version, view, i, j, i, j + 1, f);
      }
      forall a: nat, b: nat | Visited(|view|, i, j + 1, a, b) && PairAt(view, a, b)
        ensures HasId(acc, ComposedId(factId, version, view[a], view[b]))
      {
        assert (a == i && b == j) || Visited(|view|, i, j, a, b);
      }
    }
  }

  lemma ComposeId(factId: Semantics -> string, version: string, left: Fact, right: Fact)
    requires Composable(left, right)
    ensures Compose(factId, version, left, right).id == ComposedId(factId, version, left, right)
  {
  }

  lemma {:induction false} ScannedInvariant(factId: Semantics -> string, version: string, view: seq<Fact>, i: nat,
      j: nat)
    requires i <= |view| && j <= |view| && (i == |view| ==> j == 0)
    ensures ScanInvariant(factId, version, view, i, j, Scanned(factId, version, view, i, j))
    decreases i, j
  {
    hide ScanInvariant;
    if j > 0 {
      ScannedInvariant(factId, version, view, i, j - 1);
      AddPairKeeps(factId, version, view, i, j - 1, Scanned(factId, version, view, i, j - 1));
    } else if i > 0 {
      ScannedInvariant(factId, version, view, i - 1, |view|);
      NextRow(factId, version, view, i - 1, Scanned(factId, version, view, i - 1, |view|));
    } else {
      NothingScanned(factId, version, view);
    }
  }

  lemma NothingScanned(factId: Semantics -> string, version: string, view: seq<Fact>)
    ensures ScanInvariant(factId, version, view, 0, 0, [])
  {
  }

  lemma NextRow(factId: Semantics -> string, version: string, view: seq<Fact>, i: nat, acc: seq<Fact>)
    requires i < |view| && ScanInvariant(factId, version, view, i, |view|, acc)
    ensures ScanInvariant(factId, version, view, i + 1, 0, acc)
  {
    hide Composable, Compose, ComposedId, HasId;
    forall f | f in acc
      ensures Made(factId, version, view, i + 1, 0, f)
    {
      StillMade(factId, version, view, i, |view|, i + 1, 0, f);
    }
    forall a: nat, b: nat | Visited(|view|, i + 1, 0, a, b) && PairAt(view, a, b)
      ensures HasId(acc, ComposedId(factId, version, view[a], view[b]))
    {
      assert Visited(|view|, i, |view|, a, b);
    }
  }

  /** The rule's output: one candidate per identity that some pair of different facts composes, each
      made by the first such pair in view order. */
  lemma ApplyExact(factId: Semantics -> string, version: string, view: seq<Fact>)
    ensures StrictlyIncreasing(FactIdOf, Apply(factId, version, view))
    ensures forall f | f in Apply(factId, version, view) ::
              Made(factId, version, view, |view|, 0, f)
    ensures forall a: nat, b: nat | PairAt(view, a, b) ::
              HasId(Apply(factId, version, view), ComposedId(factId, version, view[a], view[b]))
  {
    hide Composable, Compose, ComposedId;
    var acc := Scanned(factId, version, view, |view|, 0);
    ScannedInvariant(factId, version, view, |view|, 0);
    SortByKeyStrict(FactIdOf, acc);
    SortMembers(ByKey(FactIdOf), acc);
    forall a: nat, b: nat | PairAt(view, a, b)
      ensures HasId(Apply(factId, version, view), ComposedId(factId, version, view[a], view[b]))
    {
      assert Visited(|view|, |view|, 0, a, b);
      var g :| g in acc && g.id == ComposedId(factId, version, view[a], view[b]);
      assert g in Apply(factId, version, view);
    }
  }

  /** The edges `left` and `right` are different dependencies in a row that do not close a loop. */
  ghost predicate InARow(left: Fact, right: Fact) {
    && left.sem.relation == PredicateDependency && right.sem.relation == PredicateDependency
    && left.sem.obj.Some? && right.sem.obj.Some? && left.sem.obj.value == right.sem.subject
    && left.sem.subject != right.sem.obj.value
  }

  /** `f` is the edge from where `left` starts to where `right` ends: a dependency found by this version of
      the rule, from these two facts. */
  ghost predicate IsComposed(factId: Semantics -> string, version: string, left: Fact, right: Fact, f: Fact) {
    && InARow(left, right)
    && f.sem.scope == left.sem.scope && f.sem.relation == PredicateDependency && f.sem.value.None?
    && f.sem.subject == left.sem.subject && f.sem.obj == right.sem.obj && f.sem.qualifiers == map[]
    && f.sem.producer.id == "dependency" && f.sem.producer.version == version
    && f.sem.producer.methodName == "transitive" && f.id == factId(f.sem)
    && f.evidence == MergeEvidence(left.evidence, right.evidence)
    && f.lineage.Some? && f.lineage.value.ruleId == "dependency" && f.lineage.value.ruleVersion == version
    && f.lineage.value.inputs == (if StrLe(left.id, right.id) then [left.id, right.id] else [right.id, left.id])
  }

  lemma ComposeExact(factId: Semantics -> string, version: string, left: Fact, right: Fact)
    ensures Composable(left, right) <==> InARow(left, right)
    ensures Composable(left, right) ==> IsComposed(factId, version, left, right, Compose(factId, version, left, right))
  {
    hide MergeEvidence;
    SortTwo(left.id, right.id);
  }

  lemma SortTwo(a: string, b: string)
    ensures SortStrings([a, b]) == if StrLe(a, b) then [a, b] else [b, a]
  {
    var le := ByKey(Identity);
    assert [a, b][1..] == [b] && [b][1..] == [];
    assert Sort(le, [b]) == Insert(le, b, Sort(le, [])) == [b];
    assert le(a, b) == StrLe(Identity(a), Identity(b)) && Identity(a) == a && Identity(b) == b;
    assert Insert(le, a, [b]) == if StrLe(a, b) then [a] + [b] else [b] + Insert(le, a, []);
  }

  /** Field by field: what the rule derives comes from two edges in a row, and every two edges in a row
      make an edge with that meaning. */
  lemma ApplyComposes(factId: Semantics -> string, version: string, view: seq<Fact>)
    ensures forall f | f in Apply(factId, version, view) :: exists a: nat, b: nat ::
              a < |view| && b < |view| && a != b && IsComposed(factId, version, view[a], view[b], f)
    ensures forall a: nat, b: nat | a < |view| && b < |view| && a != b && InARow(view[a], view[b]) ::
              exists f :: f in Apply(factId, version, view) && f.id == factId(Semantics(view[a].sem.scope,
                PredicateDependency, view[a].sem.subject, view[b].sem.obj, None, map[],
                Producer("dependency", version, "transitive")))
  {
    hide Composable, Compose, ComposedId, Apply, IsComposed, InARow;
    ApplyExact(factId, version, view);
    forall f | f in Apply(factId, version, view)
      ensures exists a: nat, b: nat ::
                a < |view| && b < |view| && a != b && IsComposed(factId, version, view[a], view[b], f)
    {
      var a: nat, b: nat :| FirstMade(factId, version, view, |view|, 0, f, a, b);
      ComposeExact(factId, version, view[a], view[b]);
    }
    forall a: nat, b: nat | a < |view| && b < |view| && a != b && InARow(view[a], view[b])
      ensures exists f :: f in Apply(factId, version, view) && f.id == factId(Semantics(view[a].sem.scope,
                PredicateDependency, view[a].sem.subject, view[b].sem.obj, None, map[],
                Producer("dependency", version, "transitive")))
    {
      ComposeExact(factId, version, view[a], view[b]);
      ComposedIdExact(factId, version, view[a], view[b]);
      assert PairAt(view, a, b);
    }
  }

  lemma ComposedIdExact(factId: Semantics -> string, version: string, left: Fact, right: Fact)
    requires Composable(left, right)
    ensures ComposedId(factId, version, left, right) == factId(Semantics(left.sem.scope, PredicateDependency,
        left.sem.subject, right.sem.obj, None, map[], Producer("dependency", version, "transitive")))
  {
  }

  /** `DependencyRule.derive`, with the merge done by the loop above. */
  method Derive(factId: Semantics -> string, version: string, left: Fact, right: Fact) returns (candidate: Fact)
    requires Composable(left, right)
    ensures candidate == Compose(factId, version, left, right)
  {
    var sem := Semantics(left.sem.scope, PredicateDependency, left.sem.subject, Some(right.sem.obj.value), None, map[],
                         Producer(RULE_ID, version, METHOD));
    var evidence := MergeDependencyEvidence([left.evidence, right.evidence]);
    candidate := Fact(factId(sem), sem, evidence, Some(Lineage(RULE_ID, version, SortStrings([left.id, right.id]))));
  }

  /** `DependencyRule.Apply`: two nested loops with a set of the identities already made. */
  method ApplyRule(factId: Semantics -> string, version: string, facts: seq<Fact>) returns (out: seq<Fact>)
    ensures out == Apply(factId, version, facts)
  {
    var derived: seq<Fact> := [];
    var seen: set<string> := {};
    var i := 0;
    while i < |facts|
      invariant 0 <= i <= |facts|
      invariant derived == Scanned(factId, version, facts, i, 0)
      invariant forall id :: id in seen <==> HasId(derived, id)
    {
      var left := facts[i];
      var j := 0;
      while j < |facts|
        invariant 0 <= j <= |facts|
        invariant derived == Scanned(factId, version, facts, i, j)
        invariant forall id :: id in seen <==> HasId(derived, id)
      {
        var right := facts[j];
        if i != j && Composable(left, right) {
          var candidate := Derive(factId, version, left, right);
          if candidate.id !in seen {
            SeenStep(derived, seen, candidate);
            seen := seen + {candidate.id};
            derived := derived + [candidate];
          }
        }
        j := j + 1;
      }
      i := i + 1;
    }
    out := Sort(ByKey(FactIdOf), derived);
  }

  lemma SeenStep(derived: seq<Fact>, seen: set<string>, f: Fact)
    requires forall id :: id in seen <==> HasId(derived, id)
    ensures forall id :: id in seen + {f.id} <==> HasId(derived + [f], id)
  {
    forall id
      ensures id in seen + {f.id} <==> HasId(derived + [f], id)
    {
      HasIdAppend(derived, f, id);
    }
  }
}
