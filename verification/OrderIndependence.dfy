/** The outcome of a derivation does not depend on the order of the inputs or on the order in which a
    rule lists its candidates (internal/derivation/executor.go:195-231, 305-316). */
module OrderIndependence {
  import opened Ordering
  import opened Facts
  import opened Engine
  import opened EngineLaws

  // ---------- inputs ----------

  lemma UsablePermuted(factId: Semantics -> string, a: seq<Fact>, b: seq<Fact>)
    requires multiset(a) == multiset(b) && Usable(factId, a)
    ensures Usable(factId, b)
  {
    assert forall f :: f in a <==> f in b by { SameMembers(a, b); }
    forall i, j | 0 <= i < |b| && 0 <= j < |b|
      ensures b[i].sem.scope == b[j].sem.scope
    {
      assert b[i] in a && b[j] in a;
    }
    forall i, j | 0 <= i < |b| && 0 <= j < |b| && i != j
      ensures b[i].id != b[j].id
    {
      if b[i].id == b[j].id {
        assert b[i] in a && b[j] in a;
        var k :| 0 <= k < |a| && a[k] == b[i];
        var l :| 0 <= l < |a| && a[l] == b[j];
        assert k == l;
        if i < j { TwoOccurrences(b, i, j); } else { TwoOccurrences(b, j, i); }
        assert forall m | 0 <= m < |a| && m != k :: a[m].id != a[k].id;
        OneOccurrence(a, k);
      }
    }
  }

  lemma SameMembers<T>(a: seq<T>, b: seq<T>)
    requires multiset(a) == multiset(b)
    ensures forall x :: x in a <==> x in b
    ensures |a| == |b|
  {
    forall x
      ensures x in a <==> x in b
    {
      assert x in a <==> x in multiset(a);
      assert x in b <==> x in multiset(b);
    }
    assert |a| == |multiset(a)| == |multiset(b)| == |b|;
  }

  lemma SameClones(ka: Known, kb: Known, a: seq<Fact>, b: seq<Fact>)
    requires HoldsClonesOf(ka, a) && HoldsClonesOf(kb, b) && forall f :: f in a <==> f in b
    ensures ka == kb
  {
    hide CloneFact;
    forall id
      ensures id in ka <==> id in kb
      ensures id in ka ==> ka[id] == kb[id]
    {
      if id in ka {
        var f :| f in a && f.id == id;
        assert f in b;
      }
      if id in kb {
        var f :| f in b && f.id == id;
        assert f in a;
      }
    }
  }

  lemma SamePreparedMap(factId: Semantics -> string, a: seq<Fact>, b: seq<Fact>)
    requires multiset(a) == multiset(b) && Usable(factId, a)
    ensures Prepare(factId, a) == Prepare(factId, b)
  {
    hide ValidFact, WellFormed, Prepare, HoldsClonesOf;
    UsablePermuted(factId, a, b);
    PrepareExact(factId, a);
    PrepareExact(factId, b);
    SameMembers(a, b);
    SameClones(Prepare(factId, a).known, Prepare(factId, b).known, a, b);
    if a != [] {
      assert a[0] in b;
      var i :| 0 <= i < |b| && b[i] == a[0];
      assert b[0].sem.scope == b[i].sem.scope;
    }
  }

  /** Permuted inputs are accepted or refused alike, and accepted ones give the same outcome. */
  lemma InputOrderIrrelevant(codec: Codec, rules: seq<RegisteredRule>, a: seq<Fact>, b: seq<Fact>, limits: Limits)
    requires multiset(a) == multiset(b)
    ensures Prepare(codec.factId, a).Prepared? <==> Prepare(codec.factId, b).Prepared?
    ensures Completes(codec, rules, a, limits) <==> Completes(codec, rules, b, limits)
    ensures Prepare(codec.factId, a).Prepared? && Completes(codec, rules, a, limits) ==>
              Derive(codec, rules, a, limits) == Derive(codec, rules, b, limits)
  {
    hide Usable, Terminates, Final, Publish, WellFormed, HoldsClonesOf;
    PrepareExact(codec.factId, a);
    PrepareExact(codec.factId, b);
    if Usable(codec.factId, a) {
      SamePreparedMap(codec.factId, a, b);
    } else if Usable(codec.factId, b) {
      UsablePermuted(codec.factId, b, a);
    }
  }

  // ---------- candidates ----------

  /** Identities of facts carry no NUL (they are a prefix and hexadecimal digits). */
  ghost predicate CleanIds(factId: Semantics -> string) {
    forall s: Semantics :: '\0' !in factId(s)
  }

  /** A NUL ends the part of the text before it. */
  lemma {:induction false} SplitAtNul(a: string, b: string, x: string, y: string)
    requires '\0' !in a && '\0' !in b && a + "\0" + x == b + "\0" + y
    ensures a == b && x == y
  {
    var u, v := a + "\0" + x, b + "\0" + y;
    if a == "" || b == "" {
      assert u[0] == v[0];
      assert a == "" && b == "";
      assert u[1..] == x && v[1..] == y;
    } else {
      assert u[0] == a[0] && v[0] == b[0];
      assert u[1..] == a[1..] + "\0" + x && v[1..] == b[1..] + "\0" + y;
      SplitAtNul(a[1..], b[1..], x, y);
      assert a == [a[0]] + a[1..] && b == [b[0]] + b[1..];
    }
  }

  lemma {:induction false} ClonesConcat(a: seq<Fact>, b: seq<Fact>)
    ensures Clones(a + b) == Clones(a) + Clones(b)
  {
    if b == [] {
      assert a + b == a;
    } else {
      var n := |b| - 1;
      ClonesConcat(a, b[..n]);
      assert (a + b)[..|a + b| - 1] == a + b[..n];
    }
  }

  lemma MiddleOut<T>(p: seq<T>, x: T, q: seq<T>)
    ensures multiset(p + [x] + q) == multiset(p + q) + multiset{x}
    ensures multiset(p + q) == multiset(p + [x] + q) - multiset{x}
  {
  }

  lemma ClonesMiddle(p: seq<Fact>, x: Fact, q: seq<Fact>)
    ensures Clones(p + [x] + q) == Clones(p) + [CloneFact(x)] + Clones(q)
  {
    hide CloneFact;
    ClonesConcat(p + [x], q);
    ClonesConcat(p, [x]);
    assert Clones([x]) == [CloneFact(x)] by { assert [x][..0] == []; }
  }

  lemma WithoutOne(b: seq<Fact>, k: nat)
    requires k < |b|
    ensures multiset(b[..k] + b[k + 1..]) == multiset(b) - multiset{b[k]}
    ensures multiset(Clones(b)) == multiset(Clones(b[..k] + b[k + 1..])) + multiset{CloneFact(b[k])}
  {
    hide Clones, CloneFact;
    var p, x, q := b[..k], b[k], b[k + 1..];
    assert b == p + [x] + q;
    MiddleOut(p, x, q);
    ClonesConcat(p, q);
    ClonesMiddle(p, x, q);
    MiddleOut(Clones(p), CloneFact(x), Clones(q));
  }

  lemma {:induction false} ClonesPermuted(a: seq<Fact>, b: seq<Fact>)
    requires multiset(a) == multiset(b)
    ensures multiset(Clones(a)) == multiset(Clones(b))
  {
    hide Clones, CloneFact;
    SameMembers(a, b);
    if a == [] {
      assert b == [];
    } else {
      assert a[0] in b;
      var k :| 0 <= k < |b| && b[k] == a[0];
      WithoutOne(a, 0);
      WithoutOne(b, k);
      ClonesPermuted(a[..0] + a[1..], b[..k] + b[k + 1..]);
    }
  }

  /** Equal batch keys mean equal facts, so the order of the batch cannot show. */
  lemma BatchKeysSeparate(codec: Codec, s: seq<Fact>)
    requires InjectiveEncoding(codec.encode) && forall f | f in s :: '\0' !in f.id && CloneFact(f) == f
    ensures AntisymmetricOn(ByKey(BatchKey(codec.encode)), s)
  {
    var le := ByKey(BatchKey(codec.encode));
    forall i, j | 0 <= i < |s| && 0 <= j < |s| && le(s[i], s[j]) && le(s[j], s[i])
      ensures s[i] == s[j]
    {
      var key := BatchKey(codec.encode);
      StrLeAntisymmetric(key(s[i]), key(s[j]));
      assert s[i] in s && s[j] in s;
      SplitAtNul(s[i].id, s[j].id, codec.encode(s[i]), codec.encode(s[j]));
    }
  }

  lemma CandidateOrderIrrelevant(cfg: Config, version: RuleVersion, known: Known, a: seq<Fact>, b: seq<Fact>)
    requires InjectiveEncoding(cfg.codec.encode) && CleanIds(cfg.codec.factId) && multiset(a) == multiset(b)
    ensures AcceptBatch(cfg, version, known, a) == AcceptBatch(cfg, version, known, b)
  {
    hide ShapeOk, SupportKnown;
    SameMembers(a, b);
    assert BatchOk(cfg.codec.factId, cfg.scope, version, known, a) <==> BatchOk(cfg.codec.factId, cfg.scope, version,
        known, b);
    if BatchOk(cfg.codec.factId, cfg.scope, version, known, a) {
      SameNewFacts(cfg, version, known, a, b);
    }
  }

  lemma SameNewFacts(cfg: Config, version: RuleVersion, known: Known, a: seq<Fact>, b: seq<Fact>)
    requires InjectiveEncoding(cfg.codec.encode) && CleanIds(cfg.codec.factId) && multiset(a) == multiset(b)
    requires BatchOk(cfg.codec.factId, cfg.scope, version, known, a)
    ensures NewFacts(cfg.codec, a, known) == NewFacts(cfg.codec, b, known)
  {
    hide NotIn;
    ClonesPermuted(a, b);
    ClonesProps(a);
    forall f | f in Clones(a)
      ensures '\0' !in f.id && CloneFact(f) == f
    {
      var i :| 0 <= i < |a| && Clones(a)[i] == f;
      CloneIdempotent(a[i]);
      assert a[i] in a;
      assert ShapeOk(cfg.codec.factId, cfg.scope, version, a[i]);
      assert f.id == cfg.codec.factId(a[i].sem);
    }
    BatchKeysSeparate(cfg.codec, Clones(a));
    ByKeyPreorder(BatchKey(cfg.codec.encode));
    SortPermutation(ByKey(BatchKey(cfg.codec.encode)), Clones(a), Clones(b));
  }

  /** The same rule up to the order in which it lists its candidates. */
  ghost predicate SameUpToOrder(a: RegisteredRule, b: RegisteredRule) {
    && a.version == b.version
    && forall view: seq<Fact> ::
         match (a.apply(view), b.apply(view))
         case (Candidates(x), Candidates(y)) => multiset(x) == multiset(y)
         case (RuleError, RuleError) => true
         case _ => false
  }

  ghost predicate PairwiseSame(a: seq<RegisteredRule>, b: seq<RegisteredRule>) {
    |a| == |b| && forall i | 0 <= i < |a| :: SameUpToOrder(a[i], b[i])
  }

  lemma SameInvoke(cfg: Config, other: Config, a: RegisteredRule, b: RegisteredRule, p: Pass)
    requires other == cfg.(rules := other.rules) && SameUpToOrder(a, b) && p.Pass?
    requires InjectiveEncoding(cfg.codec.encode) && CleanIds(cfg.codec.factId)
    ensures Invoke(cfg, a, p) == Invoke(other, b, p)
  {
    hide BatchOk, NewFacts;
    var view := OrderedFacts(p.known);
    match (a.apply(view), b.apply(view)) {
      case (Candidates(x), Candidates(y)) =>
        CandidateOrderIrrelevant(cfg, a.version, p.known, x, y);
        assert AcceptBatch(cfg, a.version, p.known, y) == AcceptBatch(other, b.version, p.known, y);
      case _ =>
    }
  }

  lemma {:induction false} SameRunRules(cfg: Config, other: Config, a: seq<RegisteredRule>, b: seq<RegisteredRule>,
      p: Pass)
    requires other == cfg.(rules := other.rules) && PairwiseSame(a, b) && p.Pass?
    requires InjectiveEncoding(cfg.codec.encode) && CleanIds(cfg.codec.factId)
    ensures RunRules(cfg, a, p) == RunRules(other, b, p)
  {
    hide Invoke, SameUpToOrder;
    if a != [] {
      var n := |a| - 1;
      SameRunRules(cfg, other, a[..n], b[..n], p);
      var q := RunRules(cfg, a[..n], p);
      if q.Pass? { SameInvoke(cfg, other, a[n], b[n], q); }
    }
  }

  lemma {:induction false} SameSteps(cfg: Config, other: Config, known: Known, n: nat)
    requires other == cfg.(rules := other.rules) && PairwiseSame(cfg.rules, other.rules)
    requires InjectiveEncoding(cfg.codec.encode) && CleanIds(cfg.codec.factId)
    ensures Steps(cfg, known, n) == Steps(other, known, n)
  {
    hide RunRules, PairwiseSame;
    if n > 0 {
      SameSteps(cfg, other, known, n - 1);
      var r := Steps(cfg, known, n - 1);
      SameRunRules(cfg, other, cfg.rules, other.rules, Pass(r.known, 0, r.codes));
    }
  }

  /** Rules that list their candidates in another order publish the same result. */
  lemma CandidateListingIrrelevant(codec: Codec, a: seq<RegisteredRule>, b: seq<RegisteredRule>, inputs: seq<Fact>,
      limits: Limits)
    requires PairwiseSame(a, b) && InjectiveEncoding(codec.encode) && CleanIds(codec.factId)
    requires Completes(codec, a, inputs, limits)
    ensures Completes(codec, b, inputs, limits)
    ensures Derive(codec, a, inputs, limits) == Derive(codec, b, inputs, limits)
  {
    hide Steps, PairwiseSame, Publish;
    if Accepts(codec, inputs, limits) {
      var known := Prepare(codec.factId, inputs).known;
      var cfg, other := ConfigFor(codec, a, inputs, limits), ConfigFor(codec, b, inputs, limits);
      var n: nat :| Halts(cfg, known, n);
      SameSteps(cfg, other, known, n);
      FinalIs(cfg, known, n);
      assert Halts(other, known, n);
      FinalIs(other, known, n);
    }
  }
}
