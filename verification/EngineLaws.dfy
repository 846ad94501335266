/** What every run of the engine keeps, for arbitrary rules: growth, provenance of each accepted
    fact, bookkeeping of the queue, and termination. */
module EngineLaws {
  import opened Ordering
  import opened Facts
  import opened Engine

  // ---------- inputs ----------

  ghost predicate Usable(factId: Semantics -> string, inputs: seq<Fact>) {
    && (forall f | f in inputs :: ValidFact(factId, f))
    && (forall i, j | 0 <= i < |inputs| && 0 <= j < |inputs| :: inputs[i].sem.scope == inputs[j].sem.scope)
    && (forall i, j | 0 <= i < |inputs| && 0 <= j < |inputs| && i != j :: inputs[i].id != inputs[j].id)
  }

  ghost predicate HoldsClonesOf(known: Known, inputs: seq<Fact>) {
    && (forall f | f in inputs :: f.id in known && known[f.id] == CloneFact(f))
    && (forall id | id in known :: HasId(inputs, id))
    && |known| == |inputs|
  }

  lemma UsableStep(factId: Semantics -> string, before: seq<Fact>, f: Fact)
    requires Usable(factId, before) && ValidFact(factId, f)
    requires before != [] ==> before[0].sem.scope == f.sem.scope
    requires !HasId(before, f.id)
    ensures Usable(factId, before + [f])
  {
    var s := before + [f];
    forall i, j | 0 <= i < |s| && 0 <= j < |s| && i != j
      ensures s[i].id != s[j].id
    {
      assert i < |before| ==> before[i] in before;
      assert j < |before| ==> before[j] in before;
    }
  }

  lemma UsableStepBack(factId: Semantics -> string, before: seq<Fact>, f: Fact)
    requires Usable(factId, before + [f])
    ensures Usable(factId, before) && ValidFact(factId, f) && !HasId(before, f.id)
    ensures before != [] ==> before[0].sem.scope == f.sem.scope
  {
    var s := before + [f];
    assert s[|before|] == f && f in s;
    forall g | g in before
      ensures ValidFact(factId, g) && g.id != f.id
    {
      assert g in s;
      var i :| 0 <= i < |before| && before[i] == g;
      assert s[i] == g && s[i].id != s[|before|].id;
    }
    assert before != [] ==> s[0].sem.scope == s[|before|].sem.scope;
    forall i, j | 0 <= i < |before| && 0 <= j < |before|
      ensures before[i].sem.scope == before[j].sem.scope
      ensures i != j ==> before[i].id != before[j].id
    {
      assert before[i] == s[i] && before[j] == s[j];
    }
  }

  lemma HoldsStep(known: Known, before: seq<Fact>, f: Fact)
    requires HoldsClonesOf(known, before) && f.id !in known
    ensures HoldsClonesOf(known[f.id := CloneFact(f)], before + [f])
  {
    hide HasId, CloneFact;
    var k := known[f.id := CloneFact(f)];
    forall id | id in k
      ensures HasId(before + [f], id)
    {
      HasIdAppend(before, f, id);
    }
    assert |k| == |known| + 1 by {
      assert k.Keys == known.Keys + {f.id};
    }
  }

  lemma {:induction false} PrepareComplete(factId: Semantics -> string, inputs: seq<Fact>)
    requires Usable(factId, inputs)
    ensures Prepare(factId, inputs).Prepared?
    ensures HoldsClonesOf(Prepare(factId, inputs).known, inputs)
    ensures Prepare(factId, inputs).scope == (if inputs == [] then NO_SCOPE else inputs[0].sem.scope)
  {
    if inputs != [] {
      var n := |inputs| - 1;
      var f, before := inputs[n], inputs[..n];
      assert inputs == before + [f];
      UsableStepBack(factId, before, f);
      PrepareComplete(factId, before);
      HoldsStep(Prepare(factId, before).known, before, f);
    }
  }

  lemma UnknownMeansNew(known: Known, before: seq<Fact>, id: string)
    requires HoldsClonesOf(known, before) && id !in known
    ensures !HasId(before, id)
  {
  }

  lemma PrepareStep(factId: Semantics -> string, inputs: seq<Fact>, before: seq<Fact>, f: Fact)
    requires inputs != [] && before == inputs[..|inputs| - 1] && f == inputs[|inputs| - 1]
    requires Prepare(factId, inputs).Prepared?
    ensures inputs == before + [f]
    ensures Prepare(factId, before).Prepared? && ValidFact(factId, f)
    ensures before != [] ==> f.sem.scope == Prepare(factId, before).scope
    ensures f.id !in Prepare(factId, before).known
    ensures Prepare(factId, inputs) == Prepared(f.sem.scope, Prepare(factId, before).known[f.id := CloneFact(f)])
  {
  }

  lemma {:induction false} PrepareSound(factId: Semantics -> string, inputs: seq<Fact>)
    requires Prepare(factId, inputs).Prepared?
    ensures Usable(factId, inputs) && HoldsClonesOf(Prepare(factId, inputs).known, inputs)
    ensures inputs != [] ==> Prepare(factId, inputs).scope == inputs[0].sem.scope
  {
    if inputs != [] {
      var n := |inputs| - 1;
      var f, before := inputs[n], inputs[..n];
      PrepareStep(factId, inputs, before, f);
      PrepareSound(factId, before);
      var known := Prepare(factId, before).known;
      assert before != [] ==> before[0] == inputs[0];
      UnknownMeansNew(known, before, f.id);
      assert Usable(factId, inputs) by {
        UsableStep(factId, before, f);
      }
      assert HoldsClonesOf(known[f.id := CloneFact(f)], inputs) by {
        HoldsStep(known, before, f);
      }
    }
  }

  lemma {:induction false} PrepareWellFormed(factId: Semantics -> string, inputs: seq<Fact>)
    requires Prepare(factId, inputs).Prepared?
    ensures WellFormed(factId, Prepare(factId, inputs).scope, Prepare(factId, inputs).known)
    ensures inputs == [] ==> Prepare(factId, inputs).known == map[]
  {
    if inputs != [] {
      var n := |inputs| - 1;
      PrepareWellFormed(factId, inputs[..n]);
      WellFormedStep(factId, Prepare(factId, inputs[..n]).scope, Prepare(factId, inputs[..n]).known, inputs[n]);
    }
  }

  lemma WellFormedStep(factId: Semantics -> string, scope: Scope, known: Known, f: Fact)
    requires WellFormed(factId, scope, known) && ValidFact(factId, f)
    requires known == map[] || scope == f.sem.scope
    ensures WellFormed(factId, f.sem.scope, known[f.id := CloneFact(f)])
  {
    CloneKeeps(factId, f);
    CloneIdempotent(f);
  }

  /** Inputs are taken exactly when they are valid, of one scope and pairwise different; nothing
      but detached copies of them enters the known set. */
  lemma PrepareExact(factId: Semantics -> string, inputs: seq<Fact>)
    ensures Prepare(factId, inputs).Prepared? <==> Usable(factId, inputs)
    ensures var p := Prepare(factId, inputs);
            p.Prepared? ==>
              && WellFormed(factId, p.scope, p.known)
              && HoldsClonesOf(p.known, inputs)
              && p.scope == (if inputs == [] then NO_SCOPE else inputs[0].sem.scope)
  {
    if Usable(factId, inputs) { PrepareComplete(factId, inputs); }
    if Prepare(factId, inputs).Prepared? { PrepareSound(factId, inputs); PrepareWellFormed(factId, inputs); }
  }

  // ---------- one batch ----------

  lemma {:induction false} ClonesProps(cands: seq<Fact>)
    ensures |Clones(cands)| == |cands|
    ensures forall i | 0 <= i < |cands| :: Clones(cands)[i] == CloneFact(cands[i])
  {
    if cands != [] {
      ClonesProps(cands[..|cands| - 1]);
    }
  }

  lemma {:induction false} FirstOfEachProps(s: seq<Fact>)
    ensures forall f | f in FirstOfEach(s) :: f in s
    ensures forall g | g in s :: HasId(FirstOfEach(s), g.id)
    ensures DistinctKeys(FactIdOf, FirstOfEach(s))
  {
    if s != [] {
      var n := |s| - 1;
      FirstOfEachProps(s[..n]);
      var r, f := FirstOfEach(s[..n]), s[n];
      assert s == s[..n] + [f];
      forall g | g in s
        ensures HasId(FirstOfEach(s), g.id)
      {
        if g != f {
          var h :| h in r && h.id == g.id;
          assert h in FirstOfEach(s);
        } else if !HasId(r, f.id) {
          assert f in FirstOfEach(s);
        }
      }
    }
  }

  lemma {:induction false} NotInProps(s: seq<Fact>, known: Known)
    requires StrictlyIncreasing(FactIdOf, s)
    ensures forall f :: f in NotIn(s, known) <==> f in s && f.id !in known
    ensures StrictlyIncreasing(FactIdOf, NotIn(s, known))
  {
    if s != [] {
      var n := |s| - 1;
      NotInProps(s[..n], known);
      assert s == s[..n] + [s[n]];
      var r := NotIn(s[..n], known);
      forall i | 0 <= i < |r|
        ensures StrLt(FactIdOf(r[i]), FactIdOf(s[n]))
      {
        assert r[i] in s[..n];
        var k :| 0 <= k < n && s[k] == r[i];
      }
    }
  }

  lemma RepresentativesProps(codec: Codec, clones: seq<Fact>)
    ensures forall f | f in Representatives(codec, clones) :: f in clones
    ensures forall c | c in clones :: HasId(Representatives(codec, clones), c.id)
    ensures StrictlyIncreasing(FactIdOf, Representatives(codec, clones))
  {
    var ordered := Sort(ByKey(BatchKey(codec.encode)), clones);
    SortMembers(ByKey(BatchKey(codec.encode)), clones);
    FirstOfEachProps(ordered);
    var unique := FirstOfEach(ordered);
    SortMembers(ByKey(FactIdOf), unique);
    SortByKeyStrict(FactIdOf, unique);
    forall c | c in clones
      ensures HasId(Representatives(codec, clones), c.id)
    {
      assert c in ordered && HasId(unique, c.id);
      var g :| g in unique && g.id == c.id;
      assert g in Representatives(codec, clones);
    }
  }

  /** Each accepted fact is the copy of a candidate that was not known; every candidate that was
      not known is represented, once, in identity order. */
  lemma NewFactsProps(codec: Codec, cands: seq<Fact>, known: Known)
    ensures forall f | f in NewFacts(codec, cands, known) ::
              f.id !in known && exists c :: c in cands && f == CloneFact(c)
    ensures forall c | c in cands :: c.id in known || HasId(NewFacts(codec, cands, known), c.id)
    ensures StrictlyIncreasing(FactIdOf, NewFacts(codec, cands, known))
  {
    var clones := Clones(cands);
    ClonesProps(cands);
    RepresentativesProps(codec, clones);
    var reps := Representatives(codec, clones);
    NotInProps(reps, known);
    forall f | f in NotIn(reps, known)
      ensures exists c :: c in cands && f == CloneFact(c)
    {
      assert f in clones;
      var i :| 0 <= i < |clones| && clones[i] == f;
      assert cands[i] in cands;
    }
    forall c | c in cands
      ensures c.id in known || HasId(NotIn(reps, known), c.id)
    {
      var i :| 0 <= i < |cands| && cands[i] == c;
      assert clones[i] in clones && HasId(reps, clones[i].id);
      var g :| g in reps && g.id == clones[i].id;
      assert c.id !in known ==> g in NotIn(reps, known);
    }
  }

  lemma {:induction false} FirstOfEachIsFirst(s: seq<Fact>, f: Fact)
    requires f in FirstOfEach(s)
    ensures exists i :: 0 <= i < |s| && s[i] == f && forall j | 0 <= j < i :: s[j].id != f.id
  {
    var n := |s| - 1;
    if f in FirstOfEach(s[..n]) {
      FirstOfEachIsFirst(s[..n], f);
      var i :| 0 <= i < n && s[..n][i] == f && forall j | 0 <= j < i :: s[..n][j].id != f.id;
      assert s[i] == f && forall j | 0 <= j < i :: s[j] == s[..n][j];
    } else {
      FirstOfEachProps(s[..n]);
      forall j | 0 <= j < n
        ensures s[j].id != f.id
      {
        assert s[..n][j] in s[..n];
      }
      assert s[n] == f;
    }
  }

  lemma RepresentativeHasLeastKey(codec: Codec, clones: seq<Fact>, f: Fact, c: Fact)
    requires f in Representatives(codec, clones) && c in clones && c.id == f.id
    ensures StrLe(codec.encode(f), codec.encode(c))
  {
    var le := ByKey(BatchKey(codec.encode));
    var ordered := Sort(le, clones);
    SortMembers(le, clones);
    SortMembers(ByKey(FactIdOf), FirstOfEach(ordered));
    hide Sort, FirstOfEach;
    FirstOfEachIsFirst(ordered, f);
    var i :| 0 <= i < |ordered| && ordered[i] == f && forall j | 0 <= j < i :: ordered[j].id != f.id;
    assert c in ordered;
    var k :| 0 <= k < |ordered| && ordered[k] == c;
    StrLeTotal(codec.encode(f), codec.encode(f));
    if i < k {
      ByKeyPreorder(BatchKey(codec.encode));
      SortSorted(le, clones);
      assert le(ordered[i], ordered[k]);
      SameIdByEncoding(codec, f, c);
    }
  }

  lemma SameIdByEncoding(codec: Codec, f: Fact, c: Fact)
    requires f.id == c.id && ByKey(BatchKey(codec.encode))(f, c)
    ensures StrLe(codec.encode(f), codec.encode(c))
  {
    StrLePrefix(f.id + "\0", codec.encode(f), codec.encode(c));
  }

  /** Of several candidates with one identity the one with the least encoding is kept. */
  lemma KeptHasLeastKey(codec: Codec, cands: seq<Fact>, known: Known, f: Fact, c: Fact)
    requires f in NewFacts(codec, cands, known) && c in cands && c.id == f.id
    ensures StrLe(codec.encode(f), codec.encode(CloneFact(c)))
  {
    var clones := Clones(cands);
    ClonesProps(cands);
    RepresentativesProps(codec, clones);
    NotInProps(Representatives(codec, clones), known);
    var m :| 0 <= m < |cands| && cands[m] == c;
    assert clones[m] in clones;
    RepresentativeHasLeastKey(codec, clones, f, clones[m]);
  }

  lemma EarlierIdsDiffer(fs: seq<Fact>, n: nat)
    requires StrictlyIncreasing(FactIdOf, fs) && n < |fs|
    ensures !HasId(fs[..n], fs[n].id)
  {
    forall g | g in fs[..n]
      ensures g.id != fs[n].id
    {
      var i :| 0 <= i < n && fs[i] == g;
      assert StrLt(FactIdOf(fs[i]), FactIdOf(fs[n]));
    }
  }

  ghost predicate AddsExactly(known: Known, fs: seq<Fact>, after: Known) {
    && (forall id :: id in after <==> id in known || HasId(fs, id))
    && (forall id | id in known :: after[id] == known[id])
    && (forall f | f in fs :: f.id in after && after[f.id] == f)
    && |after| == |known| + |fs|
  }

  lemma AddOne(known: Known, rest: seq<Fact>, f: Fact, before: Known)
    requires AddsExactly(known, rest, before) && f.id !in known && !HasId(rest, f.id)
    ensures AddsExactly(known, rest + [f], before[f.id := f])
  {
    hide HasId;
    var after := before[f.id := f];
    forall id
      ensures id in after <==> id in known || HasId(rest + [f], id)
    {
      HasIdAppend(rest, f, id);
    }
    assert |after| == |before| + 1 by {
      assert after.Keys == before.Keys + {f.id};
    }
    forall g | g in rest + [f]
      ensures g.id in after && after[g.id] == g
    {
      if g != f {
        IsListed(rest, g);
      }
    }
  }

  lemma {:induction false} AddAllProps(known: Known, fs: seq<Fact>)
    requires StrictlyIncreasing(FactIdOf, fs)
    requires forall f | f in fs :: f.id !in known
    ensures AddsExactly(known, fs, AddAll(known, fs))
  {
    if fs == [] {
      assert forall id :: !HasId(fs, id);
    } else {
      var n := |fs| - 1;
      var rest, f := fs[..n], fs[n];
      assert fs == rest + [f];
      AddAllProps(known, rest);
      assert f in fs;
      EarlierIdsDiffer(fs, n);
      AddOne(known, rest, f, AddAll(known, rest));
    }
  }

  // ---------- one rule invocation ----------

  ghost function OutFacts(rule: RegisteredRule, known: Known): seq<Fact> {
    match rule.apply(OrderedFacts(known))
    case RuleError => []
    case Candidates(cands) => cands
  }

  /** `f` is the copy of a candidate that `rule` produced from `known` and that passed validation. */
  ghost predicate Produced(cfg: Config, rule: RegisteredRule, known: Known, f: Fact) {
    && f.id !in known
    && exists c :: && c in OutFacts(rule, known)
                   && f == CloneFact(c)
                   && ShapeOk(cfg.codec.factId, cfg.scope, rule.version, c)
                   && SupportKnown(c, known)
  }

  /** `after` is `before` plus facts one invocation of `rule` produced; nothing is overwritten. */
  ghost predicate Extends(cfg: Config, rule: RegisteredRule, before: Known, after: Known) {
    && (forall id | id in before :: id in after && after[id] == before[id])
    && (forall id | id in after && id !in before :: after[id].id == id && Produced(cfg, rule, before, after[id]))
  }

  /** Everything `rule` says about `known` is already in it. */
  ghost predicate Quiet(rule: RegisteredRule, known: Known) {
    && rule.apply(OrderedFacts(known)).Candidates?
    && forall c | c in OutFacts(rule, known) :: c.id in known
  }

  ghost predicate Safe(cfg: Config, rule: RegisteredRule, known: Known) {
    && rule.apply(OrderedFacts(known)).Candidates?
    && BatchOk(cfg.codec.factId, cfg.scope, rule.version, known, OutFacts(rule, known))
  }

  lemma AddedFactsAreProduced(cfg: Config, rule: RegisteredRule, known: Known, added: seq<Fact>)
    requires added == NewFacts(cfg.codec, OutFacts(rule, known), known)
    requires BatchOk(cfg.codec.factId, cfg.scope, rule.version, known, OutFacts(rule, known))
    ensures AddsExactly(known, added, AddAll(known, added))
    ensures Extends(cfg, rule, known, AddAll(known, added))
  {
    NewFactsProps(cfg.codec, OutFacts(rule, known), known);
    AddAllProps(known, added);
    var after := AddAll(known, added);
    forall id | id in after && id !in known
      ensures after[id].id == id && Produced(cfg, rule, known, after[id])
    {
      assert HasId(added, id);
      var f :| f in added && f.id == id;
      var c :| c in OutFacts(rule, known) && f == CloneFact(c);
    }
  }

  /** One invocation fails exactly when the rule fails or one candidate is unacceptable; otherwise
      it extends the known set. */
  lemma InvokeExtends(cfg: Config, rule: RegisteredRule, p: Pass)
    requires p.Pass?
    ensures Invoke(cfg, rule, p).PassFailed? <==> !Safe(cfg, rule, p.known)
    ensures Invoke(cfg, rule, p).Pass? ==> Extends(cfg, rule, p.known, Invoke(cfg, rule, p).known)
  {
    hide NewFacts, AddAll, BatchOk;
    if Safe(cfg, rule, p.known) {
      AddedFactsAreProduced(cfg, rule, p.known, NewFacts(cfg.codec, OutFacts(rule, p.known), p.known));
    }
  }

  /** The bookkeeping of one invocation. */
  ghost predicate Counted(cfg: Config, p: Pass, q: Pass)
    requires p.Pass? && q.Pass?
  {
    && p.accepted <= q.accepted
    && |q.known| - q.accepted == |p.known| - p.accepted
    && p.codes <= q.codes
    && (q.accepted == p.accepted ==> q.known == p.known)
    && (cfg.limits.maxFacts > 0 && |p.known| <= cfg.limits.maxFacts ==> |q.known| <= cfg.limits.maxFacts)
    && (cfg.limits.maxFacts == 0 && cfg.limits.maxFanout == 0 ==> q.codes == p.codes)
  }

  lemma NothingNewMeansQuiet(codec: Codec, cands: seq<Fact>, known: Known)
    requires NewFacts(codec, cands, known) == []
    ensures forall c | c in cands :: c.id in known
  {
    NewFactsProps(codec, cands, known);
    forall c | c in cands
      ensures c.id in known
    {
      assert !HasId([], c.id);
    }
  }

  /** The identities among the candidates that the run does not know yet. */
  ghost function Unheard(known: Known, cands: seq<Fact>): set<string> {
    (set c | c in cands :: c.id) - known.Keys
  }

  /** What the bounds make of an acceptable batch with these new identities: it is skipped, with one code for
      each bound it would pass, or accepted with one fact for every one of them. */
  ghost predicate Bounded(limits: Limits, known: Known, unheard: set<string>, batch: Batch) {
    var tooMany := unheard != {} && limits.maxFacts > 0 && |known| + |unheard| > limits.maxFacts;
    var tooWide := limits.maxFanout > 0 && |unheard| > limits.maxFanout;
    match batch
    case InvalidBatch => false
    case Skipped(codes) =>
      && (tooMany || tooWide)
      && codes == (if tooMany then {FactLimit} else {}) + (if tooWide then {FanoutLimit} else {})
    case Accepted(facts) =>
      && !tooMany && !tooWide
      && |facts| == |unheard| && (set f | f in facts :: f.id) == unheard
  }

  ghost function IdsOf(facts: seq<Fact>): set<string> {
    set f | f in facts :: f.id
  }

  lemma IdsOfMore(facts: seq<Fact>, last: Fact)
    ensures IdsOf(facts + [last]) == IdsOf(facts) + {last.id}
  {
    assert forall f | f in facts :: f in facts + [last];
    assert last in facts + [last];
  }

  lemma {:induction false} IdsCounted(facts: seq<Fact>)
    requires DistinctKeys(FactIdOf, facts)
    ensures |IdsOf(facts)| == |facts|
    decreases |facts|
  {
    if facts != [] {
      var rest, last := facts[..|facts| - 1], facts[|facts| - 1];
      assert facts == rest + [last];
      IdsOfMore(rest, last);
      IdsCounted(rest);
      LastIsNew(facts);
    }
  }

  lemma LastIsNew(facts: seq<Fact>)
    requires facts != [] && DistinctKeys(FactIdOf, facts)
    ensures facts[|facts| - 1].id !in IdsOf(facts[..|facts| - 1])
  {
    var rest, last := facts[..|facts| - 1], facts[|facts| - 1];
    forall f | f in rest
      ensures f.id != last.id
    {
      var i :| 0 <= i < |rest| && rest[i] == f;
      assert FactIdOf(facts[i]) != FactIdOf(facts[|facts| - 1]);
    }
  }

  lemma NewFactsAreUnheard(codec: Codec, cands: seq<Fact>, known: Known)
    ensures var added := NewFacts(codec, cands, known);
            (set f | f in added :: f.id) == Unheard(known, cands) && |added| == |Unheard(known, cands)|
  {
    hide NewFacts;
    var added := NewFacts(codec, cands, known);
    NewFactsProps(codec, cands, known);
    StrictIsDistinct(FactIdOf, added);
    var ids := set f | f in added :: f.id;
    forall id
      ensures id in Unheard(known, cands) <==> id in ids
    {
      if id in Unheard(known, cands) {
        var c :| c in cands && c.id == id;
        assert HasId(added, c.id);
      }
    }
    IdsCounted(added);
  }

  /** A batch is refused as a whole, skipped, or accepted exactly as the bounds say. */
  lemma BatchExact(cfg: Config, version: RuleVersion, known: Known, cands: seq<Fact>)
    ensures var batch := AcceptBatch(cfg, version, known, cands);
            if BatchOk(cfg.codec.factId, cfg.scope, version, known, cands)
            then Bounded(cfg.limits, known, Unheard(known, cands), batch)
            else batch.InvalidBatch?
  {
    hide NewFacts, BatchOk, Unheard;
    NewFactsAreUnheard(cfg.codec, cands, known);
    var added, unheard := NewFacts(cfg.codec, cands, known), Unheard(known, cands);
    assert added == [] <==> |unheard| == 0;
  }

  lemma AcceptedIsCounted(cfg: Config, p: Pass, q: Pass, added: seq<Fact>)
    requires p.Pass? && q.Pass? && q == Pass(q.known, p.accepted + |added|, p.codes)
    requires AddsExactly(p.known, added, q.known) && (added == [] ==> q.known == p.known)
    requires added == [] || LimitsReached(cfg.limits, |p.known|, |added|) == {}
    ensures Counted(cfg, p, q)
  {
    if cfg.limits.maxFacts > 0 && added != [] {
      assert FactLimit !in LimitsReached(cfg.limits, |p.known|, |added|);
    }
  }

  lemma InvokeLaw(cfg: Config, rule: RegisteredRule, p: Pass)
    requires p.Pass? && Invoke(cfg, rule, p).Pass?
    ensures Counted(cfg, p, Invoke(cfg, rule, p))
    ensures Invoke(cfg, rule, p).accepted == p.accepted && Invoke(cfg, rule, p).codes == {} ==> Quiet(rule, p.known)
  {
    hide NewFacts, BatchOk, AddsExactly, Extends, LimitsReached;
    var out := rule.apply(OrderedFacts(p.known)).facts;
    assert out == OutFacts(rule, p.known);
    var added := NewFacts(cfg.codec, out, p.known);
    var q := Invoke(cfg, rule, p);
    match AcceptBatch(cfg, rule.version, p.known, out) {
      case InvalidBatch =>
      case Skipped(codes) =>
        assert q == p.(codes := p.codes + codes) && codes != {};
        SkippedNeedsALimit(cfg, rule.version, p.known, out);
      case Accepted(fs) =>
        assert fs == added;
        AddedFactsAreProduced(cfg, rule, p.known, added);
        assert q == Pass(AddAll(p.known, added), p.accepted + |added|, p.codes);
        AcceptedIsCounted(cfg, p, q, added);
        if added == [] {
          NothingNewMeansQuiet(cfg.codec, out, p.known);
        }
    }
  }

  lemma SkippedNeedsALimit(cfg: Config, version: RuleVersion, known: Known, cands: seq<Fact>)
    requires AcceptBatch(cfg, version, known, cands).Skipped?
    ensures cfg.limits.maxFacts > 0 || cfg.limits.maxFanout > 0
  {
    hide NewFacts, BatchOk;
  }

  lemma {:induction false} RunRulesLaw(cfg: Config, rules: seq<RegisteredRule>, p: Pass)
    requires p.Pass? && RunRules(cfg, rules, p).Pass?
    ensures Counted(cfg, p, RunRules(cfg, rules, p))
    ensures var q := RunRules(cfg, rules, p);
            q.accepted == p.accepted && q.codes == {} ==> forall rule | rule in rules ::
                Quiet(rule, p.known) && Safe(cfg, rule, p.known)
  {
    hide Invoke, Quiet, Safe;
    if rules != [] {
      var n := |rules| - 1;
      RunRulesLaw(cfg, rules[..n], p);
      var m := RunRules(cfg, rules[..n], p);
      InvokeLaw(cfg, rules[n], m);
      InvokeExtends(cfg, rules[n], m);
      var q := Invoke(cfg, rules[n], m);
      if q.accepted == p.accepted && q.codes == {} {
        forall rule | rule in rules
          ensures Quiet(rule, p.known) && Safe(cfg, rule, p.known)
        {
          assert rule == rules[n] || rule in rules[..n];
        }
      }
    }
  }

  // ---------- invariants over whole runs ----------

  /** `inv` survives every accepted batch of every rule of the run. */
  ghost predicate Preserved(cfg: Config, inv: Known -> bool) {
    forall rule, before, after ::
      rule in cfg.rules && inv(before) && Extends(cfg, rule, before, after) ==> inv(after)
  }

  ghost predicate AlwaysSafe(cfg: Config, inv: Known -> bool) {
    forall rule, known :: rule in cfg.rules && inv(known) ==> Safe(cfg, rule, known)
  }

  lemma {:induction false} RunRulesKeeps(cfg: Config, rules: seq<RegisteredRule>, p: Pass, inv: Known -> bool)
    requires p.Pass? && inv(p.known) && Preserved(cfg, inv)
    requires forall rule | rule in rules :: rule in cfg.rules
    ensures var q := RunRules(cfg, rules, p);
            && (q.Pass? ==> inv(q.known))
            && (AlwaysSafe(cfg, inv) ==> q.Pass?)
  {
    hide Invoke, Safe, Extends;
    if rules != [] {
      var n := |rules| - 1;
      assert forall rule | rule in rules[..n] :: rule in rules;
      RunRulesKeeps(cfg, rules[..n], p, inv);
      var q := RunRules(cfg, rules[..n], p);
      if q.Pass? {
        InvokeExtends(cfg, rules[n], q);
        assert rules[n] in rules;
      }
    }
  }

  lemma StepKeeps(cfg: Config, r: Run, inv: Known -> bool)
    requires inv(r.known) && Preserved(cfg, inv)
    ensures inv(Step(cfg, r).known)
    ensures AlwaysSafe(cfg, inv) && !r.status.Failed? ==> !Step(cfg, r).status.Failed?
  {
    hide RunRules, Preserved, AlwaysSafe;
    RunRulesKeeps(cfg, cfg.rules, Pass(r.known, 0, r.codes), inv);
  }

  /** The induction principle of the engine: what holds of the inputs and survives every accepted
      batch holds of every reachable known set; if in addition no rule misbehaves on such sets, no
      run fails. */
  lemma {:induction false} RunInvariant(cfg: Config, known: Known, n: nat, inv: Known -> bool)
    requires inv(known) && Preserved(cfg, inv)
    ensures inv(Steps(cfg, known, n).known)
    ensures AlwaysSafe(cfg, inv) ==> !Steps(cfg, known, n).status.Failed?
  {
    hide Step, Preserved, AlwaysSafe;
    if n > 0 {
      RunInvariant(cfg, known, n - 1, inv);
      StepKeeps(cfg, Steps(cfg, known, n - 1), inv);
    }
  }

  lemma ExtendsWellFormed(cfg: Config, rule: RegisteredRule, before: Known, after: Known)
    requires WellFormed(cfg.codec.factId, cfg.scope, before) && Extends(cfg, rule, before, after)
    ensures WellFormed(cfg.codec.factId, cfg.scope, after)
  {
    forall id | id in after
      ensures && after[id].id == id && ValidFact(cfg.codec.factId, after[id])
              && after[id].sem.scope == cfg.scope && CloneFact(after[id]) == after[id]
    {
      if id !in before {
        var c :| && c in OutFacts(rule, before) && after[id] == CloneFact(c)
                 && ShapeOk(cfg.codec.factId, cfg.scope, rule.version, c) && SupportKnown(c, before);
        CloneKeeps(cfg.codec.factId, c);
        CloneIdempotent(c);
      }
    }
  }

  /** Inputs stay as they were: nothing known is ever overwritten or dropped. */
  ghost predicate Keeps(start: Known, known: Known) {
    forall id | id in start :: id in known && known[id] == start[id]
  }

  lemma RunKeepsInputs(cfg: Config, known: Known, n: nat)
    requires WellFormed(cfg.codec.factId, cfg.scope, known)
    ensures Keeps(known, Steps(cfg, known, n).known)
    ensures WellFormed(cfg.codec.factId, cfg.scope, Steps(cfg, known, n).known)
  {
    hide Steps;
    var inv := (k: Known) => Keeps(known, k) && WellFormed(cfg.codec.factId, cfg.scope, k);
    forall rule, before, after | rule in cfg.rules && inv(before) && Extends(cfg, rule, before, after)
      ensures inv(after)
    {
      ExtendsWellFormed(cfg, rule, before, after);
    }
    RunInvariant(cfg, known, n, inv);
  }

  // ---------- the queue, and termination ----------

  /** The queue never drains: it always holds one entry per known fact minus one per iteration,
      and since each past iteration accepted something that is at least the number of inputs. */
  lemma {:induction false} QueueIsACounter(cfg: Config, known: Known, n: nat)
    requires known != map[]
    ensures var r := Steps(cfg, known, n);
            && (r.status.Running? ==>
                  && r.iterations == n
                  && r.pending == |r.known| - r.iterations
                  && r.pending >= |known| >= 1
                  && (cfg.limits.maxIterations > 0 ==> n <= cfg.limits.maxIterations))
            && (!r.status.Failed? ==> r.iterations <= |r.known| - |known| + 1)
            && (cfg.limits.maxFacts > 0 && |known| <= cfg.limits.maxFacts ==> |r.known| <= cfg.limits.maxFacts)
  {
    hide RunRules;
    assert |known| >= 1 by {
      var id :| id in known;
      assert id in known.Keys;
    }
    if n > 0 {
      QueueIsACounter(cfg, known, n - 1);
      var r := Steps(cfg, known, n - 1);
      if RunRules(cfg, cfg.rules, Pass(r.known, 0, r.codes)).Pass? {
        RunRulesLaw(cfg, cfg.rules, Pass(r.known, 0, r.codes));
      }
    }
  }

  /** On non-empty inputs the guard of the loop is never the reason it stops. */
  lemma NeverStopsOnEmptyQueue(cfg: Config, known: Known, n: nat)
    requires known != map[] && Steps(cfg, known, n).status.Running?
    ensures Steps(cfg, known, n).pending > 0
  {
    hide Step;
    QueueIsACounter(cfg, known, n);
  }

  /** A bound on what can become known bounds the run. */
  lemma BoundedRunTerminates(cfg: Config, known: Known, bound: nat)
    requires forall n: nat :: |Steps(cfg, known, n).known| <= bound
    ensures Terminates(cfg, known)
    ensures Halts(cfg, known, bound + 1)
  {
    hide RunRules;
    if known == map[] {
      assert Steps(cfg, known, 0) == Start(known);
      assert Halts(cfg, known, 1);
      HaltedStays(cfg, known, 1, bound + 1);
      assert Halts(cfg, known, bound + 1);
    } else {
      var n := bound + 1;
      if Steps(cfg, known, n).status.Running? {
        QueueIsACounter(cfg, known, n);
      }
      assert Halts(cfg, known, n);
    }
  }

  /** A positive bound on facts, or on iterations, forces every run to end, whatever the rules do. */
  lemma LimitsForceTermination(cfg: Config, known: Known)
    requires cfg.limits.maxFacts > 0 ==> |known| <= cfg.limits.maxFacts
    requires cfg.limits.maxFacts > 0 || cfg.limits.maxIterations > 0
    ensures Terminates(cfg, known)
  {
    hide RunRules;
    if known == map[] {
      assert Steps(cfg, known, 0) == Start(known);
      assert Halts(cfg, known, 1);
    } else if cfg.limits.maxFacts > 0 {
      forall n: nat
        ensures |Steps(cfg, known, n).known| <= cfg.limits.maxFacts
      {
        QueueIsACounter(cfg, known, n);
      }
      BoundedRunTerminates(cfg, known, cfg.limits.maxFacts);
    } else {
      var n := cfg.limits.maxIterations + 1;
      QueueIsACounter(cfg, known, n);
      assert Halts(cfg, known, n);
    }
  }

  lemma {:induction false} CodesOnlyFromLimits(cfg: Config, known: Known, n: nat)
    requires cfg.limits.maxFacts == 0 && cfg.limits.maxFanout == 0
    ensures Steps(cfg, known, n).codes <= {IterationLimit}
    ensures cfg.limits.maxIterations == 0 ==> Steps(cfg, known, n).codes == {}
  {
    hide RunRules;
    if n > 0 {
      CodesOnlyFromLimits(cfg, known, n - 1);
      var r := Steps(cfg, known, n - 1);
      if RunRules(cfg, cfg.rules, Pass(r.known, 0, r.codes)).Pass? {
        RunRulesLaw(cfg, cfg.rules, Pass(r.known, 0, r.codes));
      }
    }
  }

  /** A bound on iterations cuts the unbounded run off after exactly that many, and says so exactly when
      the run was not over by then. */
  lemma {:induction false} IterationLimitCuts(cfg: Config, known: Known, n: nat)
    requires known != map[] && cfg.limits.maxIterations > 0
    ensures var free, m := cfg.(limits := cfg.limits.(maxIterations := 0)), cfg.limits.maxIterations;
      && (n <= m ==> Steps(cfg, known, n) == Steps(free, known, n))
      && (n > m ==> var cut := Steps(free, known, m);
            Steps(cfg, known, n) ==
              if cut.status.Running? then cut.(codes := cut.codes + {IterationLimit}, status := Finished) else cut)
  {
    hide RunRules, Step;
    var free, m := cfg.(limits := cfg.limits.(maxIterations := 0)), cfg.limits.maxIterations;
    if 0 < n <= m {
      IterationLimitCuts(cfg, known, n - 1);
      QueueIsACounter(cfg, known, n - 1);
      if Steps(cfg, known, n - 1).status.Running? { StepBelowLimit(cfg, Steps(cfg, known, n - 1)); }
    } else if n > m {
      IterationLimitCuts(cfg, known, n - 1);
      QueueIsACounter(cfg, known, n - 1);
      if n == m + 1 && Steps(cfg, known, m).status.Running? { StepAtLimit(cfg, Steps(cfg, known, m)); }
    }
  }

  lemma {:induction false} SameRules(cfg: Config, other: Config, rules: seq<RegisteredRule>, p: Pass)
    requires other == cfg.(limits := other.limits)
    requires other.limits.maxFacts == cfg.limits.maxFacts && other.limits.maxFanout == cfg.limits.maxFanout
    ensures RunRules(cfg, rules, p) == RunRules(other, rules, p)
  {
    hide Invoke;
    if rules != [] {
      SameRules(cfg, other, rules[..|rules| - 1], p);
      var q := RunRules(cfg, rules[..|rules| - 1], p);
      if q.Pass? { SameInvoke(cfg, other, rules[|rules| - 1], q); }
    }
  }

  lemma SameInvoke(cfg: Config, other: Config, rule: RegisteredRule, p: Pass)
    requires other == cfg.(limits := other.limits) && p.Pass?
    requires other.limits.maxFacts == cfg.limits.maxFacts && other.limits.maxFanout == cfg.limits.maxFanout
    ensures Invoke(cfg, rule, p) == Invoke(other, rule, p)
  {
    hide BatchOk, NewFacts, OrderedFacts, AddAll;
  }

  lemma StepBelowLimit(cfg: Config, r: Run)
    requires cfg.limits.maxIterations > r.iterations
    ensures Step(cfg, r) == Step(cfg.(limits := cfg.limits.(maxIterations := 0)), r)
  {
    hide RunRules;
    SameRules(cfg, cfg.(limits := cfg.limits.(maxIterations := 0)), cfg.rules, Pass(r.known, 0, r.codes));
  }

  lemma StepAtLimit(cfg: Config, r: Run)
    requires 0 < cfg.limits.maxIterations == r.iterations && r.pending > 0
    ensures Step(cfg, r) == r.(codes := r.codes + {IterationLimit}, status := Finished)
  {
    hide RunRules;
  }

  /** A run that finished without a gap finished because no rule had anything left to say. */
  lemma {:induction false} FinishedMeansQuiet(cfg: Config, known: Known, n: nat)
    requires known != map[]
    requires Steps(cfg, known, n).status.Finished? && Steps(cfg, known, n).codes == {}
    ensures forall rule | rule in cfg.rules ::
        Quiet(rule, Steps(cfg, known, n).known) && Safe(cfg, rule, Steps(cfg, known, n).known)
  {
    hide RunRules, Quiet, Safe;
    var r := Steps(cfg, known, n - 1);
    if r.status.Running? {
      QueueIsACounter(cfg, known, n - 1);
      RunRulesLaw(cfg, cfg.rules, Pass(r.known, 0, r.codes));
    } else {
      FinishedMeansQuiet(cfg, known, n - 1);
    }
  }
}
