/** A codec with everything the theorems about derivation ask of one: identities that tell semantics
    apart and carry no NUL, an encoding that tells facts apart, and distinct gap identities. It writes
    every field behind its length (internal/fact/identity.go:14-45, internal/contract/identity.go:314-323). */
module InjectiveCodecs {
  import opened Facts
  import opened AnalyzerOutput
  import opened IdentityFraming
  import opened FixedPoint
  import opened OrderIndependence
  import opened Engine
  import opened Ordering
  import opened ShippedRules
  import opened ShippedOutcome
  import opened SelfLoops

  function RelationText(p: Predicate): string {
    match p
    case PredicateArtifact => "a"
    case PredicateSymbol => "b"
    case PredicateNamedElement => "c"
    case PredicateDefinition => "d"
    case PredicateReference => "e"
    case PredicateCall => "f"
    case PredicateDependency => "g"
    case PredicateConfiguration => "h"
    case PredicateEndpoint => "i"
    case PredicateMessage => "j"
    case PredicateMembership => "k"
  }

  function KindText(k: ParticipantKind): string {
    match k
    case ParticipantArtifact => "a"
    case ParticipantSymbol => "b"
    case ParticipantNamedElement => "c"
  }

  function ParticipantText(p: Participant): string {
    Frame([KindText(p.kind), p.id])
  }

  function ValueParts(v: TypedValue): seq<string> {
    match v
    case ValueString(s) => ["s", s]
    case ValueInteger(i) => if i >= 0 then ["i", Decimal(i)] else ["j", Decimal(-i)]
    case ValueNumber(n) => ["n", n]
    case ValueBoolean(b) => [if b then "t" else "f"]
    case ValueNull => []
  }

  function ValueText(v: TypedValue): string {
    Frame(ValueParts(v))
  }

  function Optional<T>(text: T -> string, o: Option<T>): string {
    if o.None? then "" else "+" + text(o.value)
  }

  /** One part per name, in the order given. */
  function Entries(names: seq<string>, m: map<string, TypedValue>): seq<string>
    requires forall n | n in names :: n in m
  {
    if names == [] then [] else [Frame([names[0], ValueText(m[names[0]])])] + Entries(names[1..], m)
  }

  ghost function QualifierText(m: map<string, TypedValue>): string {
    SortedKeysProps(m.Keys);
    Frame(Entries(SortedKeys(m.Keys), m))
  }

  ghost function SemanticsText(s: Semantics): string {
    Frame([s.scope.organizationId, s.scope.sourceId, s.scope.snapshotId, RelationText(s.relation),
           ParticipantText(s.subject), Optional(ParticipantText, s.obj), Optional(ValueText, s.value),
           QualifierText(s.qualifiers), s.producer.id, s.producer.version, s.producer.methodName])
  }

  function RefText(e: EvidenceRef): string {
    Frame([e.id, e.locator])
  }

  function Texts<T>(text: T -> string, s: seq<T>): seq<string> {
    seq(|s|, i requires 0 <= i < |s| => text(s[i]))
  }

  function LineageText(l: Lineage): string {
    Frame([l.ruleId, l.ruleVersion, Frame(l.inputs)])
  }

  ghost function FactText(f: Fact): string {
    Frame([f.id, SemanticsText(f.sem), Frame(Texts(RefText, f.evidence)), Optional(LineageText, f.lineage)])
  }

  function CharText(c: char): string {
    Decimal(c as int)
  }

  /** Digits and colons only. */
  function Clean(s: string): string {
    Frame(Texts(CharText, s))
  }

  function CodeText(c: LimitCode): string {
    match c
    case IterationLimit => "a"
    case FactLimit => "b"
    case FanoutLimit => "c"
  }

  ghost function FramedId(): Semantics -> string { (s: Semantics) => Clean(SemanticsText(s)) }

  ghost function FramedEncoding(): Fact -> string { (f: Fact) => FactText(f) }

  ghost function FramedCodec(): Codec {
    Codec(FramedId(), FramedEncoding(), (scope: Scope, code: LimitCode) => CodeText(code))
  }

  // ---------- every text determines its value ----------

  ghost predicate TellsApart<T(!new)>(text: T -> string) {
    forall a: T, b: T :: text(a) == text(b) ==> a == b
  }

  lemma ParticipantsApart()
    ensures TellsApart(ParticipantText)
  {
    hide Frame;
    forall a: Participant, b: Participant | ParticipantText(a) == ParticipantText(b)
      ensures a == b
    {
      var x, y := [KindText(a.kind), a.id], [KindText(b.kind), b.id];
      FramingIsInjective(x, y);
      assert x[0] == y[0] && x[1] == y[1];
    }
  }

  lemma ValuesApart()
    ensures TellsApart(ValueText)
  {
    hide Frame, Decimal;
    forall a: TypedValue, b: TypedValue | ValueText(a) == ValueText(b)
      ensures a == b
    {
      var x, y := ValueParts(a), ValueParts(b);
      FramingIsInjective(x, y);
      assert |x| == |y| && (|x| > 0 ==> x[0] == y[0]) && (|x| > 1 ==> x[1] == y[1]);
      if a.ValueInteger? && b.ValueInteger? {
        DecimalInjective(if a.integer >= 0 then a.integer else -a.integer,
            if b.integer >= 0 then b.integer else -b.integer);
      }
    }
  }

  lemma OptionsApart<T(!new)>(text: T -> string, a: Option<T>, b: Option<T>)
    requires TellsApart(text) && Optional(text, a) == Optional(text, b)
    ensures a == b
  {
    if a.Some? && b.Some? {
      assert Optional(text, a)[1..] == text(a.value) && Optional(text, b)[1..] == text(b.value);
    }
  }

  lemma TextsApart<T(!new)>(text: T -> string, a: seq<T>, b: seq<T>)
    requires TellsApart(text) && Texts(text, a) == Texts(text, b)
    ensures a == b
  {
    assert |a| == |Texts(text, a)| == |b|;
    forall i | 0 <= i < |a|
      ensures a[i] == b[i]
    {
      assert Texts(text, a)[i] == text(a[i]) && Texts(text, b)[i] == text(b[i]);
    }
  }

  lemma {:induction false} EntriesApart(p: seq<string>, a: map<string, TypedValue>, q: seq<string>,
      b: map<string, TypedValue>)
    requires (forall n | n in p :: n in a) && (forall n | n in q :: n in b) && Entries(p, a) == Entries(q, b)
    ensures p == q && forall n | n in p :: a[n] == b[n]
  {
    hide Frame, ValueText;
    var x, y := Entries(p, a), Entries(q, b);
    if p != [] && q != [] {
      var u, v := [p[0], ValueText(a[p[0]])], [q[0], ValueText(b[q[0]])];
      assert x[0] == Frame(u) && y[0] == Frame(v) && x[1..] == Entries(p[1..], a) && y[1..] == Entries(q[1..], b);
      FramingIsInjective(u, v);
      assert u[0] == v[0] && u[1] == v[1];
      ValuesApart();
      EntriesApart(p[1..], a, q[1..], b);
      assert p == [p[0]] + p[1..] && q == [q[0]] + q[1..];
    }
  }

  lemma QualifiersApart(a: map<string, TypedValue>, b: map<string, TypedValue>)
    requires QualifierText(a) == QualifierText(b)
    ensures a == b
  {
    hide Frame, SortedKeys, Entries;
    SortedKeysProps(a.Keys);
    SortedKeysProps(b.Keys);
    var p, q := SortedKeys(a.Keys), SortedKeys(b.Keys);
    FramingIsInjective(Entries(p, a), Entries(q, b));
    EntriesApart(p, a, q, b);
    assert forall n :: n in a <==> n in p;
    assert forall n :: n in b <==> n in q;
  }

  lemma SemanticsApart(a: Semantics, b: Semantics)
    requires SemanticsText(a) == SemanticsText(b)
    ensures a == b
  {
    hide Frame, QualifierText, ParticipantText, ValueText, Optional;
    var x := [a.scope.organizationId, a.scope.sourceId, a.scope.snapshotId, RelationText(a.relation),
              ParticipantText(a.subject), Optional(ParticipantText, a.obj), Optional(ValueText, a.value),
              QualifierText(a.qualifiers), a.producer.id, a.producer.version, a.producer.methodName];
    var y := [b.scope.organizationId, b.scope.sourceId, b.scope.snapshotId, RelationText(b.relation),
              ParticipantText(b.subject), Optional(ParticipantText, b.obj), Optional(ValueText, b.value),
              QualifierText(b.qualifiers), b.producer.id, b.producer.version, b.producer.methodName];
    FramingIsInjective(x, y);
    assert forall i | 0 <= i < 11 :: x[i] == y[i];
    assert x[0] == y[0] && x[1] == y[1] && x[2] == y[2] && x[3] == y[3] && x[4] == y[4];
    assert x[5] == y[5] && x[6] == y[6] && x[7] == y[7] && x[8] == y[8] && x[9] == y[9] && x[10] == y[10];
    ParticipantsApart();
    ValuesApart();
    OptionsApart(ParticipantText, a.obj, b.obj);
    OptionsApart(ValueText, a.value, b.value);
    QualifiersApart(a.qualifiers, b.qualifiers);
  }

  lemma RefsApart()
    ensures TellsApart(RefText)
  {
    hide Frame;
    forall a: EvidenceRef, b: EvidenceRef | RefText(a) == RefText(b)
      ensures a == b
    {
      var x, y := [a.id, a.locator], [b.id, b.locator];
      FramingIsInjective(x, y);
      assert x[0] == y[0] && x[1] == y[1];
    }
  }

  lemma LineagesApart()
    ensures TellsApart(LineageText)
  {
    hide Frame;
    forall a: Lineage, b: Lineage | LineageText(a) == LineageText(b)
      ensures a == b
    {
      var x, y := [a.ruleId, a.ruleVersion, Frame(a.inputs)], [b.ruleId, b.ruleVersion, Frame(b.inputs)];
      FramingIsInjective(x, y);
      assert x[0] == y[0] && x[1] == y[1] && x[2] == y[2];
      FramingIsInjective(a.inputs, b.inputs);
    }
  }

  lemma FactsApart(a: Fact, b: Fact)
    requires FactText(a) == FactText(b)
    ensures a == b
  {
    hide Frame, SemanticsText, RefText, LineageText, Texts, Optional;
    var x := [a.id, SemanticsText(a.sem), Frame(Texts(RefText, a.evidence)), Optional(LineageText, a.lineage)];
    var y := [b.id, SemanticsText(b.sem), Frame(Texts(RefText, b.evidence)), Optional(LineageText, b.lineage)];
    FramingIsInjective(x, y);
    assert x[0] == y[0] && x[1] == y[1] && x[2] == y[2] && x[3] == y[3];
    SemanticsApart(a.sem, b.sem);
    FramingIsInjective(Texts(RefText, a.evidence), Texts(RefText, b.evidence));
    RefsApart();
    LineagesApart();
    TextsApart(RefText, a.evidence, b.evidence);
    OptionsApart(LineageText, a.lineage, b.lineage);
  }

  lemma CharsApart()
    ensures TellsApart(CharText)
  {
    hide Decimal;
    forall a: char, b: char | CharText(a) == CharText(b)
      ensures a == b
    {
      DecimalInjective(a as int, b as int);
    }
  }

  lemma {:induction false} FrameIsClean(parts: seq<string>)
    requires forall i | 0 <= i < |parts| :: '\0' !in parts[i]
    ensures '\0' !in Frame(parts)
  {
    hide Decimal;
    if parts != [] {
      FrameIsClean(parts[1..]);
      DecimalIsNumber(|parts[0]|);
      assert '\0' !in Decimal(|parts[0]|);
      assert Frame(parts) == Decimal(|parts[0]|) + ":" + parts[0] + Frame(parts[1..]);
    }
  }

  lemma CleanProps(a: string, b: string)
    ensures '\0' !in Clean(a)
    ensures Clean(a) == Clean(b) ==> a == b
  {
    hide Frame, Decimal;
    var parts := Texts(CharText, a);
    forall i | 0 <= i < |parts|
      ensures '\0' !in parts[i]
    {
      DecimalIsNumber(a[i] as int);
    }
    FrameIsClean(parts);
    FramingIsInjective(parts, Texts(CharText, b));
    CharsApart();
    if Clean(a) == Clean(b) { TextsApart(CharText, a, b); }
  }

  /** The hypotheses on codecs can be met, all at once. */
  lemma FramedCodecMeetsAll()
    ensures InjectiveId(FramedCodec().factId) && CleanIds(FramedCodec().factId)
    ensures InjectiveEncoding(FramedCodec().encode)
    ensures forall scope :: DistinctGapIds(FramedCodec(), scope)
  {
    hide Clean, SemanticsText, FactText, CloneFact;
    forall a: Semantics, b: Semantics | FramedId()(a) == FramedId()(b)
      ensures a == b
    {
      CleanProps(SemanticsText(a), SemanticsText(b));
      SemanticsApart(a, b);
    }
    forall s: Semantics
      ensures '\0' !in FramedId()(s)
    {
      CleanProps(SemanticsText(s), "");
    }
    forall a: Fact, b: Fact | FramedEncoding()(a) == FramedEncoding()(b)
      ensures a == b
    {
      FactsApart(a, b);
    }
  }

  function Depends(scope: Scope, a: Participant, b: Participant): Observation {
    Observation(Semantics(scope, PredicateDependency, a, Some(b), None, map[], Producer("p", "1", "m")),
        [EvidenceRef("e", "l")])
  }

  /** Two dependencies in a row, which compose to a third, meet everything the theorems about the shipped
      rules ask of their inputs. */
  lemma ChainMeetsAll(scope: Scope, a: Participant, b: Participant, c: Participant, kinds: seq<Shipped>)
    requires a != b && b != c && Membership("") !in kinds
    ensures var inputs := Observe(FramedId(), [Depends(scope, a, b), Depends(scope, b, c)]);
            GoodInputs(FramedCodec(), kinds, inputs, UNLIMITED)
  {
    hide GoodInputs, InjectiveId, DistinctGapIds;
    var obs := [Depends(scope, a, b), Depends(scope, b, c)];
    FramedCodecMeetsAll();
    assert obs[0].sem != obs[1].sem;
    IsolatedIsGood(FramedCodec(), scope, kinds, obs, UNLIMITED);
  }
}
