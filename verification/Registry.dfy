/** The rule registry (internal/derivation/registry.go): rules by exact identity, always in order. */
module Registry {
  import opened Ordering
  import opened Facts
  import opened Engine
  import opened OrderIndependence
  import AnalyzerOutput

  datatype RegistryError = InvalidRule | DuplicateRule

  datatype Registration = Registration(version: RuleVersion, rule: Option<seq<Fact> -> RuleOutput>)

  /** `unicode.IsControl`. */
  predicate IsControl(c: char) {
    c as int < 0x20 || 0x7F <= c as int <= 0x9F
  }

  /** `validIdentifier`: something, without blanks and control characters. */
  predicate ValidIdentifier(s: string) {
    s != "" && forall c | c in s :: !AnalyzerOutput.IsSpace(c) && !IsControl(c)
  }

  predicate ValidRegistration(r: Registration) {
    ValidIdentifier(r.version.ruleId) && ValidIdentifier(r.version.version) && r.rule.Some?
  }

  /** `RuleVersion.Identity`. */
  function VersionKey(v: RuleVersion): string {
    v.ruleId + "\0" + v.version
  }

  function RuleKey(r: RegisteredRule): string { VersionKey(r.version) }

  function Entry(r: Registration): RegisteredRule
    requires r.rule.Some?
  {
    RegisteredRule(r.version, r.rule.value)
  }

  /** Valid rule versions have different keys: no part can reach across the separator. */
  lemma KeyIdentifiesVersion(a: RuleVersion, b: RuleVersion)
    requires ValidIdentifier(a.ruleId) && ValidIdentifier(b.ruleId) && VersionKey(a) == VersionKey(b)
    ensures a == b
  {
    assert IsControl('\0');
    SplitAtNul(a.ruleId, b.ruleId, a.version, b.version);
  }

  /** Without that check a separator inside a part always makes another version with the same key. */
  lemma NulWouldCollide(x: string, y: string, z: string)
    ensures VersionKey(RuleVersion(x, y + "\0" + z)) == VersionKey(RuleVersion(x + "\0" + y, z))
    ensures RuleVersion(x, y + "\0" + z) != RuleVersion(x + "\0" + y, z)
  {
    assert x + "\0" + (y + "\0" + z) == x + "\0" + y + "\0" + z;
    assert |x| != |x + "\0" + y|;
  }

  class RuleRegistry {
    var rules: seq<RegisteredRule>

    ghost predicate Valid()
      reads this
    {
      && StrictlyIncreasing(RuleKey, rules)
      && forall r | r in rules :: ValidIdentifier(r.version.ruleId) && ValidIdentifier(r.version.version)
    }

    constructor ()
      ensures Valid() && rules == []
    {
      rules := [];
    }

    /** `Register`: refuse malformed and repeated identities, then append and sort. */
    method Register(registration: Registration) returns (error: Option<RegistryError>)
      requires Valid()
      modifies this
      ensures Valid()
      ensures error == Some(InvalidRule) <==> !ValidRegistration(registration)
      ensures error == Some(DuplicateRule) <==>
                ValidRegistration(registration) && exists r | r in old(rules) :: r.version == registration.version
      ensures error.Some? ==> rules == old(rules)
      ensures error.None? ==> multiset(rules) == multiset(old(rules)) + multiset{Entry(registration)}
    {
      hide ValidIdentifier, VersionKey, Sort;
      if !ValidRegistration(registration) {
        return Some(InvalidRule);
      }
      var entry := RegisteredRule(registration.version, registration.rule.value);
      var i := 0;
      while i < |rules|
        invariant 0 <= i <= |rules|
        invariant forall k | 0 <= k < i :: RuleKey(rules[k]) != RuleKey(entry)
      {
        if RuleKey(rules[i]) == RuleKey(entry) {
          assert rules[i] in rules;
          KeyIdentifiesVersion(rules[i].version, entry.version);
          return Some(DuplicateRule);
        }
        i := i + 1;
      }
      InsertedInOrder(rules, entry);
      rules := rules + [entry];
      rules := Sort(ByKey(RuleKey), rules);
      error := None;
    }
  }

  lemma MultisetAppend<T>(s: seq<T>, x: T)
    ensures multiset(s + [x]) == multiset(s) + multiset{x}
    ensures forall y :: y in s + [x] <==> y in s || y == x
  {
  }

  lemma InsertedInOrder(rules: seq<RegisteredRule>, entry: RegisteredRule)
    requires StrictlyIncreasing(RuleKey, rules) && forall k | 0 <= k < |rules| :: RuleKey(rules[k]) != RuleKey(entry)
    ensures var after := Sort(ByKey(RuleKey), rules + [entry]);
            && StrictlyIncreasing(RuleKey, after)
            && multiset(after) == multiset(rules) + multiset{entry}
            && (forall r :: r in after <==> r in rules || r == entry)
    ensures forall r | r in rules :: r.version != entry.version
  {
    hide Sort, VersionKey;
    MultisetAppend(rules, entry);
    forall r | r in rules
      ensures RuleKey(r) != RuleKey(entry)
    {
      var k :| 0 <= k < |rules| && rules[k] == r;
    }
    StrictIsDistinct(RuleKey, rules);
    DistinctAppend(RuleKey, rules, entry);
    SortByKeyStrict(RuleKey, rules + [entry]);
    SortMultiset(ByKey(RuleKey), rules + [entry]);
    SortMembers(ByKey(RuleKey), rules + [entry]);
  }

  // ---------- a registry made of a list of registrations ----------

  ghost predicate AllRules(registrations: seq<Registration>) {
    forall r | r in registrations :: r.rule.Some?
  }

  /** All registrations are well-formed and no version occurs twice. */
  ghost predicate Registrable(registrations: seq<Registration>) {
    && (forall r | r in registrations :: ValidRegistration(r))
    && forall i, j | 0 <= i < j < |registrations| :: registrations[i].version != registrations[j].version
  }

  ghost function Entries(registrations: seq<Registration>): seq<RegisteredRule>
    requires AllRules(registrations)
  {
    seq(|registrations|, i requires 0 <= i < |registrations| =>
      assert registrations[i] in registrations; Entry(registrations[i]))
  }

  ghost predicate Holds(registrations: seq<Registration>, rules: seq<RegisteredRule>)
    requires AllRules(registrations)
  {
    StrictlyIncreasing(RuleKey, rules) && multiset(rules) == multiset(Entries(registrations))
  }

  lemma EntriesConcat(s: seq<Registration>, t: seq<Registration>)
    requires AllRules(s) && AllRules(t)
    ensures AllRules(s + t) && Entries(s + t) == Entries(s) + Entries(t)
  {
  }

  lemma EntriesOfOne(r: Registration)
    requires r.rule.Some?
    ensures AllRules([r]) && Entries([r]) == [Entry(r)]
  {
  }

  lemma VersionsHeld(s: seq<Registration>, rules: seq<RegisteredRule>, v: RuleVersion)
    requires AllRules(s) && multiset(rules) == multiset(Entries(s))
    ensures (exists r | r in rules :: r.version == v) <==> exists x | x in s :: x.version == v
  {
    if r :| r in rules && r.version == v {
      assert r in multiset(Entries(s));
      var i :| 0 <= i < |s| && Entries(s)[i] == r;
      assert s[i] in s;
    }
    if x :| x in s && x.version == v {
      var i :| 0 <= i < |s| && s[i] == x;
      assert Entries(s)[i] in multiset(rules);
    }
  }

  lemma NoEntries()
    ensures Entries([]) == []
  {
  }

  /** `NewRegistry`: all registrations in the order given, or none. */
  method NewRegistry(registrations: seq<Registration>) returns (registry: Option<RuleRegistry>)
    ensures registry.Some? <==> Registrable(registrations)
    ensures registry.Some? ==> fresh(registry.value) && registry.value.Valid()
    ensures registry.Some? ==> Holds(registrations, registry.value.rules)
  {
    hide ValidIdentifier, Entries, StrictlyIncreasing, VersionKey;
    var made := new RuleRegistry();
    var i := 0;
    NoEntries();
    while i < |registrations|
      invariant 0 <= i <= |registrations| && fresh(made) && made.Valid() && Registrable(registrations[..i])
      invariant AllRules(registrations[..i]) && Holds(registrations[..i], made.rules)
    {
      ghost var done := registrations[..i];
      VersionsHeld(done, made.rules, registrations[i].version);
      var error := made.Register(registrations[i]);
      if error.Some? {
        assert error.value.InvalidRule? || error.value.DuplicateRule?;
        RefusedMeansNot(registrations, i);
        return None;
      }
      OneMore(registrations, i);
      i := i + 1;
    }
    assert registrations[..i] == registrations;
    registry := Some(made);
  }

  lemma RefusedMeansNot(s: seq<Registration>, i: nat)
    requires i < |s| && (!ValidRegistration(s[i]) || exists x | x in s[..i] :: x.version == s[i].version)
    ensures !Registrable(s)
  {
    assert s[i] in s;
  }

  lemma OneMore(s: seq<Registration>, i: nat)
    requires i < |s| && Registrable(s[..i]) && ValidRegistration(s[i])
    requires !exists x | x in s[..i] :: x.version == s[i].version
    ensures Registrable(s[..i + 1]) && Entries(s[..i + 1]) == Entries(s[..i]) + [Entry(s[i])]
  {
    assert s[..i + 1] == s[..i] + [s[i]];
    assert forall j | 0 <= j < i :: s[j] in s[..i];
    EntriesOfOne(s[i]);
    EntriesConcat(s[..i], [s[i]]);
  }

  /** Execution order does not remember registration order: permuted lists of registrations are all
      refused, or all give the same rules in the same sequence. */
  lemma RegistrationOrderIrrelevant(a: seq<Registration>, b: seq<Registration>)
    requires multiset(a) == multiset(b)
    ensures Registrable(a) <==> Registrable(b)
    ensures Registrable(a) ==> forall x, y | Holds(a, x) && Holds(b, y) :: x == y
  {
    hide ValidIdentifier, Entries, StrictlyIncreasing;
    if Registrable(a) { SameRegistrations(a, b); }
    if Registrable(b) { SameRegistrations(b, a); }
    if Registrable(a) {
      EntriesPermuted(a, b);
      forall x, y | Holds(a, x) && Holds(b, y)
        ensures x == y
      {
        StrictIsDistinct(RuleKey, x);
        StrictIsDistinct(RuleKey, y);
        SortedUnique(ByKey(RuleKey), x, y);
      }
    }
  }

  lemma SameRegistrations(a: seq<Registration>, b: seq<Registration>)
    requires multiset(a) == multiset(b) && Registrable(a)
    ensures Registrable(b)
  {
    forall r | r in b
      ensures r in a
    {
      assert r in multiset(a);
    }
    forall i, j | 0 <= i < j < |b| && b[i].version == b[j].version
      ensures false
    {
      assert b[i] in b && b[j] in b;
      var k :| 0 <= k < |a| && a[k] == b[i];
      var l :| 0 <= l < |a| && a[l] == b[j];
      OnceAtMost(a, k);
      if k == l { CountedTwice(b, i, j); }
    }
  }

  lemma CountedTwice<T>(s: seq<T>, i: nat, j: nat)
    requires i < j < |s| && s[i] == s[j]
    ensures multiset(s)[s[i]] >= 2
  {
    assert s == s[..i] + [s[i]] + s[i + 1..j] + [s[j]] + s[j + 1..];
  }

  lemma OnceAtMost(a: seq<Registration>, k: nat)
    requires k < |a| && forall i, j | 0 <= i < j < |a| :: a[i].version != a[j].version
    ensures multiset(a)[a[k]] == 1
  {
    assert a == a[..k] + [a[k]] + a[k + 1..];
    assert a[k] !in a[..k] && a[k] !in a[k + 1..];
  }

  lemma EntriesAround(s: seq<Registration>, k: nat)
    requires AllRules(s) && k < |s|
    ensures AllRules(s[..k] + s[k + 1..])
    ensures multiset(s[..k] + s[k + 1..]) == multiset(s) - multiset{s[k]}
    ensures multiset(Entries(s)) == multiset(Entries(s[..k] + s[k + 1..])) + multiset{Entry(s[k])}
  {
    hide Entries;
    var p, q := s[..k], s[k + 1..];
    assert s == p + [s[k]] + q;
    MiddleOut(p, s[k], q);
    EntriesOfOne(s[k]);
    EntriesConcat(p, q);
    EntriesConcat(p, [s[k]]);
    EntriesConcat(p + [s[k]], q);
    MiddleOut(Entries(p), Entry(s[k]), Entries(q));
  }

  lemma {:induction false} EntriesPermuted(a: seq<Registration>, b: seq<Registration>)
    requires multiset(a) == multiset(b) && AllRules(a) && AllRules(b)
    ensures multiset(Entries(a)) == multiset(Entries(b))
  {
    hide Entries, AllRules;
    SameMembers(a, b);
    if a == [] {
      assert b == [];
    } else {
      assert a[0] in b;
      var k :| 0 <= k < |b| && b[k] == a[0];
      EntriesAround(a, 0);
      EntriesAround(b, k);
      EntriesPermuted(a[..0] + a[1..], b[..k] + b[k + 1..]);
    }
  }
}
