/** The order on identities and the stable sort the rest of the model uses.

    Go compares strings byte by byte. On valid UTF-8 that is the order of the code points, so
    comparing characters from the left is the same order. `Sort` stands for `sort.SliceStable`
    and `sort.Strings`: a stable sort has only one possible output. */
module Ordering {

  predicate StrLe(a: string, b: string) {
    a == "" || (b != "" && (a[0] < b[0] || (a[0] == b[0] && StrLe(a[1..], b[1..]))))
  }

  predicate StrLt(a: string, b: string) {
    a != b && StrLe(a, b)
  }

  lemma {:induction false} StrLeTotal(a: string, b: string)
    ensures StrLe(a, b) || StrLe(b, a)
  {
    if a != "" && b != "" {
      StrLeTotal(a[1..], b[1..]);
    }
  }

  lemma {:induction false} StrLeAntisymmetric(a: string, b: string)
    requires StrLe(a, b) && StrLe(b, a)
    ensures a == b
  {
    if a != "" && b != "" {
      StrLeAntisymmetric(a[1..], b[1..]);
      assert a == [a[0]] + a[1..] && b == [b[0]] + b[1..];
    }
  }

  lemma {:induction false} StrLeTransitive(a: string, b: string, c: string)
    requires StrLe(a, b) && StrLe(b, c)
    ensures StrLe(a, c)
  {
    if a != "" && a[0] == b[0] && b[0] == c[0] {
      StrLeTransitive(a[1..], b[1..], c[1..]);
    }
  }

  lemma {:induction false} StrLePrefix(p: string, a: string, b: string)
    ensures StrLe(p + a, p + b) <==> StrLe(a, b)
  {
    if p == "" {
      assert p + a == a && p + b == b;
    } else {
      StrLePrefix(p[1..], a, b);
      assert (p + a)[1..] == p[1..] + a && (p + b)[1..] == p[1..] + b;
    }
  }

  // ---------- stable sorting ----------

  function Insert<T>(le: (T, T) -> bool, x: T, s: seq<T>): seq<T> {
    if s == [] then [x]
    else if le(x, s[0]) then [x] + s
    else [s[0]] + Insert(le, x, s[1..])
  }

  function Sort<T>(le: (T, T) -> bool, s: seq<T>): seq<T> {
    if s == [] then [] else Insert(le, s[0], Sort(le, s[1..]))
  }

  /** The comparison `key(x) < key(y)` of the source, as a `le`. */
  function ByKey<T>(key: T -> string): (T, T) -> bool {
    (x: T, y: T) => StrLe(key(x), key(y))
  }

  function Identity(x: string): string { x }

  function SortStrings(s: seq<string>): seq<string> {
    Sort(ByKey(Identity), s)
  }

  ghost predicate Preorder<T(!new)>(le: (T, T) -> bool) {
    && (forall x: T, y: T :: le(x, y) || le(y, x))
    && (forall x: T, y: T, z: T :: le(x, y) && le(y, z) ==> le(x, z))
  }

  ghost predicate AntisymmetricOn<T>(le: (T, T) -> bool, s: seq<T>) {
    forall i, j | 0 <= i < |s| && 0 <= j < |s| :: le(s[i], s[j]) && le(s[j], s[i]) ==> s[i] == s[j]
  }

  ghost predicate Sorted<T>(le: (T, T) -> bool, s: seq<T>) {
    forall i, j | 0 <= i < j < |s| :: le(s[i], s[j])
  }

  lemma ByKeyPreorder<T(!new)>(key: T -> string)
    ensures Preorder(ByKey(key))
  {
    var le := ByKey(key);
    forall x: T, y: T
      ensures le(x, y) || le(y, x)
    {
      StrLeTotal(key(x), key(y));
    }
    forall x: T, y: T, z: T | le(x, y) && le(y, z)
      ensures le(x, z)
    {
      StrLeTransitive(key(x), key(y), key(z));
    }
  }

  lemma {:induction false} InsertMultiset<T>(le: (T, T) -> bool, x: T, s: seq<T>)
    ensures multiset(Insert(le, x, s)) == multiset{x} + multiset(s)
  {
    if s != [] {
      assert s == [s[0]] + s[1..];
      if !le(x, s[0]) {
        InsertMultiset(le, x, s[1..]);
      }
    }
  }

  lemma {:induction false} SortMultiset<T>(le: (T, T) -> bool, s: seq<T>)
    ensures multiset(Sort(le, s)) == multiset(s)
    ensures |Sort(le, s)| == |s|
  {
    if s != [] {
      assert s == [s[0]] + s[1..];
      SortMultiset(le, s[1..]);
      InsertMultiset(le, s[0], Sort(le, s[1..]));
    }
    assert |multiset(Sort(le, s))| == |Sort(le, s)| && |multiset(s)| == |s|;
  }

  lemma SortMembers<T>(le: (T, T) -> bool, s: seq<T>)
    ensures |Sort(le, s)| == |s|
    ensures forall x :: x in Sort(le, s) <==> x in s
  {
    SortMultiset(le, s);
    forall x
      ensures x in Sort(le, s) <==> x in s
    {
      assert x in Sort(le, s) <==> x in multiset(Sort(le, s));
      assert x in s <==> x in multiset(s);
    }
  }

  lemma {:induction false} InsertSorted<T(!new)>(le: (T, T) -> bool, x: T, s: seq<T>)
    requires Preorder(le) && Sorted(le, s)
    ensures Sorted(le, Insert(le, x, s))
  {
    if s != [] && !le(x, s[0]) {
      InsertSorted(le, x, s[1..]);
      InsertMultiset(le, x, s[1..]);
      var rest := Insert(le, x, s[1..]);
      forall j | 0 <= j < |rest|
        ensures le(s[0], rest[j])
      {
        assert rest[j] in multiset(rest);
        assert rest[j] == x || rest[j] in s[1..];
      }
    }
  }

  lemma {:induction false} SortSorted<T(!new)>(le: (T, T) -> bool, s: seq<T>)
    requires Preorder(le)
    ensures Sorted(le, Sort(le, s))
  {
    if s != [] {
      SortSorted(le, s[1..]);
      InsertSorted(le, s[0], Sort(le, s[1..]));
    }
  }

  lemma SortedSameHead<T>(le: (T, T) -> bool, a: seq<T>, b: seq<T>)
    requires Sorted(le, a) && Sorted(le, b) && AntisymmetricOn(le, a)
    requires multiset(a) == multiset(b) && a != [] && b != []
    ensures a[0] == b[0]
  {
    assert b[0] in multiset(a) && a[0] in multiset(b);
    var i :| 0 <= i < |a| && a[i] == b[0];
    var j :| 0 <= j < |b| && b[j] == a[0];
    if i != 0 && j != 0 {
      assert le(a[0], a[i]) && le(b[0], b[j]);
    }
  }

  lemma MultisetTail<T>(s: seq<T>)
    requires s != []
    ensures multiset(s[1..]) == multiset(s) - multiset{s[0]}
  {
    assert s == [s[0]] + s[1..];
  }

  lemma TailStaysSorted<T>(le: (T, T) -> bool, s: seq<T>)
    requires Sorted(le, s) && s != []
    ensures Sorted(le, s[1..]) && (AntisymmetricOn(le, s) ==> AntisymmetricOn(le, s[1..]))
  {
  }

  /** Two sorted listings of the same elements are the same listing. */
  lemma {:induction false} SortedUnique<T>(le: (T, T) -> bool, a: seq<T>, b: seq<T>)
    requires Sorted(le, a) && Sorted(le, b) && AntisymmetricOn(le, a)
    requires multiset(a) == multiset(b)
    ensures a == b
  {
    hide Sorted, AntisymmetricOn;
    assert |a| == |multiset(a)| == |multiset(b)| == |b|;
    if a != [] {
      SortedSameHead(le, a, b);
      MultisetTail(a);
      MultisetTail(b);
      TailStaysSorted(le, a);
      TailStaysSorted(le, b);
      SortedUnique(le, a[1..], b[1..]);
      assert a == [a[0]] + a[1..] && b == [b[0]] + b[1..];
    }
  }

  /** Sorting forgets the order of its input, when equal keys mean equal elements. */
  lemma SortPermutation<T(!new)>(le: (T, T) -> bool, a: seq<T>, b: seq<T>)
    requires Preorder(le) && AntisymmetricOn(le, a) && multiset(a) == multiset(b)
    ensures Sort(le, a) == Sort(le, b)
  {
    SortMultiset(le, a);
    SortMultiset(le, b);
    SortSorted(le, a);
    SortSorted(le, b);
    var sa := Sort(le, a);
    forall i, j | 0 <= i < |sa| && 0 <= j < |sa| && le(sa[i], sa[j]) && le(sa[j], sa[i])
      ensures sa[i] == sa[j]
    {
      assert sa[i] in multiset(a) && sa[j] in multiset(a);
      var k :| 0 <= k < |a| && a[k] == sa[i];
      var l :| 0 <= l < |a| && a[l] == sa[j];
    }
    SortedUnique(le, sa, Sort(le, b));
  }

  lemma {:induction false} SortOfSorted<T>(le: (T, T) -> bool, s: seq<T>)
    requires Sorted(le, s)
    ensures Sort(le, s) == s
  {
    if s != [] {
      SortOfSorted(le, s[1..]);
      assert s == [s[0]] + s[1..];
      assert |s| > 1 ==> le(s[0], s[1]);
    }
  }

  ghost predicate DistinctKeys<T>(key: T -> string, s: seq<T>) {
    forall i, j | 0 <= i < |s| && 0 <= j < |s| && i != j :: key(s[i]) != key(s[j])
  }

  lemma DistinctAppend<T>(key: T -> string, s: seq<T>, x: T)
    requires DistinctKeys(key, s) && forall y | y in s :: key(y) != key(x)
    ensures DistinctKeys(key, s + [x])
  {
    var t := s + [x];
    forall i, j | 0 <= i < |t| && 0 <= j < |t| && i != j
      ensures key(t[i]) != key(t[j])
    {
      assert i < |s| ==> t[i] in s;
      assert j < |s| ==> t[j] in s;
    }
  }

  ghost predicate StrictlyIncreasing<T>(key: T -> string, s: seq<T>) {
    forall i, j | 0 <= i < j < |s| :: StrLt(key(s[i]), key(s[j]))
  }

  lemma DistinctKeysAfterSort<T>(key: T -> string, le: (T, T) -> bool, s: seq<T>)
    requires DistinctKeys(key, s)
    ensures DistinctKeys(key, Sort(le, s))
  {
    var r := Sort(le, s);
    SortMultiset(le, s);
    forall i, j | 0 <= i < |r| && 0 <= j < |r| && i != j
      ensures key(r[i]) != key(r[j])
    {
      if key(r[i]) == key(r[j]) {
        assert r[i] in multiset(s) && r[j] in multiset(s);
        var k :| 0 <= k < |s| && s[k] == r[i];
        var l :| 0 <= l < |s| && s[l] == r[j];
        assert k == l;
        if i < j { TwoOccurrences(r, i, j); } else { TwoOccurrences(r, j, i); }
        OneOccurrence(s, k);
      }
    }
  }

  /** With distinct keys a key-sorted list is strictly increasing. */
  lemma SortByKeyStrict<T(!new)>(key: T -> string, s: seq<T>)
    requires DistinctKeys(key, s)
    ensures StrictlyIncreasing(key, Sort(ByKey(key), s))
  {
    var le := ByKey(key);
    ByKeyPreorder(key);
    SortSorted(le, s);
    var r := Sort(le, s);
    DistinctKeysAfterSort(key, le, s);
    forall i, j | 0 <= i < j < |r|
      ensures StrLt(key(r[i]), key(r[j]))
    {
      assert le(r[i], r[j]);
    }
  }

  lemma TwoOccurrences<T>(r: seq<T>, i: nat, j: nat)
    requires i < j < |r| && r[i] == r[j]
    ensures multiset(r)[r[i]] >= 2
  {
    assert r == r[..i] + [r[i]] + r[i + 1..j] + [r[j]] + r[j + 1..];
  }

  lemma OneOccurrence<T>(s: seq<T>, k: nat)
    requires k < |s| && forall i | 0 <= i < |s| && i != k :: s[i] != s[k]
    ensures multiset(s)[s[k]] == 1
  {
    assert s == s[..k] + [s[k]] + s[k + 1..];
    assert s[k] !in s[..k] && s[k] !in s[k + 1..];
  }

  lemma StrictMultiset<T>(key: T -> string, a: seq<T>)
    requires StrictlyIncreasing(key, a)
    ensures forall e | e in a :: multiset(a)[e] == 1
  {
    forall e | e in a
      ensures multiset(a)[e] == 1
    {
      var k :| 0 <= k < |a| && a[k] == e;
      forall i | 0 <= i < |a| && i != k
        ensures a[i] != a[k]
      {
        if i < k { assert StrLt(key(a[i]), key(a[k])); }
        else { assert StrLt(key(a[k]), key(a[i])); }
      }
      OneOccurrence(a, k);
    }
  }

  lemma StrictIsDistinct<T>(key: T -> string, a: seq<T>)
    requires StrictlyIncreasing(key, a)
    ensures DistinctKeys(key, a) && Sorted(ByKey(key), a) && AntisymmetricOn(ByKey(key), a)
  {
    var le := ByKey(key);
    forall i, j | 0 <= i < |a| && 0 <= j < |a| && le(a[i], a[j]) && le(a[j], a[i])
      ensures a[i] == a[j]
    {
      StrLeAntisymmetric(key(a[i]), key(a[j]));
    }
  }

  /** A strictly increasing list is determined by its members. */
  lemma StrictListUnique<T>(key: T -> string, a: seq<T>, b: seq<T>)
    requires StrictlyIncreasing(key, a) && StrictlyIncreasing(key, b)
    requires forall e :: e in a <==> e in b
    ensures a == b
  {
    StrictMultiset(key, a);
    StrictMultiset(key, b);
    assert multiset(a) == multiset(b) by {
      forall e
        ensures multiset(a)[e] == multiset(b)[e]
      {
        assert e in multiset(a) <==> e in a;
        assert e in multiset(b) <==> e in b;
      }
    }
    StrictIsDistinct(key, a);
    StrictIsDistinct(key, b);
    SortedUnique(ByKey(key), a, b);
  }
}
