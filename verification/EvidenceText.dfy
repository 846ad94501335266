/** Cutting text to a number of bytes and characters without breaking UTF-8 (internal/analysis/evidence.go:588-630).
    Well-formedness is that of section 4 of RFC 3629. */
module EvidenceText {

  type byte = x: int | 0 <= x < 256

  predicate In(b: byte, low: int, high: int) {
    low <= b <= high
  }

  /** The length of the well-formed sequence at the start, or 0. */
  function CharLen(s: seq<byte>): (n: nat)
    ensures n <= |s| && n <= 4
  {
    if |s| >= 1 && In(s[0], 0x00, 0x7F) then 1
    else if |s| >= 2 && In(s[0], 0xC2, 0xDF) && In(s[1], 0x80, 0xBF) then 2
    else if |s| >= 3 && ThreeBytes(s[0], s[1]) && In(s[2], 0x80, 0xBF) then 3
    else if |s| >= 4 && FourBytes(s[0], s[1]) && In(s[2], 0x80, 0xBF) && In(s[3], 0x80, 0xBF) then 4
    else 0
  }

  predicate ThreeBytes(a: byte, b: byte) {
    || (a == 0xE0 && In(b, 0xA0, 0xBF)) || (In(a, 0xE1, 0xEC) && In(b, 0x80, 0xBF))
    || (a == 0xED && In(b, 0x80, 0x9F)) || (In(a, 0xEE, 0xEF) && In(b, 0x80, 0xBF))
  }

  predicate FourBytes(a: byte, b: byte) {
    (a == 0xF0 && In(b, 0x90, 0xBF)) || (In(a, 0xF1, 0xF3) && In(b, 0x80, 0xBF)) || (a == 0xF4 && In(b, 0x80, 0x8F))
  }

  /** What a decoder steps over: a character, or one byte that starts none. */
  function Width(s: seq<byte>): (n: nat)
    requires s != []
    ensures 1 <= n <= |s|
  {
    if CharLen(s) > 0 then CharLen(s) else 1
  }

  /** `utf8.ValidString`. */
  predicate ValidUtf8(s: seq<byte>)
    decreases |s|
  {
    s == [] || (CharLen(s) > 0 && ValidUtf8(s[CharLen(s)..]))
  }

  /** `utf8.RuneCountInString`. */
  function RuneCount(s: seq<byte>): nat
    decreases |s|
  {
    if s == [] then 0 else 1 + RuneCount(s[Width(s)..])
  }

  /** The bytes of the first `n` runes. */
  function Offset(s: seq<byte>, n: nat): (k: nat)
    requires n <= RuneCount(s)
    ensures k <= |s|
    decreases n
  {
    if n == 0 then 0 else Width(s) + Offset(s[Width(s)..], n - 1)
  }

  // ---------- what well-formed means ----------

  /** The characters that UTF-8 can encode: all but the surrogates. */
  predicate Scalar(c: int) {
    0 <= c < 0xD800 || 0xE000 <= c <= 0x10FFFF
  }

  /** The encoding of section 3 of RFC 3629: six bits to each byte after the first. */
  function Encode(c: int): (s: seq<byte>)
    requires Scalar(c)
    ensures 1 <= |s| <= 4
  {
    if c < 0x80 then [c]
    else if c < 0x800 then [0xC0 + c / 64, 0x80 + c % 64]
    else if c < 0x10000 then [0xE0 + c / 4096, 0x80 + c / 64 % 64, 0x80 + c % 64]
    else [0xF0 + c / 262144, 0x80 + c / 4096 % 64, 0x80 + c / 64 % 64, 0x80 + c % 64]
  }

  ghost predicate AllScalar(cs: seq<int>) {
    forall i | 0 <= i < |cs| :: Scalar(cs[i])
  }

  function EncodeAll(cs: seq<int>): seq<byte>
    requires AllScalar(cs)
  {
    if cs == [] then [] else Encode(cs[0]) + EncodeAll(cs[1..])
  }

  lemma EncodedIsChar(c: int, rest: seq<byte>)
    requires Scalar(c)
    ensures CharLen(Encode(c) + rest) == |Encode(c)|
  {
    var s := Encode(c) + rest;
    assert forall i | 0 <= i < |Encode(c)| :: s[i] == Encode(c)[i];
  }

  lemma CharIsEncoded(s: seq<byte>) returns (c: int)
    requires CharLen(s) > 0
    ensures Scalar(c) && Encode(c) == s[..CharLen(s)]
  {
    var n := CharLen(s);
    if n == 1 {
      c := s[0];
    } else if n == 2 {
      c := (s[0] as int - 0xC0) * 64 + (s[1] as int - 0x80);
    } else if n == 3 {
      c := ThreeByteChar(s[0], s[1], s[2]);
    } else {
      c := FourByteChar(s[0], s[1], s[2], s[3]);
    }
  }

  lemma ThreeByteChar(a: byte, b: byte, d: byte) returns (c: int)
    requires ThreeBytes(a, b) && In(d, 0x80, 0xBF)
    ensures Scalar(c) && Encode(c) == [a, b, d]
  {
    c := (a - 0xE0) * 4096 + (b - 0x80) * 64 + (d - 0x80);
    assert c / 64 == (a - 0xE0) * 64 + (b - 0x80) && c % 64 == d - 0x80;
    assert c / 4096 == a - 0xE0 && c / 64 % 64 == b - 0x80;
  }

  lemma FourByteChar(a: byte, b: byte, d: byte, e: byte) returns (c: int)
    requires FourBytes(a, b) && In(d, 0x80, 0xBF) && In(e, 0x80, 0xBF)
    ensures Scalar(c) && Encode(c) == [a, b, d, e]
  {
    c := (a - 0xF0) * 262144 + (b - 0x80) * 4096 + (d - 0x80) * 64 + (e - 0x80);
    assert c / 64 == (a - 0xF0) * 4096 + (b - 0x80) * 64 + (d - 0x80) && c % 64 == e - 0x80;
    assert c / 4096 == (a - 0xF0) * 64 + (b - 0x80) && c / 64 % 64 == d - 0x80;
    assert c / 262144 == a - 0xF0 && c / 4096 % 64 == b - 0x80;
  }

  /** A text is well-formed exactly when it is the encoding of characters, and then it has as many. */
  lemma {:induction false} WellFormedExact(s: seq<byte>)
    ensures ValidUtf8(s) <==> exists cs: seq<int> :: AllScalar(cs) && EncodeAll(cs) == s
    ensures forall cs: seq<int> | AllScalar(cs) && EncodeAll(cs) == s :: RuneCount(s) == |cs|
    decreases |s|
  {
    hide CharLen, Encode, Scalar;
    if ValidUtf8(s) {
      var cs := Decoded(s);
    }
    forall cs: seq<int> | AllScalar(cs) && EncodeAll(cs) == s
      ensures ValidUtf8(s) && RuneCount(s) == |cs|
    {
      EncodingIsValid(cs);
    }
  }

  lemma {:induction false} EncodingIsValid(cs: seq<int>)
    requires AllScalar(cs)
    ensures ValidUtf8(EncodeAll(cs)) && RuneCount(EncodeAll(cs)) == |cs|
  {
    hide CharLen, Encode, Scalar;
    if cs != [] {
      var rest := EncodeAll(cs[1..]);
      EncodedIsChar(cs[0], rest);
      EncodingIsValid(cs[1..]);
      assert (Encode(cs[0]) + rest)[|Encode(cs[0])|..] == rest;
    }
  }

  lemma {:induction false} Decoded(s: seq<byte>) returns (cs: seq<int>)
    requires ValidUtf8(s)
    ensures AllScalar(cs) && EncodeAll(cs) == s
    decreases |s|
  {
    hide CharLen, Encode, Scalar;
    if s == [] {
      cs := [];
    } else {
      var c := CharIsEncoded(s);
      var rest := Decoded(s[CharLen(s)..]);
      cs := [c] + rest;
      assert cs[1..] == rest;
      assert s == s[..CharLen(s)] + s[CharLen(s)..];
    }
  }

  // ---------- prefixes ----------

  lemma CharOfPrefix(s: seq<byte>, k: nat)
    requires k <= |s| && CharLen(s[..k]) > 0
    ensures CharLen(s) == CharLen(s[..k])
  {
  }

  /** The characters of a well-formed prefix are the first ones of the whole: as many as fit. */
  lemma {:induction false} RunesOfPrefix(s: seq<byte>, k: nat, n: nat)
    requires k <= |s| && ValidUtf8(s[..k]) && n <= RuneCount(s)
    ensures RuneCount(s[..k]) <= n <==> k <= Offset(s, n)
    decreases |s|
  {
    if k == 0 {
    } else {
      var p := s[..k];
      CharOfPrefix(s, k);
      var w := Width(s);
      assert p[w..] == s[w..][..k - w];
      if n > 0 {
        RunesOfPrefix(s[w..], k - w, n - 1);
      }
    }
  }

  lemma {:induction false} PrefixHasFewer(s: seq<byte>, k: nat)
    requires k <= |s| && ValidUtf8(s[..k])
    ensures RuneCount(s[..k]) <= RuneCount(s)
    decreases |s|
  {
    if k > 0 {
      CharOfPrefix(s, k);
      var w := Width(s);
      assert s[..k][w..] == s[w..][..k - w];
      PrefixHasFewer(s[w..], k - w);
    }
  }

  /** A text that may be kept: well-formed and within the configured limits. */
  ghost predicate Keepable(content: seq<byte>, k: nat, maxBytes: int, maxCharacters: int)
    requires k <= |content|
  {
    && ValidUtf8(content[..k])
    && (maxBytes > 0 ==> k <= maxBytes)
    && (maxCharacters > 0 ==> RuneCount(content[..k]) <= maxCharacters)
  }

  /** `for index := range content` up to the rune after the last allowed one. */
  method RuneOffset(content: seq<byte>, maxCharacters: nat) returns (byteLimit: nat)
    requires 0 < maxCharacters < RuneCount(content)
    ensures byteLimit == Offset(content, maxCharacters) && 0 < byteLimit <= |content|
  {
    byteLimit := 0;
    var seen, index := 0, 0;
    NoRunes(content);
    while seen < maxCharacters
      invariant 0 <= seen <= maxCharacters && 0 <= index <= |content| && seen <= index
      invariant RuneCount(content) == seen + RuneCount(content[index..])
                && Offset(content, maxCharacters) == index + Offset(content[index..], maxCharacters - seen)
    {
      var rest := content[index..];
      assert rest[Width(rest)..] == content[index + Width(rest)..];
      index := index + Width(rest);
      seen := seen + 1;
    }
    byteLimit := index;
  }

  lemma NoRunes(content: seq<byte>)
    ensures content[0..] == content
  {
  }

  /** `truncateEvidenceText`: the longest well-formed prefix within both limits, and whether anything was cut. */
  method TruncateEvidenceText(content: seq<byte>, maxBytes: int, maxCharacters: int)
    returns (text: seq<byte>, truncated: bool)
    ensures text <= content && Keepable(content, |text|, maxBytes, maxCharacters)
    ensures forall k: nat | k <= |content| && Keepable(content, k, maxBytes, maxCharacters) :: k <= |text|
    ensures truncated <==> text != content
  {
    hide RuneCount, Offset, ValidUtf8;
    if content == [] {
      Empty();
      return content, false;
    }
    var limit := |content|;
    if maxBytes > 0 && limit > maxBytes { limit := maxBytes; }
    if maxCharacters > 0 {
      var characters := RuneCount(content);
      if characters > maxCharacters {
        var byteLimit := RuneOffset(content, maxCharacters);
        if byteLimit < limit { limit := byteLimit; }
      }
    }
    LimitExact(content, limit, maxBytes, maxCharacters);
    while limit > 0 && !ValidUtf8(content[..limit])
      invariant 0 <= limit <= |content|
      invariant forall k: nat | k <= |content| && Keepable(content, k, maxBytes, maxCharacters) :: k <= limit
      invariant forall k: nat | k <= limit && ValidUtf8(content[..k]) :: Keepable(content, k, maxBytes, maxCharacters)
    {
      limit := limit - 1;
    }
    Empty();
    assert content[..0] == [];
    assert Keepable(content, limit, maxBytes, maxCharacters);
    text := content[..limit];
    truncated := limit != |content|;
    assert limit == |content| ==> text == content;
  }

  lemma Empty()
    ensures ValidUtf8([]) && RuneCount([]) == 0
  {
  }

  /** The limit from which the search goes down. */
  ghost function Limit(content: seq<byte>, maxBytes: int, maxCharacters: int): nat {
    var bytes := if maxBytes > 0 && |content| > maxBytes then maxBytes else |content|;
    if maxCharacters > 0 && RuneCount(content) > maxCharacters && Offset(content, maxCharacters) < bytes
    then Offset(content, maxCharacters)
    else bytes
  }

  /** Below it exactly the well-formed prefixes may be kept. */
  lemma LimitExact(content: seq<byte>, limit: nat, maxBytes: int, maxCharacters: int)
    requires limit == Limit(content, maxBytes, maxCharacters)
    ensures forall k: nat | k <= |content| && Keepable(content, k, maxBytes, maxCharacters) :: k <= limit
    ensures forall k: nat | k <= limit && ValidUtf8(content[..k]) :: Keepable(content, k, maxBytes, maxCharacters)
  {
    hide RuneCount, Offset, ValidUtf8;
    forall k: nat | k <= |content| && ValidUtf8(content[..k])
      ensures Keepable(content, k, maxBytes, maxCharacters) <==> k <= limit
    {
      if maxCharacters > 0 {
        if RuneCount(content) > maxCharacters {
          RunesOfPrefix(content, k, maxCharacters);
        } else {
          PrefixHasFewer(content, k);
        }
      }
    }
  }

  /** `exceedsEvidenceLimits`. */
  function ExceedsLimits(content: seq<byte>, maxBytes: int, maxCharacters: int): bool {
    (maxBytes > 0 && |content| > maxBytes) || (maxCharacters > 0 && RuneCount(content) > maxCharacters)
  }

  /** A well-formed text is cut exactly when it exceeds a limit. */
  lemma CutOnlyIfExceeding(content: seq<byte>, maxBytes: int, maxCharacters: int)
    requires ValidUtf8(content)
    ensures Keepable(content, |content|, maxBytes, maxCharacters) <==> !ExceedsLimits(content, maxBytes, maxCharacters)
  {
    assert content[..|content|] == content;
  }
}
