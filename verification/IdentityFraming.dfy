/** The bytes an identity is the digest of: every part behind its length (internal/contract/identity.go:314-323). */
module IdentityFraming {
  import opened Facts
  import opened AnalyzerOutput

  /** One part behind its length. */
  function Framed(part: string): string {
    Decimal(|part|) + ":" + part
  }

  /** What `digestID` writes into the hash. */
  function Frame(parts: seq<string>): string {
    if parts == [] then "" else Framed(parts[0]) + Frame(parts[1..])
  }

  /** The same bytes, written part by part. */
  method WriteFramed(parts: seq<string>) returns (written: string)
    ensures written == Frame(parts)
  {
    hide Frame, Decimal;
    written := "";
    NothingFramed();
    var i := 0;
    while i < |parts|
      invariant 0 <= i <= |parts| && written == Frame(parts[..i])
    {
      FrameMore(parts[..i], parts[i]);
      assert parts[..i + 1] == parts[..i] + [parts[i]];
      ghost var before := written;
      written := written + (Decimal(|parts[i]|) + ":");
      written := written + parts[i];
      assert written == before + Framed(parts[i]);
      i := i + 1;
    }
    assert parts[..i] == parts;
  }

  lemma NothingFramed()
    ensures Frame([]) == ""
  {
  }

  lemma {:induction false} FrameMore(parts: seq<string>, last: string)
    ensures Frame(parts + [last]) == Frame(parts) + Framed(last)
  {
    hide Framed;
    if parts == [] {
      assert ([] + [last])[1..] == [];
    } else {
      FrameMore(parts[1..], last);
      assert (parts + [last])[1..] == parts[1..] + [last];
    }
  }

  predicate IsDigit(c: char) {
    '0' <= c <= '9'
  }

  predicate AllDigits(s: string) {
    forall i | 0 <= i < |s| :: IsDigit(s[i])
  }

  /** The number of digits in front. */
  function DigitsAhead(s: string): (n: nat)
    ensures n <= |s|
  {
    if s == "" || !IsDigit(s[0]) then 0 else 1 + DigitsAhead(s[1..])
  }

  function Number(s: string): nat
    requires AllDigits(s)
  {
    if s == "" then 0 else 10 * Number(s[..|s| - 1]) + (s[|s| - 1] as int - '0' as int)
  }

  /** The parts again, if the bytes are framed at all. */
  ghost function Unframe(s: string): Option<seq<string>>
    decreases |s|
  {
    if s == "" then Some([])
    else
      var n := DigitsAhead(s);
      if n == 0 || n == |s| || s[n] != ':' then None
      else
        DigitsAheadAreDigits(s);
        var length := Number(s[..n]);
        if n + 1 + length > |s| then None
        else match Unframe(s[n + 1 + length..])
          case None => None
          case Some(rest) => Some([s[n + 1..n + 1 + length]] + rest)
  }

  lemma {:induction false} DigitsAheadAreDigits(s: string)
    ensures AllDigits(s[..DigitsAhead(s)])
  {
    if s != "" && IsDigit(s[0]) {
      DigitsAheadAreDigits(s[1..]);
      var n := DigitsAhead(s[1..]);
      assert s[..n + 1] == [s[0]] + s[1..][..n];
    }
  }

  lemma {:induction false} DecimalIsNumber(n: nat)
    ensures AllDigits(Decimal(n)) && Number(Decimal(n)) == n
  {
    var s := Decimal(n);
    if n >= 10 {
      DecimalIsNumber(n / 10);
      assert s[..|s| - 1] == Decimal(n / 10);
    } else {
      assert s[..0] == "";
      assert s[|s| - 1] == Digit(n);
    }
  }

  lemma {:induction false} DigitsAheadOf(digits: string, rest: string)
    requires AllDigits(digits) && (rest == "" || !IsDigit(rest[0]))
    ensures DigitsAhead(digits + rest) == |digits|
  {
    if digits == "" {
      assert digits + rest == rest;
    } else {
      assert (digits + rest)[1..] == digits[1..] + rest;
      DigitsAheadOf(digits[1..], rest);
    }
  }

  lemma {:induction false} UnframeFramed(part: string, more: string)
    ensures Unframe(Framed(part) + more) == match Unframe(more) case None => None case Some(rest) => Some([part] + rest)
  {
    hide Decimal, Number, AllDigits, DigitsAhead;
    var digits, s := Decimal(|part|), Framed(part) + more;
    DecimalIsNumber(|part|);
    assert s == digits + (":" + part + more);
    DigitsAheadOf(digits, ":" + part + more);
    var n := |digits|;
    assert s[..n] == digits && s[n] == ':';
    assert s[n + 1..n + 1 + |part|] == part;
    assert s[n + 1 + |part|..] == more;
  }

  /** The parts can be read back from the bytes. */
  lemma {:induction false} FramingRoundTrip(parts: seq<string>)
    ensures Unframe(Frame(parts)) == Some(parts)
  {
    hide Framed;
    if parts != [] {
      FramingRoundTrip(parts[1..]);
      UnframeFramed(parts[0], Frame(parts[1..]));
      assert parts == [parts[0]] + parts[1..];
      assert Frame(parts) == Framed(parts[0]) + Frame(parts[1..]);
    }
  }

  /** Different lists of parts never feed the same bytes to the hash. */
  lemma FramingIsInjective(a: seq<string>, b: seq<string>)
    ensures Frame(a) == Frame(b) <==> a == b
  {
    FramingRoundTrip(a);
    FramingRoundTrip(b);
  }

  /** `digestID(prefix, parts...)`. */
  function DigestId(digest: string -> string, prefix: string, parts: seq<string>): string {
    prefix + "-" + digest(Frame(parts))
  }

  /** With a digest that tells texts apart, an identity determines its parts. */
  lemma IdentityDeterminesParts(digest: string -> string, prefix: string, a: seq<string>, b: seq<string>)
    requires forall x: string, y: string :: digest(x) == digest(y) ==> x == y
    ensures DigestId(digest, prefix, a) == DigestId(digest, prefix, b) <==> a == b
  {
    if DigestId(digest, prefix, a) == DigestId(digest, prefix, b) {
      SameFront(prefix + "-", digest(Frame(a)), digest(Frame(b)));
      FramingIsInjective(a, b);
    }
  }
}
