/** Sequences of lines on their way in and out of a bundle: the reader that checks size, count and
    digest line by line, and the writer that keeps the same totals chunk by chunk
    (internal/bundle/codec.go, internal/bundle/multipart.go). Bytes are characters here. */
module Streaming {
  import opened Facts

  const MAX_INT64: int := 0x7FFF_FFFF_FFFF_FFFF

  datatype SequenceStats = SequenceStats(bytes: int, count: int, digest: string)

  datatype Failure =
    | LimitExceeded | Malformed | Rejected | CountMismatch | SizeMismatch | DigestMismatch
    | Interrupted | ShortWrite | Unreadable

  datatype Result<T> = Ok(value: T) | Err(failure: Failure)

  // ---------- lines ----------

  predicate Terminated(data: string) {
    data != "" && data[|data| - 1] == '\n'
  }

  /** What `ReadBytes('\n')` returns: up to and including the first newline, or everything. */
  function Line(data: string): (line: string)
    ensures line <= data
    ensures data != "" ==> line != ""
    ensures Terminated(line) || line == data
    ensures forall i | 0 <= i < |line| - 1 :: line[i] != '\n'
  {
    if data == "" then ""
    else if data[0] == '\n' then data[..1]
    else [data[0]] + Line(data[1..])
  }

  ghost function Lines(data: string): seq<string>
    decreases |data|
  {
    if data == "" then [] else [Line(data)] + Lines(data[|Line(data)|..])
  }

  ghost function Join(parts: seq<string>): string {
    if parts == [] then "" else parts[0] + Join(parts[1..])
  }

  ghost function Newlines(data: string): nat {
    if data == "" then 0 else (if data[0] == '\n' then 1 else 0) + Newlines(data[1..])
  }

  ghost function StatsOf(data: string, digest: string -> string): SequenceStats {
    SequenceStats(|data|, |Lines(data)|, digest(data))
  }

  lemma {:induction false} JoinOfLines(data: string)
    ensures Join(Lines(data)) == data
    decreases |data|
  {
    hide Line;
    if data != "" {
      var rest := data[|Line(data)|..];
      JoinOfLines(rest);
      assert Lines(data)[1..] == Lines(rest);
      assert data == Line(data) + rest;
    }
  }

  lemma {:induction false} NewlinesAppend(a: string, b: string)
    ensures Newlines(a + b) == Newlines(a) + Newlines(b)
  {
    if a == "" {
      assert a + b == b;
    } else {
      assert (a + b)[1..] == a[1..] + b;
      NewlinesAppend(a[1..], b);
    }
  }

  lemma {:induction false} NoNewlines(data: string)
    requires forall i | 0 <= i < |data| :: data[i] != '\n'
    ensures Newlines(data) == 0
  {
    if data != "" { NoNewlines(data[1..]); }
  }

  lemma NewlinesInLine(line: string)
    requires line != "" && forall i | 0 <= i < |line| - 1 :: line[i] != '\n'
    ensures Newlines(line) == if Terminated(line) then 1 else 0
  {
    var front, last := line[..|line| - 1], line[|line| - 1..];
    assert line == front + last;
    NewlinesAppend(front, last);
    NoNewlines(front);
    assert last[1..] == "";
  }

  /** Counting newlines, and one more for an unterminated end, counts lines. */
  lemma {:induction false} LinesAreCounted(data: string)
    ensures |Lines(data)| == Newlines(data) + if data != "" && !Terminated(data) then 1 else 0
    decreases |data|
  {
    hide Line, Newlines;
    if data == "" {
      NoNewlines(data);
    } else {
      var line := Line(data);
      var rest := data[|line|..];
      LinesAreCounted(rest);
      assert data == line + rest;
      NewlinesAppend(line, rest);
      NewlinesInLine(line);
    }
  }

  ghost predicate OneLine(text: string) {
    Terminated(text) && forall i | 0 <= i < |text| - 1 :: text[i] != '\n'
  }

  lemma {:induction false} LineOfFirst(text: string, rest: string)
    requires OneLine(text)
    ensures Line(text + rest) == text
  {
    if |text| > 1 {
      assert (text + rest)[1..] == text[1..] + rest;
      LineOfFirst(text[1..], rest);
    }
  }

  /** Terminated lines put together come apart again as the same lines. */
  lemma {:induction false} LinesOfJoin(parts: seq<string>)
    requires forall i | 0 <= i < |parts| :: OneLine(parts[i])
    ensures Lines(Join(parts)) == parts
  {
    if parts != [] {
      LineOfFirst(parts[0], Join(parts[1..]));
      LinesOfJoin(parts[1..]);
      assert Join(parts)[|parts[0]|..] == Join(parts[1..]);
    }
  }

  lemma {:induction false} JoinAppend(parts: seq<string>, last: string)
    ensures Join(parts + [last]) == Join(parts) + last
  {
    if parts == [] {
      assert parts + [last] == [last];
      assert [last][1..] == [];
    } else {
      assert (parts + [last])[1..] == parts[1..] + [last];
      JoinAppend(parts[1..], last);
    }
  }

  // ---------- the reader ----------

  ghost predicate Decodable<T(!new)>(lines: seq<string>, decode: string -> Option<T>, accept: T -> bool) {
    forall i | 0 <= i < |lines| :: decode(lines[i]).Some? && accept(decode(lines[i]).value)
  }

  ghost predicate Uninterrupted(cancelled: nat -> bool, n: nat) {
    forall i: nat | i <= n :: !cancelled(i)
  }

  /** When `readNDJSON` succeeds. The context is looked at once per read and once at the end. */
  ghost predicate Readable<T(!new)>(data: string, expectedCount: int, maxBytes: int, decode: string -> Option<T>,
      accept: T -> bool, cancelled: nat -> bool) {
    && (maxBytes > 0 ==> |data| <= maxBytes)
    && Decodable(Lines(data), decode, accept)
    && (expectedCount >= 0 ==> |Lines(data)| == expectedCount)
    && Uninterrupted(cancelled, Newlines(data) + 1)
  }

  ghost predicate DecodedAs<T(!new)>(lines: seq<string>, decode: string -> Option<T>, values: seq<T>) {
    |values| == |lines| && forall i | 0 <= i < |lines| :: decode(lines[i]) == Some(values[i])
  }

  /** Why `readNDJSON` gives up. */
  ghost predicate Blamed<T(!new)>(f: Failure, data: string, expectedCount: int, maxBytes: int,
      decode: string -> Option<T>, accept: T -> bool, cancelled: nat -> bool) {
    match f
    case LimitExceeded => maxBytes > 0 && |data| > maxBytes
    case Malformed => exists i :: 0 <= i < |Lines(data)| && decode(Lines(data)[i]).None?
    case Rejected =>
      exists i :: 0 <= i < |Lines(data)| && decode(Lines(data)[i]).Some? && !accept(decode(Lines(data)[i]).value)
    case CountMismatch => expectedCount >= 0 && |Lines(data)| != expectedCount
    case Interrupted => exists i: nat :: i <= Newlines(data) + 1 && cancelled(i)
    case _ => false
  }

  /** The loop of `readNDJSON` between two reads: `done` was consumed, `rest` is still to come. */
  ghost predicate Midway<T(!new)>(data: string, done: string, rest: string, stats: SequenceStats, hashed: string,
      values: seq<T>, decode: string -> Option<T>, accept: T -> bool) {
    && data == done + rest && stats.bytes == |done| && hashed == done && stats.count == |values|
    && (done == "" || Terminated(done)) && Newlines(done) == |values|
    && Lines(data) == Lines(done) + Lines(rest)
    && Decodable(Lines(done), decode, accept) && DecodedAs(Lines(done), decode, values)
  }

  lemma LineApart(done: string, rest: string)
    requires Terminated(done)
    ensures OneLine(Line(done)) && Line(done + rest) == Line(done)
    ensures (done + rest)[|Line(done)|..] == done[|Line(done)|..] + rest
    ensures done[|Line(done)|..] == "" || Terminated(done[|Line(done)|..])
  {
    hide Line;
    var line := Line(done);
    var more := done[|line|..];
    assert done + rest == line + (more + rest);
    LineOfFirst(line, more + rest);
    if |line| < |done| {
      LastStays(done, |line|);
    }
  }

  lemma LastStays(s: string, n: nat)
    requires n < |s|
    ensures s[n..][|s| - n - 1] == s[|s| - 1]
  {
  }

  lemma {:induction false} LinesSplit(done: string, rest: string)
    requires done == "" || Terminated(done)
    ensures Lines(done + rest) == Lines(done) + Lines(rest)
    decreases |done|
  {
    hide Line, Terminated, OneLine;
    if done == "" {
      assert done + rest == rest;
    } else {
      LineApart(done, rest);
      LinesSplit(done[|Line(done)|..], rest);
    }
  }

  lemma OneMore<T(!new)>(lines: seq<string>, line: string, values: seq<T>, decode: string -> Option<T>,
      accept: T -> bool)
    requires Decodable(lines, decode, accept) && DecodedAs(lines, decode, values)
    requires decode(line).Some? && accept(decode(line).value)
    ensures Decodable(lines + [line], decode, accept)
    ensures DecodedAs(lines + [line], decode, values + [decode(line).value])
  {
  }

  lemma LinesOfNext(done: string, rest: string)
    requires rest != "" && (done == "" || Terminated(done))
    ensures var line := Line(rest);
      && line != "" && Lines(rest) == [line] + Lines(rest[|line|..]) && Lines(done + line) == Lines(done) + [line]
      && Newlines(done + line) == Newlines(done) + (if Terminated(line) then 1 else 0)
      && done + rest == (done + line) + rest[|line|..]
      && (if Terminated(line) then Terminated(done + line) else line == rest)
  {
    hide Line, Terminated, OneLine, Newlines;
    var line := Line(rest);
    LinesSplit(done, line);
    LineAlone(line);
    assert line[|line|..] == "";
    assert Lines(line) == [line];
    NewlinesAppend(done, line);
    NewlinesInLine(line);
    LineLeaves(done, rest);
  }

  /** What one more line does to the loop. */
  lemma NextLine<T(!new)>(data: string, done: string, rest: string, stats: SequenceStats, values: seq<T>,
      decode: string -> Option<T>, accept: T -> bool)
    requires Midway(data, done, rest, stats, done, values, decode, accept) && rest != ""
    ensures |values| < |Lines(data)| && Lines(data)[|values|] == Line(rest)
    ensures decode(Line(rest)).Some? && accept(decode(Line(rest)).value) && Terminated(Line(rest)) ==>
      var line := Line(rest);
      Midway(data, done + line, rest[|line|..], SequenceStats(stats.bytes + |line|, stats.count + 1, stats.digest),
          done + line,
             values + [decode(line).value], decode, accept)
    ensures decode(Line(rest)).Some? && accept(decode(Line(rest)).value) && !Terminated(Line(rest)) ==>
      var line := Line(rest);
      && data == done + line && Newlines(data) == |values| && |Lines(data)| == |values| + 1
      && Decodable(Lines(data), decode, accept) && DecodedAs(Lines(data), decode, values + [decode(line).value])
  {
    hide Line, Terminated, Lines, Newlines, Decodable;
    var line := Line(rest);
    LinesOfNext(done, rest);
    assert |Lines(done)| == |values|;
    if decode(line).Some? && accept(decode(line).value) {
      OneMore(Lines(done), line, values, decode, accept);
    }
  }

  lemma LineLeaves(done: string, rest: string)
    requires rest != ""
    ensures done + rest == (done + Line(rest)) + rest[|Line(rest)|..]
    ensures Terminated(Line(rest)) ==> Terminated(done + Line(rest))
    ensures !Terminated(Line(rest)) ==> Line(rest) == rest
  {
  }

  lemma {:induction false} LineAlone(line: string)
    requires forall i | 0 <= i < |line| - 1 :: line[i] != '\n'
    ensures Line(line) == line
  {
    if |line| > 1 { LineAlone(line[1..]); }
  }

  lemma {:induction false} LineOfPrefix(part: string, whole: string)
    requires part <= whole && Terminated(Line(part))
    ensures Line(whole) == Line(part)
  {
    if part[0] != '\n' {
      assert part[1..] <= whole[1..];
      assert Terminated(Line(part[1..])) by {
        assert Line(part)[1..] == Line(part[1..]);
      }
      LineOfPrefix(part[1..], whole[1..]);
    }
  }

  /** What one turn of the reading loop sees through the limit. */
  lemma Seen(data: string, limited: string, done: string, maxBytes: int)
    requires limited <= data && done <= limited && (limited == data || (maxBytes > 0 && |limited| == maxBytes + 1))
    ensures var line := Line(limited[|done|..]); var rest := data[|done|..];
      && (|done| + |line| <= maxBytes || limited == data ==> line == Line(rest))
      && done + line <= limited && data[|done + line|..] == rest[|line|..]
      && (rest == "" ==> line == "") && (Terminated(line) ==> line != "")
      && (rest != "" && limited == data ==> line != "")
  {
    hide Line;
    var window, rest := limited[|done|..], data[|done|..];
    assert limited == done + window;
    assert window <= rest;
    if Terminated(Line(window)) {
      LineOfPrefix(window, rest);
    }
  }


  lemma {:induction false} Start<T(!new)>(data: string, decode: string -> Option<T>, accept: T -> bool)
    ensures Midway(data, "", data, SequenceStats(0, 0, ""), "", [], decode, accept)
  {
    hide Line;
    assert data == "" + data;
    assert Lines("") == [] && Lines("") + Lines(data) == Lines(data);
  }

  /** At the end of the data nothing is missing. */
  lemma Finished<T(!new)>(data: string, done: string, stats: SequenceStats, values: seq<T>, decode: string -> Option<T>,
      accept: T -> bool)
    requires Midway(data, done, "", stats, done, values, decode, accept)
    ensures data == done && Newlines(data) == |values| && |Lines(data)| == |values|
    ensures Decodable(Lines(data), decode, accept) && DecodedAs(Lines(data), decode, values)
  {
    assert done + "" == done;
    assert Lines("") == [];
  }

  lemma TurnsSoFar<T(!new)>(data: string, done: string, rest: string, stats: SequenceStats, values: seq<T>,
      decode: string -> Option<T>, accept: T -> bool)
    requires Midway(data, done, rest, stats, done, values, decode, accept)
    ensures |values| <= Newlines(data) && |values| <= |Lines(data)|
  {
    NewlinesAppend(done, rest);
  }

  lemma BlameContext<T(!new)>(data: string, expectedCount: int, maxBytes: int, decode: string -> Option<T>,
      accept: T -> bool, cancelled: nat -> bool, n: nat)
    requires n <= Newlines(data) + 1 && cancelled(n)
    ensures !Readable(data, expectedCount, maxBytes, decode, accept, cancelled)
    ensures Blamed(Interrupted, data, expectedCount, maxBytes, decode, accept, cancelled)
  {
  }

  lemma BlameLimit<T(!new)>(data: string, expectedCount: int, maxBytes: int, decode: string -> Option<T>,
      accept: T -> bool, cancelled: nat -> bool)
    requires maxBytes > 0 && |data| > maxBytes
    ensures !Readable(data, expectedCount, maxBytes, decode, accept, cancelled)
    ensures Blamed(LimitExceeded, data, expectedCount, maxBytes, decode, accept, cancelled)
  {
  }

  lemma BlameLine<T(!new)>(data: string, n: nat, expectedCount: int, maxBytes: int, decode: string -> Option<T>,
      accept: T -> bool, cancelled: nat -> bool)
    requires n < |Lines(data)|
    ensures var value := decode(Lines(data)[n]);
      && (value.None? ==> !Readable(data, expectedCount, maxBytes, decode, accept, cancelled)
                          && Blamed(Malformed, data, expectedCount, maxBytes, decode, accept, cancelled))
      && (0 <= expectedCount <= n ==> !Readable(data, expectedCount, maxBytes, decode, accept, cancelled)
                                      && Blamed(CountMismatch, data, expectedCount, maxBytes, decode, accept,
                                                cancelled))
      && (value.Some? && !accept(value.value) ==> !Readable(data, expectedCount, maxBytes, decode, accept, cancelled)
                                                  && Blamed(Rejected, data, expectedCount, maxBytes, decode, accept,
                                                      cancelled))
  {
    hide Lines, Newlines;
  }

  lemma AllRead<T(!new)>(data: string, expectedCount: int, maxBytes: int, decode: string -> Option<T>,
      accept: T -> bool, cancelled: nat -> bool)
    requires (maxBytes > 0 ==> |data| <= maxBytes) && Decodable(Lines(data), decode, accept)
    ensures expectedCount >= 0 && |Lines(data)| != expectedCount ==>
      !Readable(data, expectedCount, maxBytes, decode, accept, cancelled)
          && Blamed(CountMismatch, data, expectedCount, maxBytes, decode, accept, cancelled)
    ensures (expectedCount >= 0 ==> |Lines(data)| == expectedCount)
            && (forall k: nat | k <= Newlines(data) + 1 :: !cancelled(k)) ==>
      Readable(data, expectedCount, maxBytes, decode, accept, cancelled)
  {
    hide Lines, Newlines;
  }

  /** The state of the reading loop: `done` was consumed, and everything in it was fine. */
  ghost predicate Reading<T(!new)>(data: string, limited: string, maxBytes: int, done: string, eof: bool,
      stats: SequenceStats, values: seq<T>, checks: nat, decode: string -> Option<T>, accept: T -> bool,
      cancelled: nat -> bool) {
    && limited <= data && done <= limited && stats.bytes == |done| && stats.count == |values|
    && (maxBytes > 0 ==> |done| <= maxBytes)
    && (forall k: nat | k < checks :: !cancelled(k))
    && (if eof then done == data && |values| == |Lines(data)| && Decodable(Lines(data), decode, accept)
                    && DecodedAs(Lines(data), decode, values) && checks == Newlines(data) + 1
        else Midway(data, done, data[|done|..], stats, done, values, decode, accept) && checks == |values|)
  }

  ghost predicate Limited(data: string, limited: string, maxBytes: int) {
    limited <= data && (limited == data || (|data| > maxBytes > 0 && |limited| == maxBytes + 1))
  }

  lemma TurnAtEnd<T(!new)>(data: string, limited: string, maxBytes: int, done: string, stats: SequenceStats,
      values: seq<T>, checks: nat, decode: string -> Option<T>, accept: T -> bool, cancelled: nat -> bool)
    requires Reading(data, limited, maxBytes, done, false, stats, values, checks, decode, accept, cancelled)
    requires Limited(data, limited, maxBytes) && !cancelled(checks) && Line(limited[|done|..]) == ""
    ensures Reading(data, limited, maxBytes, done, true, stats, values, checks + 1, decode, accept, cancelled)
  {
    hide Midway, Line, Lines, Newlines, Decodable, DecodedAs;
    Seen(data, limited, done, maxBytes);
    Finished(data, done, stats, values, decode, accept);
  }

  lemma TurnLine<T(!new)>(data: string, limited: string, maxBytes: int, done: string, stats: SequenceStats,
      values: seq<T>, checks: nat, decode: string -> Option<T>, accept: T -> bool, cancelled: nat -> bool, line: string)
    requires Reading(data, limited, maxBytes, done, false, stats, values, checks, decode, accept, cancelled)
    requires Limited(data, limited, maxBytes) && !cancelled(checks) && line == Line(limited[|done|..]) && line != ""
    ensures |done| + |line| <= |data| && (maxBytes > 0 && |done| + |line| > maxBytes ==> |data| > maxBytes)
    ensures !(maxBytes > 0 && |done| + |line| > maxBytes) ==> |values| < |Lines(data)| && Lines(data)[|values|] == line
    ensures !(maxBytes > 0 && |done| + |line| > maxBytes) && decode(line).Some? && accept(decode(line).value) ==>
      Reading(data, limited, maxBytes, done + line, !Terminated(line),
          stats.(bytes := stats.bytes + |line|, count := stats.count + 1),
              values + [decode(line).value], checks + 1, decode, accept, cancelled)
  {
    hide Midway, Line, Lines, Newlines, Decodable, DecodedAs, Terminated;
    Seen(data, limited, done, maxBytes);
    if !(maxBytes > 0 && |done| + |line| > maxBytes) {
      NextLine(data, done, data[|done|..], stats, values, decode, accept);
    }
  }

  lemma ChecksSoFar<T(!new)>(data: string, limited: string, maxBytes: int, done: string, eof: bool,
      stats: SequenceStats, values: seq<T>, checks: nat, decode: string -> Option<T>, accept: T -> bool,
      cancelled: nat -> bool)
    requires Reading(data, limited, maxBytes, done, eof, stats, values, checks, decode, accept, cancelled)
    ensures checks <= Newlines(data) + 1
    ensures |done| <= |limited| && done <= limited && stats.bytes == |done| && stats.count == |values|
  {
    if !eof {
      TurnsSoFar(data, done, data[|done|..], stats, values, decode, accept);
    }
  }

  lemma AtStart<T(!new)>(data: string, limited: string, maxBytes: int, decode: string -> Option<T>, accept: T -> bool,
      cancelled: nat -> bool)
    requires Limited(data, limited, maxBytes)
    ensures Reading(data, limited, maxBytes, "", false, SequenceStats(0, 0, ""), [], 0, decode, accept, cancelled)
  {
    Start(data, decode, accept);
    assert data[|""|..] == data;
  }

  lemma AtEnd<T(!new)>(data: string, limited: string, maxBytes: int, done: string, stats: SequenceStats, values: seq<T>,
      expectedCount: int, checks: nat, decode: string -> Option<T>, accept: T -> bool, cancelled: nat -> bool,
      digest: string -> string)
    requires Reading(data, limited, maxBytes, done, true, stats, values, checks, decode, accept, cancelled)
    ensures expectedCount >= 0 && stats.count != expectedCount ==>
      !Readable(data, expectedCount, maxBytes, decode, accept, cancelled)
          && Blamed(CountMismatch, data, expectedCount, maxBytes, decode, accept, cancelled)
    ensures !(expectedCount >= 0 && stats.count != expectedCount) && !cancelled(checks) ==>
      Readable(data, expectedCount, maxBytes, decode, accept, cancelled)
    ensures DecodedAs(Lines(data), decode, values) && stats.(digest := digest(done)) == StatsOf(data, digest)
  {
    hide Lines, Newlines, Decodable, DecodedAs;
    AllRead(data, expectedCount, maxBytes, decode, accept, cancelled);
  }

  /** `readNDJSON`, on a file that holds `data`: the decoded lines and the totals. */
  method ReadNDJSON<T(!new)>(data: string, expectedCount: int, maxBytes: int, digest: string -> string,
      decode: string -> Option<T>, accept: T -> bool, cancelled: nat -> bool)
    returns (r: Result<SequenceStats>, values: seq<T>)
    requires |data| <= MAX_INT64 && maxBytes <= MAX_INT64
    ensures r.Ok? <==> Readable(data, expectedCount, maxBytes, decode, accept, cancelled)
    ensures r.Ok? ==> r.value == StatsOf(data, digest) && DecodedAs(Lines(data), decode, values)
    ensures r.Err? ==> Blamed(r.failure, data, expectedCount, maxBytes, decode, accept, cancelled)
  {
    hide Reading, Line, Lines, Newlines, DecodedAs, Readable, Blamed, StatsOf;
    var limited := if maxBytes > 0 && |data| > maxBytes then data[..maxBytes + 1] else data;
    var stats, done, eof := SequenceStats(0, 0, ""), "", false;
    var checks: nat := 0;
    values := [];
    AtStart(data, limited, maxBytes, decode, accept, cancelled);
    while !eof
      invariant Reading(data, limited, maxBytes, done, eof, stats, values, checks, decode, accept, cancelled)
      decreases !eof, |data| - |done|
    {
      ChecksSoFar(data, limited, maxBytes, done, eof, stats, values, checks, decode, accept, cancelled);
      if cancelled(checks) {
        BlameContext(data, expectedCount, maxBytes, decode, accept, cancelled, checks);
        return Err(Interrupted), [];
      }
      var line := Line(limited[|done|..]);
      if line != "" {
        TurnLine(data, limited, maxBytes, done, stats, values, checks, decode, accept, cancelled, line);
        if stats.bytes > MAX_INT64 - |line| { return Err(LimitExceeded), []; }
        if maxBytes > 0 && stats.bytes + |line| > maxBytes {
          BlameLimit(data, expectedCount, maxBytes, decode, accept, cancelled);
          return Err(LimitExceeded), [];
        }
        BlameLine(data, |values|, expectedCount, maxBytes, decode, accept, cancelled);
        var value := decode(line);
        if value.None? { return Err(Malformed), []; }
        if expectedCount >= 0 && stats.count >= expectedCount { return Err(CountMismatch), []; }
        if !accept(value.value) { return Err(Rejected), []; }
        stats := stats.(bytes := stats.bytes + |line|, count := stats.count + 1);
        done, values := done + line, values + [value.value];
      } else {
        TurnAtEnd(data, limited, maxBytes, done, stats, values, checks, decode, accept, cancelled);
      }
      checks := checks + 1;
      eof := !Terminated(line);
    }
    AtEnd(data, limited, maxBytes, done, stats, values, expectedCount, checks, decode, accept, cancelled, digest);
    ChecksSoFar(data, limited, maxBytes, done, eof, stats, values, checks, decode, accept, cancelled);
    if expectedCount >= 0 && stats.count != expectedCount { return Err(CountMismatch), []; }
    if cancelled(checks) {
      BlameContext(data, expectedCount, maxBytes, decode, accept, cancelled, checks);
      return Err(Interrupted), [];
    }
    r := Ok(stats.(digest := digest(done)));
  }

  // ---------- the writer ----------

  /** `countByte(p, '\n')`. */
  method CountNewlines(value: string) returns (count: nat)
    ensures count == Newlines(value)
  {
    count := 0;
    var i := 0;
    while i < |value|
      invariant 0 <= i <= |value| && count == Newlines(value[..i])
    {
      assert value[..i + 1] == value[..i] + [value[i]];
      NewlinesAppend(value[..i], [value[i]]);
      assert [value[i]][1..] == "";
      if value[i] == '\n' { count := count + 1; }
      i := i + 1;
    }
    assert value[..i] == value;
  }

  /** `multipartPayloadWriter`: what it passed on, and the totals it keeps. */
  class PayloadWriter {
    const maxBytes: int
    var bytes: int
    var newlines: int
    var last: char
    var hashed: string
    var destination: string

    ghost predicate Valid()
      reads this
    {
      && bytes == |destination| && newlines == Newlines(destination) && hashed == destination
      && (destination != "" ==> last == destination[|destination| - 1])
      && 0 <= bytes && (maxBytes >= 0 ==> bytes <= maxBytes)
    }

    constructor (limit: int)
      ensures Valid() && destination == "" && maxBytes == limit
    {
      maxBytes, bytes, newlines, last, hashed, destination := limit, 0, 0, '\0', "", "";
    }

    /** The destination may take less than it is given. */
    method Write(p: string) returns (n: nat, error: Option<Failure>)
      requires Valid() && maxBytes >= 0
      modifies this
      ensures Valid() && n <= |p| && destination == old(destination) + p[..n]
      ensures error.None? ==> n == |p|
      ensures error == Some(LimitExceeded) <==> |p| > maxBytes - old(bytes)
      ensures error == Some(LimitExceeded) ==> n == 0
      ensures error.Some? ==> error.value == LimitExceeded || (error.value == ShortWrite && n < |p|)
    {
      if |p| > maxBytes - bytes { return 0, Some(LimitExceeded); }
      n := |p|;
      if * { n :| 0 <= n <= |p|; }
      destination := destination + p[..n];
      if n > 0 {
        hashed := hashed + p[..n];
        bytes := bytes + n;
        var more := CountNewlines(p[..n]);
        NewlinesAppend(old(destination), p[..n]);
        newlines := newlines + more;
        last := p[n - 1];
      } else {
        assert destination == old(destination);
      }
      error := if n != |p| then Some(ShortWrite) else None;
    }

    /** `stats`: the same totals a reader would find. */
    method Stats(digest: string -> string) returns (stats: SequenceStats)
      requires Valid()
      ensures stats == StatsOf(destination, digest)
    {
      var count := newlines;
      if bytes > 0 && last != '\n' { count := count + 1; }
      LinesAreCounted(destination);
      stats := SequenceStats(bytes, count, digest(hashed));
    }
  }

  /** `copyPayload`: whatever the chunks, the totals are those of the whole, and no more than
      `maxBytes` bytes ever reach the destination. */
  method CopyPayload(chunks: seq<string>, maxBytes: int, digest: string -> string, cancelled: nat -> bool)
    returns (r: Result<SequenceStats>, destination: string)
    ensures destination <= Join(chunks) && (|destination| == 0 || |destination| <= maxBytes)
    ensures r.Ok? ==> destination == Join(chunks) && r.value == StatsOf(Join(chunks), digest)
    ensures r == Err(LimitExceeded) ==> maxBytes < 0 || |Join(chunks)| > maxBytes
    ensures |Join(chunks)| > maxBytes ==> r.Err?
    ensures r == Err(Interrupted) ==> exists i: nat :: i <= |chunks| && cancelled(i)
    ensures r.Err? ==> r.failure in {LimitExceeded, Interrupted, ShortWrite}
  {
    destination := "";
    if maxBytes < 0 { return Err(LimitExceeded), destination; }
    var writer := new PayloadWriter(maxBytes);
    var i := 0;
    while i < |chunks|
      invariant 0 <= i <= |chunks| && writer.Valid() && writer.maxBytes == maxBytes
      invariant writer.destination == destination == Join(chunks[..i])
    {
      JoinSplit(chunks, i);
      PrefixOf(Join(chunks[..i + 1]), Join(chunks[i + 1..]));
      if cancelled(i) { return Err(Interrupted), destination; }
      var n, error := writer.Write(chunks[i]);
      destination := writer.destination;
      if error.Some? { return Err(error.value), destination; }
      assert chunks[i][..n] == chunks[i];
      i := i + 1;
    }
    assert chunks[..i] == chunks;
    if cancelled(i) { return Err(Interrupted), destination; }
    var stats := writer.Stats(digest);
    r := Ok(stats);
  }

  lemma {:induction false} JoinSplit(chunks: seq<string>, i: nat)
    requires i < |chunks|
    ensures Join(chunks[..i + 1]) == Join(chunks[..i]) + chunks[i]
    ensures Join(chunks) == Join(chunks[..i + 1]) + Join(chunks[i + 1..])
  {
    hide Join;
    var front := chunks[..i + 1];
    assert front == chunks[..i] + [chunks[i]];
    JoinAppend(chunks[..i], chunks[i]);
    JoinConcat(front, chunks[i + 1..]);
    assert front + chunks[i + 1..] == chunks;
  }

  lemma PrefixOf(a: string, b: string)
    ensures a <= a + b
  {
  }

  lemma {:induction false} JoinConcat(a: seq<string>, b: seq<string>)
    ensures Join(a + b) == Join(a) + Join(b)
  {
    if a == [] {
      assert a + b == b;
    } else {
      assert (a + b)[1..] == a[1..] + b;
      JoinConcat(a[1..], b);
    }
  }

  // ---------- both together ----------

  /** `verifySequenceStats`. */
  function VerifySequenceStats(expected: SequenceStats, actual: SequenceStats): Option<Failure> {
    if actual.bytes != expected.bytes then Some(SizeMismatch)
    else if actual.count != expected.count then Some(CountMismatch)
    else if actual.digest != expected.digest then Some(DigestMismatch)
    else None
  }

  ghost predicate InjectiveDigest(digest: string -> string) {
    forall a: string, b: string :: digest(a) == digest(b) ==> a == b
  }

  /** A descriptor fits one content only. */
  lemma DescriptorIdentifiesContent(a: string, b: string, digest: string -> string)
    requires InjectiveDigest(digest)
    ensures VerifySequenceStats(StatsOf(a, digest), StatsOf(b, digest)) == None <==> a == b
  {
  }

  /** What was staged is read back under the staged descriptor if its lines are fine, in whatever
      chunks it came. */
  lemma StagedReads<T(!new)>(data: string, digest: string -> string, decode: string -> Option<T>, accept: T -> bool,
      cancelled: nat -> bool)
    requires Decodable(Lines(data), decode, accept) && Uninterrupted(cancelled, Newlines(data) + 1)
    ensures var own := StatsOf(data, digest); Readable(data, own.count, own.bytes, decode, accept, cancelled)
  {
    hide Lines, Newlines, Decodable, Uninterrupted;
  }

  ghost function Encoded<T>(values: seq<T>, encode: T -> string): seq<string> {
    seq(|values|, i requires 0 <= i < |values| => encode(values[i]))
  }

  /** One value per line, read back by `decode`. */
  ghost predicate LineCodec<T(!new)>(encode: T -> string, decode: string -> Option<T>) {
    forall v: T :: OneLine(encode(v)) && decode(encode(v)) == Some(v)
  }

  /** `writeSequenceTemp`: every value encoded on its own line, with the totals of what was written. */
  method WriteSequence<T(!new)>(values: seq<T>, encode: T -> string, digest: string -> string, cancelled: nat -> bool)
    returns (r: Result<SequenceStats>, content: string)
    ensures r.Ok? <==> forall i: nat | i <= |values| :: !cancelled(i)
    ensures r.Ok? ==> content == Join(Encoded(values, encode))
    ensures r.Ok? && (forall v: T :: OneLine(encode(v))) ==> r.value == StatsOf(content, digest)
  {
    content := "";
    var bytes, count := 0, 0;
    while count < |values|
      invariant 0 <= count <= |values| && bytes == |content| && content == Join(Encoded(values[..count], encode))
      invariant forall i: nat | i < count :: !cancelled(i)
    {
      if cancelled(count) { return Err(Interrupted), content; }
      assert Encoded(values[..count + 1], encode) == Encoded(values[..count], encode) + [encode(values[count])];
      JoinAppend(Encoded(values[..count], encode), encode(values[count]));
      content := content + encode(values[count]);
      bytes := bytes + |encode(values[count])|;
      count := count + 1;
    }
    assert values[..count] == values;
    if cancelled(count) { return Err(Interrupted), content; }
    if forall v: T :: OneLine(encode(v)) {
      LinesOfJoin(Encoded(values, encode));
    }
    r := Ok(SequenceStats(bytes, count, digest(content)));
  }

  /** Writing values and reading the file back gives the values. */
  lemma SequenceRoundTrip<T(!new)>(values: seq<T>, encode: T -> string, decode: string -> Option<T>, accept: T -> bool,
      digest: string -> string, cancelled: nat -> bool, back: seq<T>)
    requires LineCodec(encode, decode) && (forall v | v in values :: accept(v))
    requires Uninterrupted(cancelled, |values| + 1)
    ensures var content := Join(Encoded(values, encode)); var own := StatsOf(content, digest);
      && own.count == |values| && Readable(content, own.count, own.bytes, decode, accept, cancelled)
      && (DecodedAs(Lines(content), decode, back) <==> back == values)
  {
    var lines := Encoded(values, encode);
    LinesOfJoin(lines);
    LinesAreCounted(Join(lines));
    EndsTerminated(lines);
    StagedReads(Join(lines), digest, decode, accept, cancelled);
  }

  lemma {:induction false} EndsTerminated(parts: seq<string>)
    requires forall i | 0 <= i < |parts| :: OneLine(parts[i])
    ensures Join(parts) == "" || Terminated(Join(parts))
  {
    if parts != [] {
      EndsTerminated(parts[1..]);
      assert |parts[0]| > 0;
    }
  }
}
