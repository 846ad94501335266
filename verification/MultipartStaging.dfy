/** The part loop of `StageMultipart`: every sequence of an upload is written to a file of its own and
    checked against the manifest as it streams by (internal/bundle/multipart.go:396-451). */
module MultipartStaging {
  import opened Facts
  import opened Publication
  import opened Streaming
  import opened BundleReader

  /** What the manifest announces. */
  datatype PartSpec = PartSpec(name: string, mediaType: string, stats: SequenceStats)

  /** A part of the upload, in the chunks it arrives in. */
  datatype Part = Part(name: string, fileName: string, mediaType: string, chunks: seq<string>)

  datatype StagingError = MissingPart | UnexpectedPart | WrongPart | Stream(failure: Failure)

  datatype Staged = Staged(files: seq<string>, error: Option<StagingError>)

  /** `multipartMinimum`. */
  function Minimum(left: int, right: int): int {
    if left < 0 || right < 0 then -1 else if left < right then left else right
  }

  /** `validateMultipartPart`. */
  predicate Matches(part: Part, spec: PartSpec) {
    part.name == spec.name && part.fileName == spec.name && part.mediaType == spec.mediaType
  }

  ghost function TotalBytes(files: seq<string>): nat {
    if files == [] then 0 else TotalBytes(files[..|files| - 1]) + |files[|files| - 1]|
  }

  /** These files hold the parts the specification asks for. */
  ghost predicate Holds(specs: seq<PartSpec>, parts: seq<Part>, files: seq<string>, digest: string -> string) {
    && |files| <= |specs| && |files| <= |parts|
    && forall i | 0 <= i < |files| ::
        Matches(parts[i], specs[i]) && files[i] == Join(parts[i].chunks) && StatsOf(files[i], digest) == specs[i].stats
  }

  ghost predicate EvidenceFits(specs: seq<PartSpec>, files: seq<string>, maxEvidenceBytes: int) {
    forall i | 0 <= i < |files| && i < |specs| && specs[i].name == EVIDENCE :: |files[i]| <= maxEvidenceBytes
  }

  lemma {:induction false} HoldsMore(specs: seq<PartSpec>, parts: seq<Part>, files: seq<string>,
      digest: string -> string, file: string)
    requires Holds(specs, parts, files, digest) && |files| < |specs| && |files| < |parts|
    requires Matches(parts[|files|], specs[|files|]) && file == Join(parts[|files|].chunks)
    requires StatsOf(file, digest) == specs[|files|].stats
    ensures Holds(specs, parts, files + [file], digest) && TotalBytes(files + [file]) == TotalBytes(files) + |file|
  {
    hide Lines, Join, Line;
    assert (files + [file])[..|files|] == files;
  }

  /** The part is the one announced. */
  ghost predicate Announced(part: Part, spec: PartSpec) {
    part.name == spec.name && part.fileName == spec.name && part.mediaType == spec.mediaType
  }

  /** It fits what is left of the bundle limit, the evidence limit if it is evidence, and its own size. */
  ghost predicate FitsPart(spec: PartSpec, size: nat, total: int, maxBundleBytes: int, maxEvidenceBytes: int) {
    && total + size <= maxBundleBytes && size <= spec.stats.bytes
    && (spec.name == "evidence.ndjson" ==> size <= maxEvidenceBytes)
  }

  /** Why this part is refused, after `total` bytes. */
  ghost predicate Refused(part: Part, spec: PartSpec, total: int, maxBundleBytes: int, maxEvidenceBytes: int,
      digest: string -> string, error: StagingError) {
    var data := Join(part.chunks);
    var own, fits := StatsOf(data, digest), FitsPart(spec, |data|, total, maxBundleBytes, maxEvidenceBytes);
    match error
    case WrongPart => !Announced(part, spec)
    case Stream(failure) =>
      && Announced(part, spec)
      && (match failure
          case LimitExceeded => !fits || total + |data| > MAX_INT64
          case SizeMismatch => fits && own.bytes != spec.stats.bytes
          case CountMismatch => fits && own.bytes == spec.stats.bytes && own.count != spec.stats.count
          case DigestMismatch => fits && own.bytes == spec.stats.bytes && own.count == spec.stats.count
              && own.digest != spec.stats.digest
          case Interrupted => true
          case ShortWrite => true
          case _ => false)
    case _ => false
  }

  /** Why the loop stops at part `n`, after `total` bytes. */
  ghost predicate StopsFor(specs: seq<PartSpec>, parts: seq<Part>, n: nat, total: int, maxBundleBytes: int,
      maxEvidenceBytes: int, digest: string -> string, error: StagingError) {
    || error == Stream(Interrupted)
    || (error == MissingPart && n == |parts| < |specs|)
    || (error == UnexpectedPart && n == |specs| < |parts|)
    || (n < |specs| && n < |parts|
        && Refused(parts[n], specs[n], total, maxBundleBytes, maxEvidenceBytes, digest, error))
  }

  /** What an upload has to be: exactly the announced parts with the announced totals, within the limits. */
  ghost predicate Acceptable(specs: seq<PartSpec>, parts: seq<Part>, maxBundleBytes: int, maxEvidenceBytes: int,
      digest: string -> string) {
    && |parts| == |specs|
    && (forall i | 0 <= i < |specs| ::
        && Announced(parts[i], specs[i]) && StatsOf(Join(parts[i].chunks), digest) == specs[i].stats
        && (specs[i].name == "evidence.ndjson" ==> |Join(parts[i].chunks)| <= maxEvidenceBytes))
    && (specs != [] ==> TotalBytes(Contents(parts)) <= maxBundleBytes)
  }

  ghost function Contents(parts: seq<Part>): seq<string> {
    seq(|parts|, i requires 0 <= i < |parts| => Join(parts[i].chunks))
  }

  lemma {:induction false} TotalOfPrefix(files: seq<string>, n: nat)
    requires n <= |files|
    ensures TotalBytes(files[..n]) <= TotalBytes(files)
  {
    if n < |files| {
      var front := files[..|files| - 1];
      TotalOfPrefix(front, n);
      assert front[..n] == files[..n];
    } else {
      assert files[..n] == files;
    }
  }

  /** What stops the loop, other than a cancelled look or a short write, is a reason to refuse the upload. */
  lemma StoppedIsUnacceptable(specs: seq<PartSpec>, parts: seq<Part>, files: seq<string>, maxBundleBytes: int,
      maxEvidenceBytes: int, digest: string -> string, error: StagingError)
    requires Holds(specs, parts, files, digest) && maxBundleBytes <= MAX_INT64
    requires StopsFor(specs, parts, |files|, TotalBytes(files), maxBundleBytes, maxEvidenceBytes, digest, error)
    requires error != Stream(Interrupted) && error != Stream(ShortWrite)
    ensures !Acceptable(specs, parts, maxBundleBytes, maxEvidenceBytes, digest)
  {
    hide Lines, Line, TotalBytes, Join;
    var n := |files|;
    if Acceptable(specs, parts, maxBundleBytes, maxEvidenceBytes, digest) && error == Stream(LimitExceeded) {
      var all := Contents(parts);
      assert all[..n] == files;
      TotalOfPrefix(all, n + 1);
      assert all[..n + 1] == files + [all[n]];
      TotalOfMore(files, all[n]);
      assert false;
    }
  }

  lemma TotalOfMore(files: seq<string>, file: string)
    ensures TotalBytes(files + [file]) == TotalBytes(files) + |file|
  {
    assert (files + [file])[..|files|] == files;
  }

  lemma StoredIsAcceptable(specs: seq<PartSpec>, parts: seq<Part>, files: seq<string>, maxBundleBytes: int,
      maxEvidenceBytes: int, digest: string -> string)
    requires Holds(specs, parts, files, digest) && |files| == |specs| == |parts|
    requires files != [] ==> TotalBytes(files) <= maxBundleBytes
    requires EvidenceFits(specs, files, maxEvidenceBytes)
    ensures Acceptable(specs, parts, maxBundleBytes, maxEvidenceBytes, digest)
  {
    hide Lines, Line, TotalBytes, Join;
    assert Contents(parts) == files;
  }

  /** The loop. Whatever happens, no more than the allowed bytes are kept in finished files. Success means
      that the upload is acceptable and exactly the announced sequences were stored; an acceptable upload is
      refused only for a cancelled look or a short write. */
  method StageParts(specs: seq<PartSpec>, parts: seq<Part>, maxBundleBytes: int, maxEvidenceBytes: int,
      digest: string -> string, cancelled: (nat, nat) -> bool)
    returns (r: Staged, total: int)
    ensures Holds(specs, parts, r.files, digest) && total == TotalBytes(r.files)
    ensures total == 0 || total <= maxBundleBytes
    ensures EvidenceFits(specs, r.files, maxEvidenceBytes)
    ensures r.error == None ==>
        |r.files| == |specs| == |parts| && Acceptable(specs, parts, maxBundleBytes, maxEvidenceBytes, digest)
    ensures r.error.Some? ==>
        StopsFor(specs, parts, |r.files|, total, maxBundleBytes, maxEvidenceBytes, digest, r.error.value)
    ensures r.error == Some(Stream(Interrupted)) ==> exists n: nat, k: nat :: cancelled(n, k)
    ensures maxBundleBytes <= MAX_INT64 && Acceptable(specs, parts, maxBundleBytes, maxEvidenceBytes, digest) ==>
        r.error in {None, Some(Stream(Interrupted)), Some(Stream(ShortWrite))}
  {
    hide Acceptable, StopsFor, Holds, EvidenceFits, Refused, TotalBytes;
    var files: seq<string> := [];
    total := 0;
    NothingHeld(specs, parts, maxEvidenceBytes, digest);
    while |files| < |specs|
      invariant |files| <= |specs| && Holds(specs, parts, files, digest) && total == TotalBytes(files)
      invariant (total == 0 || total <= maxBundleBytes) && (files != [] ==> total <= maxBundleBytes)
      invariant EvidenceFits(specs, files, maxEvidenceBytes)
    {
      var n := |files|;
      HeldIsPrefix(specs, parts, files, digest);
      if cancelled(n, 0) {
        Stopped(specs, parts, files, maxBundleBytes, maxEvidenceBytes, digest, Stream(Interrupted));
        return Staged(files, Some(Stream(Interrupted))), total;
      }
      if n >= |parts| {
        Stopped(specs, parts, files, maxBundleBytes, maxEvidenceBytes, digest, MissingPart);
        return Staged(files, Some(MissingPart)), total;
      }
      var file, error := StagePart(parts[n], specs[n], total, maxBundleBytes, maxEvidenceBytes, digest,
          (k: nat) => cancelled(n, k + 1));
      if error.Some? {
        Stopped(specs, parts, files, maxBundleBytes, maxEvidenceBytes, digest, error.value);
        return Staged(files, error), total;
      }
      HoldsMore(specs, parts, files, digest, file);
      FitsMore(specs, files, maxEvidenceBytes, file);
      files := files + [file];
      total := total + |file|;
    }
    if |parts| > |files| {
      Stopped(specs, parts, files, maxBundleBytes, maxEvidenceBytes, digest, UnexpectedPart);
      return Staged(files, Some(UnexpectedPart)), total;
    }
    HeldIsPrefix(specs, parts, files, digest);
    if cancelled(|files|, 0) {
      Stopped(specs, parts, files, maxBundleBytes, maxEvidenceBytes, digest, Stream(Interrupted));
      return Staged(files, Some(Stream(Interrupted))), total;
    }
    StoredIsAcceptable(specs, parts, files, maxBundleBytes, maxEvidenceBytes, digest);
    r := Staged(files, None);
  }

  lemma Stopped(specs: seq<PartSpec>, parts: seq<Part>, files: seq<string>, maxBundleBytes: int, maxEvidenceBytes: int,
      digest: string -> string, error: StagingError)
    requires Holds(specs, parts, files, digest)
    requires var n := |files|;
      || error == Stream(Interrupted)
      || (error == MissingPart && n == |parts| < |specs|) || (error == UnexpectedPart && n == |specs| < |parts|)
      || (n < |specs| && n < |parts|
          && Refused(parts[n], specs[n], TotalBytes(files), maxBundleBytes, maxEvidenceBytes, digest, error))
    ensures StopsFor(specs, parts, |files|, TotalBytes(files), maxBundleBytes, maxEvidenceBytes, digest, error)
    ensures maxBundleBytes <= MAX_INT64 && Acceptable(specs, parts, maxBundleBytes, maxEvidenceBytes, digest) ==>
        error in {Stream(Interrupted), Stream(ShortWrite)}
  {
    hide Acceptable, Holds, TotalBytes, Refused;
    if error != Stream(Interrupted) && error != Stream(ShortWrite) && maxBundleBytes <= MAX_INT64 {
      StoppedIsUnacceptable(specs, parts, files, maxBundleBytes, maxEvidenceBytes, digest, error);
    }
  }

  lemma HeldIsPrefix(specs: seq<PartSpec>, parts: seq<Part>, files: seq<string>, digest: string -> string)
    requires Holds(specs, parts, files, digest)
    ensures |files| <= |parts|
  {
  }

  lemma NothingHeld(specs: seq<PartSpec>, parts: seq<Part>, maxEvidenceBytes: int, digest: string -> string)
    ensures Holds(specs, parts, [], digest) && EvidenceFits(specs, [], maxEvidenceBytes) && TotalBytes([]) == 0
  {
  }

  lemma FitsMore(specs: seq<PartSpec>, files: seq<string>, maxEvidenceBytes: int, file: string)
    requires EvidenceFits(specs, files, maxEvidenceBytes) && |files| < |specs|
    requires specs[|files|].name == EVIDENCE ==> |file| <= maxEvidenceBytes
    ensures EvidenceFits(specs, files + [file], maxEvidenceBytes)
  {
  }

  /** The body of the loop: one part checked, copied within its limits, and compared with its descriptor. */
  method StagePart(part: Part, spec: PartSpec, total: int, maxBundleBytes: int, maxEvidenceBytes: int,
      digest: string -> string, cancelled: nat -> bool)
    returns (file: string, error: Option<StagingError>)
    ensures error == None ==>
        && Matches(part, spec) && file == Join(part.chunks) && StatsOf(file, digest) == spec.stats
        && FitsPart(spec, |file|, total, maxBundleBytes, maxEvidenceBytes) && total + |file| <= MAX_INT64
    ensures error.Some? ==> Refused(part, spec, total, maxBundleBytes, maxEvidenceBytes, digest, error.value)
    ensures error == Some(Stream(Interrupted)) ==> exists k: nat :: cancelled(k)
  {
    hide Lines, Line, Newlines, Join;
    file := "";
    if !Matches(part, spec) { return file, Some(WrongPart); }
    var maxBytes := maxBundleBytes - total;
    if spec.name == EVIDENCE { maxBytes := Minimum(maxBytes, maxEvidenceBytes); }
    maxBytes := Minimum(maxBytes, spec.stats.bytes);
    var copied;
    copied, file := CopyPayload(part.chunks, maxBytes, digest, cancelled);
    if copied.Err? { return file, Some(Stream(copied.failure)); }
    var wrong := VerifySequenceStats(spec.stats, copied.value);
    if wrong.Some? { return file, Some(Stream(wrong.value)); }
    if total > MAX_INT64 - copied.value.bytes { return file, Some(Stream(LimitExceeded)); }
    error := None;
  }

  /** What an upload stored is read back later under the same descriptors, whatever chunks it came in, as
      long as its lines can be decoded. */
  lemma StagedSequenceReads<T(!new)>(f: Format<T>, m: BundleManifest, specs: seq<PartSpec>, parts: seq<Part>,
      files: seq<string>, i: nat, disk: Disk)
    requires Holds(specs, parts, files, f.digest) && i < |files|
    requires specs[i].stats == FileOf(m.files, specs[i].name) && specs[i].name in disk
    requires disk[specs[i].name] == Regular(files[i])
    requires Decodable(Lines(files[i]), f.decode(specs[i].name), f.accept(specs[i].name))
    requires MaxBytes(f, specs[i].name) > 0 ==> |files[i]| <= MaxBytes(f, specs[i].name)
    ensures SequenceReads(f, m, specs[i].name, disk)
    ensures DistinctDescriptors(m.files) ==>
        forall j | 0 <= j < |m.files| && m.files[j].name == specs[i].name :: FitsDescriptor(f, m.files[j], disk)
  {
    hide Lines, Decodable, FileOf, FitsDescriptor;
    if DistinctDescriptors(m.files) {
      forall j | 0 <= j < |m.files| && m.files[j].name == specs[i].name
        ensures FitsDescriptor(f, m.files[j], disk)
      {
        SequenceReadsExact(f, m, j, disk);
      }
    }
  }
}
