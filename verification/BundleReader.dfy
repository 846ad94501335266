/** Reading a bundle while somebody may be writing it (internal/bundle/codec.go:893-1260). The
    manifest and every sequence are opened at moments of their own; between two of them the directory
    may be in any later state. */
module BundleReader {
  import opened Facts
  import opened Publication
  import opened BundleWriter
  import opened Streaming

  const MANIFEST := "manifest.json"
  const ARTIFACTS := "artifacts.ndjson"
  const CONTRIBUTIONS := "contributions.ndjson"
  const EVIDENCE := "evidence.ndjson"
  const FRONTENDS := "frontend_manifests.ndjson"
  const FACTS := "facts.ndjson"
  const EXTENSIONS := "extensions.ndjson"

  datatype Descriptor = Descriptor(name: string, stats: SequenceStats)

  datatype BundleManifest = BundleManifest(v2: bool, evidenceAvailable: bool, files: seq<Descriptor>)

  /** One line of any sequence, how the lines of each sequence are decoded and validated; the limits; and what
      is known of JSON and SHA-256. */
  datatype Format<!T> = Format(
    digest: string -> string,
    decodeManifest: string -> Option<BundleManifest>,
    decode: string -> string -> Option<T>,
    accept: string -> T -> bool,
    maxBundleBytes: int,
    maxEvidenceBytes: int)

  /** The sequences of a bundle, in the order they are written and read. */
  function SequenceNames(v2: bool, evidenceAvailable: bool): seq<string> {
    [ARTIFACTS, CONTRIBUTIONS] + (if evidenceAvailable then [EVIDENCE] else [])
    + (if v2 then [FRONTENDS, FACTS, EXTENSIONS] else [])
  }

  function Names(m: BundleManifest): seq<string> {
    SequenceNames(m.v2, m.evidenceAvailable)
  }

  /** `filesByName(files)[name]`: the last descriptor of that name, or the zero descriptor. */
  function FileOf(files: seq<Descriptor>, name: string): (stats: SequenceStats) {
    if files == [] then SequenceStats(0, 0, "")
    else if files[|files| - 1].name == name then files[|files| - 1].stats
    else FileOf(files[..|files| - 1], name)
  }

  function MaxBytes<T>(f: Format<T>, name: string): int {
    if name == EVIDENCE then f.maxEvidenceBytes else f.maxBundleBytes
  }

  ghost predicate Holds(disk: Disk, name: string, bytes: string) {
    name in disk && disk[name] == Regular(bytes)
  }

  /** When one sequence is read successfully: it fits its descriptor. */
  ghost predicate SequenceReads<T(!new)>(f: Format<T>, m: BundleManifest, name: string, disk: Disk) {
    && name in disk && disk[name].Regular?
    && (MaxBytes(f, name) > 0 ==> FileOf(m.files, name).bytes <= MaxBytes(f, name))
    && VerifySequenceStats(FileOf(m.files, name), StatsOf(disk[name].bytes, f.digest)) == None
    && Decodable(Lines(disk[name].bytes), f.decode(name), f.accept(name))
  }

  ghost predicate DistinctDescriptors(files: seq<Descriptor>) {
    forall i, j | 0 <= i < j < |files| :: files[i].name != files[j].name
  }

  lemma {:induction false} FileOfExact(files: seq<Descriptor>, i: nat)
    requires i < |files| && DistinctDescriptors(files)
    ensures FileOf(files, files[i].name) == files[i].stats
  {
    if i < |files| - 1 { FileOfExact(files[..|files| - 1], i); }
  }

  /** A file is checked against the descriptor that bears its name, and against the limit for its kind. */
  ghost predicate FitsDescriptor<T(!new)>(f: Format<T>, d: Descriptor, disk: Disk) {
    && d.name in disk && disk[d.name].Regular?
    && StatsOf(disk[d.name].bytes, f.digest) == d.stats
    && (if d.name == EVIDENCE then f.maxEvidenceBytes > 0 ==> |disk[d.name].bytes| <= f.maxEvidenceBytes
        else f.maxBundleBytes > 0 ==> |disk[d.name].bytes| <= f.maxBundleBytes)
    && Decodable(Lines(disk[d.name].bytes), f.decode(d.name), f.accept(d.name))
  }

  lemma SequenceReadsExact<T(!new)>(f: Format<T>, m: BundleManifest, i: nat, disk: Disk)
    requires i < |m.files| && DistinctDescriptors(m.files)
    ensures SequenceReads(f, m, m.files[i].name, disk) <==> FitsDescriptor(f, m.files[i], disk)
  {
    hide Lines, Decodable, FileOf;
    FileOfExact(m.files, i);
  }

  ghost predicate PartRead<T(!new)>(f: Format<T>, m: BundleManifest, name: string, disk: Disk, values: seq<T>) {
    SequenceReads(f, m, name, disk) && DecodedAs(Lines(disk[name].bytes), f.decode(name), values)
  }

  /** What a successful read returns: the manifest of the first moment, and the decoded lines of each
      sequence at its own moment. */
  ghost predicate ReadsAs<T(!new)>(f: Format<T>, at: nat -> Disk, m: BundleManifest, values: seq<seq<T>>) {
    && (exists raw: string :: Holds(at(0), MANIFEST, raw) && f.decodeManifest(raw) == Some(m))
    && |values| == |Names(m)|
    && forall j: nat | j < |values| :: PartRead(f, m, Names(m)[j], At(at, j), values[j])
  }

  /** The directory when sequence `j` is opened. */
  function At(at: nat -> Disk, j: nat): Disk {
    at(j + 1)
  }

  ghost predicate SmallFiles(at: nat -> Disk) {
    forall n: nat, name: string | name in at(n) && at(n)[name].Regular? :: |at(n)[name].bytes| <= MAX_INT64
  }

  /** Numbers in a manifest are `int64`. */
  ghost predicate SmallNumbers<T(!new)>(f: Format<T>) {
    forall raw: string, name: string | f.decodeManifest(raw).Some? ::
        FileOf(f.decodeManifest(raw).value.files, name).bytes <= MAX_INT64
  }

  function Never(): nat -> bool {
    (n: nat) => false
  }

  /** `readSequenceFile` and the check that follows it. */
  method ReadSequence<T(!new)>(f: Format<T>, m: BundleManifest, name: string, disk: Disk) returns (r: Result<seq<T>>)
    requires f.maxBundleBytes <= MAX_INT64 && f.maxEvidenceBytes <= MAX_INT64
    requires FileOf(m.files, name).bytes <= MAX_INT64
    requires name in disk && disk[name].Regular? ==> |disk[name].bytes| <= MAX_INT64
    ensures r.Ok? <==> SequenceReads(f, m, name, disk)
    ensures r.Ok? ==> PartRead(f, m, name, disk, r.value)
    // What that means where names are distinct.
    ensures DistinctDescriptors(m.files) ==>
        forall i | 0 <= i < |m.files| && m.files[i].name == name :: r.Ok? <==> FitsDescriptor(f, m.files[i], disk)
  {
    hide Lines, Newlines, Decodable, DecodedAs, FitsDescriptor;
    if DistinctDescriptors(m.files) {
      forall i | 0 <= i < |m.files| && m.files[i].name == name
        ensures SequenceReads(f, m, name, disk) <==> FitsDescriptor(f, m.files[i], disk)
      {
        SequenceReadsExact(f, m, i, disk);
      }
    }
    if name !in disk || !disk[name].Regular? { return Err(Unreadable); }
    var data, expected, max := disk[name].bytes, FileOf(m.files, name), MaxBytes(f, name);
    if max > 0 && expected.bytes > max { return Err(LimitExceeded); }
    var stats, values := ReadNDJSON(data, expected.count, expected.bytes, f.digest, f.decode(name),
        f.accept(name), Never());
    if stats.Err? { return Err(stats.failure); }
    var wrong := VerifySequenceStats(expected, stats.value);
    r := if wrong.Some? then Err(wrong.value) else Ok(values);
  }

  lemma NoPart<T(!new)>(f: Format<T>, m: BundleManifest, name: string, disk: Disk)
    requires !SequenceReads(f, m, name, disk)
    ensures forall values :: !PartRead(f, m, name, disk, values)
  {
  }

  /** `ReadBundle` and `readExtendedBundle`, each file opened at a moment of its own. */
  method ReadBundle<T(!new)>(f: Format<T>, at: nat -> Disk) returns (r: Result<BundleManifest>, values: seq<seq<T>>)
    requires SmallFiles(at) && f.maxBundleBytes <= MAX_INT64 && f.maxEvidenceBytes <= MAX_INT64
    requires SmallNumbers(f)
    ensures r.Ok? ==> ReadsAs(f, at, r.value, values)
    ensures r.Err? ==> forall m, vs :: !ReadsAs(f, at, m, vs)
  {
    hide SequenceReads, PartRead;
    values := [];
    if MANIFEST !in at(0) || !at(0)[MANIFEST].Regular? { return Err(Unreadable), values; }
    var manifest := f.decodeManifest(at(0)[MANIFEST].bytes);
    if manifest.None? { return Err(Malformed), values; }
    var m := manifest.value;
    var names := Names(m);
    var j := 0;
    while j < |names|
      invariant 0 <= j <= |names| && |values| == j
      invariant forall i: nat | i < j :: PartRead(f, m, names[i], At(at, i), values[i])
    {
      var part := ReadSequence(f, m, names[j], At(at, j));
      if part.Err? {
        NoPart(f, m, names[j], At(at, j));
        return Err(part.failure), [];
      }
      values := values + [part.value];
      j := j + 1;
    }
    r := Ok(m);
  }

  // ---------- what is written is read back ----------

  /** The file of one sequence. */
  ghost function ContentOf<T(!new)>(encode: string -> T -> string, name: string, values: seq<T>): string {
    Join(Encoded(values, encode(name)))
  }

  /** How the values of each sequence are encoded, and that they fit what the reader asks. */
  ghost predicate Writable<T(!new)>(f: Format<T>, encode: string -> T -> string, name: string, values: seq<T>) {
    && LineCodec(encode(name), f.decode(name)) && (forall v | v in values :: f.accept(name)(v))
    && |ContentOf(encode, name, values)| <= MAX_INT64
    && (if name == EVIDENCE then f.maxEvidenceBytes > 0 ==> |ContentOf(encode, name, values)| <= f.maxEvidenceBytes
        else f.maxBundleBytes > 0 ==> |ContentOf(encode, name, values)| <= f.maxBundleBytes)
  }

  /** One sequence as it was written, with its descriptor. */
  ghost predicate SequenceWritten<T(!new)>(f: Format<T>, encode: string -> T -> string, d: Descriptor,
      values: seq<T>, disk: Disk) {
    && Holds(disk, d.name, ContentOf(encode, d.name, values))
    && d.stats == StatsOf(ContentOf(encode, d.name, values), f.digest)
  }

  /** The first sequences of a bundle with these names, written and listed in order. */
  ghost predicate Written<T(!new)>(f: Format<T>, encode: string -> T -> string, names: seq<string>,
      written: seq<seq<T>>, files: seq<Descriptor>, disk: Disk) {
    && |files| <= |names| == |written|
    && forall j | 0 <= j < |files| ::
        files[j].name == names[j] && SequenceWritten(f, encode, files[j], written[j], disk)
  }

  lemma WrittenReads<T(!new)>(f: Format<T>, encode: string -> T -> string, d: Descriptor, values: seq<T>, disk: Disk)
    requires Writable(f, encode, d.name, values) && SequenceWritten(f, encode, d, values, disk)
    ensures FitsDescriptor(f, d, disk)
    ensures forall back :: DecodedAs(Lines(disk[d.name].bytes), f.decode(d.name), back) <==> back == values
  {
    hide Lines, Join, Encoded;
    forall back
      ensures DecodedAs(Lines(disk[d.name].bytes), f.decode(d.name), back) <==> back == values
    {
      SequenceRoundTrip(values, encode(d.name), f.decode(d.name), f.accept(d.name), f.digest, Never(), back);
    }
    SequenceRoundTrip(values, encode(d.name), f.decode(d.name), f.accept(d.name), f.digest, Never(), values);
  }

  /** While nobody writes, the sequences that were written and listed are read back as they were, and nothing
      else is. */
  lemma BundleRoundTrip<T(!new)>(f: Format<T>, encode: string -> T -> string, m: BundleManifest, written: seq<seq<T>>,
      at: nat -> Disk, disk: Disk)
    requires forall n: nat :: at(n) == disk
    requires exists raw: string :: Holds(disk, MANIFEST, raw) && f.decodeManifest(raw) == Some(m)
    requires Written(f, encode, Names(m), written, m.files, disk)
    requires |m.files| == |Names(m)| && DistinctDescriptors(m.files)
    requires forall j | 0 <= j < |written| :: Writable(f, encode, Names(m)[j], written[j])
    ensures forall n, back :: ReadsAs(f, at, n, back) <==> n == m && back == written
  {
    hide Lines, SequenceReads, FitsDescriptor, Writable, SequenceWritten, DecodedAs, SequenceNames;
    var names := Names(m);
    forall j: nat, back | j < |names|
      ensures PartRead(f, m, names[j], At(at, j), back) <==> back == written[j]
    {
      assert At(at, j) == disk;
      assert m.files[j].name == names[j];
      WrittenReads(f, encode, m.files[j], written[j], disk);
      SequenceReadsExact(f, m, j, disk);
    }
    assert at(0) == disk;
    forall n, back
      ensures ReadsAs(f, at, n, back) <==> n == m && back == written
    {
      if ReadsAs(f, at, n, back) {
        assert n == m;
        forall j: nat | j < |names|
          ensures back[j] == written[j]
        {
          assert PartRead(f, m, names[j], At(at, j), back[j]);
        }
      }
    }
  }

  /** The sequences written one after the other and listed with their totals, the manifest beside them, and
      all of it read again. */
  method WriteThenRead<T(!new)>(f: Format<T>, encode: string -> T -> string, encodeManifest: BundleManifest -> string,
      v2: bool, evidenceAvailable: bool, written: seq<seq<T>>)
    returns (r: Result<BundleManifest>, values: seq<seq<T>>)
    requires |written| == |SequenceNames(v2, evidenceAvailable)|
    requires forall j | 0 <= j < |written| :: Writable(f, encode, SequenceNames(v2, evidenceAvailable)[j], written[j])
    requires forall m :: f.decodeManifest(encodeManifest(m)) == Some(m) && |encodeManifest(m)| <= MAX_INT64
    requires SmallNumbers(f) && f.maxBundleBytes <= MAX_INT64 && f.maxEvidenceBytes <= MAX_INT64
    ensures r.Ok? && r.value.v2 == v2 && r.value.evidenceAvailable == evidenceAvailable && values == written
  {
    hide Lines, Encoded, Join, SequenceNames, LineCodec, SequenceReads;
    var names := SequenceNames(v2, evidenceAvailable);
    NamesAreDistinct(v2, evidenceAvailable);
    var files: seq<Descriptor>, disk: Disk := [], map[];
    while |files| < |names|
      invariant |files| <= |names| && Written(f, encode, names, written, files, disk) && SmallDisk(disk)
      invariant forall x | x in disk :: exists j :: 0 <= j < |files| && names[j] == x
    {
      var n := |files|;
      var stats, content := WriteSequence(written[n], encode(names[n]), f.digest, Never());
      assert Writable(f, encode, names[n], written[n]);
      assert stats.Ok? && content == ContentOf(encode, names[n], written[n]);
      OneLines(encode(names[n]), f.decode(names[n]));
      MoreIsWritten(f, encode, names, written, files, disk, Descriptor(names[n], stats.value));
      files, disk := files + [Descriptor(names[n], stats.value)], disk[names[n] := Regular(content)];
    }
    var m := BundleManifest(v2, evidenceAvailable, files);
    var all := disk[MANIFEST := Regular(encodeManifest(m))];
    ManifestKeeps(f, encode, names, written, files, disk, encodeManifest(m));
    ListedDistinctly(f, encode, names, written, files, disk);
    var at := (n: nat) => all;
    r, values := ReadBundle(f, at);
    assert Holds(all, MANIFEST, encodeManifest(m));
    BundleRoundTrip(f, encode, m, written, at, all);
    assert ReadsAs(f, at, m, written);
  }

  ghost predicate SmallDisk(disk: Disk) {
    forall name | name in disk && disk[name].Regular? :: |disk[name].bytes| <= MAX_INT64
  }

  lemma OneLines<T(!new)>(encode: T -> string, decode: string -> Option<T>)
    requires LineCodec(encode, decode)
    ensures forall v: T :: OneLine(encode(v))
  {
  }

  lemma MoreIsWritten<T(!new)>(f: Format<T>, encode: string -> T -> string, names: seq<string>, written: seq<seq<T>>,
      files: seq<Descriptor>, disk: Disk, d: Descriptor)
    requires Written(f, encode, names, written, files, disk) && |files| < |names| && NameDistinct(names + [MANIFEST])
    requires d == Descriptor(names[|files|], StatsOf(ContentOf(encode, names[|files|], written[|files|]), f.digest))
    ensures Written(f, encode, names, written, files + [d],
        disk[d.name := Regular(ContentOf(encode, d.name, written[|files|]))])
  {
    hide Lines, ContentOf;
    var all := names + [MANIFEST];
    forall j | 0 <= j < |files|
      ensures names[j] != d.name
    {
      assert all[j] != all[|files|];
    }
  }

  lemma ManifestKeeps<T(!new)>(f: Format<T>, encode: string -> T -> string, names: seq<string>, written: seq<seq<T>>,
      files: seq<Descriptor>, disk: Disk, raw: string)
    requires Written(f, encode, names, written, files, disk) && NameDistinct(names + [MANIFEST])
    ensures Written(f, encode, names, written, files, disk[MANIFEST := Regular(raw)])
  {
    hide Lines, ContentOf;
    var all := names + [MANIFEST];
    forall j | 0 <= j < |files|
      ensures names[j] != MANIFEST
    {
      assert all[j] != all[|names|];
    }
  }

  lemma ListedDistinctly<T(!new)>(f: Format<T>, encode: string -> T -> string, names: seq<string>, written: seq<seq<T>>,
      files: seq<Descriptor>, disk: Disk)
    requires Written(f, encode, names, written, files, disk) && NameDistinct(names + [MANIFEST])
    ensures DistinctDescriptors(files)
  {
    hide SequenceWritten;
    var all := names + [MANIFEST];
    forall i, j | 0 <= i < j < |files|
      ensures files[i].name != files[j].name
    {
      assert all[i] != all[j];
    }
  }

  // ---------- readers and a writer ----------

  ghost predicate DescribedIn<T(!new)>(f: Format<T>, m: BundleManifest, name: string, disk: Disk) {
    name in disk && disk[name].Regular? && StatsOf(disk[name].bytes, f.digest) == FileOf(m.files, name)
  }

  /** A directory with a manifest and every sequence that manifest describes. */
  ghost predicate Complete<T(!new)>(f: Format<T>, disk: Disk, m: BundleManifest) {
    && (exists raw: string :: Holds(disk, MANIFEST, raw) && f.decodeManifest(raw) == Some(m))
    && forall j | 0 <= j < |Names(m)| :: DescribedIn(f, m, Names(m)[j], disk)
  }

  ghost predicate SequenceIs<T(!new)>(f: Format<T>, disk: Disk, name: string, values: seq<T>) {
    name in disk && disk[name].Regular? && DecodedAs(Lines(disk[name].bytes), f.decode(name), values)
  }

  /** These are the values in that directory. */
  ghost predicate ValuesOf<T(!new)>(f: Format<T>, disk: Disk, m: BundleManifest, values: seq<seq<T>>) {
    |values| == |Names(m)| && forall j | 0 <= j < |values| :: SequenceIs(f, disk, Names(m)[j], values[j])
  }

  lemma PartIsThat<T(!new)>(f: Format<T>, m: BundleManifest, name: string, seen: Disk, disk: Disk, values: seq<T>)
    requires InjectiveDigest(f.digest) && PartRead(f, m, name, seen, values) && DescribedIn(f, m, name, disk)
    ensures SequenceIs(f, disk, name, values)
  {
    hide Lines, DecodedAs, Decodable;
    assert f.digest(seen[name].bytes) == f.digest(disk[name].bytes);
  }

  lemma SequencesOfManifest<T(!new)>(f: Format<T>, at: nat -> Disk, m: BundleManifest, values: seq<seq<T>>, disk: Disk)
    requires InjectiveDigest(f.digest) && ReadsAs(f, at, m, values) && Complete(f, disk, m)
    ensures ValuesOf(f, disk, m, values)
  {
    hide PartRead, DescribedIn, SequenceIs;
    forall j | 0 <= j < |values|
      ensures SequenceIs(f, disk, Names(m)[j], values[j])
    {
      PartIsThat(f, m, Names(m)[j], At(at, j), disk, values[j]);
    }
  }

  lemma ManifestSeen(p: Plan, st: Disk, raw: string)
    requires ValidPlan(p) && KnownManifest(p, st) && Holds(st, p.manifest, raw)
    ensures (p.manifest in p.before && Holds(p.before, p.manifest, raw)) || Holds(p.after, p.manifest, raw)
  {
  }

  /** Whatever a writer does between the moments at which a reader opens its files, the reader fails or
      returns the old bundle or the new bundle, never a mixture. */
  lemma ReaderSeesOneBundle<T(!new)>(f: Format<T>, p: Plan, at: nat -> Disk, m: BundleManifest, values: seq<seq<T>>,
      oldManifest: BundleManifest, newManifest: BundleManifest)
    requires ValidPlan(p) && p.manifest == MANIFEST && InjectiveDigest(f.digest) && KnownManifest(p, at(0))
    requires (MANIFEST in p.before ==> Complete(f, p.before, oldManifest)) && Complete(f, p.after, newManifest)
    requires ReadsAs(f, at, m, values)
    ensures (MANIFEST in p.before && m == oldManifest && ValuesOf(f, p.before, oldManifest, values))
        || (m == newManifest && ValuesOf(f, p.after, newManifest, values))
  {
    hide DescribedIn, SequenceIs, PartRead, KnownManifest;
    var raw: string :| Holds(at(0), MANIFEST, raw) && f.decodeManifest(raw) == Some(m);
    ManifestSeen(p, at(0), raw);
    if MANIFEST in p.before && Holds(p.before, MANIFEST, raw) {
      assert m == oldManifest;
      SequencesOfManifest(f, at, m, values, p.before);
    } else {
      assert m == newManifest;
      SequencesOfManifest(f, at, m, values, p.after);
    }
  }

  ghost predicate FitsLimits<T(!new)>(f: Format<T>, m: BundleManifest, disk: Disk) {
    forall j | 0 <= j < |Names(m)| ::
      && DescribedIn(f, m, Names(m)[j], disk)
      && Decodable(Lines(disk[Names(m)[j]].bytes), f.decode(Names(m)[j]), f.accept(Names(m)[j]))
      && (MaxBytes(f, Names(m)[j]) > 0 ==> FileOf(m.files, Names(m)[j]).bytes <= MaxBytes(f, Names(m)[j]))
  }

  ghost function Decoding<T(!new)>(lines: seq<string>, f: Format<T>, name: string): (values: seq<T>)
    requires Decodable(lines, f.decode(name), f.accept(name))
    ensures DecodedAs(lines, f.decode(name), values)
  {
    seq(|lines|, i requires 0 <= i < |lines| => f.decode(name)(lines[i]).value)
  }

  /** While nobody writes, a reader gets the bundle that is there. */
  lemma QuietRead<T(!new)>(f: Format<T>, p: Plan, at: nat -> Disk, m: BundleManifest) returns (values: seq<seq<T>>)
    requires ValidPlan(p) && p.manifest == MANIFEST && (forall n: nat :: NewView(p, at(n)))
    requires Complete(f, p.after, m) && FitsLimits(f, m, p.after)
    ensures ReadsAs(f, at, m, values) && ValuesOf(f, p.after, m, values)
  {
    hide Lines, Decodable, DecodedAs;
    var raw: string :| Holds(p.after, MANIFEST, raw) && f.decodeManifest(raw) == Some(m);
    assert Holds(at(0), MANIFEST, raw);
    var names := Names(m);
    values := [];
    while |values| < |names|
      invariant |values| <= |names|
      invariant forall j: nat | j < |values| ::
          PartRead(f, m, names[j], At(at, j), values[j]) && SequenceIs(f, p.after, names[j], values[j])
    {
      var name := names[|values|];
      assert DescribedIn(f, m, name, p.after);
      var seen := At(at, |values|);
      assert NewView(p, at(|values| + 1));
      assert seen[name] == p.after[name];
      values := values + [Decoding(Lines(p.after[name].bytes), f, name)];
    }
  }

  /** A reader beside any write, even one whose rollback fails: it may open its files in any of the states
      the write goes through, in any order. */
  lemma InterleavedRead<T(!new)>(f: Format<T>, p: Plan, trace: seq<Disk>, start: nat, moments: nat -> nat,
      m: BundleManifest, values: seq<seq<T>>, oldManifest: BundleManifest, newManifest: BundleManifest)
    requires ValidPlan(p) && p.manifest == MANIFEST && InjectiveDigest(f.digest)
    requires Familiar(p, trace, start) && forall n: nat :: start <= moments(n) < |trace|
    requires (MANIFEST in p.before ==> Complete(f, p.before, oldManifest)) && Complete(f, p.after, newManifest)
    requires ReadsAs(f, (n: nat) => if moments(n) < |trace| then trace[moments(n)] else map[], m, values)
    ensures (MANIFEST in p.before && m == oldManifest && ValuesOf(f, p.before, oldManifest, values))
        || (m == newManifest && ValuesOf(f, p.after, newManifest, values))
  {
    hide ReadsAs, Complete, ValuesOf, KnownManifest;
    var at := (n: nat) => if moments(n) < |trace| then trace[moments(n)] else map[];
    assert KnownManifest(p, trace[moments(0)]);
    ReaderSeesOneBundle(f, p, at, m, values, oldManifest, newManifest);
  }

  // ---------- the names ----------

  /** What `writeBundle` removes after the commit. */
  function Obsolete(evidenceLimited: bool): seq<string> {
    if evidenceLimited then [EVIDENCE] else []
  }

  ghost predicate NameDistinct(names: seq<string>) {
    forall i, j | 0 <= i < j < |names| :: names[i] != names[j]
  }

  lemma NamesAreDistinct(v2: bool, evidenceAvailable: bool)
    ensures NameDistinct(SequenceNames(v2, evidenceAvailable) + [MANIFEST])
    ensures EVIDENCE in SequenceNames(v2, evidenceAvailable) <==> evidenceAvailable
  {
    assert |ARTIFACTS| == 16 && |CONTRIBUTIONS| == 20 && |EVIDENCE| == 15 && |FRONTENDS| == 25 && |FACTS| == 12
        && |EXTENSIONS| == 17 && |MANIFEST| == 13;
  }

  lemma FirstVersionNames(evidenceAvailable: bool, limited: bool)
    ensures (set x | x in SequenceNames(false, evidenceAvailable) + [MANIFEST]) + (set x | x in Obsolete(limited))
            == {ARTIFACTS, CONTRIBUTIONS, MANIFEST} + (if evidenceAvailable || limited then {EVIDENCE} else {})
    ensures (set x | x in SequenceNames(true, true) + [MANIFEST])
            == {ARTIFACTS, CONTRIBUTIONS, MANIFEST} + {EVIDENCE} + {FRONTENDS, FACTS, EXTENSIONS}
  {
  }

  lemma WithinExact(before: set<string>, kept: set<string>, one: string, dropped: set<string>, touched: bool)
    requires one !in kept && one !in dropped && kept !! dropped && before <= kept + {one} + dropped
    ensures before <= kept + (if touched then {one} else {}) <==> before !! dropped && (one in before ==> touched)
  {
  }

  /** A first-version bundle written over another bundle: without a failed call the directory holds exactly
      the new files if and only if there were no files that only the second version has, and no evidence
      unless the new bundle brings its own or drops it. */
  lemma StaleSequencesExact(before: Disk, targets: seq<Target>, evidenceAvailable: bool, limited: bool, disk: Disk)
    requires DistinctTargets(targets) && targets != []
    requires BundleWriter.Names(targets) == (set x | x in SequenceNames(false, evidenceAvailable) + [MANIFEST])
    requires before.Keys <= (set x | x in SequenceNames(true, true) + [MANIFEST])
    requires AfterSuccess(PlanOf(before, targets, Obsolete(limited)), disk, [])
    ensures disk == Contents(targets) <==>
              before.Keys !! {FRONTENDS, FACTS, EXTENSIONS} && (EVIDENCE in before ==> evidenceAvailable || limited)
    ensures forall x | x in {FRONTENDS, FACTS, EXTENSIONS} && x in before :: x in disk && disk[x] == before[x]
  {
    hide AfterSuccess, SequenceNames, Obsolete, Contents;
    var p := PlanOf(before, targets, Obsolete(limited));
    ContentsExact(targets);
    TouchedExact(p, targets, Obsolete(limited));
    CleanResultExact(p, disk);
    FirstVersionNames(evidenceAvailable, limited);
    NamesApart();
    WithinExact(before.Keys, {ARTIFACTS, CONTRIBUTIONS, MANIFEST}, EVIDENCE, {FRONTENDS, FACTS, EXTENSIONS},
        evidenceAvailable || limited);
  }

  lemma NamesApart()
    ensures EVIDENCE !in {ARTIFACTS, CONTRIBUTIONS, MANIFEST} && EVIDENCE !in {FRONTENDS, FACTS, EXTENSIONS}
    ensures {ARTIFACTS, CONTRIBUTIONS, MANIFEST} !! {FRONTENDS, FACTS, EXTENSIONS}
  {
    assert |ARTIFACTS| == 16 && |CONTRIBUTIONS| == 20 && |EVIDENCE| == 15 && |FRONTENDS| == 25 && |FACTS| == 12
           && |EXTENSIONS| == 17 && |MANIFEST| == 13;
  }
}
