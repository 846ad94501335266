/** Publishing staged bundles under their keys: concurrent publishers of the same key, failing calls and
    crashes between any two steps (internal/cli/serve_ingestion.go:102-211, 282-311, 349-378). */
module StagingPublish {
  import opened AnalyzerOutput

  const READY := ".ready"
  const NEWLINE := "\n"

  type Files = map<string, string>

  type Root = map<string, Files>

  /** What a key is the digest of. */
  datatype BundleId = BundleId(organization: string, sourceId: string, snapshotId: string, factualDigest: string,
      configurationId: string)

  /** A call of `serveReadyDirectory`: the one at the start, the one before the rename, the one after it. */
  datatype Place = First | Second | AfterMove

  datatype Phase =
    | Look(at: Place) | LookMarker(at: Place) | Verify(at: Place)
    | Inspect | MakeMarker | WriteMarker | Replace | Move | SyncRoot
    | Drop(ok: bool) | CreateJob | Done | Failed

  datatype Publisher = Publisher(id: BundleId, staged: string, payload: Files, phase: Phase)

  datatype Job = Job(id: BundleId)

  datatype World = World(root: Root, publishers: seq<Publisher>, jobs: set<Job>)

  /** One step of a publisher, whose call may fail; the end of one publisher at any point; a new publisher
      with its staged payload; the end of everything running. */
  datatype Step = Go(i: nat) | Fail(i: nat) | Vanish(i: nat) | Arrive(p: Publisher) | Crash

  /** 64 hexadecimal digits: staging directories are never called that. */
  predicate IsKey(name: string) {
    |name| == 64 && forall i | 0 <= i < 64 :: name[i] in "0123456789abcdef"
  }

  predicate Complete(files: Files) {
    "manifest.json" in files && "artifacts.ndjson" in files && "contributions.ndjson" in files
  }

  function Marker(id: BundleId): string {
    id.factualDigest + NEWLINE
  }

  /** `verifyServeReadyDigest`. */
  predicate Verified(files: Files, id: BundleId) {
    READY in files && |files[READY]| <= 128 && Trim(files[READY]) == id.factualDigest
  }

  /** The phase after a call of `serveReadyDirectory` that found nothing there. */
  function NotReady(at: Place): Phase {
    match at case First => Inspect case Second => Replace case AfterMove => Drop(false)
  }

  function NotThere(at: Place): Phase {
    match at case First => Inspect case Second => Move case AfterMove => Drop(false)
  }

  ghost predicate Can(keyOf: BundleId -> string, w: World, step: Step) {
    match step
    case Go(i) => i < |w.publishers| && !w.publishers[i].phase.Done? && !w.publishers[i].phase.Failed?
                  && (w.publishers[i].phase in {MakeMarker, WriteMarker, Inspect} ==> w.publishers[i].staged in w.root)
    case Fail(i) => i < |w.publishers| && !w.publishers[i].phase.Done? && !w.publishers[i].phase.Failed?
    case Vanish(i) => i < |w.publishers|
    case Arrive(p) => p.staged !in w.root && !IsKey(p.staged) && p.phase == Look(First) && READY !in p.payload
                      && forall q | q in w.publishers :: q.staged != p.staged
    case Crash => true
  }

  /** The directory and the phase after a publisher's step. */
  ghost function Act(key: string, root: Root, p: Publisher): (Root, Phase)
    requires p.phase in {MakeMarker, WriteMarker, Inspect} ==> p.staged in root
  {
    match p.phase
    case Look(at) => (root, if key in root then LookMarker(at) else NotThere(at))
    case LookMarker(at) => (root, if key in root && READY in root[key] then Verify(at) else NotReady(at))
    case Verify(_) => (root, if key in root && Verified(root[key], p.id) then Drop(true) else Drop(false))
    case Inspect => (root, if Complete(root[p.staged]) then MakeMarker else Drop(false))
    case MakeMarker => if READY in root[p.staged] then (root, Drop(false))
        else (root[p.staged := root[p.staged][READY := ""]], WriteMarker)
    case WriteMarker => (root[p.staged := root[p.staged][READY := Marker(p.id)]], Look(Second))
    case Replace => (root - {key}, Move)
    // A rename onto a directory that is not empty reports that it exists.
    case Move =>
      if p.staged !in root then (root, Drop(false))
      else if key in root && root[key] != map[] then (root, Look(AfterMove))
      else ((root - {p.staged})[key := root[p.staged]], SyncRoot)
    case SyncRoot => (root, CreateJob)
    case Drop(ok) => (root - {p.staged}, if ok then CreateJob else Failed)
    case _ => (root, p.phase)
  }

  /** The phase after a failed call: the error is answered by dropping what was staged. */
  function AfterFailure(phase: Phase): Phase {
    if phase.Drop? || phase.CreateJob? then Failed else Drop(false)
  }

  ghost function Do(keyOf: BundleId -> string, w: World, step: Step): World
    requires Can(keyOf, w, step)
  {
    match step
    case Go(i) =>
      var p := w.publishers[i];
      if p.phase == CreateJob then w.(publishers := w.publishers[i := p.(phase := Done)], jobs := w.jobs + {Job(p.id)})
      else
        var (root, phase) := Act(keyOf(p.id), w.root, p);
        w.(root := root, publishers := w.publishers[i := p.(phase := phase)])
    case Fail(i) => w.(publishers := w.publishers[i := w.publishers[i].(phase := AfterFailure(w.publishers[i].phase))])
    case Vanish(i) => w.(publishers := w.publishers[i := w.publishers[i].(phase := Failed)])
    case Arrive(p) => w.(root := w.root[p.staged := p.payload], publishers := w.publishers + [p])
    case Crash => w.(publishers := [])
  }

  ghost predicate Runs(keyOf: BundleId -> string, w: World, steps: seq<Step>, end: World)
    decreases |steps|
  {
    if steps == [] then end == w else Can(keyOf, w, steps[0]) && Runs(keyOf, Do(keyOf, w, steps[0]), steps[1..], end)
  }

  // ---------- what every state keeps ----------

  /** Complete files and the marker of one of these bundles, with this key. */
  ghost predicate Published(keyOf: BundleId -> string, ids: iset<BundleId>, key: string, files: Files) {
    Complete(files) && exists id: BundleId ::
        id in ids && keyOf(id) == key && READY in files && files[READY] == Marker(id)
  }

  ghost predicate FinalsPublished(keyOf: BundleId -> string, ids: iset<BundleId>, root: Root) {
    forall key | key in root && IsKey(key) :: Published(keyOf, ids, key, root[key])
  }

  ghost predicate KeysAreKeys(keyOf: BundleId -> string) {
    forall id: BundleId :: IsKey(keyOf(id))
  }

  /** How far the staged directory is. */
  ghost predicate StagedAt(root: Root, p: Publisher) {
    match p.phase
    case Look(at) => if at == First then p.staged in root && root[p.staged] == p.payload else Sealed(root, p)
    case LookMarker(at) => if at == First then p.staged in root && root[p.staged] == p.payload else Sealed(root, p)
    case Verify(at) => true
    case Inspect => p.staged in root && root[p.staged] == p.payload
    case MakeMarker => p.staged in root && root[p.staged] == p.payload && Complete(p.payload)
    case WriteMarker => p.staged in root && root[p.staged] == p.payload[READY := ""] && Complete(p.payload)
    case Move => Sealed(root, p)
    case _ => true
  }

  ghost predicate Sealed(root: Root, p: Publisher) {
    p.staged in root && root[p.staged] == p.payload[READY := Marker(p.id)] && Complete(p.payload)
  }

  /** Its bundle can be loaded under its key. */
  ghost predicate Loadable(keyOf: BundleId -> string, root: Root, id: BundleId) {
    keyOf(id) in root && Verified(root[keyOf(id)], id)
  }

  ghost predicate Standing(keyOf: BundleId -> string, root: Root, p: Publisher) {
    && !IsKey(p.staged) && READY !in p.payload && p.phase != Replace && StagedAt(root, p)
    && (p.phase.LookMarker? || p.phase.Verify? || p.phase == Look(AfterMove) ==> keyOf(p.id) in root)
    && (p.phase == SyncRoot || p.phase == Drop(true) || p.phase == CreateJob ==> Loadable(keyOf, root, p.id))
  }

  /** What holds in every state while only these bundles are ever published. */
  ghost predicate Inv(keyOf: BundleId -> string, ids: iset<BundleId>, w: World) {
    && FinalsPublished(keyOf, ids, w.root)
    && (forall i | 0 <= i < |w.publishers| ::
        Standing(keyOf, w.root, w.publishers[i]) && w.publishers[i].id in ids && CleanDigest(w.publishers[i].id))
    && (forall i, j | 0 <= i < |w.publishers| && 0 <= j < |w.publishers| && i != j ::
        w.publishers[i].staged != w.publishers[j].staged)
    && (forall j | j in w.jobs :: Loadable(keyOf, w.root, j.id))
  }

  /** A digest as it is written: not blank at either end and short. */
  ghost predicate CleanDigest(id: BundleId) {
    var d := id.factualDigest;
    0 < |d| <= 127 && !IsSpace(d[0]) && !IsSpace(d[|d| - 1])
  }

  lemma MarkerVerifies(files: Files, id: BundleId)
    requires CleanDigest(id) && READY in files && files[READY] == Marker(id)
    ensures Verified(files, id)
  {
    var d := id.factualDigest;
    var m := Marker(id);
    assert m[0] == d[0];
    assert TrimLeft(m) == m;
    assert m[|m| - 1] == '\n' && m[..|m| - 1] == d;
    assert TrimRight(d) == d;
    assert TrimRight(m) == TrimRight(m[..|m| - 1]);
  }

  /** Every final directory is where it was, as it was. */
  ghost predicate FinalsKept(a: Root, b: Root) {
    forall key | key in a && IsKey(key) :: key in b && b[key] == a[key]
  }

  /** Only the own staging directory and new finals change. */
  ghost predicate OnlyOwn(a: Root, b: Root, staged: string) {
    forall name | name != staged && !IsKey(name) :: (name in a <==> name in b) && (name in a ==> a[name] == b[name])
  }

  /** A publisher's step keeps every final directory and leaves the publisher in order. */
  ghost predicate ActsWell(keyOf: BundleId -> string, ids: iset<BundleId>, root: Root, p: Publisher, after: Root,
      phase: Phase) {
    FinalsKept(root, after) && OnlyOwn(root, after, p.staged) && FinalsPublished(keyOf, ids, after)
        && Standing(keyOf, after, p.(phase := phase))
  }

  lemma LookKeeps(keyOf: BundleId -> string, ids: iset<BundleId>, root: Root, p: Publisher)
    requires KeysAreKeys(keyOf) && FinalsPublished(keyOf, ids, root) && Standing(keyOf, root, p)
    requires p.phase.Look? || p.phase.LookMarker? || p.phase.Verify? || p.phase == SyncRoot || p.phase == Done
        || p.phase == Failed
    ensures var (after, phase) := Act(keyOf(p.id), root, p); ActsWell(keyOf, ids, root, p, after, phase)
  {
    hide IsKey, Complete, Verified;
    var key := keyOf(p.id);
    assert IsKey(key);
    if key in root { assert Published(keyOf, ids, key, root[key]); }
  }

  lemma InspectKeeps(keyOf: BundleId -> string, ids: iset<BundleId>, root: Root, p: Publisher)
    requires FinalsPublished(keyOf, ids, root) && Standing(keyOf, root, p) && p.phase == Inspect
    ensures p.staged in root
    ensures var (after, phase) := Act(keyOf(p.id), root, p); ActsWell(keyOf, ids, root, p, after, phase)
  {
    hide IsKey, Complete, Verified, Published;
  }

  lemma MarkKeeps(keyOf: BundleId -> string, ids: iset<BundleId>, root: Root, p: Publisher)
    requires FinalsPublished(keyOf, ids, root) && Standing(keyOf, root, p)
    requires (p.phase == MakeMarker || p.phase == WriteMarker)
    ensures p.staged in root
    ensures var (after, phase) := Act(keyOf(p.id), root, p); ActsWell(keyOf, ids, root, p, after, phase)
  {
    hide IsKey, Complete, Verified, Published;
    assert p.payload[READY := ""][READY := Marker(p.id)] == p.payload[READY := Marker(p.id)];
  }

  lemma MoveKeeps(keyOf: BundleId -> string, ids: iset<BundleId>, root: Root, p: Publisher)
    requires KeysAreKeys(keyOf) && FinalsPublished(keyOf, ids, root) && Standing(keyOf, root, p) && p.id in ids
    requires CleanDigest(p.id) && p.phase == Move
    ensures var (after, phase) := Act(keyOf(p.id), root, p); ActsWell(keyOf, ids, root, p, after, phase)
  {
    hide IsKey, Complete, Verified, CleanDigest;
    var key := keyOf(p.id);
    assert IsKey(key);
    if key in root {
      assert Published(keyOf, ids, key, root[key]);
      assert READY in root[key];
    } else {
      var sealed := root[p.staged];
      assert sealed[READY] == Marker(p.id);
      MarkerVerifies(sealed, p.id);
      CompleteStays(p.payload, Marker(p.id));
      assert Published(keyOf, ids, key, sealed);
    }
  }

  lemma DropKeeps(keyOf: BundleId -> string, ids: iset<BundleId>, root: Root, p: Publisher)
    requires KeysAreKeys(keyOf) && FinalsPublished(keyOf, ids, root) && Standing(keyOf, root, p) && p.phase.Drop?
    ensures var (after, phase) := Act(keyOf(p.id), root, p); ActsWell(keyOf, ids, root, p, after, phase)
  {
    hide IsKey, Complete, Verified, Published;
    assert IsKey(keyOf(p.id));
  }

  lemma ActKeeps(keyOf: BundleId -> string, ids: iset<BundleId>, root: Root, p: Publisher)
    requires KeysAreKeys(keyOf) && FinalsPublished(keyOf, ids, root) && Standing(keyOf, root, p) && p.id in ids
    requires CleanDigest(p.id) && p.phase != CreateJob
    requires p.phase in {MakeMarker, WriteMarker, Inspect} ==> p.staged in root
    ensures var (after, phase) := Act(keyOf(p.id), root, p); ActsWell(keyOf, ids, root, p, after, phase)
  {
    hide ActsWell, Act, FinalsPublished, CleanDigest, StagedAt, Loadable;
    match p.phase
    case Inspect => InspectKeeps(keyOf, ids, root, p);
    case MakeMarker => MarkKeeps(keyOf, ids, root, p);
    case WriteMarker => MarkKeeps(keyOf, ids, root, p);
    case Move => MoveKeeps(keyOf, ids, root, p);
    case Drop(_) => DropKeeps(keyOf, ids, root, p);
    case _ => LookKeeps(keyOf, ids, root, p);
  }

  lemma CompleteStays(files: Files, marker: string)
    requires Complete(files)
    ensures Complete(files[READY := marker])
  {
    assert |READY| == 6 && |"manifest.json"| == 13 && |"artifacts.ndjson"| == 16 && |"contributions.ndjson"| == 20;
  }

  lemma StandingStays(keyOf: BundleId -> string, a: Root, b: Root, q: Publisher, staged: string)
    requires KeysAreKeys(keyOf) && Standing(keyOf, a, q) && FinalsKept(a, b) && OnlyOwn(a, b, staged)
    requires q.staged != staged
    ensures Standing(keyOf, b, q)
  {
    hide IsKey, Complete, Verified;
    assert IsKey(keyOf(q.id));
  }

  lemma LoadableStays(keyOf: BundleId -> string, a: Root, b: Root, id: BundleId)
    requires KeysAreKeys(keyOf) && Loadable(keyOf, a, id) && FinalsKept(a, b)
    ensures Loadable(keyOf, b, id)
  {
    assert IsKey(keyOf(id));
  }

  /** No step of any publisher alters or removes a final directory. */
  lemma StepKeepsInv(keyOf: BundleId -> string, ids: iset<BundleId>, w: World, step: Step)
    requires KeysAreKeys(keyOf) && Inv(keyOf, ids, w) && Can(keyOf, w, step)
    requires (step.Arrive? ==> step.p.id in ids && CleanDigest(step.p.id))
    ensures Inv(keyOf, ids, Do(keyOf, w, step)) && FinalsKept(w.root, Do(keyOf, w, step).root)
  {
    hide Standing, FinalsPublished, CleanDigest, IsKey, Loadable, Act;
    var t := Do(keyOf, w, step);
    match step
    case Go(i) => GoKeepsInv(keyOf, ids, w, i);
    case Fail(i) => FailStands(keyOf, w.root, w.publishers[i]);
    case Vanish(i) => FailStands(keyOf, w.root, w.publishers[i]);
    case Arrive(p) =>
      ArriveStands(keyOf, ids, w.root, p);
      forall i | 0 <= i < |w.publishers|
        ensures Standing(keyOf, t.root, w.publishers[i])
      {
        assert w.publishers[i] in w.publishers;
        StandingStays(keyOf, w.root, t.root, w.publishers[i], p.staged);
      }
      forall j | j in w.jobs
        ensures Loadable(keyOf, t.root, j.id)
      {
        LoadableStays(keyOf, w.root, t.root, j.id);
      }
    case Crash =>
  }

  lemma FailStands(keyOf: BundleId -> string, root: Root, p: Publisher)
    requires Standing(keyOf, root, p)
    ensures Standing(keyOf, root, p.(phase := AfterFailure(p.phase))) && Standing(keyOf, root, p.(phase := Failed))
  {
  }

  lemma ArriveStands(keyOf: BundleId -> string, ids: iset<BundleId>, root: Root, p: Publisher)
    requires p.staged !in root && !IsKey(p.staged) && p.phase == Look(First) && READY !in p.payload
    requires FinalsPublished(keyOf, ids, root)
    ensures var after := root[p.staged := p.payload];
      Standing(keyOf, after, p) && FinalsPublished(keyOf, ids, after) && FinalsKept(root, after)
          && OnlyOwn(root, after, p.staged)
  {
    hide IsKey, Published;
  }

  lemma GoKeepsInv(keyOf: BundleId -> string, ids: iset<BundleId>, w: World, i: nat)
    requires KeysAreKeys(keyOf) && Inv(keyOf, ids, w) && Can(keyOf, w, Go(i))
    ensures Inv(keyOf, ids, Do(keyOf, w, Go(i))) && FinalsKept(w.root, Do(keyOf, w, Go(i)).root)
  {
    hide Standing, FinalsPublished, CleanDigest, IsKey, Loadable, Act;
    var p, t := w.publishers[i], Do(keyOf, w, Go(i));
    if p.phase == CreateJob {
      JobStands(keyOf, w.root, p);
    } else {
      ActKeeps(keyOf, ids, w.root, p);
      forall k | 0 <= k < |w.publishers| && k != i
        ensures Standing(keyOf, t.root, w.publishers[k])
      {
        StandingStays(keyOf, w.root, t.root, w.publishers[k], p.staged);
      }
      forall j | j in w.jobs
        ensures Loadable(keyOf, t.root, j.id)
      {
        LoadableStays(keyOf, w.root, t.root, j.id);
      }
    }
  }

  lemma JobStands(keyOf: BundleId -> string, root: Root, p: Publisher)
    requires Standing(keyOf, root, p) && p.phase == CreateJob
    ensures Loadable(keyOf, root, p.id) && Standing(keyOf, root, p.(phase := Done))
  {
  }

  // ---------- whole runs ----------

  /** Publishers come with clean digests. */
  ghost predicate CleanSteps(ids: iset<BundleId>, steps: seq<Step>) {
    forall k | 0 <= k < |steps| && steps[k].Arrive? :: steps[k].p.id in ids && CleanDigest(steps[k].p.id)
  }

  lemma {:induction false} RunKeepsInv(keyOf: BundleId -> string, ids: iset<BundleId>, w: World, steps: seq<Step>,
      end: World)
    requires KeysAreKeys(keyOf) && Inv(keyOf, ids, w) && Runs(keyOf, w, steps, end) && CleanSteps(ids, steps)
    ensures Inv(keyOf, ids, end) && FinalsKept(w.root, end.root)
    decreases |steps|
  {
    hide Inv, Can, Do, CleanDigest, IsKey;
    if steps != [] {
      StepKeepsInv(keyOf, ids, w, steps[0]);
      RunKeepsInv(keyOf, ids, Do(keyOf, w, steps[0]), steps[1..], end);
    }
  }

  /** The root is empty and nobody has come. */
  const EMPTY := World(map[], [], {})

  /** From an empty root, with any number of publishers of any keys, failing calls and crashes anywhere: a
      final directory is complete and ready whenever it exists, it is never altered or removed, and the branch
      that removes one is never taken. */
  lemma {:induction false} FinalsAreForGood(keyOf: BundleId -> string, ids: iset<BundleId>, before: seq<Step>,
      middle: World, steps: seq<Step>, end: World)
    requires KeysAreKeys(keyOf) && Runs(keyOf, EMPTY, before, middle) && Runs(keyOf, middle, steps, end)
    requires CleanSteps(ids, before) && CleanSteps(ids, steps)
    ensures FinalsPublished(keyOf, ids, middle.root) && FinalsKept(middle.root, end.root)
    ensures forall i | 0 <= i < |middle.publishers| :: middle.publishers[i].phase != Replace
  {
    hide CleanDigest, IsKey, StagedAt, Loadable;
    RunKeepsInv(keyOf, ids, EMPTY, before, middle);
    RunKeepsInv(keyOf, ids, middle, steps, end);
    forall i | 0 <= i < |middle.publishers|
      ensures middle.publishers[i].phase != Replace
    {
      assert Standing(keyOf, middle.root, middle.publishers[i]);
    }
  }

  /** Every job that was ever created finds a ready directory with its digest, then and ever after. */
  lemma {:induction false} JobsFindTheirBundles(keyOf: BundleId -> string, ids: iset<BundleId>, before: seq<Step>,
      middle: World, steps: seq<Step>, end: World, job: Job)
    requires KeysAreKeys(keyOf) && Runs(keyOf, EMPTY, before, middle) && Runs(keyOf, middle, steps, end)
    requires CleanSteps(ids, before) && CleanSteps(ids, steps)
    requires job in middle.jobs
    ensures Loadable(keyOf, middle.root, job.id) && Loadable(keyOf, end.root, job.id)
    ensures Complete(end.root[keyOf(job.id)]) && end.root[keyOf(job.id)] == middle.root[keyOf(job.id)]
    ensures var files := end.root[keyOf(job.id)];
      && "manifest.json" in files && "artifacts.ndjson" in files && "contributions.ndjson" in files
      && ".ready" in files && Trim(files[".ready"]) == job.id.factualDigest
  {
    hide CleanDigest, IsKey, StagedAt, Standing, Trim;
    RunKeepsInv(keyOf, ids, EMPTY, before, middle);
    RunKeepsInv(keyOf, ids, middle, steps, end);
    assert Loadable(keyOf, middle.root, job.id);
    LoadableStays(keyOf, middle.root, end.root, job.id);
    assert IsKey(keyOf(job.id));
    assert Published(keyOf, ids, keyOf(job.id), end.root[keyOf(job.id)]);
  }

  // ---------- nothing staged is left ----------

  /** A publisher that is done with its staged directory has none. */
  ghost predicate Tidy(root: Root, p: Publisher) {
    p.phase in {SyncRoot, CreateJob, Done, Failed} ==> p.staged !in root
  }

  ghost predicate AllTidy(w: World) {
    forall i | 0 <= i < |w.publishers| :: Tidy(w.root, w.publishers[i])
  }

  /** Nobody is torn away, and what is removed goes; any other call may fail. */
  ghost predicate RemovalsWork(w: World, step: Step) {
    match step
    case Fail(i) => i < |w.publishers| ==> !w.publishers[i].phase.Drop?
    case Vanish(_) => false
    case Crash => false
    case _ => true
  }

  lemma TidyStep(keyOf: BundleId -> string, ids: iset<BundleId>, w: World, step: Step)
    requires KeysAreKeys(keyOf) && Inv(keyOf, ids, w) && Can(keyOf, w, step) && RemovalsWork(w, step) && AllTidy(w)
    ensures AllTidy(Do(keyOf, w, step))
  {
    hide IsKey, Complete, CleanDigest, Verified, FinalsPublished, Loadable, StagedAt;
    var t := Do(keyOf, w, step);
    forall k | 0 <= k < |t.publishers|
      ensures Tidy(t.root, t.publishers[k])
    {
      match step
      case Go(i) =>
        assert Standing(keyOf, w.root, w.publishers[i]) && Standing(keyOf, w.root, w.publishers[k]);
        assert IsKey(keyOf(w.publishers[i].id));
        if k != i { assert w.publishers[k].staged != w.publishers[i].staged; }
      case Fail(i) =>
      case Arrive(p) => if k < |w.publishers| { assert w.publishers[k] in w.publishers; }
    }
  }

  ghost predicate RemovalsWorkThroughout(keyOf: BundleId -> string, w: World, steps: seq<Step>)
    decreases |steps|
  {
    steps != [] ==> Can(keyOf, w, steps[0]) && RemovalsWork(w, steps[0])
                    && RemovalsWorkThroughout(keyOf, Do(keyOf, w, steps[0]), steps[1..])
  }

  /** Whatever else fails, a publisher that has its answer has left nothing behind but its final directory. */
  lemma {:induction false} NothingStagedIsLeft(keyOf: BundleId -> string, ids: iset<BundleId>, w: World,
      steps: seq<Step>, end: World)
    requires KeysAreKeys(keyOf) && Inv(keyOf, ids, w) && Runs(keyOf, w, steps, end) && CleanSteps(ids, steps)
    requires RemovalsWorkThroughout(keyOf, w, steps) && AllTidy(w)
    ensures forall p | p in end.publishers && (p.phase == Done || p.phase == Failed) :: p.staged !in end.root
    decreases |steps|
  {
    hide Inv, Can, Do, CleanDigest, IsKey, RemovalsWork;
    if steps == [] {
      assert AllTidy(end);
    } else {
      StepKeepsInv(keyOf, ids, w, steps[0]);
      TidyStep(keyOf, ids, w, steps[0]);
      NothingStagedIsLeft(keyOf, ids, Do(keyOf, w, steps[0]), steps[1..], end);
    }
  }

  // ---------- without failing calls ----------

  /** No two of these bundles share a key. */
  ghost predicate DistinctKeysOn(keyOf: BundleId -> string, ids: iset<BundleId>) {
    forall a: BundleId, b: BundleId | a in ids && b in ids :: keyOf(a) == keyOf(b) ==> a == b
  }

  ghost predicate Fine(p: Publisher) {
    Complete(p.payload) && p.phase != Drop(false) && p.phase != Failed
  }

  /** A publisher whose own calls succeed is not put off by what others of the same key did. */
  lemma GoStaysFine(keyOf: BundleId -> string, ids: iset<BundleId>, w: World, i: nat)
    requires KeysAreKeys(keyOf) && DistinctKeysOn(keyOf, ids) && Inv(keyOf, ids, w) && Can(keyOf, w, Go(i))
    requires Fine(w.publishers[i])
    ensures Fine(Do(keyOf, w, Go(i)).publishers[i])
  {
    hide IsKey, Complete, CleanDigest, Verified;
    var p := w.publishers[i];
    var key := keyOf(p.id);
    assert Standing(keyOf, w.root, p) && CleanDigest(p.id) && IsKey(key);
    if key in w.root {
      assert Published(keyOf, ids, key, w.root[key]);
      var id: BundleId :| id in ids && keyOf(id) == key && READY in w.root[key] && w.root[key][READY] == Marker(id);
      MarkerVerifies(w.root[key], p.id);
    }
  }

  ghost predicate NoFailures(ids: iset<BundleId>, steps: seq<Step>) {
    forall k | 0 <= k < |steps| :: steps[k].Go?
        || (steps[k].Arrive? && Fine(steps[k].p) && steps[k].p.id in ids && CleanDigest(steps[k].p.id))
  }

  /** If no call fails, no publisher fails, in whatever order concurrent publishers of the same key go on. */
  lemma {:induction false} ConcurrentPublishersAllSucceed(keyOf: BundleId -> string, ids: iset<BundleId>, w: World,
      steps: seq<Step>, end: World)
    requires KeysAreKeys(keyOf) && DistinctKeysOn(keyOf, ids) && Inv(keyOf, ids, w) && Runs(keyOf, w, steps, end)
    requires NoFailures(ids, steps)
    requires forall i | 0 <= i < |w.publishers| :: Fine(w.publishers[i])
    ensures forall i | 0 <= i < |end.publishers| :: Fine(end.publishers[i])
    decreases |steps|
  {
    hide Inv, Act, CleanDigest, IsKey, Fine, DistinctKeysOn, KeysAreKeys;
    if steps != [] {
      StepKeepsInv(keyOf, ids, w, steps[0]);
      var t := Do(keyOf, w, steps[0]);
      if steps[0].Go? { GoStaysFine(keyOf, ids, w, steps[0].i); }
      assert forall i | 0 <= i < |t.publishers| :: Fine(t.publishers[i]);
      ConcurrentPublishersAllSucceed(keyOf, ids, t, steps[1..], end);
    }
  }

  function Left(phase: Phase): nat {
    match phase
    case Look(at) => if at == First then 20 else if at == Second then 14 else 6
    case LookMarker(at) => if at == First then 19 else if at == Second then 13 else 5
    case Verify(_) => 4
    case Inspect => 18 case MakeMarker => 17 case WriteMarker => 16
    case Replace => 12 case Move => 11 case SyncRoot => 4
    case Drop(_) => 3 case CreateJob => 2 case Done => 0 case Failed => 0
  }

  /** No publisher goes round in circles: each of its steps brings it nearer to its answer. */
  lemma PublisherGetsDone(keyOf: BundleId -> string, w: World, i: nat)
    ensures Can(keyOf, w, Go(i)) ==> Left(Do(keyOf, w, Go(i)).publishers[i].phase) < Left(w.publishers[i].phase)
    ensures Can(keyOf, w, Fail(i)) ==> Left(Do(keyOf, w, Fail(i)).publishers[i].phase) < Left(w.publishers[i].phase)
  {
    hide IsKey, Complete, CleanDigest, Verified;
  }

  /** And a publisher without an answer always has a next step, whatever others did. */
  lemma PublisherCanGo(keyOf: BundleId -> string, ids: iset<BundleId>, w: World, i: nat)
    requires Inv(keyOf, ids, w) && i < |w.publishers| && !w.publishers[i].phase.Done? && !w.publishers[i].phase.Failed?
    ensures Can(keyOf, w, Go(i))
  {
    hide IsKey, Complete, CleanDigest, Verified, FinalsPublished, Loadable;
    assert Standing(keyOf, w.root, w.publishers[i]);
  }

  ghost predicate OnlyGo(steps: seq<Step>, i: nat) {
    forall k | 0 <= k < |steps| :: steps[k] == Go(i)
  }

  /** So from any state a publisher whose calls succeed comes to its answer in a bounded number of steps of
      its own; with a complete payload and keys that are distinct the answer is a job. */
  lemma {:induction false} PublisherFinishes(keyOf: BundleId -> string, ids: iset<BundleId>, w: World, i: nat)
    returns (steps: seq<Step>, end: World)
    requires KeysAreKeys(keyOf) && DistinctKeysOn(keyOf, ids) && Inv(keyOf, ids, w) && i < |w.publishers|
    requires Fine(w.publishers[i])
    requires w.publishers[i].phase == Done ==> Job(w.publishers[i].id) in w.jobs
    ensures Runs(keyOf, w, steps, end) && OnlyGo(steps, i) && |steps| <= Left(w.publishers[i].phase)
    ensures i < |end.publishers| && end.publishers[i].phase == Done && end.publishers[i].id == w.publishers[i].id
    ensures Job(w.publishers[i].id) in end.jobs
    decreases Left(w.publishers[i].phase)
  {
    hide Inv, Act, CleanDigest, IsKey, DistinctKeysOn, KeysAreKeys, Complete;
    if w.publishers[i].phase == Done {
      steps, end := [], w;
    } else {
      PublisherCanGo(keyOf, ids, w, i);
      PublisherGetsDone(keyOf, w, i);
      GoStaysFine(keyOf, ids, w, i);
      StepKeepsInv(keyOf, ids, w, Go(i));
      JobIsMade(keyOf, w, i);
      var t := Do(keyOf, w, Go(i));
      var rest, last := PublisherFinishes(keyOf, ids, t, i);
      steps, end := [Go(i)] + rest, last;
      assert steps[1..] == rest;
    }
  }

  /** Whoever comes with a complete payload can come to a job, whatever is there and whoever else is at work. */
  lemma ArrivalGetsAJob(keyOf: BundleId -> string, ids: iset<BundleId>, w: World, p: Publisher)
    returns (steps: seq<Step>, end: World)
    requires KeysAreKeys(keyOf) && DistinctKeysOn(keyOf, ids) && Inv(keyOf, ids, w) && Can(keyOf, w, Arrive(p))
    requires p.id in ids && CleanDigest(p.id) && Complete(p.payload)
    ensures Runs(keyOf, w, [Arrive(p)] + steps, end) && OnlyGo(steps, |w.publishers|)
    ensures Job(p.id) in end.jobs && Loadable(keyOf, end.root, p.id)
  {
    hide CleanDigest, IsKey, Complete, Verified, DistinctKeysOn, Runs;
    var t := Do(keyOf, w, Arrive(p));
    StepKeepsInv(keyOf, ids, w, Arrive(p));
    steps, end := PublisherFinishes(keyOf, ids, t, |w.publishers|);
    OnlyGoIsClean(ids, steps, |w.publishers|);
    RunKeepsInv(keyOf, ids, t, steps, end);
    RunsAfter(keyOf, w, Arrive(p), steps, end);
  }

  lemma RunsAfter(keyOf: BundleId -> string, w: World, step: Step, steps: seq<Step>, end: World)
    requires Can(keyOf, w, step) && Runs(keyOf, Do(keyOf, w, step), steps, end)
    ensures Runs(keyOf, w, [step] + steps, end)
  {
    hide Can, Do;
    assert ([step] + steps)[1..] == steps;
  }

  lemma OnlyGoIsClean(ids: iset<BundleId>, steps: seq<Step>, i: nat)
    requires OnlyGo(steps, i)
    ensures CleanSteps(ids, steps)
  {
  }

  lemma JobIsMade(keyOf: BundleId -> string, w: World, i: nat)
    requires Can(keyOf, w, Go(i))
    ensures var t := Do(keyOf, w, Go(i));
      && |t.publishers| == |w.publishers| && t.publishers[i].id == w.publishers[i].id
      && (t.publishers[i].phase == Done ==> Job(w.publishers[i].id) in t.jobs)
  {
    hide IsKey, Complete, Verified;
  }

  // ---------- keys can be distinct ----------

  function Power2(n: nat): nat {
    if n == 0 then 1 else 2 * Power2(n - 1)
  }

  function Bits(n: nat, width: nat): string {
    if width == 0 then "" else Bits(n / 2, width - 1) + [if n % 2 == 0 then '0' else '1']
  }

  lemma {:induction false} BitsProps(n: nat, width: nat)
    ensures |Bits(n, width)| == width && forall i | 0 <= i < width :: Bits(n, width)[i] in "01"
  {
    if width > 0 { BitsProps(n / 2, width - 1); }
  }

  lemma {:induction false} BitsDiffer(a: nat, b: nat, width: nat)
    requires a < Power2(width) && b < Power2(width) && Bits(a, width) == Bits(b, width)
    ensures a == b
  {
    if width > 0 {
      var x, y := Bits(a, width), Bits(b, width);
      assert x[|x| - 1] == y[|y| - 1] && x[..|x| - 1] == Bits(a / 2, width - 1) && y[..|y| - 1] == Bits(b / 2,
          width - 1);
      BitsDiffer(a / 2, b / 2, width - 1);
    }
  }

  function PlaceOf(id: BundleId, list: seq<BundleId>): (k: nat)
    ensures k <= |list| && (id in list ==> k < |list| && list[k] == id)
  {
    if list == [] then 0 else if list[0] == id then 0 else 1 + PlaceOf(id, list[1..])
  }

  function Numbering(list: seq<BundleId>): BundleId -> string {
    (id: BundleId) => Bits(PlaceOf(id, list), 64)
  }

  /** Any list of bundles, as long as there are keys of zeros and ones, can have keys of its own. */
  lemma KeysCanBeDistinct(list: seq<BundleId>)
    requires |list| < Power2(64)
    ensures KeysAreKeys(Numbering(list)) && DistinctKeysOn(Numbering(list), iset id | id in list)
  {
    hide Power2, Bits;
    forall id: BundleId
      ensures IsKey(Numbering(list)(id))
    {
      BitsProps(PlaceOf(id, list), 64);
    }
    forall a, b | a in list && b in list && Numbering(list)(a) == Numbering(list)(b)
      ensures a == b
    {
      BitsDiffer(PlaceOf(a, list), PlaceOf(b, list), 64);
    }
  }
}
