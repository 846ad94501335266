/** Writing a bundle into a directory: stage temporary files, move what is there to backups, rename
    the new files in with the manifest last, and roll back when anything fails
    (internal/bundle/codec.go). Every call on the directory is one atomic step that may fail. */
module Publication {
  import opened Facts

  datatype Entry = Regular(bytes: string) | Subdirectory

  type Disk = map<string, Entry>

  // ---------- the directory ----------

  datatype Lookup = Present(isDirectory: bool) | Absent | LookupFailed

  datatype Removal = Removed | NothingThere | RemovalFailed

  /** Which calls fail: with `sporadic` any call may; removing some names, and renaming something to some
      names, always does. */
  datatype Faults = Faults(sporadic: bool, unremovable: set<string>, unplaceable: set<string>)

  /** `trace` holds every state the directory has been in, `troubles` counts failed calls and cancelled
      checks, and `refused` lists the names whose removal failed. */
  class Directory {
    const faults: Faults
    var files: Disk
    ghost var trace: seq<Disk>
    ghost var troubles: nat
    ghost var refused: seq<string>

    ghost predicate Valid()
      reads this`files, this`trace
    {
      trace != [] && trace[|trace| - 1] == files
    }

    constructor (initial: Disk, f: Faults)
      ensures Valid() && files == initial && faults == f && trace == [initial] && troubles == 0 && refused == []
    {
      files, faults := initial, f;
      trace, troubles, refused := [initial], 0, [];
    }

    /** `contextError`. */
    method Interrupted() returns (stop: bool)
      requires Valid()
      modifies this`troubles
      ensures Valid() && troubles == old(troubles) + if stop then 1 else 0
      ensures stop ==> faults.sporadic
    {
      var whim: bool := *;
      if faults.sporadic && whim { troubles := troubles + 1; return true; }
      stop := false;
    }

    /** `os.CreateTemp` with the writes that follow: a new name, never one of `reserved`. */
    method CreateTemp(entry: Entry, reserved: set<string>) returns (name: Option<string>)
      requires Valid()
      modifies this
      ensures Valid() && old(trace) <= trace && refused == old(refused)
      ensures name.None? ==> files == old(files) && trace == old(trace) && troubles == old(troubles) + 1
      ensures name.Some? ==> name.value !in old(files) && name.value !in reserved
      ensures name.Some? ==> files == old(files)[name.value := entry] && trace == old(trace) + [files]
      ensures name.Some? ==> troubles == old(troubles)
      ensures name.None? ==> faults.sporadic
    {
      var whim: bool := *;
      if faults.sporadic && whim { troubles := troubles + 1; return None; }
      var unused := NewName(files.Keys + reserved);
      files := files[unused := entry];
      trace := trace + [files];
      name := Some(unused);
    }

    method Rename(from: string, to: string) returns (ok: bool)
      requires Valid() && from in files && from != to
      modifies this
      ensures Valid() && old(trace) <= trace && refused == old(refused)
      ensures !ok ==> files == old(files) && trace == old(trace) && troubles == old(troubles) + 1
      ensures ok ==> files == (old(files) - {from})[to := old(files)[from]] && trace == old(trace) + [files]
      ensures ok ==> troubles == old(troubles)
      ensures (to in faults.unplaceable ==> !ok) && (!ok ==> faults.sporadic || to in faults.unplaceable)
    {
      var whim: bool := *;
      if (faults.sporadic && whim) || to in faults.unplaceable { troubles := troubles + 1; return false; }
      files := (files - {from})[to := files[from]];
      trace := trace + [files];
      ok := true;
    }

    method Remove(name: string) returns (r: Removal)
      requires Valid()
      modifies this
      ensures Valid() && old(trace) <= trace
      ensures r == NothingThere ==> name !in old(files) && files == old(files) && trace == old(trace)
      ensures r == NothingThere ==> troubles == old(troubles)
      ensures r == Removed ==> name in old(files) && files == old(files) - {name} && trace == old(trace) + [files]
      ensures r == Removed ==> troubles == old(troubles)
      ensures r == RemovalFailed ==> files == old(files) && trace == old(trace) && troubles == old(troubles) + 1
      ensures refused == if r == RemovalFailed then old(refused) + [name] else old(refused)
      ensures r == Removed ==> name !in faults.unremovable
      ensures r == RemovalFailed ==> faults.sporadic || name in faults.unremovable
    {
      var whim: bool := *;
      if (faults.sporadic && whim) || (name in files && name in faults.unremovable) {
        troubles, refused := troubles + 1, refused + [name];
        return RemovalFailed;
      }
      if name !in files { return NothingThere; }
      files := files - {name};
      trace := trace + [files];
      r := Removed;
    }

    method Lstat(name: string) returns (r: Lookup)
      requires Valid()
      modifies this`troubles
      ensures Valid() && troubles == old(troubles) + if r == LookupFailed then 1 else 0
      ensures r == Absent ==> name !in files
      ensures r.Present? ==> name in files && r.isDirectory == files[name].Subdirectory?
      ensures r == LookupFailed ==> faults.sporadic
    {
      var whim: bool := *;
      if faults.sporadic && whim { troubles := troubles + 1; return LookupFailed; }
      if name in files { return Present(files[name].Subdirectory?); }
      r := Absent;
    }
  }

  /** Some name outside a finite set: one longer than all of them. */
  method NewName(taken: set<string>) returns (name: string)
    ensures name !in taken
  {
    var rest := taken;
    name := ".";
    while rest != {}
      invariant rest <= taken && name != ""
      invariant forall x | x in taken && x !in rest :: |x| < |name|
      decreases |rest|
    {
      var x :| x in rest;
      while |name| <= |x|
        invariant name != ""
        invariant forall y | y in taken && y !in rest :: |y| < |name|
        decreases |x| - |name|
      {
        name := name + ".";
      }
      rest := rest - {x};
    }
  }

  // ---------- what a write is about ----------

  /** The write as a whole: what was there, what the canonical names shall hold (the manifest
      included), which canonical names shall be gone, and which name is the manifest. */
  datatype Plan = Plan(before: Disk, after: Disk, gone: set<string>, manifest: string)

  ghost predicate ValidPlan(p: Plan) {
    && p.manifest in p.after
    && p.gone !! p.after.Keys
  }

  ghost function Touched(p: Plan): set<string> {
    p.after.Keys + p.gone
  }

  /** The shape of the directory throughout a write: some canonical names moved out of the way, some
      of them already holding the new content, and scratch files beside them. */
  ghost predicate Shape(p: Plan, files: Disk, out: set<string>, put: Disk, scratch: Disk) {
    && files == (p.before - out) + put + scratch
    && out <= Touched(p)
    && put.Keys <= out
    && (forall x | x in put :: x in p.after && put[x] == p.after[x])
    && scratch.Keys !! (p.before.Keys + Touched(p))
  }

  /** What a reader that finds a manifest may find beside it: with the old manifest every canonical
      name is old or absent; with the new one all of them are new. Untouched names stay. */
  ghost predicate OldView(p: Plan, st: Disk) {
    forall x | (x in Touched(p) || x in p.before) && x in st :: x in p.before && st[x] == p.before[x]
  }

  ghost predicate NewView(p: Plan, st: Disk) {
    && (forall x | x in p.after :: x in st && st[x] == p.after[x])
    && (forall x | x in p.gone :: x !in st)
    && (forall x | x in p.before && x !in Touched(p) :: x in st && st[x] == p.before[x])
  }

  ghost predicate Coherent(p: Plan, st: Disk) {
    p.manifest in st ==> OldView(p, st) || NewView(p, st)
  }

  lemma NothingPutIsCoherent(p: Plan, st: Disk, out: set<string>, scratch: Disk)
    requires ValidPlan(p) && Shape(p, st, out, map[], scratch)
    ensures OldView(p, st) && Coherent(p, st)
  {
    forall x | (x in Touched(p) || x in p.before) && x in st
      ensures x in p.before && st[x] == p.before[x]
    {
      assert x !in scratch;
    }
  }

  lemma ManifestOutIsCoherent(p: Plan, st: Disk, out: set<string>, put: Disk, scratch: Disk)
    requires ValidPlan(p) && Shape(p, st, out, put, scratch) && p.manifest in out && p.manifest !in put
    ensures Coherent(p, st)
  {
    assert p.manifest in Touched(p);
    assert p.manifest !in scratch;
  }

  lemma AllPutIsCoherent(p: Plan, st: Disk, put: Disk, scratch: Disk)
    requires ValidPlan(p) && Shape(p, st, Touched(p), put, scratch) && put.Keys == p.after.Keys
    ensures NewView(p, st) && Coherent(p, st)
  {
    forall x | x in p.after
      ensures x in st && st[x] == p.after[x]
    {
      assert x in put && x !in scratch;
    }
    forall x | x in p.gone
      ensures x !in st
    {
      assert x !in put && x !in scratch && x in Touched(p);
    }
    forall x | x in p.before && x !in Touched(p)
      ensures x in st && st[x] == p.before[x]
    {
      assert x !in put && x !in scratch;
    }
  }

  /** A state with the old manifest and some new content in view is coherent only if that content is
      the same as before. */
  lemma MixedStateExact(p: Plan, st: Disk, out: set<string>, put: Disk, scratch: Disk)
    requires ValidPlan(p) && Shape(p, st, out, put, scratch)
    requires p.manifest !in out && p.manifest in p.before && p.before[p.manifest] != p.after[p.manifest]
    ensures Coherent(p, st) <==> forall x | x in put :: x in p.before && p.before[x] == p.after[x]
  {
    assert p.manifest in Touched(p) && p.manifest !in put && p.manifest !in scratch;
    assert st[p.manifest] == p.before[p.manifest];
    forall x | x in put
      ensures x in st && st[x] == p.after[x] && x in Touched(p)
    {
      assert x !in scratch;
    }
    if forall x | x in put :: x in p.before && p.before[x] == p.after[x] {
      forall x | (x in Touched(p) || x in p.before) && x in st
        ensures x in p.before && st[x] == p.before[x]
      {
        assert x !in scratch;
      }
    }
  }

  // ---------- the moves ----------

  lemma MoveAddScratch(p: Plan, files: Disk, out: set<string>, put: Disk, scratch: Disk, name: string, e: Entry)
    requires Shape(p, files, out, put, scratch) && name !in files && name !in p.before && name !in Touched(p)
    ensures Shape(p, files[name := e], out, put, scratch[name := e])
    ensures name !in scratch
  {
  }

  lemma MoveDropScratch(p: Plan, files: Disk, out: set<string>, put: Disk, scratch: Disk, name: string)
    requires Shape(p, files, out, put, scratch) && name in scratch
    ensures Shape(p, files - {name}, out, put, scratch - {name})
  {
    assert name !in p.before && name !in Touched(p);
    assert name !in put;
    assert files - {name} == (p.before - out) + put + (scratch - {name});
  }

  lemma MoveBackUp(p: Plan, files: Disk, out: set<string>, put: Disk, scratch: Disk, path: string, backup: string)
    requires Shape(p, files, out, put, scratch) && path in Touched(p) && path !in out && path in files
    requires backup !in files && backup !in p.before && backup !in Touched(p)
    ensures path in p.before && files[path] == p.before[path]
    ensures Shape(p, (files - {path})[backup := files[path]], out + {path}, put, scratch[backup := p.before[path]])
  {
    assert path !in put && path !in scratch;
    assert (files - {path})[backup := files[path]] == (p.before - (out + {path})) + put
        + scratch[backup := p.before[path]];
  }

  lemma MovePublish(p: Plan, files: Disk, out: set<string>, put: Disk, scratch: Disk, temp: string, path: string)
    requires Shape(p, files, out, put, scratch) && temp in scratch && path in p.after && scratch[temp] == p.after[path]
    requires path in out
    ensures temp in files && files[temp] == p.after[path] && temp != path
    ensures Shape(p, (files - {temp})[path := files[temp]], out, put[path := p.after[path]], scratch - {temp})
  {
    assert temp !in p.before && temp !in Touched(p) && path in Touched(p);
    assert path !in scratch;
    assert (files - {temp})[path := files[temp]] == (p.before - out) + put[path := p.after[path]] + (scratch - {temp});
  }

  lemma MoveUnpublish(p: Plan, files: Disk, out: set<string>, put: Disk, scratch: Disk, path: string)
    requires Shape(p, files, out, put, scratch) && path in put
    ensures path in files
    ensures Shape(p, files - {path}, out, put - {path}, scratch)
  {
    assert path in Touched(p) && path !in scratch;
    assert files - {path} == (p.before - out) + (put - {path}) + scratch;
  }

  lemma MoveRestore(p: Plan, files: Disk, out: set<string>, put: Disk, scratch: Disk, backup: string, path: string)
    requires Shape(p, files, out, put, scratch) && backup in scratch && path in out && path in p.before
    requires scratch[backup] == p.before[path]
    ensures backup in files && files[backup] == p.before[path] && backup != path
    ensures Shape(p, (files - {backup})[path := files[backup]], out - {path}, put - {path}, scratch - {backup})
  {
    assert backup !in p.before && backup !in Touched(p);
    assert path in Touched(p) && path !in scratch;
    assert (files - {backup})[path := files[backup]] == (p.before - (out - {path})) + (put - {path})
        + (scratch - {backup});
  }

  // ---------- the publication's own record ----------

  datatype BundleTemp = BundleTemp(name: string, finalPath: string, published: bool)

  datatype BundleBackup = BundleBackup(finalPath: string, backupPath: string)

  /** Where everything is: names out of the way, new content in place, scratch files with the ones
      nobody owns any more (`left`), temporary names already used up, and backups already restored. */
  datatype Ledger = Ledger(out: set<string>, put: Disk, scratch: Disk, left: set<string>, spent: set<string>,
      restored: set<nat>)

  ghost predicate DistinctFiles(files: seq<BundleTemp>) {
    forall i, j | 0 <= i < |files| && 0 <= j < |files| && i != j ::
      files[i].finalPath != files[j].finalPath && files[i].name != files[j].name
  }

  ghost predicate CoversAll(p: Plan, files: seq<BundleTemp>) {
    && (forall i | 0 <= i < |files| :: files[i].finalPath in p.after)
    && (forall x | x in p.after :: exists i | 0 <= i < |files| :: files[i].finalPath == x)
  }

  /** The files of a plan, the manifest last. */
  ghost predicate Planned(p: Plan, files: seq<BundleTemp>) {
    && ValidPlan(p) && files != [] && files[|files| - 1].finalPath == p.manifest
    && DistinctFiles(files) && CoversAll(p, files)
  }

  /** A file is staged under its temporary name, in place, or used up. */
  ghost predicate TempsAt(p: Plan, files: seq<BundleTemp>, g: Ledger) {
    forall i | 0 <= i < |files| ::
      && files[i].name !in p.before && files[i].name !in Touched(p)
      && if files[i].name in g.spent then !files[i].published && files[i].name !in g.scratch
      else if files[i].published then files[i].finalPath in g.put && files[i].name !in g.scratch
      else && files[i].finalPath in p.after && files[i].finalPath !in g.put && files[i].name in g.scratch
           && g.scratch[files[i].name] == p.after[files[i].finalPath]
  }

  /** A backup that was not restored holds the old content of a name that is out of the way. */
  ghost predicate BackupsAt(p: Plan, backups: seq<BundleBackup>, g: Ledger) {
    && (forall k | 0 <= k < |backups| && k !in g.restored ::
          && backups[k].finalPath in g.out && backups[k].finalPath in p.before
          && backups[k].backupPath in g.scratch && g.scratch[backups[k].backupPath] == p.before[backups[k].finalPath])
    && (forall k, l | 0 <= k < |backups| && 0 <= l < |backups| && k != l ::
          backups[k].finalPath != backups[l].finalPath && backups[k].backupPath != backups[l].backupPath)
    && (forall x | x in g.out && x in p.before :: exists k | 0 <= k < |backups| && k !in g.restored ::
        backups[k].finalPath == x)
  }

  ghost predicate Apart(files: seq<BundleTemp>, backups: seq<BundleBackup>) {
    forall i, k | 0 <= i < |files| && 0 <= k < |backups| :: files[i].name != backups[k].backupPath
  }

  ghost predicate StagedAt(files: seq<BundleTemp>, x: string, i: nat) {
    i < |files| && files[i].name == x && !files[i].published
  }

  ghost predicate KeptAt(backups: seq<BundleBackup>, restored: set<nat>, x: string, k: nat) {
    k < |backups| && k !in restored && backups[k].backupPath == x
  }

  /** Every scratch file is a staged file, a backup, or left over. */
  ghost predicate Listed(files: seq<BundleTemp>, backups: seq<BundleBackup>, g: Ledger) {
    forall x | x in g.scratch ::
      x in g.left || (exists i :: StagedAt(files, x, i)) || (exists k :: KeptAt(backups, g.restored, x, k))
  }

  ghost predicate Placed(p: Plan, disk: Disk, files: seq<BundleTemp>, backups: seq<BundleBackup>, g: Ledger) {
    && Shape(p, disk, g.out, g.put, g.scratch)
    && TempsAt(p, files, g) && BackupsAt(p, backups, g) && Apart(files, backups) && Listed(files, backups, g)
  }

  // ---------- one step at a time ----------

  lemma StepSkip(p: Plan, disk: Disk, files: seq<BundleTemp>, backups: seq<BundleBackup>, g: Ledger, path: string)
    requires Placed(p, disk, files, backups, g) && path !in disk && path in Touched(p)
    ensures Placed(p, disk, files, backups, g.(out := g.out + {path}))
  {
    var h := g.(out := g.out + {path});
    assert path !in g.put && path !in g.scratch;
    if path in p.before { assert path in g.out; }
    assert disk == (p.before - h.out) + h.put + h.scratch;
    forall x | x in h.out && x in p.before
      ensures x in g.out
    {
    }
  }

  ghost function BackUpLedger(p: Plan, g: Ledger, path: string, backup: string): Ledger
    requires path in p.before
  {
    g.(out := g.out + {path}, scratch := g.scratch[backup := p.before[path]])
  }

  lemma StepBackUp(p: Plan, disk: Disk, files: seq<BundleTemp>, backups: seq<BundleBackup>, g: Ledger, path: string,
      backup: string)
    requires Placed(p, disk, files, backups, g)
    requires path in Touched(p) && path !in g.out && path in disk
    requires backup !in disk && backup !in p.before && backup !in Touched(p)
    requires forall i | 0 <= i < |files| :: files[i].name != backup
    requires forall k | 0 <= k < |backups| ::
        backups[k].backupPath != backup && backups[k].finalPath != path && k !in g.restored
    requires |backups| !in g.restored
    ensures path in p.before && disk[path] == p.before[path]
    ensures Placed(p, (disk - {path})[backup := disk[path]], files, backups + [BundleBackup(path, backup)],
        BackUpLedger(p, g, path, backup))
  {
    MoveBackUp(p, disk, g.out, g.put, g.scratch, path, backup);
    var more := backups + [BundleBackup(path, backup)];
    var h := BackUpLedger(p, g, path, backup);
    assert path !in g.put;
    BackUpKeepsBackups(p, backups, g, path, backup);
    forall x | x in h.scratch
      ensures x in h.left || (exists i :: StagedAt(files, x, i)) || (exists k :: KeptAt(more, h.restored, x, k))
    {
      if x == backup {
        assert KeptAt(more, h.restored, x, |backups|);
      } else if k :| KeptAt(backups, g.restored, x, k) {
        assert KeptAt(more, h.restored, x, k);
      }
    }
  }

  lemma BackUpKeepsBackups(p: Plan, backups: seq<BundleBackup>, g: Ledger, path: string, backup: string)
    requires BackupsAt(p, backups, g) && path in p.before && path !in g.out && backup !in g.scratch
    requires forall k | 0 <= k < |backups| ::
        backups[k].backupPath != backup && backups[k].finalPath != path && k !in g.restored
    requires |backups| !in g.restored
    ensures BackupsAt(p, backups + [BundleBackup(path, backup)], BackUpLedger(p, g, path, backup))
  {
    var more := backups + [BundleBackup(path, backup)];
    var h := BackUpLedger(p, g, path, backup);
    forall x | x in h.out && x in p.before
      ensures exists k | 0 <= k < |more| && k !in h.restored :: more[k].finalPath == x
    {
      if x == path {
        assert more[|backups|].finalPath == x;
      } else {
        var k :| 0 <= k < |backups| && k !in g.restored && backups[k].finalPath == x;
        assert more[k].finalPath == x;
      }
    }
  }

  ghost function PublishLedger(p: Plan, g: Ledger, f: BundleTemp): Ledger
    requires f.finalPath in p.after
  {
    g.(put := g.put[f.finalPath := p.after[f.finalPath]], scratch := g.scratch - {f.name})
  }

  lemma PublishTemps(p: Plan, files: seq<BundleTemp>, backups: seq<BundleBackup>, g: Ledger, i: nat)
    requires Planned(p, files) && TempsAt(p, files, g) && Listed(files, backups, g)
    requires i < |files| && !files[i].published && files[i].name !in g.spent
    ensures files[i].finalPath in p.after && files[i].name in g.scratch
    ensures g.scratch[files[i].name] == p.after[files[i].finalPath]
    ensures TempsAt(p, files[i := files[i].(published := true)], PublishLedger(p, g, files[i]))
    ensures Listed(files[i := files[i].(published := true)], backups, PublishLedger(p, g, files[i]))
  {
    hide CoversAll;
    var after := files[i := files[i].(published := true)];
    var h := PublishLedger(p, g, files[i]);
    forall x | x in h.scratch
      ensures x in h.left || (exists j :: StagedAt(after, x, j)) || (exists k :: KeptAt(backups, h.restored, x, k))
    {
      if j :| StagedAt(files, x, j) {
        assert StagedAt(after, x, j);
      }
    }
  }

  lemma PublishBackups(p: Plan, files: seq<BundleTemp>, backups: seq<BundleBackup>, g: Ledger, i: nat)
    requires i < |files| && files[i].finalPath in p.after && BackupsAt(p, backups, g) && Apart(files, backups)
    ensures BackupsAt(p, backups, PublishLedger(p, g, files[i]))
    ensures Apart(files[i := files[i].(published := true)], backups)
  {
  }

  lemma StepPublish(p: Plan, disk: Disk, files: seq<BundleTemp>, backups: seq<BundleBackup>, g: Ledger, i: nat)
    requires Planned(p, files) && Placed(p, disk, files, backups, g)
    requires i < |files| && !files[i].published && files[i].name !in g.spent && files[i].finalPath in g.out
    ensures files[i].name in disk && files[i].name != files[i].finalPath
    ensures Placed(p, (disk - {files[i].name})[files[i].finalPath := disk[files[i].name]],
                   files[i := files[i].(published := true)], backups, PublishLedger(p, g, files[i]))
  {
    hide Shape, TempsAt, BackupsAt, Apart, Listed, Planned;
    var f := files[i];
    PublishTemps(p, files, backups, g, i);
    MovePublish(p, disk, g.out, g.put, g.scratch, f.name, f.finalPath);
    PublishBackups(p, files, backups, g, i);
  }

  ghost function UnpublishLedger(g: Ledger, f: BundleTemp, removed: bool): Ledger {
    g.(put := if removed then g.put - {f.finalPath} else g.put, spent := g.spent + {f.name})
  }

  lemma UnpublishTemps(p: Plan, files: seq<BundleTemp>, backups: seq<BundleBackup>, g: Ledger, i: nat, removed: bool)
    requires Planned(p, files) && TempsAt(p, files, g) && Listed(files, backups, g)
    requires i < |files| && files[i].published
    ensures files[i].finalPath in g.put
    ensures TempsAt(p, files[i := files[i].(published := false)], UnpublishLedger(g, files[i], removed))
    ensures Listed(files[i := files[i].(published := false)], backups, UnpublishLedger(g, files[i], removed))
  {
    hide CoversAll;
    var after := files[i := files[i].(published := false)];
    var h := UnpublishLedger(g, files[i], removed);
    forall x | x in h.scratch
      ensures x in h.left || (exists j :: StagedAt(after, x, j)) || (exists k :: KeptAt(backups, h.restored, x, k))
    {
      if j :| StagedAt(files, x, j) {
        assert StagedAt(after, x, j);
      }
    }
  }

  lemma UnpublishBackups(p: Plan, files: seq<BundleTemp>, backups: seq<BundleBackup>, g: Ledger, i: nat, removed: bool)
    requires i < |files| && BackupsAt(p, backups, g) && Apart(files, backups)
    ensures BackupsAt(p, backups, UnpublishLedger(g, files[i], removed))
    ensures Apart(files[i := files[i].(published := false)], backups)
  {
  }

  lemma StepUnpublish(p: Plan, disk: Disk, files: seq<BundleTemp>, backups: seq<BundleBackup>, g: Ledger, i: nat,
      removed: bool)
    requires Planned(p, files) && Placed(p, disk, files, backups, g)
    requires i < |files| && files[i].published
    ensures files[i].finalPath in disk
    ensures Placed(p, if removed then disk - {files[i].finalPath} else disk,
                   files[i := files[i].(published := false)], backups, UnpublishLedger(g, files[i], removed))
  {
    hide Shape, TempsAt, BackupsAt, Apart, Listed, Planned;
    var f := files[i];
    UnpublishTemps(p, files, backups, g, i, removed);
    MoveUnpublish(p, disk, g.out, g.put, g.scratch, f.finalPath);
    UnpublishBackups(p, files, backups, g, i, removed);
  }

  ghost function RestoreLedger(g: Ledger, backups: seq<BundleBackup>, k: nat): Ledger
    requires k < |backups|
  {
    g.(out := g.out - {backups[k].finalPath}, put := g.put - {backups[k].finalPath},
       scratch := g.scratch - {backups[k].backupPath}, restored := g.restored + {k})
  }

  lemma RestoreBackups(p: Plan, backups: seq<BundleBackup>, g: Ledger, k: nat)
    requires BackupsAt(p, backups, g) && k < |backups| && k !in g.restored
    ensures BackupsAt(p, backups, RestoreLedger(g, backups, k))
    ensures backups[k].finalPath in g.out && backups[k].finalPath in p.before && backups[k].backupPath in g.scratch
    ensures g.scratch[backups[k].backupPath] == p.before[backups[k].finalPath]
  {
    var h := RestoreLedger(g, backups, k);
    forall x | x in h.out && x in p.before
      ensures exists l | 0 <= l < |backups| && l !in h.restored :: backups[l].finalPath == x
    {
      var l :| 0 <= l < |backups| && l !in g.restored && backups[l].finalPath == x;
      assert l != k;
    }
  }

  lemma RestoreTemps(p: Plan, files: seq<BundleTemp>, backups: seq<BundleBackup>, g: Ledger, k: nat)
    requires TempsAt(p, files, g) && Apart(files, backups) && Listed(files, backups, g)
    requires k < |backups| && k !in g.restored && forall i | 0 <= i < |files| :: !files[i].published
    ensures TempsAt(p, files, RestoreLedger(g, backups, k)) && Listed(files, backups, RestoreLedger(g, backups, k))
  {
    var h := RestoreLedger(g, backups, k);
    forall x | x in h.scratch
      ensures x in h.left || (exists i :: StagedAt(files, x, i)) || (exists l :: KeptAt(backups, h.restored, x, l))
    {
      if l :| KeptAt(backups, g.restored, x, l) {
        assert KeptAt(backups, h.restored, x, l);
      }
    }
  }

  lemma StepRestore(p: Plan, disk: Disk, files: seq<BundleTemp>, backups: seq<BundleBackup>, g: Ledger, k: nat)
    requires Planned(p, files) && Placed(p, disk, files, backups, g)
    requires k < |backups| && k !in g.restored && forall i | 0 <= i < |files| :: !files[i].published
    ensures backups[k].backupPath in disk && backups[k].backupPath != backups[k].finalPath
    ensures Placed(p, (disk - {backups[k].backupPath})[backups[k].finalPath := disk[backups[k].backupPath]],
                   files, backups, RestoreLedger(g, backups, k))
  {
    hide Shape, TempsAt, BackupsAt, Apart, Listed, Planned;
    RestoreBackups(p, backups, g, k);
    RestoreTemps(p, files, backups, g, k);
    MoveRestore(p, disk, g.out, g.put, g.scratch, backups[k].backupPath, backups[k].finalPath);
  }

  lemma StepLeave(p: Plan, disk: Disk, files: seq<BundleTemp>, backups: seq<BundleBackup>, g: Ledger, name: string,
      e: Entry)
    requires Placed(p, disk, files, backups, g) && name !in disk && name !in p.before && name !in Touched(p)
    requires forall i | 0 <= i < |files| :: files[i].name != name
    requires forall k | 0 <= k < |backups| :: backups[k].backupPath != name
    ensures Placed(p, disk[name := e], files, backups, g.(scratch := g.scratch[name := e], left := g.left + {name}))
  {
    MoveAddScratch(p, disk, g.out, g.put, g.scratch, name, e);
    var h := g.(scratch := g.scratch[name := e], left := g.left + {name});
    assert forall x | x in h.scratch && x != name :: x in g.scratch;
  }

  lemma StepStage(p: Plan, disk: Disk, files: seq<BundleTemp>, g: Ledger, name: string, path: string)
    requires Placed(p, disk, files, [], g) && g.put == map[] && g.spent == {} && path in p.after
    requires name !in disk && name !in p.before && name !in Touched(p)
    requires forall i | 0 <= i < |files| :: files[i].name != name
    ensures Placed(p, disk[name := p.after[path]], files + [BundleTemp(name, path, false)], [],
                   g.(scratch := g.scratch[name := p.after[path]]))
  {
    MoveAddScratch(p, disk, g.out, g.put, g.scratch, name, p.after[path]);
    var more := files + [BundleTemp(name, path, false)];
    var h := g.(scratch := g.scratch[name := p.after[path]]);
    forall x | x in h.scratch
      ensures x in h.left || (exists i :: StagedAt(more, x, i)) || (exists k :: KeptAt([], h.restored, x, k))
    {
      if x == name {
        assert StagedAt(more, x, |files|);
      } else if i :| StagedAt(files, x, i) {
        assert StagedAt(more, x, i);
      }
    }
  }

  lemma StepDiscard(p: Plan, disk: Disk, files: seq<BundleTemp>, backups: seq<BundleBackup>, g: Ledger, i: nat)
    requires DistinctFiles(files) && Placed(p, disk, files, backups, g) && i < |files| && !files[i].published
    requires files[i].name in disk
    ensures Placed(p, disk - {files[i].name}, files, backups,
        g.(scratch := g.scratch - {files[i].name}, spent := g.spent + {files[i].name}))
  {
    var name := files[i].name;
    assert name !in g.put;
    assert name in g.scratch;
    MoveDropScratch(p, disk, g.out, g.put, g.scratch, name);
  }

  /** Once nothing is staged, published or kept, the old files are back with leftovers beside them. */
  lemma AllBack(p: Plan, disk: Disk, files: seq<BundleTemp>, backups: seq<BundleBackup>, g: Ledger)
    requires Placed(p, disk, files, backups, g) && g.put == map[]
    requires forall k | 0 <= k < |backups| :: k in g.restored
    requires forall i | 0 <= i < |files| :: files[i].name !in g.scratch
    ensures g.scratch.Keys <= g.left && disk == p.before + g.scratch
    ensures g.scratch.Keys !! (p.before.Keys + Touched(p))
  {
    forall x | x in g.scratch
      ensures x in g.left
    {
    }
    assert p.before - g.out == p.before by {
      forall x | x in p.before
        ensures x !in g.out
      {
      }
    }
  }

  // ---------- the histories ----------

  ghost predicate Steady(p: Plan, trace: seq<Disk>, start: nat) {
    forall i | start <= i < |trace| :: Coherent(p, trace[i])
  }

  lemma SteadyAppend(p: Plan, trace: seq<Disk>, start: nat, st: Disk)
    requires start <= |trace|
    ensures Steady(p, trace + [st], start) <==> Steady(p, trace, start) && Coherent(p, st)
  {
    var more := trace + [st];
    if Steady(p, more, start) {
      forall i | start <= i < |trace|
        ensures Coherent(p, trace[i])
      {
        assert more[i] == trace[i];
      }
      assert more[|trace|] == st;
    }
  }

  /** The manifest in view, if any, is the old one or the new one. */
  ghost predicate KnownManifest(p: Plan, st: Disk) {
    p.manifest in st ==>
      || (p.manifest in p.before && st[p.manifest] == p.before[p.manifest])
      || (p.manifest in p.after && st[p.manifest] == p.after[p.manifest])
  }

  ghost predicate Familiar(p: Plan, trace: seq<Disk>, start: nat) {
    forall i | start <= i < |trace| :: KnownManifest(p, trace[i])
  }

  lemma FamiliarAppend(p: Plan, trace: seq<Disk>, start: nat, st: Disk, out: set<string>, put: Disk, scratch: Disk)
    requires ValidPlan(p) && Familiar(p, trace, start) && Shape(p, st, out, put, scratch)
    ensures Familiar(p, trace + [st], start)
  {
    assert p.manifest in Touched(p) && p.manifest !in scratch;
  }
}
