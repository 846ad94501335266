/** The publication object and the whole of `writeBundle`, one directory call at a time
    (internal/bundle/codec.go:96-200, 510-635). */
module BundleWriter {
  import opened Facts
  import opened Publication

  class BundlePublication {
    const dir: Directory
    const canonical: set<string>
    ghost const plan: Plan
    ghost const start: nat
    ghost const known: nat
    var files: seq<BundleTemp>
    var backups: seq<BundleBackup>
    var committed: bool
    ghost var g: Ledger
    /** Calls that failed while undoing or cleaning up, and placeholders whose removal failed. */
    ghost var mishaps: nat
    ghost var leaked: set<string>

    /** The names whose removal failed since the publication began. */
    ghost function Refusals(): seq<string>
      reads this, dir`refused
      requires known <= |dir.refused|
    {
      dir.refused[known..]
    }

    ghost predicate Standing()
      reads this, dir`files, dir`trace, dir`refused
    {
      && dir.Valid() && ValidPlan(plan) && canonical == Touched(plan)
      && DistinctFiles(files) && Placed(plan, dir.files, files, backups, g)
      && (mishaps == 0 ==> g.left == leaked) && |leaked| <= 1
      && start < |dir.trace| && Familiar(plan, dir.trace, start)
      && known <= |dir.refused| && Noted(g.left, Refusals()) && Blank(leaked, g.scratch)
    }

    /** No canonical name was refused so far. */
    ghost predicate Unrefused()
      reads this, dir`refused
    {
      known <= |dir.refused| && NoneOf(Refusals(), canonical)
    }


    ghost predicate History()
      reads this, dir`trace
    {
      Steady(plan, dir.trace, start)
    }

    /** Nothing new is in place yet and nothing was undone. */
    ghost predicate Fresh()
      reads this
    {
      && g.put == map[] && g.spent == {} && g.restored == {} && !committed
      && forall i | 0 <= i < |files| :: !files[i].published
    }

    constructor (directory: Directory, names: set<string>, ghost p: Plan)
      requires directory.Valid() && ValidPlan(p) && names == Touched(p) && p.before == directory.files
      ensures dir == directory && canonical == names && plan == p
      ensures start == |directory.trace| - 1 && known == |directory.refused|
      ensures files == [] && backups == [] && mishaps == 0 && leaked == {}
      ensures g == Ledger({}, map[], map[], {}, {}, {})
      ensures Standing() && History() && Fresh() && Unrefused()
    {
      dir, canonical, plan, start, known := directory, names, p, |directory.trace| - 1, |directory.refused|;
      files, backups, committed, mishaps, leaked := [], [], false, 0, {};
      g := Ledger({}, map[], map[], {}, {}, {});
      new;
      assert Shape(plan, dir.files, {}, map[], map[]);
      NothingPutIsCoherent(plan, dir.files, {}, map[]);
      assert dir.trace[start] == plan.before;
    }

    /** `writeSequenceTemp` and `writeBytesTemp`: a temporary file with the whole content, or none, unless
        that one cannot be removed. */
    method Stage(path: string, content: Entry) returns (ok: bool)
      requires Standing() && History() && Fresh() && Unrefused() && backups == [] && leaked == {}
      requires path in plan.after && plan.after[path] == content
      requires forall i | 0 <= i < |files| :: files[i].finalPath != path
      modifies this`files, this`g, this`mishaps, dir
      ensures Advanced(old(dir.trace), dir.trace, old(dir.troubles), dir.troubles, old(dir.refused), dir.refused)
      ensures Standing() && History() && Fresh() && Unrefused() && g.out == old(g.out)
      ensures ok ==> |files| == |old(files)| + 1 && files[..|old(files)|] == old(files)
      ensures ok ==> files[|old(files)|].finalPath == path
      ensures ok ==> mishaps == old(mishaps) && dir.troubles == old(dir.troubles) && dir.refused == old(dir.refused)
      ensures !ok ==> files == old(files) && dir.faults.sporadic
      ensures !ok ==> mishaps - old(mishaps) < dir.troubles - old(dir.troubles)
      ensures !ok ==> if dir.refused == old(dir.refused) then dir.files == old(dir.files) && mishaps == old(mishaps)
                      else OneMore(old(dir.files), dir.files, old(dir.refused), dir.refused, content)
    {
      hide Placed, Coherent, Steady, Familiar, DistinctFiles, Noted, NoneOf, Blank, OneMore, Touched, ValidPlan;
      var temp := dir.CreateTemp(content, canonical + (set i | 0 <= i < |files| :: files[i].name));
      if temp.None? { return false; }
      var name := temp.value;
      FileNamesApart(files, name);
      StageFacts(plan, old(dir.files), old(dir.trace), start, files, g, name, path);
      NothingLeaked(g.scratch[name := content]);
      var failed := dir.Interrupted();
      if failed {
        var gone := dir.Remove(name);
        if gone == RemovalFailed {
          RefusedOne(g.left, canonical, old(dir.refused), known, name);
          OneMoreBy(old(dir.files), old(dir.refused), content, name);
          g := g.(scratch := g.scratch[name := content], left := g.left + {name});
          mishaps := mishaps + 1;
        } else {
          assert dir.files == old(dir.files);
        }
        return false;
      }
      files := files + [BundleTemp(name, path, false)];
      g := g.(scratch := g.scratch[name := content]);
      ok := true;
    }

    /** `createRollbackPath`: a name nothing has, found by creating a placeholder and removing it. The
        placeholder stays exactly when its removal fails. */
    method CreateRollbackPath() returns (name: Option<string>)
      requires Standing() && History() && Unrefused() && g.put == map[] && leaked == {}
      modifies this`g, this`leaked, dir
      ensures Advanced(old(dir.trace), dir.trace, old(dir.troubles), dir.troubles, old(dir.refused), dir.refused)
      ensures Standing() && History() && Unrefused()
      ensures g == old(g).(scratch := g.scratch, left := g.left)
      ensures if dir.refused == old(dir.refused) then dir.files == old(dir.files) && g == old(g) && leaked == {}
              else name.None? && OneMore(old(dir.files), dir.files, old(dir.refused), dir.refused, Regular(""))
      ensures dir.refused != old(dir.refused) ==> leaked != {}
      ensures name.Some? ==> dir.refused == old(dir.refused) && dir.troubles == old(dir.troubles)
      ensures name.Some? ==> Unused(plan, dir.files, files, backups, name.value)
      ensures name.None? ==> dir.troubles > old(dir.troubles) && !Persistent(dir.faults, plan)
    {
      hide Placed, Coherent, Steady, Familiar, Noted, NoneOf, Blank, DistinctFiles, OneMore, Unused, ValidPlan,
          Persistent, Touched;
      var temp := dir.CreateTemp(Regular(""), canonical + (set i | 0 <= i < |files| :: files[i].name)
                                              + (set k | 0 <= k < |backups| :: backups[k].backupPath));
      if temp.None? {
        SporadicNotPersistent(dir.faults, plan, "");
        return None;
      }
      var placeholder := temp.value;
      IsUnused(plan, old(dir.files), files, backups, g, placeholder);
      PlaceholderFacts(plan, old(dir.files), old(dir.trace), start, files, backups, g, placeholder);
      ghost var more := g.(scratch := g.scratch[placeholder := Regular("")], left := g.left + {placeholder});
      SporadicNotPersistent(dir.faults, plan, placeholder);
      var closed := dir.Interrupted();
      var gone := dir.Remove(placeholder);
      if gone == RemovalFailed {
        RefusedOne(g.left, canonical, old(dir.refused), known, placeholder);
        LeakedOne(more.scratch, placeholder);
        OneMoreBy(old(dir.files), old(dir.refused), Regular(""), placeholder);
        g, leaked := more, {placeholder};
        return None;
      }
      assert dir.files == old(dir.files);
      name := if closed then None else Some(placeholder);
    }

    /** One turn of the loop of `preparePublication`. */
    method BackUp(path: string) returns (ok: bool)
      requires Standing() && History() && Fresh() && Unrefused() && leaked == {} && path in canonical && path !in g.out
      requires ManifestThenGone(plan, backups)
      requires forall k | 0 <= k < |backups| && backups[k].finalPath == plan.manifest :: path in plan.gone
      modifies this`g, this`leaked, this`backups, dir
      ensures Advanced(old(dir.trace), dir.trace, old(dir.troubles), dir.troubles, old(dir.refused), dir.refused)
      ensures Standing() && History() && Fresh() && Unrefused() && ManifestThenGone(plan, backups)
      ensures ok ==> g.out == old(g.out) + {path} && g.left == old(g.left) && leaked == {}
      ensures ok ==> dir.troubles == old(dir.troubles) && dir.refused == old(dir.refused)
      ensures ok ==> path in plan.before ==> plan.before[path].Regular?
      ensures forall k | 0 <= k < |backups| :: backups[k] in old(backups) || backups[k].finalPath == path
      ensures !ok ==> g.out == old(g.out) && backups == old(backups) && (dir.files == old(dir.files) || leaked != {})
      ensures !ok ==> dir.troubles > old(dir.troubles) || (path in plan.before && plan.before[path].Subdirectory?)
      ensures !ok && Persistent(dir.faults, plan) ==> path in plan.before && plan.before[path].Subdirectory?
    {
      hide Shape, TempsAt, BackupsAt, Apart, Listed, Coherent, Steady, Familiar, Noted, NoneOf, Blank, Unused, OneMore;
      var stop := dir.Interrupted();
      if stop { return false; }
      StillThere(plan, dir.files, g, path);
      var info := dir.Lstat(path);
      if info == LookupFailed { return false; }
      if info == Absent {
        StepSkip(plan, dir.files, files, backups, g, path);
        g := g.(out := g.out + {path});
        return true;
      }
      if info.isDirectory { return false; }
      var backup := CreateRollbackPath();
      if backup.None? { return false; }
      ok := MoveAway(path, backup.value);
    }

    /** The old file renamed to its backup. */
    method MoveAway(path: string, backup: string) returns (ok: bool)
      requires Standing() && History() && Fresh() && Unrefused() && leaked == {} && path in canonical && path !in g.out
      requires ManifestThenGone(plan, backups) && path in dir.files && Unused(plan, dir.files, files, backups, backup)
      requires forall k | 0 <= k < |backups| && backups[k].finalPath == plan.manifest :: path in plan.gone
      modifies this`g, this`backups, dir
      ensures Advanced(old(dir.trace), dir.trace, old(dir.troubles), dir.troubles, old(dir.refused), dir.refused)
      ensures Standing() && History() && Fresh() && Unrefused() && ManifestThenGone(plan, backups)
      ensures ok ==> g.out == old(g.out) + {path} && g.left == old(g.left)
      ensures ok ==> backups == old(backups) + [BundleBackup(path, backup)]
      ensures ok ==> dir.troubles == old(dir.troubles) && dir.refused == old(dir.refused)
      ensures !ok ==> g == old(g) && backups == old(backups) && dir.files == old(dir.files)
      ensures !ok ==> dir.troubles > old(dir.troubles) && !Persistent(dir.faults, plan)
    {
      hide Shape, TempsAt, BackupsAt, Apart, Listed, Coherent, Steady, Familiar, Noted, NoneOf, Blank;
      NotKept(plan, backups, g, path);
      StepBackUp(plan, dir.files, files, backups, g, path, backup);
      var moved := dir.Rename(path, backup);
      if !moved {
        ghost var had := dir.refused;
        var gone := dir.Remove(backup);
        if gone == RemovalFailed { RefusedOne(g.left, canonical, had, known, backup); }
        return false;
      }
      backups := backups + [BundleBackup(path, backup)];
      g := BackUpLedger(plan, g, path, backup);
      NothingLeaked(g.scratch);
      NothingPutIsCoherent(plan, dir.files, g.out, g.scratch);
      SteadyAppend(plan, old(dir.trace), start, dir.files);
      FamiliarAppend(plan, old(dir.trace), start, dir.files, g.out, g.put, g.scratch);
      ok := true;
    }

    /** `publishTemp` for the next file in line. */
    method PublishOne(i: nat) returns (ok: bool)
      requires Standing() && History() && Planned(plan, files) && InPlace(plan, files, g, i) && i < |files|
      requires !committed
      modifies this`g, this`files, dir
      ensures Advanced(old(dir.trace), dir.trace, old(dir.troubles), dir.troubles, old(dir.refused), dir.refused)
      ensures Standing() && History() && Planned(plan, files) && dir.refused == old(dir.refused)
      ensures g == old(g).(put := g.put, scratch := g.scratch) && SamePaths(old(files), files)
      ensures ok ==> InPlace(plan, files, g, i + 1) && dir.troubles == old(dir.troubles)
      ensures !ok ==> InPlace(plan, files, g, i) && dir.troubles > old(dir.troubles)
      ensures ok ==> old(files)[i].finalPath !in dir.faults.unplaceable
      ensures !ok ==> dir.faults.sporadic || files[i].finalPath in dir.faults.unplaceable
    {
      hide Shape, TempsAt, BackupsAt, Apart, Listed, Coherent, Steady, Familiar, CoversAll, Noted, Blank;
      var stop := dir.Interrupted();
      if stop { return false; }
      InPlan(plan, files, i);
      StepPublish(plan, dir.files, files, backups, g, i);
      ghost var during := dir.trace;
      ghost var was := files;
      ok := dir.Rename(files[i].name, files[i].finalPath);
      if !ok { return; }
      BlankStays(leaked, g.scratch, PublishLedger(plan, g, files[i]).scratch);
      g := PublishLedger(plan, g, files[i]);
      files := files[i := files[i].(published := true)];
      PublishKeepsPlan(plan, was, i, true);
      NextInPlace(plan, was, old(g), i);
      InPlaceIsCoherent(plan, dir.files, files, g, i + 1);
      SteadyAppend(plan, during, start, dir.files);
      FamiliarAppend(plan, during, start, dir.files, g.out, g.put, g.scratch);
    }

    /** `publish`: the sequences in order, then the manifest. */
    method Publish() returns (ok: bool, ghost n: nat)
      requires Standing() && History() && Fresh() && Planned(plan, files) && g.out == Touched(plan)
      modifies this`g, this`files, dir
      ensures Advanced(old(dir.trace), dir.trace, old(dir.troubles), dir.troubles, old(dir.refused), dir.refused)
      ensures Standing() && History() && Planned(plan, files) && dir.refused == old(dir.refused)
      ensures g == old(g).(put := g.put, scratch := g.scratch) && SamePaths(old(files), files)
      ensures InPlace(plan, files, g, n) && (ok <==> n == |files|)
      ensures ok ==> dir.troubles == old(dir.troubles)
      ensures !ok ==> dir.troubles > old(dir.troubles) && Undoable(plan, files, g)
      ensures forall j | 0 <= j < n :: files[j].finalPath !in dir.faults.unplaceable
      ensures !ok ==> dir.faults.sporadic || files[n].finalPath in dir.faults.unplaceable
    {
      hide Shape, TempsAt, BackupsAt, Apart, Listed, Coherent, Steady, Familiar, CoversAll, Noted, Blank, DistinctFiles;
      var i := 0;
      while i < |files|
        invariant i <= |files| && SamePaths(old(files), files) && !committed
        invariant Advanced(old(dir.trace), dir.trace, old(dir.troubles), dir.troubles, old(dir.refused), dir.refused)
        invariant Standing() && History() && Planned(plan, files) && InPlace(plan, files, g, i)
        invariant g == old(g).(put := g.put, scratch := g.scratch)
        invariant dir.troubles == old(dir.troubles) && dir.refused == old(dir.refused)
        invariant forall j | 0 <= j < i :: files[j].finalPath !in dir.faults.unplaceable
      {
        var done := PublishOne(i);
        if !done {
          PartlyInPlace(plan, files, g, i);
          return false, i;
        }
        i := i + 1;
      }
      ok, n := true, i;
    }

    /** Everything new is in place and only scratch files remain beside it. */
    ghost predicate Settled()
      reads this, dir`files, dir`trace, dir`refused
    {
      && dir.Valid() && start < |dir.trace| && known <= |dir.refused| && ValidPlan(plan)
      && Familiar(plan, dir.trace, start)
      && Shape(plan, dir.files, Touched(plan), g.put, g.scratch) && g.put.Keys == plan.after.Keys
    }

    method DropBackup(path: string)
      requires Settled() && History() && Unrefused() && path in g.scratch && path !in canonical
      modifies this`g, dir
      ensures Advanced(old(dir.trace), dir.trace, old(dir.troubles), dir.troubles, old(dir.refused), dir.refused)
      ensures Settled() && History() && Unrefused()
      ensures g.scratch.Keys - {path} == old(g.scratch.Keys) - {path}
      ensures path in g.scratch ==> path in Refusals()
      ensures dir.troubles == old(dir.troubles) ==> dir.refused == old(dir.refused)
    {
      hide Coherent, Steady, Familiar, Shape;
      MoveDropScratch(plan, dir.files, Touched(plan), g.put, g.scratch, path);
      ScratchThere(plan, dir.files, Touched(plan), g.put, g.scratch, path);
      ghost var during := dir.trace;
      var gone := dir.Remove(path);
      if gone == Removed {
        g := g.(scratch := g.scratch - {path});
        AllPutIsCoherent(plan, dir.files, g.put, g.scratch);
        SteadyAppend(plan, during, start, dir.files);
        FamiliarAppend(plan, during, start, dir.files, Touched(plan), g.put, g.scratch);
      } else if gone == RemovalFailed {
        RefusalsGrow(known, old(dir.refused), path);
      }
    }

    /** `commit`: from here on nothing is undone; backups that cannot be removed stay behind. */
    method Commit()
      requires Standing() && History() && Unrefused() && Planned(plan, files) && InPlace(plan, files, g, |files|)
      requires g.restored == {} && g.left == {}
      modifies this`g, this`committed, dir
      ensures Advanced(old(dir.trace), dir.trace, old(dir.troubles), dir.troubles, old(dir.refused), dir.refused)
      ensures committed && Settled() && History() && Unrefused()
      ensures forall x | x in g.scratch :: x in Refusals()
      ensures dir.troubles == old(dir.troubles) ==> dir.refused == old(dir.refused)
    {
      hide Coherent, Steady, Familiar, Shape, TempsAt, Apart, CoversAll, Finals, NoneOf, Noted, Blank, DistinctFiles,
          KeptAt, StagedAt;
      AllFinals(plan, files);
      OnlyBackups(plan, files, backups, g);
      committed := true;
      DropBackups();
    }

    method DropBackups()
      requires Settled() && History() && Unrefused() && canonical == Touched(plan) && DistinctBackups(backups)
      requires g.scratch.Keys <= BackupNames(backups, 0)
      requires forall l | 0 <= l < |backups| :: backups[l].backupPath in g.scratch
      modifies this`g, dir
      ensures Advanced(old(dir.trace), dir.trace, old(dir.troubles), dir.troubles, old(dir.refused), dir.refused)
      ensures Settled() && History() && Unrefused()
      ensures forall x | x in g.scratch :: x in Refusals()
      ensures dir.troubles == old(dir.troubles) ==> dir.refused == old(dir.refused)
    {
      hide Coherent, Steady, Familiar, Shape, NoneOf, DistinctBackups;
      var k := 0;
      while k < |backups|
        invariant k <= |backups| && Settled() && History() && Unrefused()
        invariant Advanced(old(dir.trace), dir.trace, old(dir.troubles), dir.troubles, old(dir.refused), dir.refused)
        invariant forall l | k <= l < |backups| :: backups[l].backupPath in g.scratch
        invariant forall x | x in g.scratch :: x in BackupNames(backups, k) || x in Refusals()
        invariant dir.troubles == old(dir.troubles) ==> dir.refused == old(dir.refused)
      {
        ghost var had, refusals := g.scratch.Keys, Refusals();
        ScratchThere(plan, dir.files, Touched(plan), g.put, g.scratch, backups[k].backupPath);
        DropBackup(backups[k].backupPath);
        BackupNamesStep(backups, k, had, g.scratch.Keys, refusals, Refusals());
        k := k + 1;
      }
    }

    /** One published file taken out again by `rollback`; a failed removal leaves it in view. */
    method Unpublish(i: nat)
      requires Standing() && History() && Planned(plan, files) && i < |files| && files[i].published
      requires plan.manifest in g.out && plan.manifest !in g.put
      modifies this`g, this`files, this`mishaps, dir
      ensures Advanced(old(dir.trace), dir.trace, old(dir.troubles), dir.troubles, old(dir.refused), dir.refused)
      ensures Standing() && History() && Planned(plan, files)
      ensures files == old(files)[i := old(files)[i].(published := false)]
      ensures g == UnpublishLedger(old(g), old(files)[i], dir.refused == old(dir.refused))
      ensures if dir.refused == old(dir.refused) then mishaps == old(mishaps)
              else dir.refused == old(dir.refused) + [files[i].finalPath] && mishaps == old(mishaps) + 1
      ensures mishaps - old(mishaps) <= dir.troubles - old(dir.troubles)
      ensures !dir.faults.sporadic ==>
          (dir.refused == old(dir.refused) <==> files[i].finalPath !in dir.faults.unremovable)
    {
      hide Shape, TempsAt, BackupsAt, Apart, Listed, Coherent, Steady, Familiar, CoversAll, Noted, Blank;
      StepUnpublish(plan, dir.files, files, backups, g, i, true);
      StepUnpublish(plan, dir.files, files, backups, g, i, false);
      PublishKeepsPlan(plan, files, i, false);
      ghost var during := dir.trace;
      var gone := dir.Remove(files[i].finalPath);
      NotedMore(g.left, old(dir.refused), dir.refused, known);
      if gone == RemovalFailed {
        mishaps := mishaps + 1;
      }
      g := UnpublishLedger(g, files[i], gone == Removed);
      files := files[i := files[i].(published := false)];
      if gone == Removed {
        ManifestOutIsCoherent(plan, dir.files, g.out, g.put, g.scratch);
        SteadyAppend(plan, during, start, dir.files);
        FamiliarAppend(plan, during, start, dir.files, g.out, g.put, g.scratch);
      }
    }

    /** One backup put back by `rollback`, if it can be. */
    method Restore(k: nat)
      requires Standing() && Planned(plan, files) && k < |backups| && k !in g.restored
      requires forall i | 0 <= i < |files| :: !files[i].published
      modifies this`g, this`mishaps, dir
      ensures Advanced(old(dir.trace), dir.trace, old(dir.troubles), dir.troubles, old(dir.refused), dir.refused)
      ensures Standing() && dir.refused == old(dir.refused)
      ensures mishaps == old(mishaps) ==> g == RestoreLedger(old(g), backups, k)
      ensures mishaps == old(mishaps) ==> dir.trace == old(dir.trace) + [dir.files]
      ensures mishaps != old(mishaps) ==> mishaps == old(mishaps) + 1 && g == old(g) && dir.trace == old(dir.trace)
      ensures mishaps - old(mishaps) <= dir.troubles - old(dir.troubles)
      ensures !dir.faults.sporadic ==> (mishaps == old(mishaps) <==> backups[k].finalPath !in dir.faults.unplaceable)
    {
      hide Shape, TempsAt, BackupsAt, Apart, Listed, CoversAll, Noted, Blank;
      StepRestore(plan, dir.files, files, backups, g, k);
      var info := dir.Lstat(backups[k].backupPath);
      if info == LookupFailed {
        mishaps := mishaps + 1;
        return;
      }
      var moved := dir.Rename(backups[k].backupPath, backups[k].finalPath);
      if !moved {
        mishaps := mishaps + 1;
        return;
      }
      BlankStays(leaked, g.scratch, RestoreLedger(g, backups, k).scratch);
      g := RestoreLedger(g, backups, k);
      FamiliarAppend(plan, old(dir.trace), start, dir.files, g.out, g.put, g.scratch);
    }

    /** `rollback`: published files out in reverse order, then backups back in reverse order. What stays is
        the new content of the names whose removal was refused. The history stays coherent exactly when that
        content is what was there before anyway, or the old manifest did not come back either. */
    method RollBack()
      requires Standing() && History() && Planned(plan, files) && !committed && Unrefused()
      requires Undoable(plan, files, g) && ManifestThenGone(plan, backups)
      modifies this`g, this`files, this`mishaps, dir
      ensures Advanced(old(dir.trace), dir.trace, old(dir.troubles), dir.troubles, old(dir.refused), dir.refused)
      ensures Standing() && !committed && Planned(plan, files) && SamePaths(old(files), files)
      ensures forall i | 0 <= i < |files| :: !files[i].published
      ensures mishaps == old(mishaps) ==> g.put == map[] && (forall k | 0 <= k < |backups| :: k in g.restored)
      ensures mishaps == old(mishaps) ==> dir.refused == old(dir.refused)
      ensures 0 <= mishaps - old(mishaps) <= dir.troubles - old(dir.troubles)
      ensures forall x | x in Refusals() && x in canonical :: x in old(g.put)
      ensures g.put.Keys <= StuckIn(plan, Refusals()).Keys && plan.manifest !in g.put
      ensures Matches(plan, StuckIn(plan, Refusals())) || plan.manifest in g.out || plan.manifest !in plan.before ==>
          History()
      ensures NewManifest(plan) && !Matches(plan, StuckIn(plan, Refusals())) && plan.manifest !in g.out ==> !History()
      ensures !dir.faults.sporadic ==> RefusedExactly(Refusals(), canonical, old(g.put.Keys) * dir.faults.unremovable)
      ensures !dir.faults.sporadic && plan.manifest in plan.before && plan.manifest in old(g.out) ==>
                (plan.manifest in g.out <==> plan.manifest in dir.faults.unplaceable)
    {
      hide Placed, Coherent, Steady, Familiar, Matches, Noted, Blank, DistinctFiles, CoversAll;
      TakeOut();
      StuckExact(plan, dir.files, files, backups, g, Refusals());
      PutBack(g.put);
      assert mishaps == old(mishaps) ==> g.put.Keys == {};
    }

    /** The first loop of `rollback`. */
    method TakeOut()
      requires Standing() && History() && Planned(plan, files) && !committed && Undoable(plan, files, g) && Unrefused()
      modifies this`g, this`files, this`mishaps, dir
      ensures Advanced(old(dir.trace), dir.trace, old(dir.troubles), dir.troubles, old(dir.refused), dir.refused)
      ensures Standing() && History() && Planned(plan, files) && SamePaths(old(files), files)
      ensures 0 <= mishaps - old(mishaps) <= dir.troubles - old(dir.troubles)
      ensures forall i | 0 <= i < |files| :: !files[i].published
      ensures mishaps == old(mishaps) ==> g.put == map[] && dir.refused == old(dir.refused)
      ensures g.put.Keys <= old(g.put.Keys) && RefusedExactly(Refusals(), canonical, g.put.Keys)
      ensures g.out == old(g.out) && g.restored == {} && plan.manifest !in g.put
      ensures g.put == map[] || g.out == Touched(plan)
      ensures !dir.faults.sporadic ==> g.put.Keys == old(g.put.Keys) * dir.faults.unremovable
    {
      hide Placed, Coherent, Steady, Familiar, DistinctFiles, CoversAll, Noted, Blank, NoneOf, TakenOut, RefusedExactly;
      PutIsAccounted(plan, files, g, Refusals(), dir.faults);
      var i := |files|;
      while i > 0
        invariant 0 <= i <= |files| && SamePaths(old(files), files) && !committed
        invariant Advanced(old(dir.trace), dir.trace, old(dir.troubles), dir.troubles, old(dir.refused), dir.refused)
        invariant Standing() && History() && Planned(plan, files)
        invariant forall j | i <= j < |files| :: !files[j].published
        invariant g.out == old(g.out) && g.restored == {} && plan.manifest !in g.put
        invariant 0 <= mishaps - old(mishaps) <= dir.troubles - old(dir.troubles)
        invariant ((forall j | 0 <= j < |files| :: !files[j].published) && g.put == map[]) || g.out == Touched(plan)
        invariant mishaps == old(mishaps) ==> dir.refused == old(dir.refused)
        invariant TakenOut(plan, files, i, g, Refusals(), old(g.put.Keys), dir.faults)
      {
        i := i - 1;
        if files[i].published {
          ghost var was, h, refused := files, g, dir.refused;
          PublishedIsPut(plan, dir.files, files, backups, g, i);
          TakenOutNext(plan, was, i, h, Refusals(), old(g.put.Keys), dir.faults, true);
          TakenOutNext(plan, was, i, h, Refusals(), old(g.put.Keys), dir.faults, false);
          RefusalsGrow(known, refused, was[i].finalPath);
          Unpublish(i);
        } else {
          TakenOutSkip(plan, files, i, g, Refusals(), old(g.put.Keys), dir.faults);
        }
      }
      PutIsNew(plan, dir.files, files, backups, g);
      AllTakenOut(plan, files, g, Refusals(), old(g.put.Keys), dir.faults);
    }

    /** The second loop of `rollback`. */
    method PutBack(ghost stuck: Disk)
      requires Standing() && History() && Planned(plan, files) && !committed && ManifestThenGone(plan, backups)
      requires forall i | 0 <= i < |files| :: !files[i].published
      requires g.restored == {} && g.put == stuck && plan.manifest !in stuck
      requires (stuck == map[] || g.out == Touched(plan))
      modifies this`g, this`mishaps, dir
      ensures Advanced(old(dir.trace), dir.trace, old(dir.troubles), dir.troubles, old(dir.refused), dir.refused)
      ensures Standing() && dir.refused == old(dir.refused)
      ensures 0 <= mishaps - old(mishaps) <= dir.troubles - old(dir.troubles)
      ensures mishaps == old(mishaps) ==> forall k | 0 <= k < |backups| :: k in g.restored
      ensures g.put.Keys <= stuck.Keys
      ensures Matches(plan, stuck) || plan.manifest in g.out || plan.manifest !in plan.before ==> History()
      ensures NewManifest(plan) && !Matches(plan, stuck) && plan.manifest !in g.out ==> !History()
      ensures !dir.faults.sporadic && plan.manifest in plan.before && plan.manifest in old(g.out) ==>
                (plan.manifest in g.out <==> plan.manifest in dir.faults.unplaceable)
    {
      hide Shape, TempsAt, BackupsAt, Apart, Listed, Coherent, Steady, Familiar, Matches, DistinctFiles, CoversAll,
          Noted, Blank;
      ghost var first := g;
      StuckIsNew(plan, dir.files, g, stuck);
      OldManifestOut(plan, g, stuck);
      var k := |backups|;
      while k > 0
        invariant 0 <= k <= |backups| && Standing() && dir.refused == old(dir.refused)
        invariant Advanced(old(dir.trace), dir.trace, old(dir.troubles), dir.troubles, old(dir.refused), dir.refused)
        invariant 0 <= mishaps - old(mishaps) <= dir.troubles - old(dir.troubles)
        invariant forall l | l in g.restored :: l >= k
        invariant mishaps == old(mishaps) ==> forall l | k <= l < |backups| :: l in g.restored
        invariant Within(g.put, stuck)
        invariant ManifestAhead(plan, backups, k) ==> g.put == stuck
        invariant plan.manifest !in plan.before && plan.manifest in old(g.out) ==> plan.manifest in g.out
        invariant Matches(plan, stuck) || plan.manifest in g.out ==> History()
        invariant NewManifest(plan) && !Matches(plan, stuck) && plan.manifest !in g.out ==> !History()
        invariant !dir.faults.sporadic ==> BackExactly(backups, k, g, dir.faults.unplaceable)
      {
        k := k - 1;
        ghost var was, during, failed := g, dir.trace, mishaps;
        RestoredOld(plan, backups, g, k);
        Restore(k);
        if mishaps == failed {
          RestoreVerdict(plan, dir.files, backups, k, was, stuck);
          SteadyAppend(plan, during, start, dir.files);
        }
      }
      if !dir.faults.sporadic { ManifestIsBack(plan, backups, first, g, dir.faults.unplaceable); }
    }

    /** Between two turns of the loop of `preparePublication`. */
    ghost predicate Backing(paths: seq<string>, i: nat)
      reads this, dir`files, dir`trace, dir`refused
    {
      && Standing() && History() && Fresh() && Unrefused() && Planned(plan, files) && ManifestThenGone(plan, backups)
      && leaked == {} && g.left == {} && i <= |paths| && g.out == (set x | x in paths[..i])
      && (forall k | 0 <= k < |backups| :: backups[k].finalPath in paths[..i])
      && (forall x | x in paths[..i] && x in plan.before :: plan.before[x].Regular?)
    }

    method BackUpNext(paths: seq<string>, i: nat) returns (ok: bool)
      requires Backing(paths, i) && i < |paths| && InOrder(plan, files, paths)
      modifies this`g, this`leaked, this`backups, dir
      ensures Advanced(old(dir.trace), dir.trace, old(dir.troubles), dir.troubles, old(dir.refused), dir.refused)
      ensures ok ==> Backing(paths, i + 1) && dir.troubles == old(dir.troubles) && dir.refused == old(dir.refused)
      ensures !ok ==> Standing() && History() && Fresh() && Unrefused() && Planned(plan, files)
      ensures !ok ==> ManifestThenGone(plan, backups)
      ensures !ok ==> dir.troubles > old(dir.troubles) || !NoDirectories(plan)
      ensures !ok && Persistent(dir.faults, plan) ==> !NoDirectories(plan)
    {
      hide Placed, Coherent, Steady, Familiar, DistinctFiles, CoversAll, ManifestThenGone, Noted, Blank, NoneOf;
      NextPath(plan, files, paths, i);
      ok := BackUp(paths[i]);
      assert paths[..i + 1] == paths[..i] + [paths[i]];
    }

    /** `preparePublication`: everything old under a canonical name is moved to a backup. */
    method Prepare(obsolete: seq<string>) returns (ok: bool)
      requires Standing() && History() && Fresh() && Unrefused() && Planned(plan, files) && g.out == {} && backups == []
      requires leaked == {}
      requires g.left == {} && Touched(plan) == plan.after.Keys + (set x | x in obsolete)
      modifies this`g, this`leaked, this`backups, this`files, this`mishaps, dir
      ensures Advanced(old(dir.trace), dir.trace, old(dir.troubles), dir.troubles, old(dir.refused), dir.refused)
      ensures Standing() && History() && Unrefused() && Planned(plan, files) && SamePaths(old(files), files)
      ensures !committed
      ensures forall i | 0 <= i < |files| :: !files[i].published
      ensures ok ==> Fresh() && g.out == Touched(plan) && ManifestThenGone(plan, backups) && NoDirectories(plan)
      ensures ok ==> dir.troubles == old(dir.troubles) && dir.refused == old(dir.refused)
      ensures ok ==> g.left == {} && mishaps == old(mishaps) && leaked == {}
      ensures !ok ==> g.put == map[] && (Persistent(dir.faults, plan) ==> !NoDirectories(plan))
      ensures !ok && mishaps == old(mishaps) ==> forall k | 0 <= k < |backups| :: k in g.restored
      ensures !ok ==> 0 <= mishaps - old(mishaps) <= dir.troubles - old(dir.troubles)
      ensures !ok && NoDirectories(plan) ==> mishaps - old(mishaps) < dir.troubles - old(dir.troubles)
    {
      hide Placed, Coherent, Steady, Familiar, DistinctFiles, CoversAll, ManifestThenGone, Matches, Noted, Blank;
      NothingKept(plan);
      var paths := CollectPaths(files, obsolete);
      PathsAreTouched(plan, files, obsolete, paths);
      var i := 0;
      while i < |paths|
        invariant 0 <= i <= |paths| && files == old(files) && mishaps == old(mishaps)
        invariant Advanced(old(dir.trace), dir.trace, old(dir.troubles), dir.troubles, old(dir.refused), dir.refused)
        invariant Backing(paths, i) && dir.troubles == old(dir.troubles) && dir.refused == old(dir.refused)
      {
        var done := BackUpNext(paths, i);
        if !done {
          NothingToUndo(plan, files, g);
          RollBack();
          NothingStuck(plan, Refusals());
          return false;
        }
        i := i + 1;
      }
      assert paths[..i] == paths;
      ok := true;
    }

    /** The temporary file of one unpublished entry removed, if it can be. */
    method Discard(i: nat)
      requires Standing() && i < |files| && !files[i].published
      modifies this`g, this`mishaps, dir
      ensures Advanced(old(dir.trace), dir.trace, old(dir.troubles), dir.troubles, old(dir.refused), dir.refused)
      ensures Standing() && (History() <==> old(History()))
      ensures g == old(g).(scratch := g.scratch, spent := g.spent) && g.scratch.Keys <= old(g.scratch.Keys)
      ensures 0 <= mishaps - old(mishaps) <= dir.troubles - old(dir.troubles)
      ensures files[i].name in g.scratch ==> mishaps > old(mishaps) && files[i].name in Refusals()
      ensures mishaps == old(mishaps) ==> dir.refused == old(dir.refused)
      ensures dir.refused == old(dir.refused)
          || (dir.refused == old(dir.refused) + [files[i].name] && files[i].name !in canonical)
    {
      hide BackupsAt, Apart, Listed, Coherent, Steady, Familiar, Noted, Blank;
      if files[i].name in dir.files {
        StepDiscard(plan, dir.files, files, backups, g, i);
      }
      ghost var before, during := dir.files, dir.trace;
      var gone := dir.Remove(files[i].name);
      NotedMore(g.left, old(dir.refused), dir.refused, known);
      if gone == RemovalFailed {
        mishaps := mishaps + 1;
        RefusalsGrow(known, old(dir.refused), files[i].name);
      } else if gone == Removed {
        ghost var scratch := g.scratch;
        BlankStays(leaked, g.scratch, g.scratch - {files[i].name});
        g := g.(scratch := g.scratch - {files[i].name}, spent := g.spent + {files[i].name});
        ScratchIsIrrelevant(plan, before, dir.files, g, scratch);
        SteadyAppend(plan, during, start, dir.files);
        FamiliarAppend(plan, during, start, dir.files, g.out, g.put, g.scratch);
        LastOfSteady(plan, during, start);
      }
    }

    /** The deferred loop of `writeBundle`: what was never published, or no longer is, is removed. */
    method CleanUp()
      requires committed ==> forall i | 0 <= i < |files| :: files[i].published
      requires !committed ==> Standing() && forall i | 0 <= i < |files| :: !files[i].published
      modifies this`g, this`mishaps, dir
      ensures Advanced(old(dir.trace), dir.trace, old(dir.troubles), dir.troubles, old(dir.refused), dir.refused)
      ensures committed ==> dir.files == old(dir.files) && dir.trace == old(dir.trace)
      ensures committed ==> dir.troubles == old(dir.troubles)
                            && dir.refused == old(dir.refused) && g == old(g)
      ensures !committed ==> Standing() && (History() <==> old(History()))
      ensures !committed ==> g == old(g).(scratch := g.scratch, spent := g.spent)
      ensures 0 <= mishaps - old(mishaps) <= dir.troubles - old(dir.troubles)
      ensures !committed && mishaps == old(mishaps) ==> dir.refused == old(dir.refused)
      ensures !committed && mishaps == old(mishaps) ==> forall i | 0 <= i < |files| :: files[i].name !in g.scratch
      ensures !committed ==> forall i | 0 <= i < |files| && files[i].name in g.scratch :: files[i].name in Refusals()
      ensures !committed ==> SameCanonical(old(Refusals()), Refusals(), canonical)
    {
      hide Placed, DistinctFiles, Coherent, Steady, Familiar, Noted, Blank;
      var i := 0;
      while i < |files|
        invariant 0 <= i <= |files|
        invariant Advanced(old(dir.trace), dir.trace, old(dir.troubles), dir.troubles, old(dir.refused), dir.refused)
        invariant committed ==> dir.files == old(dir.files) && dir.trace == old(dir.trace)
        invariant committed ==> dir.troubles == old(dir.troubles)
                                && dir.refused == old(dir.refused) && g == old(g)
        invariant !committed ==> Standing() && (History() <==> old(History()))
        invariant !committed ==> g == old(g).(scratch := g.scratch, spent := g.spent)
        invariant 0 <= mishaps - old(mishaps) <= dir.troubles - old(dir.troubles)
        invariant !committed && mishaps == old(mishaps) ==> dir.refused == old(dir.refused)
        invariant !committed && mishaps == old(mishaps) ==> forall j | 0 <= j < i :: files[j].name !in g.scratch
        invariant !committed ==> forall j | 0 <= j < i && files[j].name in g.scratch :: files[j].name in Refusals()
        invariant !committed ==> SameCanonical(old(Refusals()), Refusals(), canonical)
      {
        if !files[i].published {
          ghost var refused := dir.refused;
          RefusalsGrow(known, refused, files[i].name);
          Discard(i);
        }
        i := i + 1;
      }
    }

    /** What a failed write leaves, once nothing is staged or published any more. */
    lemma FailureVerdict()
      requires Standing() && g.put.Keys <= StuckIn(plan, Refusals()).Keys
      requires forall i | 0 <= i < |files| && files[i].name in g.scratch :: files[i].name in Refusals()
      requires forall i | 0 <= i < |files| :: !files[i].published
      ensures AfterFailure(plan, dir.files, Refusals())
      ensures (mishaps == 0 && g.put == map[] && (forall k | 0 <= k < |backups| :: k in g.restored)
               && (forall i | 0 <= i < |files| :: files[i].name !in g.scratch)) ==>
                   BackAgain(plan, dir.files, Refusals())
      ensures plan.manifest in g.out && plan.manifest !in g.put ==> plan.manifest !in dir.files
      ensures plan.manifest !in g.out ==> (plan.manifest in dir.files <==> plan.manifest in plan.before)
    {
      Verdict(plan, dir.files, files, backups, g, Refusals());
      if mishaps == 0 && g.put == map[] && (forall k | 0 <= k < |backups| :: k in g.restored)
         && forall i | 0 <= i < |files| :: files[i].name !in g.scratch {
        AllBack(plan, dir.files, files, backups, g);
        OnlyLeaked(plan, dir.files, g.scratch, leaked, Refusals());
      }
    }
  }

  lemma ScratchIsIrrelevant(p: Plan, a: Disk, b: Disk, g: Ledger, scratch: Disk)
    requires Shape(p, a, g.out, g.put, scratch) && Shape(p, b, g.out, g.put, g.scratch) && ValidPlan(p)
    ensures Coherent(p, a) <==> Coherent(p, b)
  {
    forall x | x in Touched(p) || x in p.before
      ensures (x in a <==> x in b) && (x in a ==> a[x] == b[x])
    {
      assert x !in scratch && x !in g.scratch;
    }
  }

  lemma LastOfSteady(p: Plan, trace: seq<Disk>, start: nat)
    requires start < |trace|
    ensures Steady(p, trace, start) ==> Coherent(p, trace[|trace| - 1])
  {
  }

  ghost predicate NoDirectories(p: Plan) {
    forall x | x in Touched(p) && x in p.before :: p.before[x].Regular?
  }

  /** The names to be looked at, each once: the new files in order, then what is to be dropped. */
  method CollectPaths(files: seq<BundleTemp>, obsolete: seq<string>) returns (paths: seq<string>)
    requires DistinctFiles(files)
    ensures |files| <= |paths| && forall i | 0 <= i < |files| :: paths[i] == files[i].finalPath
    ensures forall i, j | 0 <= i < j < |paths| :: paths[i] != paths[j]
    ensures forall x :: x in paths <==> x in obsolete || exists i :: 0 <= i < |files| && files[i].finalPath == x
  {
    paths := [];
    var i := 0;
    while i < |files|
      invariant 0 <= i <= |files| && |paths| == i
      invariant forall j | 0 <= j < i :: paths[j] == files[j].finalPath
    {
      if files[i].finalPath !in paths {
        paths := paths + [files[i].finalPath];
      }
      i := i + 1;
    }
    i := 0;
    while i < |obsolete|
      invariant 0 <= i <= |obsolete| && |files| <= |paths|
      invariant forall j | 0 <= j < |files| :: paths[j] == files[j].finalPath
      invariant forall j, k | 0 <= j < k < |paths| :: paths[j] != paths[k]
      invariant forall x ::
          x in paths <==> x in obsolete[..i] || exists j :: 0 <= j < |files| && files[j].finalPath == x
    {
      ghost var had := paths;
      if obsolete[i] !in paths {
        paths := paths + [obsolete[i]];
      }
      assert obsolete[..i + 1] == obsolete[..i] + [obsolete[i]];
      i := i + 1;
    }
    assert obsolete[..i] == obsolete;
  }

  /** The names to be looked at are the touched ones, each once, the manifest after the sequences. */
  ghost predicate InOrder(p: Plan, files: seq<BundleTemp>, paths: seq<string>) {
    && (forall x :: x in paths <==> x in Touched(p))
    && |files| <= |paths| && (forall j | 0 <= j < |files| :: paths[j] == files[j].finalPath)
    && (forall j, k | 0 <= j < k < |paths| :: paths[j] != paths[k])
  }

  lemma PathsAreTouched(p: Plan, files: seq<BundleTemp>, obsolete: seq<string>, paths: seq<string>)
    requires Planned(p, files) && Touched(p) == p.after.Keys + (set x | x in obsolete)
    requires |files| <= |paths| && forall j | 0 <= j < |files| :: paths[j] == files[j].finalPath
    requires forall j, k | 0 <= j < k < |paths| :: paths[j] != paths[k]
    requires forall x :: x in paths <==> x in obsolete || exists i :: 0 <= i < |files| && files[i].finalPath == x
    ensures InOrder(p, files, paths)
  {
  }

  lemma NothingToUndo(p: Plan, files: seq<BundleTemp>, g: Ledger)
    requires ValidPlan(p) && g.spent == {} && g.restored == {} && g.put == map[]
    requires forall i | 0 <= i < |files| :: !files[i].published
    ensures Undoable(p, files, g)
  {
  }

  lemma NextPath(p: Plan, files: seq<BundleTemp>, paths: seq<string>, i: nat)
    requires Planned(p, files) && i < |paths| && InOrder(p, files, paths)
    ensures paths[i] in Touched(p) && paths[i] !in paths[..i]
    ensures p.manifest in paths[..i] ==> paths[i] in p.gone
  {
    if p.manifest in paths[..i] {
      var j :| 0 <= j < i && paths[j] == p.manifest;
      assert paths[|files| - 1] == p.manifest;
      assert j == |files| - 1;
      forall k | 0 <= k < |files|
        ensures files[k].finalPath != paths[i]
      {
        assert paths[k] != paths[i];
      }
    }
  }

  /** The new manifest differs from an old one. */
  ghost predicate NewManifest(p: Plan)
    requires p.manifest in p.after
  {
    p.manifest in p.before && p.before[p.manifest] != p.after[p.manifest]
  }

  /** This much of the new content is what was there before. */
  ghost predicate Matches(p: Plan, put: Disk) {
    forall x | x in put :: x in p.before && p.before[x] == put[x]
  }

  ghost predicate Within(a: Disk, b: Disk) {
    forall x | x in a :: x in b && b[x] == a[x]
  }

  ghost predicate ManifestAhead(p: Plan, backups: seq<BundleBackup>, k: nat) {
    exists l :: 0 <= l < k && l < |backups| && backups[l].finalPath == p.manifest
  }

  ghost predicate PublishedAt(files: seq<BundleTemp>, x: string, i: nat) {
    i < |files| && files[i].published && files[i].finalPath == x
  }

  ghost predicate PutByPublished(files: seq<BundleTemp>, g: Ledger) {
    forall x | x in g.put :: exists i :: PublishedAt(files, x, i)
  }

  /** What `rollback` finds: published files only after everything old was moved away, the manifest
      not among them. */
  ghost predicate Undoable(p: Plan, files: seq<BundleTemp>, g: Ledger) {
    && g.spent == {} && g.restored == {} && p.manifest !in g.put && PutByPublished(files, g)
    && (((forall i | 0 <= i < |files| :: !files[i].published) && g.put == map[]) || g.out == Touched(p))
  }

  lemma PartlyInPlace(p: Plan, files: seq<BundleTemp>, g: Ledger, i: nat)
    requires Planned(p, files) && InPlace(p, files, g, i) && i < |files| && g.restored == {}
    ensures Undoable(p, files, g)
  {
    forall x | x in g.put
      ensures exists j :: PublishedAt(files, x, j)
    {
      var j :| 0 <= j < i && files[j].finalPath == x;
      assert PublishedAt(files, x, j);
    }
  }

  /** Where the first loop of `rollback` stands: what is still in place was refused or comes later, and with
      persistent faults it is exactly known. */
  ghost predicate TakenOut(p: Plan, files: seq<BundleTemp>, i: nat, g: Ledger, refusals: seq<string>,
      before: set<string>, faults: Faults) {
    && i <= |files| && g.put.Keys <= before
    && (forall x | x in g.put :: x in refusals || PublishedBefore(files, x, i))
    && (forall x | x in refusals && x in Touched(p) :: x in g.put && FromOn(files, i, x))
    && (!faults.sporadic ==> forall x | x in before ::
          x in g.put <==> x in faults.unremovable || PublishedBefore(files, x, i))
  }

  ghost predicate PublishedBefore(files: seq<BundleTemp>, x: string, i: nat) {
    exists j: nat :: j < i && PublishedAt(files, x, j)
  }

  ghost predicate FromOn(files: seq<BundleTemp>, i: nat, x: string) {
    exists j :: i <= j < |files| && files[j].finalPath == x
  }

  lemma PutIsAccounted(p: Plan, files: seq<BundleTemp>, g: Ledger, refusals: seq<string>, faults: Faults)
    requires Undoable(p, files, g) && NoneOf(refusals, Touched(p))
    ensures TakenOut(p, files, |files|, g, refusals, g.put.Keys, faults)
  {
    forall x | x in g.put
      ensures PublishedBefore(files, x, |files|)
    {
      var j: nat :| PublishedAt(files, x, j);
      assert j < |files| && PublishedAt(files, x, j);
    }
  }

  lemma PublishedIsPut(p: Plan, disk: Disk, files: seq<BundleTemp>, backups: seq<BundleBackup>, g: Ledger, i: nat)
    requires Placed(p, disk, files, backups, g) && i < |files| && files[i].published
    ensures files[i].finalPath in g.put
  {
  }

  lemma PutIsNew(p: Plan, disk: Disk, files: seq<BundleTemp>, backups: seq<BundleBackup>, g: Ledger)
    requires Placed(p, disk, files, backups, g)
    ensures g.put.Keys <= p.after.Keys && forall x | x in g.put :: g.put[x] == p.after[x]
  {
  }

  lemma TakenOutNext(p: Plan, files: seq<BundleTemp>, i: nat, g: Ledger, refusals: seq<string>, before: set<string>,
      faults: Faults, removed: bool)
    requires i < |files| && TakenOut(p, files, i + 1, g, refusals, before, faults) && DistinctFiles(files)
    requires files[i].published && files[i].finalPath in g.put
    ensures (!faults.sporadic ==> (removed <==> files[i].finalPath !in faults.unremovable)) ==>
              TakenOut(p, files[i := files[i].(published := false)], i, UnpublishLedger(g, files[i], removed),
                       if removed then refusals else refusals + [files[i].finalPath], before, faults)
  {
    var after, h := files[i := files[i].(published := false)], UnpublishLedger(g, files[i], removed);
    var more := if removed then refusals else refusals + [files[i].finalPath];
    var own := files[i].finalPath;
    forall x
      ensures PublishedBefore(files, x, i + 1) <==> x == own || PublishedBefore(after, x, i)
    {
      if x == own { assert PublishedAt(files, x, i); }
      if PublishedBefore(after, x, i) {
        var j: nat :| j < i && PublishedAt(after, x, j);
        assert j < i + 1 && PublishedAt(files, x, j);
      }
      if PublishedBefore(files, x, i + 1) && x != own {
        var j: nat :| j < i + 1 && PublishedAt(files, x, j);
        assert j < i && PublishedAt(after, x, j);
      }
    }
    assert !PublishedBefore(after, own, i);
    forall x | x in more && x in Touched(p)
      ensures x in h.put && FromOn(after, i, x)
    {
      if x in refusals {
        var j :| i + 1 <= j < |files| && files[j].finalPath == x;
        assert after[j].finalPath == x;
      } else {
        assert after[i].finalPath == x;
      }
    }
  }

  lemma TakenOutSkip(p: Plan, files: seq<BundleTemp>, i: nat, g: Ledger, refusals: seq<string>, before: set<string>,
      faults: Faults)
    requires i < |files| && TakenOut(p, files, i + 1, g, refusals, before, faults) && !files[i].published
    ensures TakenOut(p, files, i, g, refusals, before, faults)
  {
    forall x
      ensures PublishedBefore(files, x, i + 1) <==> PublishedBefore(files, x, i)
    {
      if PublishedBefore(files, x, i) {
        var j: nat :| j < i && PublishedAt(files, x, j);
        assert j < i + 1 && PublishedAt(files, x, j);
      }
      if PublishedBefore(files, x, i + 1) {
        var j: nat :| j < i + 1 && PublishedAt(files, x, j);
        assert j < i && PublishedAt(files, x, j);
      }
    }
    forall x | x in refusals && x in Touched(p)
      ensures FromOn(files, i, x)
    {
      var j :| i + 1 <= j < |files| && files[j].finalPath == x;
    }
  }

  lemma AllTakenOut(p: Plan, files: seq<BundleTemp>, g: Ledger, refusals: seq<string>, before: set<string>,
      faults: Faults)
    requires TakenOut(p, files, 0, g, refusals, before, faults) && g.put.Keys <= Touched(p)
    ensures RefusedExactly(refusals, Touched(p), g.put.Keys) && g.put.Keys <= before
    ensures !faults.sporadic ==> g.put.Keys == before * faults.unremovable
    ensures NoneOf(refusals, Touched(p)) ==> g.put == map[]
  {
    if NoneOf(refusals, Touched(p)) { assert g.put.Keys == {}; }
  }

  // ---------- refused removals ----------

  /** The history of a directory only grows. */
  ghost predicate Advanced(trace: seq<Disk>, later: seq<Disk>, troubles: nat, more: nat, refused: seq<string>,
      longer: seq<string>) {
    trace <= later && troubles <= more && refused <= longer
  }

  ghost predicate Noted(names: set<string>, refusals: seq<string>) {
    forall x | x in names :: x in refusals
  }

  ghost predicate NoneOf(refusals: seq<string>, names: set<string>) {
    forall x | x in refusals :: x !in names
  }

  /** The placeholder that could not be removed is an empty file. */
  ghost predicate Blank(leaked: set<string>, scratch: Disk) {
    forall x | x in leaked && x in scratch :: scratch[x] == Regular("")
  }

  ghost predicate OneMoreIs(disk: Disk, after: Disk, refused: seq<string>, longer: seq<string>, content: Entry,
      name: string) {
    longer == refused + [name] && name !in disk && after == disk[name := content]
  }

  /** One file too many: the one whose removal was refused. */
  ghost predicate OneMore(disk: Disk, after: Disk, refused: seq<string>, longer: seq<string>, content: Entry) {
    exists name :: OneMoreIs(disk, after, refused, longer, content, name)
  }

  lemma OneMoreBy(disk: Disk, refused: seq<string>, content: Entry, name: string)
    requires name !in disk
    ensures OneMore(disk, disk[name := content], refused, refused + [name], content)
  {
    assert OneMoreIs(disk, disk[name := content], refused, refused + [name], content, name);
  }

  ghost predicate RefusedExactly(refusals: seq<string>, canonical: set<string>, names: set<string>) {
    forall x | x in canonical :: x in refusals <==> x in names
  }

  ghost predicate SameCanonical(a: seq<string>, b: seq<string>, canonical: set<string>) {
    forall x | x in canonical :: x in a <==> x in b
  }

  ghost predicate SamePaths(a: seq<BundleTemp>, b: seq<BundleTemp>) {
    |a| == |b| && forall i | 0 <= i < |a| :: a[i].finalPath == b[i].finalPath
  }

  /** The new content that could not be taken out again. */
  ghost function StuckIn(p: Plan, refusals: seq<string>): Disk {
    map x | x in p.after && x in refusals :: p.after[x]
  }

  lemma NotedMore(names: set<string>, refused: seq<string>, longer: seq<string>, known: nat)
    requires known <= |refused| && refused <= longer && Noted(names, refused[known..])
    ensures known <= |longer| && refused[known..] <= longer[known..] && Noted(names, longer[known..])
  {
    assert longer[known..][..|refused| - known] == refused[known..];
  }

  lemma RefusalsGrow(known: nat, refused: seq<string>, name: string)
    requires known <= |refused|
    ensures (refused + [name])[known..] == refused[known..] + [name]
    ensures name in (refused + [name])[known..]
  {
    assert (refused[known..] + [name])[|refused| - known] == name;
  }

  lemma RefusedOne(left: set<string>, canonical: set<string>, refused: seq<string>, known: nat, name: string)
    requires known <= |refused| && Noted(left, refused[known..]) && NoneOf(refused[known..], canonical)
    requires name !in canonical
    ensures known <= |refused + [name]| && NoneOf((refused + [name])[known..], canonical)
    ensures Noted(left, (refused + [name])[known..]) && Noted(left + {name}, (refused + [name])[known..])
  {
    RefusalsGrow(known, refused, name);
  }

  lemma NothingLeaked(scratch: Disk)
    ensures Blank({}, scratch)
  {
  }

  lemma LeakedOne(scratch: Disk, name: string)
    requires name in scratch && scratch[name] == Regular("")
    ensures Blank({name}, scratch)
  {
  }

  lemma BlankStays(leaked: set<string>, scratch: Disk, less: Disk)
    requires Blank(leaked, scratch) && forall x | x in less :: x in scratch && less[x] == scratch[x]
    ensures Blank(leaked, less)
  {
  }

  lemma StuckExact(p: Plan, disk: Disk, files: seq<BundleTemp>, backups: seq<BundleBackup>, g: Ledger,
      refusals: seq<string>)
    requires Placed(p, disk, files, backups, g) && RefusedExactly(refusals, Touched(p), g.put.Keys)
    ensures g.put == StuckIn(p, refusals)
  {
    PutIsNew(p, disk, files, backups, g);
    assert forall x | x in p.after :: x in Touched(p);
  }

  lemma OldManifestOut(p: Plan, g: Ledger, stuck: Disk)
    requires ValidPlan(p) && (stuck == map[] || g.out == Touched(p))
    ensures stuck == map[] || p.manifest in g.out
    ensures stuck == map[] ==> Matches(p, stuck)
  {
  }

  lemma RestoredOld(p: Plan, backups: seq<BundleBackup>, g: Ledger, k: nat)
    requires BackupsAt(p, backups, g) && k < |backups| && k !in g.restored
    ensures backups[k].finalPath in p.before
  {
  }

  ghost predicate BackExactly(backups: seq<BundleBackup>, k: nat, g: Ledger, unplaceable: set<string>) {
    forall l | k <= l < |backups| :: l in g.restored <==> backups[l].finalPath !in unplaceable
  }

  lemma ManifestIsBack(p: Plan, backups: seq<BundleBackup>, g: Ledger, h: Ledger, unplaceable: set<string>)
    requires BackupsAt(p, backups, g) && BackupsAt(p, backups, h) && BackExactly(backups, 0, h, unplaceable)
    ensures p.manifest in p.before && p.manifest in g.out ==> (p.manifest in h.out <==> p.manifest in unplaceable)
  {
    if p.manifest in p.before && p.manifest in g.out {
      var k :| 0 <= k < |backups| && k !in g.restored && backups[k].finalPath == p.manifest;
      if p.manifest in h.out {
        var l :| 0 <= l < |backups| && l !in h.restored && backups[l].finalPath == p.manifest;
        assert p.manifest in unplaceable;
      }
    }
  }

  lemma StuckIsNew(p: Plan, disk: Disk, g: Ledger, stuck: Disk)
    requires Shape(p, disk, g.out, g.put, g.scratch) && g.put == stuck
    ensures stuck.Keys <= p.after.Keys
    ensures stuck == map[] ==> Matches(p, stuck)
  {
  }

  lemma RestoreVerdict(p: Plan, disk: Disk, backups: seq<BundleBackup>, k: nat, was: Ledger, stuck: Disk)
    requires ValidPlan(p) && k < |backups| && ManifestThenGone(p, backups) && stuck.Keys <= p.after.Keys
    requires Within(was.put, stuck) && (ManifestAhead(p, backups, k + 1) ==> was.put == stuck) && p.manifest !in stuck
    requires var h := RestoreLedger(was, backups, k); Shape(p, disk, h.out, h.put, h.scratch)
    ensures var h := RestoreLedger(was, backups, k);
      && Within(h.put, stuck)
      && (ManifestAhead(p, backups, k) ==> h.put == stuck)
      && (Matches(p, stuck) || p.manifest in h.out ==> Coherent(p, disk))
      && (p.manifest in was.out && p.manifest !in h.out && NewManifest(p) && !Matches(p, stuck) ==> !Coherent(p, disk))
  {
    var h := RestoreLedger(was, backups, k);
    if ManifestAhead(p, backups, k) {
      assert backups[k].finalPath in p.gone && backups[k].finalPath !in stuck;
      assert was.put == stuck;
      assert h.put == stuck;
    }
    if Matches(p, stuck) {
      OldContentIsCoherent(p, disk, h);
    } else if p.manifest in h.out {
      ManifestOutIsCoherent(p, disk, h.out, h.put, h.scratch);
    } else if p.manifest in was.out && NewManifest(p) {
      assert backups[k].finalPath == p.manifest;
      assert ManifestAhead(p, backups, k + 1);
      assert h.put == stuck;
      MixedStateExact(p, disk, h.out, h.put, h.scratch);
    }
  }

  lemma OldContentIsCoherent(p: Plan, disk: Disk, g: Ledger)
    requires Shape(p, disk, g.out, g.put, g.scratch) && Matches(p, g.put)
    ensures Coherent(p, disk)
  {
  }

  ghost function BackupNames(backups: seq<BundleBackup>, k: nat): set<string> {
    set l | k <= l < |backups| :: backups[l].backupPath
  }

  ghost predicate DistinctBackups(backups: seq<BundleBackup>) {
    forall k, l | 0 <= k < l < |backups| :: backups[k].backupPath != backups[l].backupPath
  }

  lemma OnlyBackups(p: Plan, files: seq<BundleTemp>, backups: seq<BundleBackup>, g: Ledger)
    requires BackupsAt(p, backups, g) && Listed(files, backups, g) && InPlace(p, files, g, |files|) && g.restored == {}
    requires g.left == {}
    ensures forall l | 0 <= l < |backups| :: backups[l].backupPath in g.scratch
    ensures g.scratch.Keys <= BackupNames(backups, 0) && DistinctBackups(backups)
  {
    forall x | x in g.scratch
      ensures x in BackupNames(backups, 0)
    {
      assert !exists i :: StagedAt(files, x, i);
      var k :| KeptAt(backups, g.restored, x, k);
    }
  }

  lemma BackupNamesStep(backups: seq<BundleBackup>, k: nat, had: set<string>, has: set<string>, refusals: seq<string>,
      more: seq<string>)
    requires k < |backups| && DistinctBackups(backups) && has - {backups[k].backupPath} == had - {backups[k].backupPath}
    requires refusals <= more && (backups[k].backupPath in has ==> backups[k].backupPath in more)
    requires forall x | x in had :: x in BackupNames(backups, k) || x in refusals
    ensures forall l | k < l < |backups| && backups[l].backupPath in had :: backups[l].backupPath in has
    ensures forall x | x in has :: x in BackupNames(backups, k + 1) || x in more
  {
    forall l | k < l < |backups| && backups[l].backupPath in had
      ensures backups[l].backupPath in has
    {
      assert backups[l].backupPath in had - {backups[k].backupPath};
    }
    forall x | x in has && x !in more
      ensures x in BackupNames(backups, k + 1)
    {
      assert x in has - {backups[k].backupPath};
      assert x in had && x !in refusals;
    }
  }

  lemma ScratchThere(p: Plan, disk: Disk, out: set<string>, put: Disk, scratch: Disk, name: string)
    requires Shape(p, disk, out, put, scratch) && name in scratch
    ensures name in disk && name !in Touched(p)
  {
  }

  ghost function Finals(files: seq<BundleTemp>, n: nat): set<string>
    requires n <= |files|
  {
    set i | 0 <= i < n :: files[i].finalPath
  }

  /** The first `n` files are in place, the others staged, and everything old is out of the way. */
  ghost predicate InPlace(p: Plan, files: seq<BundleTemp>, g: Ledger, n: nat) {
    && n <= |files| && g.out == Touched(p) && g.spent == {}
    && (forall i | 0 <= i < |files| :: files[i].published <==> i < n)
    && g.put.Keys == Finals(files, n)
  }

  lemma InPlan(p: Plan, files: seq<BundleTemp>, i: nat)
    requires Planned(p, files) && i < |files|
    ensures files[i].finalPath in p.after && files[i].finalPath in Touched(p)
  {
  }

  lemma PublishKeepsPlan(p: Plan, files: seq<BundleTemp>, i: nat, published: bool)
    requires Planned(p, files) && i < |files|
    ensures Planned(p, files[i := files[i].(published := published)])
  {
    var after := files[i := files[i].(published := published)];
    assert forall j | 0 <= j < |files| :: after[j].finalPath == files[j].finalPath && after[j].name == files[j].name;
    SameNames(p, files, after);
  }

  lemma SameNames(p: Plan, files: seq<BundleTemp>, after: seq<BundleTemp>)
    requires Planned(p, files) && |files| == |after|
    requires forall j | 0 <= j < |files| :: after[j].finalPath == files[j].finalPath && after[j].name == files[j].name
    ensures Planned(p, after)
  {
    assert DistinctFiles(after);
    forall x | x in p.after
      ensures exists j :: 0 <= j < |after| && after[j].finalPath == x
    {
      var j :| 0 <= j < |files| && files[j].finalPath == x;
      assert after[j].finalPath == x;
    }
  }

  lemma NextInPlace(p: Plan, files: seq<BundleTemp>, g: Ledger, i: nat)
    requires Planned(p, files) && InPlace(p, files, g, i) && i < |files|
    ensures files[i].finalPath in p.after
    ensures InPlace(p, files[i := files[i].(published := true)], PublishLedger(p, g, files[i]), i + 1)
  {
    var after := files[i := files[i].(published := true)];
    var h := PublishLedger(p, g, files[i]);
    forall x
      ensures x in Finals(after, i + 1) <==> x in Finals(files, i) + {files[i].finalPath}
    {
      if x in Finals(files, i) {
        var j :| 0 <= j < i && files[j].finalPath == x;
        assert after[j].finalPath == x;
      } else if x == files[i].finalPath {
        assert after[i].finalPath == x;
      }
    }
    assert h.put.Keys == g.put.Keys + {files[i].finalPath};
  }

  lemma AllFinals(p: Plan, files: seq<BundleTemp>)
    requires Planned(p, files)
    ensures Finals(files, |files|) == p.after.Keys
  {
  }

  lemma InPlaceIsCoherent(p: Plan, disk: Disk, files: seq<BundleTemp>, g: Ledger, n: nat)
    requires Planned(p, files) && InPlace(p, files, g, n) && Shape(p, disk, g.out, g.put, g.scratch)
    ensures Coherent(p, disk)
  {
    if n == |files| {
      AllFinals(p, files);
      AllPutIsCoherent(p, disk, g.put, g.scratch);
    } else {
      assert p.manifest !in g.put;
      ManifestOutIsCoherent(p, disk, g.out, g.put, g.scratch);
    }
  }

  /** Backups are taken with the manifest after all sequences, and only names to be dropped after it. */
  ghost predicate ManifestThenGone(p: Plan, backups: seq<BundleBackup>) {
    forall k, l | 0 <= k < l < |backups| && backups[k].finalPath == p.manifest :: backups[l].finalPath in p.gone
  }

  lemma StillThere(p: Plan, disk: Disk, g: Ledger, path: string)
    requires Shape(p, disk, g.out, g.put, g.scratch) && g.put == map[] && path !in g.out && path in Touched(p)
    ensures path in disk <==> path in p.before
    ensures path in disk ==> disk[path] == p.before[path]
  {
  }

  lemma NotKept(p: Plan, backups: seq<BundleBackup>, g: Ledger, path: string)
    requires BackupsAt(p, backups, g) && g.restored == {} && path !in g.out
    ensures forall k | 0 <= k < |backups| :: backups[k].finalPath != path
  {
  }

  lemma StageFacts(p: Plan, disk: Disk, trace: seq<Disk>, start: nat, files: seq<BundleTemp>, g: Ledger, name: string,
      path: string)
    requires ValidPlan(p) && DistinctFiles(files) && Placed(p, disk, files, [], g) && g.put == map[] && g.spent == {}
    requires start < |trace| && Steady(p, trace, start) && Familiar(p, trace, start) && path in p.after
    requires forall i | 0 <= i < |files| :: files[i].finalPath != path
    requires name !in disk && name !in Touched(p) && forall i | 0 <= i < |files| :: files[i].name != name
    ensures var temps := files + [BundleTemp(name, path, false)];
      DistinctFiles(temps) && Placed(p, disk[name := p.after[path]], temps, [],
          g.(scratch := g.scratch[name := p.after[path]]))
    ensures Placed(p, disk[name := p.after[path]], files, [],
        g.(scratch := g.scratch[name := p.after[path]], left := g.left + {name}))
    ensures Steady(p, trace + [disk[name := p.after[path]]], start)
    ensures Steady(p, trace + [disk[name := p.after[path]]] + [disk], start)
    ensures Familiar(p, trace + [disk[name := p.after[path]]], start)
    ensures Familiar(p, trace + [disk[name := p.after[path]]] + [disk], start)
    ensures disk[name := p.after[path]] - {name} == disk
  {
    hide Shape, TempsAt, BackupsAt, Apart, Listed, Coherent, Steady, Familiar;
    NotBefore(p, disk, g, name);
    StepStage(p, disk, files, g, name, path);
    StepLeave(p, disk, files, [], g, name, p.after[path]);
    NothingPutIsCoherent(p, disk, g.out, g.scratch);
    NothingPutIsCoherent(p, disk[name := p.after[path]], g.out, g.scratch[name := p.after[path]]);
    SteadyAppend(p, trace, start, disk[name := p.after[path]]);
    SteadyAppend(p, trace + [disk[name := p.after[path]]], start, disk);
    FamiliarAppend(p, trace, start, disk[name := p.after[path]], g.out, g.put, g.scratch[name := p.after[path]]);
    FamiliarAppend(p, trace + [disk[name := p.after[path]]], start, disk, g.out, g.put, g.scratch);
  }

  /** A name nothing in the directory and no part of the publication has. */
  ghost predicate Unused(p: Plan, disk: Disk, files: seq<BundleTemp>, backups: seq<BundleBackup>, name: string) {
    && name !in disk && name !in p.before && name !in Touched(p)
    && (forall i | 0 <= i < |files| :: files[i].name != name)
    && (forall k | 0 <= k < |backups| :: backups[k].backupPath != name)
  }

  lemma IsUnused(p: Plan, disk: Disk, files: seq<BundleTemp>, backups: seq<BundleBackup>, g: Ledger, name: string)
    requires Placed(p, disk, files, backups, g) && name !in disk
    requires name !in Touched(p) + (set i | 0 <= i < |files| :: files[i].name)
                      + (set k | 0 <= k < |backups| :: backups[k].backupPath)
    ensures Unused(p, disk, files, backups, name)
  {
    hide TempsAt, BackupsAt, Apart, Listed;
    NotBefore(p, disk, g, name);
    FileNamesApart(files, name);
    BackupNamesApart(backups, name);
  }

  lemma PlaceholderFacts(p: Plan, disk: Disk, trace: seq<Disk>, start: nat, files: seq<BundleTemp>,
      backups: seq<BundleBackup>, g: Ledger, name: string)
    requires ValidPlan(p) && Placed(p, disk, files, backups, g) && g.put == map[]
    requires start < |trace| && Steady(p, trace, start) && Familiar(p, trace, start)
    requires Unused(p, disk, files, backups, name)
    ensures name !in p.before && name !in Touched(p) && disk[name := Regular("")] - {name} == disk
    ensures Placed(p, disk[name := Regular("")], files, backups,
                   g.(scratch := g.scratch[name := Regular("")], left := g.left + {name}))
    ensures var tried := trace + [disk[name := Regular("")]];
      Steady(p, tried, start) && Steady(p, tried + [disk], start) && Familiar(p, tried, start)
          && Familiar(p, tried + [disk], start)
  {
    hide Shape, TempsAt, BackupsAt, Apart, Listed, Coherent, Steady, Familiar;
    StepLeave(p, disk, files, backups, g, name, Regular(""));
    var during, tried := disk[name := Regular("")], trace + [disk[name := Regular("")]];
    NothingPutIsCoherent(p, disk, g.out, g.scratch);
    NothingPutIsCoherent(p, during, g.out, g.scratch[name := Regular("")]);
    SteadyAppend(p, trace, start, during);
    SteadyAppend(p, tried, start, disk);
    FamiliarAppend(p, trace, start, during, g.out, g.put, g.scratch[name := Regular("")]);
    FamiliarAppend(p, tried, start, disk, g.out, g.put, g.scratch);
  }

  lemma NotBefore(p: Plan, disk: Disk, g: Ledger, name: string)
    requires Shape(p, disk, g.out, g.put, g.scratch) && name !in disk && name !in Touched(p)
    ensures name !in p.before
  {
  }

  lemma FileNamesApart(files: seq<BundleTemp>, name: string)
    requires name !in (set i | 0 <= i < |files| :: files[i].name)
    ensures forall i | 0 <= i < |files| :: files[i].name != name
  {
  }

  lemma BackupNamesApart(backups: seq<BundleBackup>, name: string)
    requires name !in (set i | 0 <= i < |backups| :: backups[i].backupPath)
    ensures forall i | 0 <= i < |backups| :: backups[i].backupPath != name
  {
  }

  // ---------- the whole write ----------

  datatype Target = Target(path: string, content: Entry)

  function Contents(targets: seq<Target>): Disk {
    if targets == [] then map[] else
    Contents(targets[..|targets| - 1])[targets[|targets| - 1].path := targets[|targets| - 1].content]
  }

  function Names(targets: seq<Target>): set<string> {
    set i | 0 <= i < |targets| :: targets[i].path
  }

  ghost predicate DistinctTargets(targets: seq<Target>) {
    forall i, j | 0 <= i < j < |targets| :: targets[i].path != targets[j].path
  }

  lemma {:induction false} ContentsExact(targets: seq<Target>)
    requires DistinctTargets(targets)
    ensures Contents(targets).Keys == Names(targets)
    ensures forall i | 0 <= i < |targets| ::
        targets[i].path in Contents(targets) && Contents(targets)[targets[i].path] == targets[i].content
  {
    if targets != [] {
      var rest, last := targets[..|targets| - 1], targets[|targets| - 1];
      ContentsExact(rest);
      assert Names(targets) == Names(rest) + {last.path} by {
        forall x | x in Names(targets)
          ensures x in Names(rest) + {last.path}
        {
          var i :| 0 <= i < |targets| && targets[i].path == x;
          assert i < |rest| ==> rest[i].path == x;
        }
      }
      forall i | 0 <= i < |targets|
        ensures targets[i].path in Contents(targets) && Contents(targets)[targets[i].path] == targets[i].content
      {
        assert i < |rest| ==> rest[i] == targets[i];
      }
    }
  }

  ghost function PlanOf(before: Disk, targets: seq<Target>, obsolete: seq<string>): Plan
    requires targets != []
  {
    Plan(before, Contents(targets), (set x | x in obsolete) - Names(targets), targets[|targets| - 1].path)
  }

  // ---------- what a write leaves ----------

  /** What is neither an old nor a canonical name. */
  ghost function Beside(p: Plan, disk: Disk): Disk {
    map x | x in disk && x !in p.before && x !in Touched(p) :: disk[x]
  }

  /** After a successful write everything new is in place, what is to be dropped is gone, the rest is as it
      was, and beside it there are only files whose removal was refused. */
  ghost predicate AfterSuccess(p: Plan, disk: Disk, refusals: seq<string>) {
    && disk == (p.before - Touched(p)) + p.after + Beside(p, disk)
    && forall x | x in Beside(p, disk) :: x in refusals
  }

  ghost predicate HeldAs(p: Plan, disk: Disk, x: string, backup: string) {
    && x in p.before && backup !in p.before && backup !in Touched(p)
    && backup in disk && disk[backup] == p.before[x]
  }

  /** The old content of `x` is where it was or in a file beside. */
  ghost predicate StillHeld(p: Plan, disk: Disk, x: string) {
    x in p.before && ((x in disk && disk[x] == p.before[x]) || exists backup :: HeldAs(p, disk, x, backup))
  }

  /** After a failed write the old and the canonical names hold old content, or new content whose removal was
      refused, or nothing; no old content is lost; and every file beside them is one whose removal was refused
      or holds old content. */
  ghost predicate AfterFailure(p: Plan, disk: Disk, refusals: seq<string>) {
    && (forall x | x in disk && (x in p.before || x in Touched(p)) ::
          (x in p.before && disk[x] == p.before[x]) || (x in StuckIn(p, refusals) && disk[x] == p.after[x]))
    && (forall x | x in p.before :: StillHeld(p, disk, x))
    && (forall x | x in Beside(p, disk) :: x in refusals || exists y :: HeldAs(p, disk, y, x))
  }

  /** The directory as it was, but for one empty file if its removal was refused. */
  ghost predicate BackAgain(p: Plan, disk: Disk, refusals: seq<string>) {
    disk == p.before || exists x ::
        x in refusals && x !in p.before && x !in Touched(p) && disk == p.before[x := Regular("")]
  }

  lemma Verdict(p: Plan, disk: Disk, files: seq<BundleTemp>, backups: seq<BundleBackup>, g: Ledger,
      refusals: seq<string>)
    requires ValidPlan(p) && Placed(p, disk, files, backups, g) && g.put.Keys <= StuckIn(p, refusals).Keys
    requires Noted(g.left, refusals)
    requires forall i | 0 <= i < |files| && files[i].name in g.scratch :: files[i].name in refusals
    ensures AfterFailure(p, disk, refusals)
    ensures p.manifest in g.out && p.manifest !in g.put ==> p.manifest !in disk
    ensures p.manifest !in g.out ==> (p.manifest in disk <==> p.manifest in p.before)
  {
    hide TempsAt, Apart;
    NamesHoldOldOrStuck(p, disk, g, refusals);
    forall x | x in p.before
      ensures StillHeld(p, disk, x)
    {
      NothingIsLost(p, disk, backups, g, x);
    }
    forall x | x in Beside(p, disk)
      ensures x in refusals || exists y :: HeldAs(p, disk, y, x)
    {
      LeftoverIsKnown(p, disk, files, backups, g, refusals, x);
    }
    assert p.manifest in Touched(p) && p.manifest !in g.scratch;
  }

  lemma NamesHoldOldOrStuck(p: Plan, disk: Disk, g: Ledger, refusals: seq<string>)
    requires Shape(p, disk, g.out, g.put, g.scratch) && g.put.Keys <= StuckIn(p, refusals).Keys
    ensures forall x | x in disk && (x in p.before || x in Touched(p)) ::
              (x in p.before && disk[x] == p.before[x]) || (x in StuckIn(p, refusals) && disk[x] == p.after[x])
  {
    forall x | x in disk && (x in p.before || x in Touched(p))
      ensures (x in p.before && disk[x] == p.before[x]) || (x in StuckIn(p, refusals) && disk[x] == p.after[x])
    {
      assert x !in g.scratch;
      if x in g.put { assert x in StuckIn(p, refusals).Keys; }
    }
  }

  lemma NothingIsLost(p: Plan, disk: Disk, backups: seq<BundleBackup>, g: Ledger, x: string)
    requires Shape(p, disk, g.out, g.put, g.scratch) && BackupsAt(p, backups, g) && x in p.before
    ensures StillHeld(p, disk, x)
  {
    if x in g.out {
      var k :| 0 <= k < |backups| && k !in g.restored && backups[k].finalPath == x;
      assert HeldAs(p, disk, x, backups[k].backupPath);
    } else {
      assert x !in g.put && x !in g.scratch;
    }
  }

  lemma LeftoverIsKnown(p: Plan, disk: Disk, files: seq<BundleTemp>, backups: seq<BundleBackup>, g: Ledger,
      refusals: seq<string>, x: string)
    requires Shape(p, disk, g.out, g.put, g.scratch) && BackupsAt(p, backups, g) && Listed(files, backups, g)
    requires Noted(g.left, refusals)
    requires forall i | 0 <= i < |files| && files[i].name in g.scratch :: files[i].name in refusals
    requires x in Beside(p, disk)
    ensures x in refusals || exists y :: HeldAs(p, disk, y, x)
  {
    assert x in g.scratch;
    if x !in refusals {
      var k: nat :| KeptAt(backups, g.restored, x, k);
      assert HeldAs(p, disk, backups[k].finalPath, x);
    }
  }

  lemma OnlyLeaked(p: Plan, disk: Disk, scratch: Disk, leaked: set<string>, refusals: seq<string>)
    requires disk == p.before + scratch && scratch.Keys !! (p.before.Keys + Touched(p))
    requires scratch.Keys <= leaked && |leaked| <= 1 && Blank(leaked, scratch) && Noted(leaked, refusals)
    ensures BackAgain(p, disk, refusals)
  {
    if scratch == map[] {
      assert disk == p.before;
    } else {
      var x :| x in scratch;
      forall y | y in scratch
        ensures y == x
      {
        AtMostOne(leaked, x, y);
      }
      assert disk == p.before[x := Regular("")];
    }
  }

  lemma AtMostOne(s: set<string>, x: string, y: string)
    requires |s| <= 1 && x in s && y in s
    ensures x == y
  {
    if x != y { TwoIn(s, x, y); }
  }

  lemma TwoIn(s: set<string>, x: string, y: string)
    requires x in s && y in s && x != y
    ensures |s| >= 2
  {
    assert y in s - {x} && |s - {x}| == |s| - 1;
  }

  lemma SettledFiles(p: Plan, disk: Disk, put: Disk, scratch: Disk, refusals: seq<string>)
    requires Shape(p, disk, Touched(p), put, scratch) && put.Keys == p.after.Keys
    requires forall x | x in scratch :: x in refusals
    ensures AfterSuccess(p, disk, refusals)
  {
    assert put == p.after;
    assert Beside(p, disk) == scratch;
  }

  /** With nothing beside it the new directory holds exactly the new files if and only if every old name is
      one the write touches. */
  lemma CleanResultExact(p: Plan, disk: Disk)
    requires AfterSuccess(p, disk, [])
    ensures disk == (p.before - Touched(p)) + p.after
    ensures disk == p.after <==> p.before.Keys <= Touched(p)
  {
    assert Beside(p, disk).Keys == {};
    if disk == p.after {
      forall x | x in p.before
        ensures x in Touched(p)
      {
        assert x !in Touched(p) ==> x in disk;
      }
    }
  }

  /** The files are those of the targets, in order. */
  ghost predicate Follows(files: seq<BundleTemp>, targets: seq<Target>) {
    |files| == |targets| && forall j | 0 <= j < |files| :: files[j].finalPath == targets[j].path
  }

  method StageAll(w: BundlePublication, targets: seq<Target>) returns (ok: bool)
    requires DistinctTargets(targets) && targets != []
    requires w.Standing() && w.History() && w.Fresh() && w.Unrefused() && w.files == [] && w.backups == []
    requires w.leaked == {} && w.mishaps == 0 && w.g.out == {} && w.g.left == {}
    requires w.plan.after == Contents(targets) && w.plan.manifest == targets[|targets| - 1].path
    modifies w`files, w`g, w`mishaps, w.dir
    ensures Advanced(old(w.dir.trace), w.dir.trace, old(w.dir.troubles), w.dir.troubles, old(w.dir.refused),
        w.dir.refused)
    ensures w.Standing() && w.History() && w.Fresh() && w.Unrefused() && w.g.out == {}
    ensures ok ==> Planned(w.plan, w.files) && Follows(w.files, targets) && w.mishaps == 0
    ensures ok ==> w.dir.troubles == old(w.dir.troubles) && w.dir.refused == old(w.dir.refused)
    ensures !ok ==> w.mishaps < w.dir.troubles - old(w.dir.troubles) && w.dir.faults.sporadic
  {
    hide Placed, Coherent, Steady, Familiar, DistinctFiles, CoversAll, Noted, Blank, NoneOf;
    ContentsExact(targets);
    var i := 0;
    while i < |targets|
      invariant 0 <= i <= |targets| && |w.files| == i
      invariant Advanced(old(w.dir.trace), w.dir.trace, old(w.dir.troubles), w.dir.troubles, old(w.dir.refused),
          w.dir.refused)
      invariant w.Standing() && w.History() && w.Fresh() && w.Unrefused() && w.g.out == {}
      invariant w.mishaps == 0 && w.dir.troubles == old(w.dir.troubles) && w.dir.refused == old(w.dir.refused)
      invariant forall j | 0 <= j < i :: w.files[j].finalPath == targets[j].path
    {
      ghost var had := w.files;
      var done := w.Stage(targets[i].path, targets[i].content);
      if !done { return false; }
      assert forall j | 0 <= j < i :: w.files[j] == had[j];
      i := i + 1;
    }
    StagedIsPlanned(w.plan, w.files, targets);
    ok := true;
  }

  lemma StagedIsPlanned(p: Plan, files: seq<BundleTemp>, targets: seq<Target>)
    requires ValidPlan(p) && DistinctFiles(files) && targets != [] && p.after.Keys == Names(targets)
    requires p.manifest == targets[|targets| - 1].path
    requires |files| == |targets| && forall j | 0 <= j < |files| :: files[j].finalPath == targets[j].path
    ensures Planned(p, files)
  {
    forall x | x in p.after
      ensures exists j :: 0 <= j < |files| && files[j].finalPath == x
    {
      var j :| 0 <= j < |targets| && targets[j].path == x;
      assert files[j].finalPath == x;
    }
  }

  // ---------- every state in between ----------

  /** A reader finds the old or the new manifest, or none. The history is coherent throughout if the new
      content that could not be taken out is what was there before, or if no manifest is left; and it is not
      if there is such content and the old manifest, a different one, is there again. */
  ghost predicate Told(p: Plan, trace: seq<Disk>, start: nat, disk: Disk, refusals: seq<string>)
    requires p.manifest in p.after
  {
    && Familiar(p, trace, start)
    && (Matches(p, StuckIn(p, refusals)) || p.manifest !in disk ==> Steady(p, trace, start))
    && (NewManifest(p) && !Matches(p, StuckIn(p, refusals)) && p.manifest in disk ==> !Steady(p, trace, start))
  }

  /** The first target that can never be put in place. */
  function FirstBlocked(targets: seq<Target>, unplaceable: set<string>): (n: nat)
    ensures n <= |targets| && forall j | 0 <= j < n :: targets[j].path !in unplaceable
    ensures n < |targets| ==> targets[n].path in unplaceable
  {
    if targets == [] || targets[0].path in unplaceable then 0 else 1 + FirstBlocked(targets[1..], unplaceable)
  }

  lemma {:induction false} FirstBlockedIs(targets: seq<Target>, unplaceable: set<string>, n: nat)
    requires n <= |targets| && (forall j | 0 <= j < n :: targets[j].path !in unplaceable)
    requires n < |targets| ==> targets[n].path in unplaceable
    ensures FirstBlocked(targets, unplaceable) == n
  {
    if targets != [] && targets[0].path !in unplaceable {
      assert n > 0;
      FirstBlockedIs(targets[1..], unplaceable, n - 1);
    }
  }

  /** The faults that always show, and only at names the write touches. */
  ghost predicate Persistent(f: Faults, p: Plan) {
    !f.sporadic && f.unremovable <= Touched(p) && f.unplaceable <= Touched(p)
  }

  /** What is in place when the first blocked target is reached and cannot be removed. */
  ghost function StuckNames(targets: seq<Target>, f: Faults): set<string> {
    Names(targets[..FirstBlocked(targets, f.unplaceable)]) * f.unremovable
  }

  /** With persistent faults it is known beforehand how a write ends. */
  ghost predicate Foreseen(p: Plan, targets: seq<Target>, f: Faults, ok: bool, disk: Disk, refusals: seq<string>) {
    && (ok <==> FirstBlocked(targets, f.unplaceable) == |targets|)
    && (!ok ==> RefusedExactly(refusals, Touched(p), StuckNames(targets, f)))
    && (!ok ==> (p.manifest in disk <==> p.manifest in p.before && p.manifest !in f.unplaceable))
  }

  /** Such a write mixes the old manifest with new content. */
  ghost predicate WillMix(p: Plan, targets: seq<Target>, f: Faults)
    requires p.manifest in p.after
  {
    && FirstBlocked(targets, f.unplaceable) < |targets| && p.manifest !in f.unplaceable
    && exists x :: x in p.after && x in StuckNames(targets, f) && !(x in p.before && p.before[x] == p.after[x])
  }

  lemma SporadicNotPersistent(f: Faults, p: Plan, name: string)
    ensures f.sporadic ==> !Persistent(f, p)
    ensures name in f.unremovable && name !in Touched(p) ==> !Persistent(f, p)
  {
  }

  lemma StuckSame(p: Plan, a: seq<string>, b: seq<string>)
    requires SameCanonical(a, b, Touched(p))
    ensures StuckIn(p, a) == StuckIn(p, b)
  {
    assert forall x | x in p.after :: x in Touched(p);
  }

  /** So a caller who knows the faults can tell before the call whether the history stays coherent. */
  lemma MixExact(p: Plan, targets: seq<Target>, f: Faults, ok: bool, trace: seq<Disk>, start: nat, disk: Disk,
      refusals: seq<string>)
    requires ValidPlan(p) && NewManifest(p) && Foreseen(p, targets, f, ok, disk, refusals)
    requires Told(p, trace, start, disk, refusals)
    requires ok ==> Steady(p, trace, start)
    ensures Steady(p, trace, start) <==> !WillMix(p, targets, f)
  {
    hide Steady, Familiar, StuckNames;
    if !ok {
      forall x | x in p.after
        ensures x in StuckIn(p, refusals) <==> x in StuckNames(targets, f)
      {
        assert x in Touched(p);
      }
    }
  }

  /** One file that cannot be removed and one that cannot be put in place. */
  function BadPair(unremovable: string, unplaceable: string): Faults {
    Faults(false, {unremovable}, {unplaceable})
  }

  /** Two faults are enough for any bundle, if the second strikes after the first file is in place. */
  lemma OneBadPairMixes(before: Disk, targets: seq<Target>, obsolete: seq<string>, i: nat, j: nat)
    requires DistinctTargets(targets) && i < j < |targets| - 1
    requires !(targets[i].path in before && before[targets[i].path] == targets[i].content)
    ensures var p, f := PlanOf(before, targets, obsolete), BadPair(targets[i].path, targets[j].path);
      p.manifest in p.after && Persistent(f, p) && WillMix(p, targets, f)
  {
    ContentsExact(targets);
    var f := BadPair(targets[i].path, targets[j].path);
    FirstBlockedIs(targets, f.unplaceable, j);
    assert targets[..j][i].path in Names(targets[..j]);
    assert targets[i].path in StuckNames(targets, f);
  }

  // ---------- the whole write ----------

  /** The deferred end of a failed write. */
  method GiveUp(w: BundlePublication)
    requires w.Standing() && !w.committed && forall i | 0 <= i < |w.files| :: !w.files[i].published
    requires w.mishaps == 0 ==> w.g.put == map[] && forall k | 0 <= k < |w.backups| :: k in w.g.restored
    requires w.g.put.Keys <= StuckIn(w.plan, w.Refusals()).Keys && w.plan.manifest !in w.g.put
    requires Matches(w.plan, StuckIn(w.plan, w.Refusals())) ==> w.History()
    requires w.plan.manifest in w.g.out || w.plan.manifest !in w.plan.before ==> w.History()
    requires NewManifest(w.plan) && !Matches(w.plan, StuckIn(w.plan, w.Refusals())) && w.plan.manifest !in w.g.out ==>
        !w.History()
    modifies w`g, w`mishaps, w.dir
    ensures Advanced(old(w.dir.trace), w.dir.trace, old(w.dir.troubles), w.dir.troubles, old(w.dir.refused),
        w.dir.refused)
    ensures w.dir.Valid() && w.plan.manifest in w.plan.after && w.known <= |w.dir.refused|
    ensures AfterFailure(w.plan, w.dir.files, w.Refusals())
    ensures Told(w.plan, w.dir.trace, w.start, w.dir.files, w.Refusals())
    ensures 0 <= w.mishaps - old(w.mishaps) <= w.dir.troubles - old(w.dir.troubles)
    ensures w.mishaps == 0 ==> BackAgain(w.plan, w.dir.files, w.Refusals())
    ensures SameCanonical(old(w.Refusals()), w.Refusals(), w.canonical)
    ensures w.plan.manifest in w.dir.files <==> w.plan.manifest in w.plan.before && w.plan.manifest !in old(w.g.out)
  {
    hide Coherent, Steady, Familiar, Placed, Matches, DistinctFiles, CoversAll, Noted, Blank, AfterFailure, BackAgain,
        SameCanonical, StuckIn;
    w.CleanUp();
    StuckSame(w.plan, old(w.Refusals()), w.Refusals());
    w.FailureVerdict();
  }

  /** From `publish` on. */
  method PublishOrUndo(w: BundlePublication, targets: seq<Target>) returns (ok: bool)
    requires w.Standing() && w.History() && w.Fresh() && w.Unrefused() && w.mishaps == 0 && w.g.left == {}
    requires Planned(w.plan, w.files) && Follows(w.files, targets) && w.g.out == Touched(w.plan)
    requires ManifestThenGone(w.plan, w.backups)
    modifies w`files, w`committed, w`g, w`mishaps, w.dir
    ensures Advanced(old(w.dir.trace), w.dir.trace, old(w.dir.troubles), w.dir.troubles, old(w.dir.refused),
        w.dir.refused)
    ensures w.dir.Valid() && w.plan.manifest in w.plan.after && w.known <= |w.dir.refused|
    ensures Told(w.plan, w.dir.trace, w.start, w.dir.files, w.Refusals())
    ensures ok ==> AfterSuccess(w.plan, w.dir.files, w.Refusals()) && w.History()
    ensures ok && w.dir.troubles == old(w.dir.troubles) ==> w.dir.refused == old(w.dir.refused)
    ensures !ok ==> AfterFailure(w.plan, w.dir.files, w.Refusals()) && w.dir.troubles > old(w.dir.troubles)
    ensures !ok && w.dir.troubles <= old(w.dir.troubles) + 1 ==> BackAgain(w.plan, w.dir.files, w.Refusals())
    ensures !w.dir.faults.sporadic ==> Foreseen(w.plan, targets, w.dir.faults, ok, w.dir.files, w.Refusals())
  {
    hide Coherent, Steady, Familiar, Placed, Shape, DistinctFiles, CoversAll, Matches, ManifestThenGone, Told,
        NewManifest;
    hide Noted, Blank, AfterFailure, AfterSuccess, BackAgain, StuckIn, Foreseen, Finals;
    var published, n := w.Publish();
    if !published {
      ghost var put, out := w.g.put.Keys, w.g.out;
      PublishedNames(w.files, targets, n);
      w.RollBack();
      ghost var back, refusals := w.g.out, w.Refusals();
      GiveUp(w);
      if !w.dir.faults.sporadic {
        ForeseenFailure(w.plan, targets, n, w.dir.faults, refusals, w.Refusals(), w.dir.files);
      }
      return false;
    }
    if !w.dir.faults.sporadic { ForeseenSuccess(w.plan, targets, w.files, w.dir.faults); }
    w.Commit();
    w.CleanUp();
    SettledFiles(w.plan, w.dir.files, w.g.put, w.g.scratch, w.Refusals());
    NothingStuck(w.plan, w.Refusals());
    ToldSteady(w.plan, w.dir.trace, w.start, w.dir.files, w.Refusals());
    ok := true;
  }

  lemma PublishedNames(files: seq<BundleTemp>, targets: seq<Target>, n: nat)
    requires Follows(files, targets) && n <= |files|
    ensures Finals(files, n) == Names(targets[..n])
  {
    forall x
      ensures x in Finals(files, n) <==> x in Names(targets[..n])
    {
      if x in Finals(files, n) {
        var i :| 0 <= i < n && files[i].finalPath == x;
        assert targets[..n][i].path == x;
      }
      if x in Names(targets[..n]) {
        var i :| 0 <= i < n && targets[..n][i].path == x;
        assert files[i].finalPath == x;
      }
    }
  }

  lemma ForeseenFailure(p: Plan, targets: seq<Target>, n: nat, f: Faults, refusals: seq<string>, more: seq<string>,
      disk: Disk)
    requires n < |targets| && (forall j | 0 <= j < n :: targets[j].path !in f.unplaceable)
    requires targets[n].path in f.unplaceable
    requires RefusedExactly(refusals, Touched(p), Names(targets[..n]) * f.unremovable)
    requires SameCanonical(refusals, more, Touched(p))
    requires p.manifest in disk <==> p.manifest in p.before && p.manifest !in f.unplaceable
    ensures Foreseen(p, targets, f, false, disk, more)
  {
    FirstBlockedIs(targets, f.unplaceable, n);
  }

  lemma ForeseenSuccess(p: Plan, targets: seq<Target>, files: seq<BundleTemp>, f: Faults)
    requires Follows(files, targets) && forall j | 0 <= j < |files| :: files[j].finalPath !in f.unplaceable
    ensures forall disk, refusals :: Foreseen(p, targets, f, true, disk, refusals)
  {
    assert forall j | 0 <= j < |targets| :: files[j].finalPath == targets[j].path;
    FirstBlockedIs(targets, f.unplaceable, |targets|);
  }

  lemma ToldSteady(p: Plan, trace: seq<Disk>, start: nat, disk: Disk, refusals: seq<string>)
    requires p.manifest in p.after && Steady(p, trace, start) && Familiar(p, trace, start)
    requires Matches(p, StuckIn(p, refusals))
    ensures Told(p, trace, start, disk, refusals)
  {
  }

  /** The body of `writeBundle` once there is a publication to write with. */
  method Write(w: BundlePublication, targets: seq<Target>, obsolete: seq<string>) returns (ok: bool)
    requires DistinctTargets(targets) && targets != [] && w.plan == PlanOf(w.dir.files, targets, obsolete)
    requires w.Standing() && w.History() && w.Fresh() && w.Unrefused() && w.files == [] && w.backups == []
    requires w.leaked == {} && w.mishaps == 0
    requires w.g == Ledger({}, map[], map[], {}, {}, {})
    modifies w`files, w`backups, w`committed, w`g, w`mishaps, w`leaked, w.dir
    ensures Advanced(old(w.dir.trace), w.dir.trace, old(w.dir.troubles), w.dir.troubles, old(w.dir.refused),
        w.dir.refused)
    ensures w.dir.Valid() && w.plan.manifest in w.plan.after && w.known <= |w.dir.refused|
    ensures Told(w.plan, w.dir.trace, w.start, w.dir.files, w.Refusals())
    ensures ok ==> AfterSuccess(w.plan, w.dir.files, w.Refusals()) && NoDirectories(w.plan) && w.History()
    ensures ok && w.dir.troubles == old(w.dir.troubles) ==> w.dir.refused == old(w.dir.refused)
    ensures !ok ==> AfterFailure(w.plan, w.dir.files, w.Refusals())
    ensures !ok ==> w.dir.troubles > old(w.dir.troubles) || !NoDirectories(w.plan)
    ensures !ok && w.dir.troubles <= old(w.dir.troubles) + (if NoDirectories(w.plan) then 1 else 0) ==>
              BackAgain(w.plan, w.dir.files, w.Refusals())
    ensures Persistent(w.dir.faults, w.plan) && NoDirectories(w.plan) ==>
              Foreseen(w.plan, targets, w.dir.faults, ok, w.dir.files, w.Refusals())
  {
    hide Coherent, Steady, Familiar, Placed, Shape, DistinctFiles, CoversAll, Matches, ManifestThenGone, NoDirectories,
        Told, NewManifest;
    hide Noted, Blank, AfterFailure, AfterSuccess, BackAgain, StuckIn, Foreseen;
    ContentsExact(targets);
    NothingStuck(w.plan, w.Refusals());
    var staged := StageAll(w, targets);
    if !staged {
      NothingStuck(w.plan, w.Refusals());
      GiveUp(w);
      return false;
    }
    TouchedExact(w.plan, targets, obsolete);
    var prepared := w.Prepare(obsolete);
    if !prepared {
      NothingStuck(w.plan, w.Refusals());
      GiveUp(w);
      return false;
    }
    ok := PublishOrUndo(w, targets);
  }

  lemma NothingKept(p: Plan)
    ensures ManifestThenGone(p, [])
  {
  }

  lemma NothingStuck(p: Plan, refusals: seq<string>)
    requires NoneOf(refusals, Touched(p))
    ensures StuckIn(p, refusals) == map[] && Matches(p, StuckIn(p, refusals))
  {
    assert StuckIn(p, refusals).Keys == {};
  }

  lemma TouchedExact(p: Plan, targets: seq<Target>, obsolete: seq<string>)
    requires targets != [] && p.after.Keys == Names(targets) && p.gone == (set x | x in obsolete) - Names(targets)
    ensures Touched(p) == p.after.Keys + (set x | x in obsolete)
  {
  }

  /** The calls of this write that were refused. */
  ghost function Refused(was: seq<string>, now: seq<string>): seq<string>
    requires was <= now
  {
    now[|was|..]
  }

  /** `writeBundle` from the creation of the directory on. The manifest is the last target. */
  method WriteBundle(dir: Directory, targets: seq<Target>, obsolete: seq<string>) returns (ok: bool)
    requires dir.Valid() && DistinctTargets(targets) && targets != []
    modifies dir
    ensures dir.Valid()
    ensures Advanced(old(dir.trace), dir.trace, old(dir.troubles), dir.troubles, old(dir.refused), dir.refused)
    // Every state in between.
    ensures var p := PlanOf(old(dir.files), targets, obsolete);
      && p.manifest in p.after && Told(p, dir.trace, |old(dir.trace)| - 1, dir.files,
          Refused(old(dir.refused), dir.refused))
      && (ok ==> Steady(p, dir.trace, |old(dir.trace)| - 1))
    // It fails only when a call fails or a directory is in the way.
    ensures var p := PlanOf(old(dir.files), targets, obsolete);
      (ok ==> NoDirectories(p)) && (dir.troubles == old(dir.troubles) && NoDirectories(p) ==> ok)
    // All: without a failed call exactly the new files are left if and only if the write touches every old name.
    ensures var p := PlanOf(old(dir.files), targets, obsolete);
      && (ok ==> AfterSuccess(p, dir.files, Refused(old(dir.refused), dir.refused)))
      && (ok && dir.troubles == old(dir.troubles) ==>
            dir.files == (p.before - Touched(p)) + p.after && (dir.files == p.after <==> p.before.Keys <= Touched(p)))
    // Or nothing: if no second call fails the directory is as before, but for an empty file that could not be removed.
    ensures var p := PlanOf(old(dir.files), targets, obsolete);
      && (!ok ==> AfterFailure(p, dir.files, Refused(old(dir.refused), dir.refused)))
      && (!ok && dir.troubles <= old(dir.troubles) + (if NoDirectories(p) then 1 else 0) ==>
            BackAgain(p, dir.files, Refused(old(dir.refused), dir.refused)))
    // With persistent faults all of this is known before the call.
    ensures var p := PlanOf(old(dir.files), targets, obsolete);
      Persistent(dir.faults, p) && NoDirectories(p) ==>
        && Foreseen(p, targets, dir.faults, ok, dir.files, Refused(old(dir.refused), dir.refused))
        && (NewManifest(p) ==> (Steady(p, dir.trace, |old(dir.trace)| - 1) <==> !WillMix(p, targets, dir.faults)))
  {
    hide Coherent, Steady, Familiar, Placed, Matches, NoDirectories, Told, AfterFailure, AfterSuccess, BackAgain,
        Foreseen, WillMix, NewManifest;
    ContentsExact(targets);
    ghost var p := PlanOf(dir.files, targets, obsolete);
    TouchedExact(p, targets, obsolete);
    var w := new BundlePublication(dir, Names(targets) + (set x | x in obsolete), p);
    ok := Write(w, targets, obsolete);
    ghost var refusals := Refused(old(dir.refused), dir.refused);
    assert refusals == w.Refusals();
    if ok && dir.troubles == old(dir.troubles) {
      assert refusals == [];
      CleanResultExact(p, dir.files);
    }
    if Persistent(dir.faults, p) && NoDirectories(p) && NewManifest(p) {
      MixExact(p, targets, dir.faults, ok, dir.trace, |old(dir.trace)| - 1, dir.files, refusals);
    }
  }

  /** Such a write, made: its rollback leaves the old manifest beside new content. */
  method MixedWrite(before: Disk, targets: seq<Target>, obsolete: seq<string>, i: nat, j: nat) returns (dir: Directory)
    requires DistinctTargets(targets) && i < j < |targets| - 1
    requires !(targets[i].path in before && before[targets[i].path] == targets[i].content)
    requires var p := PlanOf(before, targets, obsolete); p.manifest in p.after && NewManifest(p) && NoDirectories(p)
    ensures fresh(dir) && dir.Valid() && !Steady(PlanOf(before, targets, obsolete), dir.trace, 0)
  {
    hide Steady, Told, NoDirectories, NewManifest, AfterFailure, AfterSuccess, BackAgain, Foreseen, WillMix, Persistent;
    OneBadPairMixes(before, targets, obsolete, i, j);
    dir := new Directory(before, BadPair(targets[i].path, targets[j].path));
    var ok := WriteBundle(dir, targets, obsolete);
  }
}
