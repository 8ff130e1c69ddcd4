/** clean_small_file.py: a walk that deletes every regular file below
    500 MiB, whatever its extension, and leaves everything else alone; a
    dry run lists those files under the DELETE header instead.  clean.py's
    `filename_clean` is the same function, so Clean uses this one. */
module CleanSmallFile {
  import opened Wrappers
  import opened Text
  import opened Fs
  import opened Walk
  import opened Control
  import opened Report

  /** The folder the script works on; it is fixed in the script. */
  const Folder: Str := "/home/tedwu/2016-2022/"

  /** The decisions of the walk: the size check alone. */
  function Plan(es: seq<Entry>): (ds: seq<Decision>)
    ensures |ds| == |es| && forall i :: 0 <= i < |es| ==> ds[i] == SmallOnly(es[i])
  {
    seq(|es|, i requires 0 <= i < |es| => SmallOnly(es[i]))
  }

  /** `filename_clean(dry_run, folder_path)`: in a dry run the names of the
      small files are collected and written, in walk order, below the
      DELETE header; otherwise the small files are removed and nothing is
      written.  The video check after the size check skips to the next file
      either way, so it decides nothing. */
  method CleanPass(dryRun: bool, es: seq<Entry>) returns (ops: seq<Op>, log: seq<Str>)
    ensures ops == if dryRun then [] else OpsOf(es, Plan(es))
    ensures log == if dryRun then [DeleteHeader] + Deleted(es, Plan(es)) else []
  {
    ghost var ds := Plan(es);
    var deletedFiles: seq<Str> := [];
    ops := [];
    for i := 0 to |es|
      invariant ops == if dryRun then [] else OpsOf(es[..i], ds[..i])
      invariant deletedFiles == if dryRun then Deleted(es[..i], ds[..i]) else []
    {
      var e := es[i];
      PassSnoc(es, ds, i);
      if e.info.isFile && IsValidFileSize(e.info.size) {
        if dryRun {
          deletedFiles := deletedFiles + [e.key.name];
        } else {
          ops := ops + [Remove(e.key)];
        }
        continue;
      }
      if !IsVideoFile(e.key.name) {
        continue;
      }
    }
    assert es[..|es|] == es && ds[..|es|] == ds;
    if dryRun {
      log := WriteNames([DeleteHeader], deletedFiles);
    } else {
      log := [];
    }
  }

  /** The dry-run log names exactly the small files the walk visits, below
      the one header. */
  lemma DryLogNamesSmallFiles(es: seq<Entry>)
    ensures var log := [DeleteHeader] + Deleted(es, Plan(es));
      log[0] == DeleteHeader &&
      forall x :: x in log[1..] <==> exists i :: 0 <= i < |es| && IsSmall(es[i]) && es[i].key.name == x
  {
    var log := [DeleteHeader] + Deleted(es, Plan(es));
    assert log[1..] == Deleted(es, Plan(es));
    DeletedMembers(es, Plan(es));
  }

  /** After the apply pass over a complete walk, the files left are exactly
      the files that were not small, each with what it held: the pass
      removes the small ones and nothing else, and renames nothing. */
  lemma ApplyRemovesExactlySmall(fs: Files, es: seq<Entry>)
    requires IsListing(fs, es)
    ensures var r := ApplyAll(fs, OpsOf(es, Plan(es)));
      forall k :: (k in r <==> k in fs && !(fs[k].isFile && IsValidFileSize(fs[k].size))) &&
                  (k in r ==> r[k] == fs[k])
  {
    var ds := Plan(es);
    assert FreshTargets(fs, es, ds);
    forall k ensures var r := ApplyAll(fs, OpsOf(es, ds));
      (k in r <==> k in fs && !(fs[k].isFile && IsValidFileSize(fs[k].size))) && (k in r ==> r[k] == fs[k])
    {
      KeyFate(fs, es, ds, k);
      SmallKeyFate(fs, es, k);
    }
  }

  /** Under the size check alone a file is touched exactly when it is
      small, and no rename creates anything. */
  lemma SmallKeyFate(fs: Files, es: seq<Entry>, k: Key)
    requires IsListing(fs, es)
    ensures k in fs ==> (Touched(es, Plan(es), k) <==> fs[k].isFile && IsValidFileSize(fs[k].size))
    ensures !IsTarget(es, Plan(es), k)
  {
    if k in fs {
      var i :| 0 <= i < |es| && es[i].key == k;
      assert Touched(es, Plan(es), k) <==> IsSmall(es[i]);
    }
  }

  // -------------------------------------------------------------------
  // __main__

  /** The steps of a run: the path check, the dry pass, then the end of a
      dry run or the countdown and the apply pass. */
  function SmallSteps(pathExists: bool, dryRun: bool, interruptAt: Option<nat>): seq<Step> {
    if !pathExists then [Exit(NoPath)]
    else if dryRun then [DryPass, Exit(DryRunOnly)]
    else if Interrupts(interruptAt, 10) then [DryPass, Countdown(CountdownShown(10, interruptAt)), Exit(Interrupted)]
    else [DryPass, Countdown(CountdownShown(10, interruptAt)), ApplyPass]
  }

  /** The run gets past the countdown to the apply pass. */
  predicate Applies(pathExists: bool, dryRun: bool, interruptAt: Option<nat>) {
    pathExists && !dryRun && !Interrupts(interruptAt, 10)
  }

  /** Files are removed exactly when the folder exists, no dry run was asked
      for and the countdown ran out; the report always comes first, and a
      run that does not apply ends on an exit. */
  lemma SmallStepsOrder(pathExists: bool, dryRun: bool, interruptAt: Option<nat>)
    ensures var steps := SmallSteps(pathExists, dryRun, interruptAt);
      |steps| > 0 &&
      (ApplyPass in steps <==> Applies(pathExists, dryRun, interruptAt)) &&
      (pathExists ==> steps[0] == DryPass) &&
      (!Applies(pathExists, dryRun, interruptAt) ==> steps[|steps| - 1].Exit?) &&
      (Applies(pathExists, dryRun, interruptAt) ==> steps[|steps| - 1] == ApplyPass)
  {
    var steps := SmallSteps(pathExists, dryRun, interruptAt);
    var shown := Countdown(CountdownShown(10, interruptAt));
    if !pathExists {
      assert steps == [Exit(NoPath)];
    } else if dryRun {
      assert steps == [DryPass, Exit(DryRunOnly)];
    } else if Interrupts(interruptAt, 10) {
      assert steps == [DryPass, shown, Exit(Interrupted)];
    } else {
      assert steps == [DryPass, shown, ApplyPass];
    }
  }

  /** The countdown runs exactly when the folder exists and no dry run was
      asked for. */
  lemma SmallStepsCountdown(pathExists: bool, dryRun: bool, interruptAt: Option<nat>)
    ensures Countdown(CountdownShown(10, interruptAt)) in SmallSteps(pathExists, dryRun, interruptAt) <==>
      pathExists && !dryRun
  {
    var steps := SmallSteps(pathExists, dryRun, interruptAt);
    if pathExists && !dryRun {
      assert steps[1] == Countdown(CountdownShown(10, interruptAt));
    }
  }

  /** `__main__`: `pathExists` answers `os.path.exists(folder_path)`,
      `interruptAt` says when Ctrl+C arrives during the countdown, and `es`
      is the walk.  The log is the one the dry pass writes. */
  method Run(dryRun: bool, pathExists: bool, interruptAt: Option<nat>, es: seq<Entry>)
    returns (steps: seq<Step>, ops: seq<Op>, log: seq<Str>)
    ensures steps == SmallSteps(pathExists, dryRun, interruptAt)
    ensures ops == if Applies(pathExists, dryRun, interruptAt) then OpsOf(es, Plan(es)) else []
    ensures log == if pathExists then [DeleteHeader] + Deleted(es, Plan(es)) else []
  {
    if !pathExists {
      return [Exit(NoPath)], [], [];
    }
    var none;
    none, log := CleanPass(true, es);
    if dryRun {
      return [DryPass, Exit(DryRunOnly)], [], log;
    }
    var shown, interrupted := RunCountdown(10, interruptAt);
    if interrupted {
      return [DryPass, Countdown(shown), Exit(Interrupted)], [], log;
    }
    var applied;
    ops, applied := CleanPass(false, es);
    steps := [DryPass, Countdown(shown), ApplyPass];
  }
}
