/** clean.py: the small-file pass of CleanSmallFile on the folder one switch
    selects, followed, when files were changed, by moving every file up to
    that folder and removing the directories left empty. */
module Clean {
  import opened Wrappers
  import opened Text
  import opened Fs
  import opened Walk
  import opened Policy
  import opened Control
  import opened Report
  import opened CleanSmallFile

  // -------------------------------------------------------------------
  // The folder a switch selects

  const SubFolder: Str := "/home/tedwu/2016-2022/有字幕"
  const NoSubFolder: Str := "/home/tedwu/2016-2022/no_cc"
  const HackFolder: Str := "/home/tedwu/2016-2022/无码破解/no_cc"
  const HackSubFolder: Str := "/home/tedwu/2016-2022/无码破解/有字幕"

  /** The switch check and the folder of the `elif` chain: `-c`, `-no`,
      `-u`, `-uc`. */
  function FolderFor(f: Flags): (r: Option<Str>)
    ensures r.Some? <==> ExactlyOne(f)
  {
    if !ExactlyOne(f) then None
    else if f.c then Some(SubFolder)
    else if f.no then Some(NoSubFolder)
    else if f.u then Some(HackFolder)
    else Some(HackSubFolder)
  }

  /** Each switch has its own folder: two accepted command lines select the
      same folder only when they set the same switch. */
  lemma FolderForDistinct(f: Flags, g: Flags)
    requires FolderFor(f).Some? && FolderFor(f) == FolderFor(g)
    ensures f == g
  {
    assert SubFolder != NoSubFolder && SubFolder != HackFolder && SubFolder != HackSubFolder;
    assert NoSubFolder != HackFolder && NoSubFolder != HackSubFolder;
    assert HackFolder[|HackFolder| - 1] != HackSubFolder[|HackSubFolder| - 1];
  }

  // -------------------------------------------------------------------
  // move_files_to_root

  /** The rename of one file of the walk: a file below the folder goes to
      the folder under its own name; a file already there stays. */
  function MoveOp(e: Entry): seq<Op> {
    if e.key.dir == [] then [] else [Rename(e.key, Key([], e.key.name))]
  }

  /** The renames of `move_files_to_root`, in walk order. */
  function MoveOps(es: seq<Entry>): (ops: seq<Op>)
    ensures forall o :: o in ops ==>
      o.Rename? && o.from.dir != [] && o.to == Key([], o.from.name) &&
      exists i :: 0 <= i < |es| && es[i].key == o.from
    decreases |es|
  {
    if es == [] then []
    else
      var n := |es| - 1;
      var prefix := MoveOps(es[..n]);
      assert forall o :: o in prefix ==> exists i :: 0 <= i < n && es[..n][i].key == o.from;
      prefix + MoveOp(es[n])
  }

  /** `move_files_to_root(folder_path)`; `es` is the walk of the folder
      after the apply pass. */
  method MoveFilesToRoot(es: seq<Entry>) returns (ops: seq<Op>)
    ensures ops == MoveOps(es)
  {
    ops := [];
    for i := 0 to |es|
      invariant ops == MoveOps(es[..i])
    {
      var e := es[i];
      assert es[..i + 1][..i] == es[..i];
      if e.key.dir == [] {
        continue;
      }
      ops := ops + [Rename(e.key, Key([], e.key.name))];
    }
    assert es[..|es|] == es;
  }

  /** No two files share a name, wherever they are. */
  ghost predicate UniqueNames(fs: Files) {
    forall a, b :: a in fs && b in fs && a.name == b.name ==> a == b
  }

  /** The walk reaches `k`. */
  ghost predicate Walked(es: seq<Entry>, k: Key) {
    exists i :: 0 <= i < |es| && es[i].key == k
  }

  /** `k` is the folder-level name a file of the walk was moved to. */
  ghost predicate Arrived(es: seq<Entry>, k: Key) {
    k.dir == [] && exists i :: 0 <= i < |es| && es[i].key.dir != [] && es[i].key.name == k.name
  }

  /** What the moves have done to the one file `k` of `fs`, once `moved`
      says whether the walk has reached it: a file below the folder that
      was reached is now in the folder under its own name; any other file
      is where it was. */
  ghost predicate FateIs(fs: Files, r: Files, k: Key, moved: bool)
    requires k in fs
  {
    if k.dir != [] && moved then k !in r && Key([], k.name) in r && r[Key([], k.name)] == fs[k]
    else k in r && r[k] == fs[k]
  }

  ghost predicate MoveFate(fs: Files, es: seq<Entry>, r: Files, k: Key)
    requires k in fs
  {
    FateIs(fs, r, k, Walked(es, k))
  }

  /** What the moves over `es` have done to every file, and what they have
      created. */
  ghost predicate MoveFates(fs: Files, es: seq<Entry>, r: Files) {
    (forall k :: k in fs ==> MoveFate(fs, es, r, k)) &&
    (forall k :: k in r ==> (k in fs && !(k.dir != [] && Walked(es, k))) || Arrived(es, k))
  }

  lemma {:induction false} MovesFate(fs: Files, es: seq<Entry>)
    requires Visits(fs, es) && UniqueNames(fs)
    ensures MoveFates(fs, es, ApplyAll(fs, MoveOps(es)))
    decreases |es|
  {
    if es == [] {
      return;
    }
    var n := |es| - 1;
    var es' := es[..n];
    assert Visits(fs, es') by {
      assert forall i :: 0 <= i < n ==> es'[i] == es[i];
    }
    MovesFate(fs, es');
    var prev := ApplyAll(fs, MoveOps(es'));
    assert MoveOps(es) == MoveOps(es') + MoveOp(es[n]);
    WalkSnoc(es, n);
    if es[n].key.dir == [] {
      assert MoveOps(es) == MoveOps(es');
    } else {
      ApplyAllSnoc(fs, MoveOps(es'), Rename(es[n].key, Key([], es[n].key.name)));
      MoveStep(fs, es, prev);
    }
  }

  /** One more entry of the walk is one more walked key, and a moved one
      also one more arrival. */
  lemma WalkSnoc(es: seq<Entry>, n: nat)
    requires n + 1 == |es|
    ensures forall k :: Walked(es, k) <==> Walked(es[..n], k) || k == es[n].key
    ensures forall k :: Arrived(es, k) <==>
      Arrived(es[..n], k) || (k.dir == [] && es[n].key.dir != [] && es[n].key.name == k.name)
  {
    var es' := es[..n];
    forall k ensures Walked(es, k) <==> Walked(es', k) || k == es[n].key {
      if Walked(es', k) {
        var i :| 0 <= i < n && es'[i].key == k;
        assert es[i].key == k;
      }
      if Walked(es, k) && k != es[n].key {
        var i :| 0 <= i < |es| && es[i].key == k;
        assert es'[i].key == k;
      }
    }
    forall k ensures Arrived(es, k) <==>
      Arrived(es', k) || (k.dir == [] && es[n].key.dir != [] && es[n].key.name == k.name)
    {
      if Arrived(es', k) {
        var i :| 0 <= i < n && es'[i].key.dir != [] && es'[i].key.name == k.name;
        assert es[i] == es'[i];
      }
      if Arrived(es, k) && !(es[n].key.dir != [] && es[n].key.name == k.name) {
        var i :| 0 <= i < |es| && es[i].key.dir != [] && es[i].key.name == k.name;
        assert es'[i] == es[i];
      }
    }
  }

  /** The rename of the last entry of the walk, which has not been moved
      yet. */
  lemma MoveStep(fs: Files, es: seq<Entry>, prev: Files)
    requires Visits(fs, es) && UniqueNames(fs) && |es| > 0
    requires var e := es[|es| - 1]; e.key.dir != []
    requires MoveFates(fs, es[..|es| - 1], prev)
    requires var n := |es| - 1;
      (forall k :: Walked(es, k) <==> Walked(es[..n], k) || k == es[n].key) &&
      (forall k :: Arrived(es, k) <==>
         Arrived(es[..n], k) || (k.dir == [] && es[n].key.dir != [] && es[n].key.name == k.name))
    ensures var a := es[|es| - 1].key;
      MoveFates(fs, es, Apply(prev, Rename(a, Key([], a.name))))
  {
    var n := |es| - 1;
    var a := es[n].key;
    var r := Apply(prev, Rename(a, Key([], a.name)));
    assert forall i :: 0 <= i < n ==> es[..n][i].key == es[i].key && es[i].key != a;
    assert !Walked(es[..n], a);
    assert a in fs;
    assert MoveFate(fs, es[..n], prev, a);
    forall k | k in fs ensures MoveFate(fs, es, r, k) {
      if k != a {
        assert MoveFate(fs, es[..n], prev, k);
        RenameKeepsFate(fs, prev, a, k, Walked(es[..n], k));
      }
    }
    forall k | k in r ensures (k in fs && !(k.dir != [] && Walked(es, k))) || Arrived(es, k) {
      if k != Key([], a.name) {
        assert k in prev && k != a;
      }
    }
  }

  /** Moving `a` up leaves what the earlier moves did to any other file as
      it was, since no other file carries `a`'s name. */
  lemma RenameKeepsFate(fs: Files, prev: Files, a: Key, k: Key, moved: bool)
    requires UniqueNames(fs) && a in fs && k in fs && a.dir != [] && k != a
    requires a in prev && prev[a] == fs[a]
    requires FateIs(fs, prev, k, moved)
    ensures FateIs(fs, Apply(prev, Rename(a, Key([], a.name))), k, moved)
  {
    assert k.name != a.name;
  }

  /** After the moves, over a complete walk of files with distinct names:
      every file is in the folder itself, each under its own name and with
      what it held, and nothing else is there. */
  lemma MoveToRootEffect(fs: Files, es: seq<Entry>)
    requires IsListing(fs, es) && UniqueNames(fs)
    ensures var r := ApplyAll(fs, MoveOps(es));
      (forall k :: k in r ==> k.dir == []) &&
      (forall k :: k in fs ==> Key([], k.name) in r && r[Key([], k.name)] == fs[k]) &&
      (forall k :: k in r ==> exists k0 :: k0 in fs && k0.name == k.name && r[k] == fs[k0])
  {
    var r := ApplyAll(fs, MoveOps(es));
    MovesFate(fs, es);
    forall k | k in fs ensures Key([], k.name) in r && r[Key([], k.name)] == fs[k] {
      assert MoveFate(fs, es, r, k);
      assert Walked(es, k);
      if k.dir == [] {
        assert k == Key([], k.name);
      }
    }
    forall k | k in r ensures k.dir == [] && exists k0 :: k0 in fs && k0.name == k.name && r[k] == fs[k0] {
      if k in fs && !(k.dir != [] && Walked(es, k)) {
        assert Walked(es, k);
        assert MoveFate(fs, es, r, k);
      } else {
        assert Arrived(es, k);
        var i :| 0 <= i < |es| && es[i].key.dir != [] && es[i].key.name == k.name;
        var k0 := es[i].key;
        assert k == Key([], k0.name);
        assert Walked(es, k0);
        assert MoveFate(fs, es, r, k0);
      }
    }
  }

  // -------------------------------------------------------------------
  // remove_empty_dirs

  /** `d` is a subdirectory of `c`, one level down. */
  predicate IsChild(c: Dir, d: Dir) {
    |d| == |c| + 1 && c < d
  }

  /** `not os.listdir(c)`: no file and no directory is left in `c`. */
  predicate IsEmptyDir(remaining: set<Dir>, fs: Files, c: Dir) {
    (forall k :: k in fs ==> k.dir != c) && (forall d :: d in remaining ==> !IsChild(c, d))
  }

  /** The directories left after checking `checks` in order, each removed
      when it is empty at the moment it is checked. */
  function Prune(dirs: set<Dir>, fs: Files, checks: seq<Dir>): set<Dir>
    decreases |checks|
  {
    if checks == [] then dirs
    else
      var n := |checks| - 1;
      var prev := Prune(dirs, fs, checks[..n]);
      if IsEmptyDir(prev, fs, checks[n]) then prev - {checks[n]} else prev
  }

  /** `remove_empty_dirs(folder_path)`: `dirs` are the directories (`[]` is
      the folder), `fs` the files, and `checks` the `dir_to_check` paths in
      the order the bottom-up walk produces them. */
  method RemoveEmptyDirs(dirs: set<Dir>, fs: Files, checks: seq<Dir>) returns (remaining: set<Dir>)
    ensures remaining == Prune(dirs, fs, checks)
  {
    remaining := dirs;
    for i := 0 to |checks|
      invariant remaining == Prune(dirs, fs, checks[..i])
    {
      assert checks[..i + 1][..i] == checks[..i];
      if IsEmptyDir(remaining, fs, checks[i]) {
        remaining := remaining - {checks[i]};
      }
    }
    assert checks[..|checks|] == checks;
  }

  /** The directories form a tree under the folder that holds every file. */
  ghost predicate IsTree(dirs: set<Dir>, fs: Files) {
    [] in dirs &&
    (forall d, j :: d in dirs && 0 <= j <= |d| ==> d[..j] in dirs) &&
    (forall k :: k in fs ==> k.dir in dirs)
  }

  /** What the bottom-up walk checks: every directory below the folder,
      exactly once, each after every directory below it; never the folder
      itself. */
  ghost predicate IsBottomUp(dirs: set<Dir>, checks: seq<Dir>) {
    (forall i :: 0 <= i < |checks| ==> checks[i] in dirs && checks[i] != []) &&
    (forall d :: d in dirs && d != [] ==> exists i :: 0 <= i < |checks| && checks[i] == d) &&
    (forall i, j :: 0 <= i < j < |checks| ==> !(checks[i] <= checks[j]))
  }

  /** Some file is in `d` or below it. */
  ghost predicate HoldsFile(fs: Files, d: Dir) {
    exists k :: k in fs && d <= k.dir
  }

  /** The bottom-up order lets emptiness propagate: a directory goes exactly
      when no file is in it or below it, so a chain of nested empty
      directories goes as a whole, and the folder itself always stays. */
  lemma PruneKeepsExactly(dirs: set<Dir>, fs: Files, checks: seq<Dir>)
    requires IsTree(dirs, fs) && IsBottomUp(dirs, checks)
    ensures forall d :: d in Prune(dirs, fs, checks) <==> d in dirs && (d == [] || HoldsFile(fs, d))
  {
    PrunePrefix(dirs, fs, checks, |checks|);
    assert checks[..|checks|] == checks;
    forall d | d in dirs && d != [] ensures d in checks {
      var i :| 0 <= i < |checks| && checks[i] == d;
    }
  }

  lemma {:induction false} PrunePrefix(dirs: set<Dir>, fs: Files, checks: seq<Dir>, n: nat)
    requires IsTree(dirs, fs) && IsBottomUp(dirs, checks) && n <= |checks|
    ensures forall d :: d in Prune(dirs, fs, checks[..n]) <==>
      d in dirs && !(d in checks[..n] && !HoldsFile(fs, d))
    decreases n
  {
    if n == 0 {
      return;
    }
    PrunePrefix(dirs, fs, checks, n - 1);
    PruneStep(dirs, fs, checks, n - 1);
  }

  /** The check at `m` extends the characterisation from `checks[..m]` to
      `checks[..m + 1]`. */
  lemma PruneStep(dirs: set<Dir>, fs: Files, checks: seq<Dir>, m: nat)
    requires IsTree(dirs, fs) && IsBottomUp(dirs, checks) && m < |checks|
    requires forall d :: d in Prune(dirs, fs, checks[..m]) <==>
      d in dirs && !(d in checks[..m] && !HoldsFile(fs, d))
    ensures forall d :: d in Prune(dirs, fs, checks[..m + 1]) <==>
      d in dirs && !(d in checks[..m + 1] && !HoldsFile(fs, d))
  {
    var c := checks[m];
    var prev := Prune(dirs, fs, checks[..m]);
    assert checks[..m + 1][..m] == checks[..m];
    assert checks[..m + 1] == checks[..m] + [c];
    NotCheckedBefore(dirs, checks, m);
    EmptyWhenChecked(dirs, fs, checks, m);
    PruneOne(dirs, fs, checks[..m], c, prev, Prune(dirs, fs, checks[..m + 1]), IsEmptyDir(prev, fs, c));
  }

  /** One check of the walk: removing the checked directory exactly when it
      holds no file extends the characterisation by that directory. */
  lemma PruneOne(dirs: set<Dir>, fs: Files, before: seq<Dir>, c: Dir, prev: set<Dir>, next: set<Dir>, empty: bool)
    requires forall d :: d in prev <==> d in dirs && !(d in before && !HoldsFile(fs, d))
    requires c in dirs && (empty <==> !HoldsFile(fs, c))
    requires next == if empty then prev - {c} else prev
    ensures forall d :: d in next <==> d in dirs && !(d in before + [c] && !HoldsFile(fs, d))
  {
    forall d ensures d in before + [c] <==> d in before || d == c {
    }
  }

  /** The bottom-up walk checks each directory once. */
  lemma NotCheckedBefore(dirs: set<Dir>, checks: seq<Dir>, m: nat)
    requires IsBottomUp(dirs, checks) && m < |checks|
    ensures checks[m] !in checks[..m] && checks[m] in dirs
  {
    assert forall i :: 0 <= i < m ==> checks[..m][i] == checks[i] && !(checks[i] <= checks[m]);
  }

  /** When the bottom-up walk reaches `checks[m]`, it is empty exactly when
      no file is in it or below it. */
  lemma EmptyWhenChecked(dirs: set<Dir>, fs: Files, checks: seq<Dir>, m: nat)
    requires IsTree(dirs, fs) && IsBottomUp(dirs, checks) && m < |checks|
    requires forall d :: d in Prune(dirs, fs, checks[..m]) <==>
      d in dirs && !(d in checks[..m] && !HoldsFile(fs, d))
    ensures IsEmptyDir(Prune(dirs, fs, checks[..m]), fs, checks[m]) <==> !HoldsFile(fs, checks[m])
  {
    var c := checks[m];
    var prev := Prune(dirs, fs, checks[..m]);
    if HoldsFile(fs, c) {
      var k :| k in fs && c <= k.dir;
      if k.dir != c {
        var d := k.dir[..|c| + 1];
        assert d in dirs;
        assert IsChild(c, d);
        assert d <= k.dir;
        assert HoldsFile(fs, d);
        assert d in prev;
      }
    } else {
      assert forall k :: k in fs ==> !(c <= k.dir);
      forall d | d in dirs && IsChild(c, d) ensures d !in prev {
        ChildCheckedEarlier(dirs, checks, m, d);
      }
    }
  }

  /** A child of the directory the walk checks at `m` was checked before. */
  lemma ChildCheckedEarlier(dirs: set<Dir>, checks: seq<Dir>, m: nat, d: Dir)
    requires IsBottomUp(dirs, checks) && m < |checks|
    requires d in dirs && IsChild(checks[m], d)
    ensures d in checks[..m]
  {
    var j :| 0 <= j < |checks| && checks[j] == d;
    assert j < m;
    assert checks[..m][j] == d;
  }

  /** Once every file is in the folder itself, nothing but the folder is
      left. */
  lemma PruneFlatTree(dirs: set<Dir>, fs: Files, checks: seq<Dir>)
    requires IsTree(dirs, fs) && IsBottomUp(dirs, checks)
    requires forall k :: k in fs ==> k.dir == []
    ensures Prune(dirs, fs, checks) == {[]}
  {
    PruneKeepsExactly(dirs, fs, checks);
    forall d | d in Prune(dirs, fs, checks) ensures d == [] {
      assert d == [] || HoldsFile(fs, d);
    }
  }

  // -------------------------------------------------------------------
  // __main__

  /** The steps of a run: the switch check, then the steps of
      clean_small_file.py, then the move and the pruning once files have
      been changed. */
  function CleanSteps(f: Flags, pathExists: bool, dryRun: bool, interruptAt: Option<nat>): seq<Step> {
    if !ExactlyOne(f) then [Exit(BadFlags)]
    else
      var tail := if Applies(pathExists, dryRun, interruptAt) then [MoveToRoot, PruneDirs] else [];
      SmallSteps(pathExists, dryRun, interruptAt) + tail
  }

  /** Files are moved and directories removed only after the apply pass,
      in that order, and only when the switch check, the path check and the
      countdown all pass; otherwise the run ends on an exit. */
  lemma CleanStepsOrder(f: Flags, pathExists: bool, dryRun: bool, interruptAt: Option<nat>)
    ensures var steps := CleanSteps(f, pathExists, dryRun, interruptAt);
      var applies := ExactlyOne(f) && Applies(pathExists, dryRun, interruptAt);
      |steps| > 0 &&
      (applies ==> steps[|steps| - 3..] == [ApplyPass, MoveToRoot, PruneDirs]) &&
      (!applies ==> steps[|steps| - 1].Exit? && MoveToRoot !in steps && PruneDirs !in steps) &&
      (MoveToRoot in steps <==> applies)
  {
    var steps := CleanSteps(f, pathExists, dryRun, interruptAt);
    var shown := Countdown(CountdownShown(10, interruptAt));
    if !ExactlyOne(f) {
      assert steps == [Exit(BadFlags)];
    } else if !pathExists {
      assert steps == [Exit(NoPath)];
    } else if dryRun {
      assert steps == [DryPass, Exit(DryRunOnly)];
    } else if Interrupts(interruptAt, 10) {
      assert steps == [DryPass, shown, Exit(Interrupted)];
    } else {
      assert steps == [DryPass, shown, ApplyPass, MoveToRoot, PruneDirs];
    }
  }

  /** `__main__`: `fs` is the folder before the run, `es` its walk, `moved`
      the walk of the folder after the apply pass, `dirs` its directories
      and `checks` the order the bottom-up walk checks them in.  Returns the
      steps, the operations of the apply pass and of the move, and the
      directories left. */
  method Run(f: Flags, dryRun: bool, pathExists: bool, interruptAt: Option<nat>,
             fs: Files, es: seq<Entry>, moved: seq<Entry>, dirs: set<Dir>, checks: seq<Dir>)
    returns (steps: seq<Step>, ops: seq<Op>, moves: seq<Op>, remaining: set<Dir>)
    ensures steps == CleanSteps(f, pathExists, dryRun, interruptAt)
    ensures var applies := ExactlyOne(f) && Applies(pathExists, dryRun, interruptAt);
      ops == (if applies then OpsOf(es, CleanSmallFile.Plan(es)) else []) &&
      moves == (if applies then MoveOps(moved) else []) &&
      remaining == (if applies then Prune(dirs, ApplyAll(ApplyAll(fs, ops), moves), checks) else dirs)
  {
    var folder := FolderFor(f);
    if folder.None? {
      return [Exit(BadFlags)], [], [], dirs;
    }
    var small, log;
    small, ops, log := CleanSmallFile.Run(dryRun, pathExists, interruptAt, es);
    if !Applies(pathExists, dryRun, interruptAt) {
      return small, [], [], dirs;
    }
    moves := MoveFilesToRoot(moved);
    remaining := RemoveEmptyDirs(dirs, ApplyAll(ApplyAll(fs, ops), moves), checks);
    steps := small + [MoveToRoot, PruneDirs];
  }

  /** A whole run that gets past the countdown, over complete walks, with
      distinct names after the apply pass and directories that form a tree:
      no small file is left, every file left is in the folder itself with
      what it held, and no directory but the folder remains. */
  lemma RunFlattens(fs: Files, es: seq<Entry>, moved: seq<Entry>, dirs: set<Dir>, checks: seq<Dir>)
    requires IsListing(fs, es)
    requires var after := ApplyAll(fs, OpsOf(es, CleanSmallFile.Plan(es)));
      IsListing(after, moved) && UniqueNames(after)
    requires IsTree(dirs, fs) && IsBottomUp(dirs, checks)
    ensures var after := ApplyAll(fs, OpsOf(es, CleanSmallFile.Plan(es)));
      var flat := ApplyAll(after, MoveOps(moved));
      (forall k :: k in flat ==> k.dir == [] && !(flat[k].isFile && IsValidFileSize(flat[k].size))) &&
      (forall k :: k in fs && !(fs[k].isFile && IsValidFileSize(fs[k].size)) ==>
         Key([], k.name) in flat && flat[Key([], k.name)] == fs[k]) &&
      Prune(dirs, flat, checks) == {[]}
  {
    var after := ApplyAll(fs, OpsOf(es, CleanSmallFile.Plan(es)));
    var flat := ApplyAll(after, MoveOps(moved));
    ApplyRemovesExactlySmall(fs, es);
    MoveToRootEffect(after, moved);
    forall k | k in flat ensures k.dir == [] && !(flat[k].isFile && IsValidFileSize(flat[k].size)) {
      var k0 :| k0 in after && k0.name == k.name && flat[k] == after[k0];
    }
    assert IsTree(dirs, flat);
    PruneFlatTree(dirs, flat, checks);
  }
}
