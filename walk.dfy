/** What the batch passes decide for each file they visit, and the
    operations and report buckets those decisions produce.

    Every pass walks the folder and, for each file, takes one decision:
    delete it, skip it, rename it within its own directory, or keep it.
    The passes differ only in how they decide (which check comes first and
    which cleaner they call), so the decisions are the interface between a
    pass and the effect it has. */
module Walk {
  import opened Text
  import opened Fs

  /** `500 * 1024 * 1024`: 500 MiB. */
  const SizeLimit: nat := 500 * 1024 * 1024

  /** `is_valid_file_size`: strictly below the limit. */
  predicate IsValidFileSize(size: nat) { size < SizeLimit }

  const VideoExtensions: seq<Str> := [".mp4", ".avi", ".mkv", ".flv", ".mov", ".wmv", ".rmvb"]

  /** `is_video_file`: the lower-cased name ends with one of the extensions. */
  predicate IsVideoFile(name: Str) {
    exists i :: 0 <= i < |VideoExtensions| && EndsWith(Lower(name), VideoExtensions[i])
  }

  /** The entries the size check selects: regular files below the limit. */
  predicate IsSmall(e: Entry) { e.info.isFile && IsValidFileSize(e.info.size) }

  datatype Decision = Delete | Skip | RenameTo(to: Str) | Keep

  /** file_clean.py: the size check comes first, so any small file is deleted
      whatever its extension; then non-videos are skipped; then a video is
      renamed exactly when the cleaner changes its name. */
  function SizeFirst(e: Entry, cleaned: Str): (d: Decision)
    ensures d == Delete <==> IsSmall(e)
    ensures d == Skip <==> !IsSmall(e) && !IsVideoFile(e.key.name)
    ensures d == Keep <==> !IsSmall(e) && IsVideoFile(e.key.name) && cleaned == e.key.name
    ensures d.RenameTo? <==> !IsSmall(e) && IsVideoFile(e.key.name) && cleaned != e.key.name
    ensures d.RenameTo? ==> d.to == cleaned
  {
    if IsSmall(e) then Delete
    else if !IsVideoFile(e.key.name) then Skip
    else if cleaned != e.key.name then RenameTo(cleaned)
    else Keep
  }

  /** Movie_AutoScraping.py and Movie_Filename_Clean.py: the video check comes
      first, so nothing but videos is ever deleted or renamed; a small video
      is deleted and not renamed; any other video is renamed exactly when
      the cleaner changes its name. */
  function VideoFirst(e: Entry, cleaned: Str): (d: Decision)
    ensures d == Skip <==> !IsVideoFile(e.key.name)
    ensures d == Delete <==> IsVideoFile(e.key.name) && IsSmall(e)
    ensures d == Keep <==> IsVideoFile(e.key.name) && !IsSmall(e) && cleaned == e.key.name
    ensures d.RenameTo? <==> IsVideoFile(e.key.name) && !IsSmall(e) && cleaned != e.key.name
    ensures d.RenameTo? ==> d.to == cleaned
  {
    if !IsVideoFile(e.key.name) then Skip
    else if IsSmall(e) then Delete
    else if cleaned != e.key.name then RenameTo(cleaned)
    else Keep
  }

  /** clean.py and clean_small_file.py: the size check alone; the video check
      that follows it has nothing left to do. */
  function SmallOnly(e: Entry): (d: Decision)
    ensures d == Delete <==> IsSmall(e)
    ensures d == Skip <==> !IsSmall(e)
  {
    if IsSmall(e) then Delete else Skip
  }

  /** The two check orders disagree exactly on small files that are not
      videos: file_clean.py deletes them, the Movie_* scripts leave them. */
  lemma CheckOrderMatters(e: Entry, cleaned: Str)
    ensures SizeFirst(e, cleaned) != VideoFirst(e, cleaned) <==> IsSmall(e) && !IsVideoFile(e.key.name)
    ensures IsSmall(e) && !IsVideoFile(e.key.name) ==>
      SizeFirst(e, cleaned) == Delete && VideoFirst(e, cleaned) == Skip
  {
  }

  // -------------------------------------------------------------------
  // The operations of a pass in apply mode

  /** The target of a rename: the same directory, the cleaned name. */
  function Target(e: Entry, d: Decision): Key
    requires d.RenameTo?
  {
    Key(e.key.dir, d.to)
  }

  function OpOf(e: Entry, d: Decision): seq<Op> {
    match d
    case Delete => [Remove(e.key)]
    case RenameTo(to) => [Rename(e.key, Key(e.key.dir, to))]
    case _ => []
  }

  /** The `os.remove`/`os.rename` calls of a pass, in walk order. */
  function OpsOf(es: seq<Entry>, ds: seq<Decision>): (ops: seq<Op>)
    requires |es| == |ds|
    ensures |ops| <= |es|
    ensures forall o :: o in ops ==> exists i :: 0 <= i < |es| && OpOf(es[i], ds[i]) == [o]
    decreases |es|
  {
    if es == [] then []
    else
      var n := |es| - 1;
      var prefix := OpsOf(es[..n], ds[..n]);
      assert forall o :: o in prefix ==> exists i :: 0 <= i < n && OpOf(es[..n][i], ds[..n][i]) == [o];
      prefix + OpOf(es[n], ds[n])
  }

  /** Every operation of a pass acts on a file the walk visited, and every
      rename stays in the directory of the file it renames. */
  lemma OpsStayInPlace(es: seq<Entry>, ds: seq<Decision>)
    requires |es| == |ds|
    ensures forall o :: o in OpsOf(es, ds) ==>
      (o.Remove? && exists i :: 0 <= i < |es| && o.at == es[i].key && ds[i] == Delete) ||
      (o.Rename? && o.from.dir == o.to.dir &&
       exists i :: 0 <= i < |es| && o.from == es[i].key && ds[i] == RenameTo(o.to.name))
  {
    forall o | o in OpsOf(es, ds)
      ensures (o.Remove? && exists i :: 0 <= i < |es| && o.at == es[i].key && ds[i] == Delete) ||
              (o.Rename? && o.from.dir == o.to.dir &&
               exists i :: 0 <= i < |es| && o.from == es[i].key && ds[i] == RenameTo(o.to.name))
    {
      var i :| 0 <= i < |es| && OpOf(es[i], ds[i]) == [o];
    }
  }

  /** The rename targets are new files and no two renames share one. */
  ghost predicate FreshTargets(fs: Files, es: seq<Entry>, ds: seq<Decision>)
    requires |es| == |ds|
  {
    (forall i :: 0 <= i < |es| && ds[i].RenameTo? ==> Target(es[i], ds[i]) !in fs) &&
    (forall i, j :: 0 <= i < j < |es| && ds[i].RenameTo? && ds[j].RenameTo? ==>
       Target(es[i], ds[i]) != Target(es[j], ds[j]))
  }

  /** The files of the walk are distinct files of `fs`. */
  ghost predicate Visits(fs: Files, es: seq<Entry>) {
    (forall i, j :: 0 <= i < j < |es| ==> es[i].key != es[j].key) &&
    (forall i :: 0 <= i < |es| ==> es[i].key in fs)
  }

  /** The walk deletes or renames the file `k`. */
  ghost predicate Touched(es: seq<Entry>, ds: seq<Decision>, k: Key)
    requires |es| == |ds|
  {
    exists i :: 0 <= i < |es| && es[i].key == k && (ds[i] == Delete || ds[i].RenameTo?)
  }

  /** Some rename of the walk creates `k`. */
  ghost predicate IsTarget(es: seq<Entry>, ds: seq<Decision>, k: Key)
    requires |es| == |ds|
  {
    exists i :: 0 <= i < |es| && ds[i].RenameTo? && Target(es[i], ds[i]) == k
  }

  /** What the apply pass does to the files, when no rename lands on an
      existing name: deleted and renamed files are gone from their old
      names; each renamed file is present, unchanged, under its new name;
      every other file is untouched; and nothing else appears. */
  ghost predicate Effect(fs: Files, es: seq<Entry>, ds: seq<Decision>, r: Files)
    requires |es| == |ds| && Visits(fs, es)
  {
    (forall k :: k in fs && !Touched(es, ds, k) ==> k in r && r[k] == fs[k]) &&
    (forall k :: Touched(es, ds, k) ==> k !in r) &&
    (forall i :: 0 <= i < |es| && ds[i].RenameTo? ==>
       Target(es[i], ds[i]) in r && r[Target(es[i], ds[i])] == fs[es[i].key]) &&
    (forall k :: k in r ==> k in fs || IsTarget(es, ds, k))
  }

  /** What the pass has done to the one file `k`, as `Effect` states it. */
  ghost predicate Fate(fs: Files, es: seq<Entry>, ds: seq<Decision>, k: Key, r: Files)
    requires |es| == |ds| && Visits(fs, es)
  {
    (k in fs && !Touched(es, ds, k) ==> k in r && r[k] == fs[k]) &&
    (Touched(es, ds, k) ==> k !in r) &&
    (forall i :: 0 <= i < |es| && ds[i].RenameTo? && Target(es[i], ds[i]) == k ==>
       k in r && r[k] == fs[es[i].key]) &&
    (k in r ==> k in fs || IsTarget(es, ds, k))
  }

  lemma TouchedSnoc(es: seq<Entry>, ds: seq<Decision>, e: Entry, d: Decision, k: Key)
    requires |es| == |ds|
    ensures Touched(es + [e], ds + [d], k) <==>
      Touched(es, ds, k) || (k == e.key && (d == Delete || d.RenameTo?))
  {
    var es2, ds2 := es + [e], ds + [d];
    if Touched(es2, ds2, k) {
      var i :| 0 <= i < |es2| && es2[i].key == k && (ds2[i] == Delete || ds2[i].RenameTo?);
      if i < |es| { assert es2[i] == es[i] && ds2[i] == ds[i]; }
    }
    if Touched(es, ds, k) {
      var i :| 0 <= i < |es| && es[i].key == k && (ds[i] == Delete || ds[i].RenameTo?);
      assert es2[i] == es[i] && ds2[i] == ds[i];
    }
    if k == e.key && (d == Delete || d.RenameTo?) {
      assert es2[|es|] == e && ds2[|es|] == d;
    }
  }

  lemma IsTargetSnoc(es: seq<Entry>, ds: seq<Decision>, e: Entry, d: Decision, k: Key)
    requires |es| == |ds|
    ensures IsTarget(es + [e], ds + [d], k) <==>
      IsTarget(es, ds, k) || (d.RenameTo? && Target(e, d) == k)
  {
    var es2, ds2 := es + [e], ds + [d];
    if IsTarget(es2, ds2, k) {
      var i :| 0 <= i < |es2| && ds2[i].RenameTo? && Target(es2[i], ds2[i]) == k;
      if i < |es| { assert es2[i] == es[i] && ds2[i] == ds[i]; }
    }
    if IsTarget(es, ds, k) {
      var i :| 0 <= i < |es| && ds[i].RenameTo? && Target(es[i], ds[i]) == k;
      assert es2[i] == es[i] && ds2[i] == ds[i];
    }
    if d.RenameTo? && Target(e, d) == k {
      assert es2[|es|] == e && ds2[|es|] == d;
    }
  }

  /** The facts every step needs about the walk so far and the new entry. */
  lemma SnocFacts(fs: Files, es: seq<Entry>, ds: seq<Decision>, e: Entry, d: Decision)
    requires |es| == |ds| && Visits(fs, es + [e]) && FreshTargets(fs, es + [e], ds + [d])
    ensures Visits(fs, es) && FreshTargets(fs, es, ds)
    ensures e.key in fs && !Touched(es, ds, e.key)
    ensures d.RenameTo? ==> Target(e, d) !in fs && !IsTarget(es, ds, Target(e, d))
  {
    var es2, ds2 := es + [e], ds + [d];
    var n := |es|;
    assert forall i :: 0 <= i < n ==> es2[i] == es[i] && ds2[i] == ds[i];
    assert es2[n] == e && ds2[n] == d;
    forall i | 0 <= i < n ensures es[i].key != e.key {
      assert es2[i].key != es2[n].key;
    }
    if d.RenameTo? {
      forall i | 0 <= i < n && ds[i].RenameTo? ensures Target(es[i], ds[i]) != Target(e, d) {
        assert Target(es2[i], ds2[i]) != Target(es2[n], ds2[n]);
      }
    }
  }

  lemma FateDelete(fs: Files, es: seq<Entry>, ds: seq<Decision>, e: Entry, k: Key, prev: Files)
    requires |es| == |ds| && Visits(fs, es + [e]) && FreshTargets(fs, es + [e], ds + [Delete])
    requires Visits(fs, es) && Fate(fs, es, ds, k, prev) && Fate(fs, es, ds, e.key, prev)
    ensures Fate(fs, es + [e], ds + [Delete], k, prev - {e.key})
  {
    SnocFacts(fs, es, ds, e, Delete);
    TouchedSnoc(es, ds, e, Delete, k);
    IsTargetSnoc(es, ds, e, Delete, k);
    var es2, ds2 := es + [e], ds + [Delete];
    forall i | 0 <= i < |es2| && ds2[i].RenameTo? && Target(es2[i], ds2[i]) == k
      ensures k in prev - {e.key} && (prev - {e.key})[k] == fs[es2[i].key]
    {
      assert i < |es| && es2[i] == es[i] && ds2[i] == ds[i];
      assert Target(es2[i], ds2[i]) !in fs;
    }
  }

  lemma FateRename(fs: Files, es: seq<Entry>, ds: seq<Decision>, e: Entry, d: Decision, k: Key, prev: Files)
    requires d.RenameTo?
    requires |es| == |ds| && Visits(fs, es + [e]) && FreshTargets(fs, es + [e], ds + [d])
    requires Visits(fs, es) && Fate(fs, es, ds, k, prev) && Fate(fs, es, ds, e.key, prev)
    ensures e.key in prev
    ensures Fate(fs, es + [e], ds + [d], k, (prev - {e.key})[Target(e, d) := prev[e.key]])
  {
    SnocFacts(fs, es, ds, e, d);
    TouchedSnoc(es, ds, e, d, k);
    IsTargetSnoc(es, ds, e, d, k);
    var es2, ds2 := es + [e], ds + [d];
    var t := Target(e, d);
    var r := (prev - {e.key})[t := prev[e.key]];
    forall i | 0 <= i < |es2| && ds2[i].RenameTo? && Target(es2[i], ds2[i]) == k
      ensures k in r && r[k] == fs[es2[i].key]
    {
      if i < |es| {
        assert es2[i] == es[i] && ds2[i] == ds[i];
        assert Target(es2[i], ds2[i]) != Target(es2[|es|], ds2[|es|]);
        assert Target(es2[i], ds2[i]) !in fs;
      } else {
        assert es2[i] == e && ds2[i] == d;
      }
    }
  }

  lemma FateUntouched(fs: Files, es: seq<Entry>, ds: seq<Decision>, e: Entry, d: Decision, k: Key, prev: Files)
    requires d == Skip || d == Keep
    requires |es| == |ds| && Visits(fs, es + [e]) && FreshTargets(fs, es + [e], ds + [d])
    requires Visits(fs, es) && Fate(fs, es, ds, k, prev)
    ensures Fate(fs, es + [e], ds + [d], k, prev)
  {
    TouchedSnoc(es, ds, e, d, k);
    IsTargetSnoc(es, ds, e, d, k);
    var es2, ds2 := es + [e], ds + [d];
    forall i | 0 <= i < |es2| && ds2[i].RenameTo? && Target(es2[i], ds2[i]) == k
      ensures k in prev && prev[k] == fs[es2[i].key]
    {
      assert i < |es| && es2[i] == es[i] && ds2[i] == ds[i];
    }
  }

  /** What happens to one file `k`, by induction over the walk. */
  lemma {:induction false} KeyFate(fs: Files, es: seq<Entry>, ds: seq<Decision>, k: Key)
    requires |es| == |ds| && Visits(fs, es) && FreshTargets(fs, es, ds)
    ensures Fate(fs, es, ds, k, ApplyAll(fs, OpsOf(es, ds)))
    decreases |es|
  {
    if es != [] {
      var n := |es| - 1;
      var es', ds', e, d := es[..n], ds[..n], es[n], ds[n];
      assert es == es' + [e] && ds == ds' + [d];
      SnocFacts(fs, es', ds', e, d);
      KeyFate(fs, es', ds', k);
      KeyFate(fs, es', ds', e.key);
      KeyFateSnoc(fs, es', ds', e, d, k);
    }
  }

  /** One more visited file: what the last decision does to file `k`. */
  lemma KeyFateSnoc(fs: Files, es: seq<Entry>, ds: seq<Decision>, e: Entry, d: Decision, k: Key)
    requires |es| == |ds| && Visits(fs, es + [e]) && FreshTargets(fs, es + [e], ds + [d]) && Visits(fs, es)
    requires Fate(fs, es, ds, k, ApplyAll(fs, OpsOf(es, ds))) && Fate(fs, es, ds, e.key, ApplyAll(fs, OpsOf(es, ds)))
    ensures Fate(fs, es + [e], ds + [d], k, ApplyAll(fs, OpsOf(es + [e], ds + [d])))
  {
    var prev := ApplyAll(fs, OpsOf(es, ds));
    assert OpsOf(es + [e], ds + [d]) == OpsOf(es, ds) + OpOf(e, d);
    if d == Delete {
      ApplyAllSnoc(fs, OpsOf(es, ds), Remove(e.key));
      FateDelete(fs, es, ds, e, k, prev);
    } else if d.RenameTo? {
      ApplyAllSnoc(fs, OpsOf(es, ds), Rename(e.key, Target(e, d)));
      FateRename(fs, es, ds, e, d, k, prev);
    } else {
      assert OpsOf(es + [e], ds + [d]) == OpsOf(es, ds);
      FateUntouched(fs, es, ds, e, d, k, prev);
    }
  }

  lemma ApplyPlan(fs: Files, es: seq<Entry>, ds: seq<Decision>)
    requires |es| == |ds| && Visits(fs, es) && FreshTargets(fs, es, ds)
    ensures Effect(fs, es, ds, ApplyAll(fs, OpsOf(es, ds)))
  {
    var r := ApplyAll(fs, OpsOf(es, ds));
    forall k | k in fs && !Touched(es, ds, k) ensures k in r && r[k] == fs[k] {
      KeyFate(fs, es, ds, k);
    }
    forall k | Touched(es, ds, k) ensures k !in r {
      KeyFate(fs, es, ds, k);
    }
    forall k | k in r ensures k in fs || IsTarget(es, ds, k) {
      KeyFate(fs, es, ds, k);
    }
    forall i | 0 <= i < |es| && ds[i].RenameTo?
      ensures Target(es[i], ds[i]) in r && r[Target(es[i], ds[i])] == fs[es[i].key]
    {
      KeyFate(fs, es, ds, Target(es[i], ds[i]));
    }
  }

  /** With a complete walk the effect pins every file: what remains is the
      untouched files, with what they held, and the renamed ones, with what
      their source held. */
  lemma ApplyPlanRemains(fs: Files, es: seq<Entry>, ds: seq<Decision>, k: Key)
    requires |es| == |ds| && IsListing(fs, es) && FreshTargets(fs, es, ds)
    requires k in ApplyAll(fs, OpsOf(es, ds))
    ensures exists i :: (0 <= i < |es| && ApplyAll(fs, OpsOf(es, ds))[k] == es[i].info &&
      ((es[i].key == k && (ds[i] == Skip || ds[i] == Keep)) ||
       (ds[i].RenameTo? && Target(es[i], ds[i]) == k)))
  {
    var r := ApplyAll(fs, OpsOf(es, ds));
    KeyFate(fs, es, ds, k);
    if k in fs && !Touched(es, ds, k) {
      var i :| 0 <= i < |es| && es[i].key == k;
      assert r[k] == es[i].info;
    } else {
      var i :| 0 <= i < |es| && ds[i].RenameTo? && Target(es[i], ds[i]) == k;
      assert r[k] == es[i].info;
    }
  }

  /** The same, for every file left at once. */
  lemma ApplyPlanRemainsAll(fs: Files, es: seq<Entry>, ds: seq<Decision>)
    requires |es| == |ds| && IsListing(fs, es) && FreshTargets(fs, es, ds)
    ensures var r := ApplyAll(fs, OpsOf(es, ds));
      forall k :: k in r ==>
        exists i :: (0 <= i < |es| && r[k] == es[i].info &&
          ((es[i].key == k && (ds[i] == Skip || ds[i] == Keep)) || (ds[i].RenameTo? && Target(es[i], ds[i]) == k)))
  {
    forall k | k in ApplyAll(fs, OpsOf(es, ds)) {
      ApplyPlanRemains(fs, es, ds, k);
    }
  }

  // -------------------------------------------------------------------
  // The report buckets of a dry run

  /** `deleted_files`: the names decided `Delete`, in walk order. */
  function Deleted(es: seq<Entry>, ds: seq<Decision>): (r: seq<Str>)
    requires |es| == |ds|
    ensures |r| <= |es|
    decreases |es|
  {
    if es == [] then []
    else
      var n := |es| - 1;
      Deleted(es[..n], ds[..n]) + (if ds[n] == Delete then [es[n].key.name] else [])
  }

  /** `unchanged_files`: the names decided `Keep`, in walk order. */
  function Unchanged(es: seq<Entry>, ds: seq<Decision>): (r: seq<Str>)
    requires |es| == |ds|
    ensures |r| <= |es|
    decreases |es|
  {
    if es == [] then []
    else
      var n := |es| - 1;
      Unchanged(es[..n], ds[..n]) + (if ds[n] == Keep then [es[n].key.name] else [])
  }

  /** The renames, as the pairs (`rename_files[i]`, `renamed_files[i]`). */
  function Renames(es: seq<Entry>, ds: seq<Decision>): (r: seq<(Str, Str)>)
    requires |es| == |ds|
    ensures |r| <= |es|
    decreases |es|
  {
    if es == [] then []
    else
      var n := |es| - 1;
      Renames(es[..n], ds[..n]) + (if ds[n].RenameTo? then [(es[n].key.name, ds[n].to)] else [])
  }

  /** Each bucket holds exactly the names of the files with its decision. */
  lemma BucketMembers(es: seq<Entry>, ds: seq<Decision>)
    requires |es| == |ds|
    ensures forall x :: x in Deleted(es, ds) <==> exists i :: 0 <= i < |es| && ds[i] == Delete && es[i].key.name == x
    ensures forall x :: x in Unchanged(es, ds) <==> exists i :: 0 <= i < |es| && ds[i] == Keep && es[i].key.name == x
    ensures forall x, y :: (x, y) in Renames(es, ds) <==>
      exists i :: 0 <= i < |es| && ds[i] == RenameTo(y) && es[i].key.name == x
  {
    DeletedMembers(es, ds);
    UnchangedMembers(es, ds);
    RenamesMembers(es, ds);
  }

  lemma {:induction false} DeletedMembers(es: seq<Entry>, ds: seq<Decision>)
    requires |es| == |ds|
    ensures forall x :: x in Deleted(es, ds) <==> exists i :: 0 <= i < |es| && ds[i] == Delete && es[i].key.name == x
    decreases |es|
  {
    if es != [] {
      var n := |es| - 1;
      DeletedMembers(es[..n], ds[..n]);
      assert forall i :: 0 <= i < n ==> es[..n][i] == es[i] && ds[..n][i] == ds[i];
    }
  }

  lemma {:induction false} UnchangedMembers(es: seq<Entry>, ds: seq<Decision>)
    requires |es| == |ds|
    ensures forall x :: x in Unchanged(es, ds) <==> exists i :: 0 <= i < |es| && ds[i] == Keep && es[i].key.name == x
    decreases |es|
  {
    if es != [] {
      var n := |es| - 1;
      UnchangedMembers(es[..n], ds[..n]);
      assert forall i :: 0 <= i < n ==> es[..n][i] == es[i] && ds[..n][i] == ds[i];
    }
  }

  lemma {:induction false} RenamesMembers(es: seq<Entry>, ds: seq<Decision>)
    requires |es| == |ds|
    ensures forall x, y :: (x, y) in Renames(es, ds) <==>
      exists i :: 0 <= i < |es| && ds[i] == RenameTo(y) && es[i].key.name == x
    decreases |es|
  {
    if es != [] {
      var n := |es| - 1;
      RenamesMembers(es[..n], ds[..n]);
      assert forall i :: 0 <= i < n ==> es[..n][i] == es[i] && ds[..n][i] == ds[i];
    }
  }

  function Firsts(ps: seq<(Str, Str)>): (r: seq<Str>)
    ensures |r| == |ps| && forall i :: 0 <= i < |ps| ==> r[i] == ps[i].0
  {
    seq(|ps|, i requires 0 <= i < |ps| => ps[i].0)
  }

  function Seconds(ps: seq<(Str, Str)>): (r: seq<Str>)
    ensures |r| == |ps| && forall i :: 0 <= i < |ps| ==> r[i] == ps[i].1
  {
    seq(|ps|, i requires 0 <= i < |ps| => ps[i].1)
  }

  /** One more entry of the walk adds at most one name to one bucket and at
      most one operation, at the end. */
  lemma PassSnoc(es: seq<Entry>, ds: seq<Decision>, i: nat)
    requires |es| == |ds| && i < |es|
    ensures Deleted(es[..i + 1], ds[..i + 1]) ==
      Deleted(es[..i], ds[..i]) + (if ds[i] == Delete then [es[i].key.name] else [])
    ensures Unchanged(es[..i + 1], ds[..i + 1]) ==
      Unchanged(es[..i], ds[..i]) + (if ds[i] == Keep then [es[i].key.name] else [])
    ensures Renames(es[..i + 1], ds[..i + 1]) ==
      Renames(es[..i], ds[..i]) + (if ds[i].RenameTo? then [(es[i].key.name, ds[i].to)] else [])
    ensures OpsOf(es[..i + 1], ds[..i + 1]) == OpsOf(es[..i], ds[..i]) + OpOf(es[i], ds[i])
  {
    assert es[..i + 1][..i] == es[..i] && ds[..i + 1][..i] == ds[..i];
  }

  lemma OpsSnoc(es: seq<Entry>, ds: seq<Decision>, i: nat)
    requires |es| == |ds| && i < |es|
    ensures OpsOf(es[..i + 1], ds[..i + 1]) == OpsOf(es[..i], ds[..i]) + OpOf(es[i], ds[i])
  {
    assert es[..i + 1][..i] == es[..i] && ds[..i + 1][..i] == ds[..i];
  }

  lemma PairsSnoc(ps: seq<(Str, Str)>, p: (Str, Str))
    ensures Firsts(ps + [p]) == Firsts(ps) + [p.0] && Seconds(ps + [p]) == Seconds(ps) + [p.1]
  {
  }

  /** `rename_files` and `renamed_files` are filled together, so they have
      the same length and entry `i` of each belongs to the same file. */
  lemma RenameListsParallel(es: seq<Entry>, ds: seq<Decision>)
    requires |es| == |ds|
    ensures |Firsts(Renames(es, ds))| == |Seconds(Renames(es, ds))|
    ensures forall i :: 0 <= i < |Renames(es, ds)| ==>
      exists j :: 0 <= j < |es| &&
        es[j].key.name == Firsts(Renames(es, ds))[i] && ds[j] == RenameTo(Seconds(Renames(es, ds))[i])
  {
    var ps := Renames(es, ds);
    BucketMembers(es, ds);
    forall i | 0 <= i < |ps|
      ensures exists j :: 0 <= j < |es| && es[j].key.name == Firsts(ps)[i] && ds[j] == RenameTo(Seconds(ps)[i])
    {
      assert (ps[i].0, ps[i].1) in ps;
    }
  }

  // -------------------------------------------------------------------
  // The walk loops, for a cleaner given as a parameter

  /** The decisions of a pass that checks the size first. */
  function SizeFirstPlan(es: seq<Entry>, clean: Str -> Str): (ds: seq<Decision>)
    ensures |ds| == |es| && forall i :: 0 <= i < |es| ==> ds[i] == SizeFirst(es[i], clean(es[i].key.name))
  {
    seq(|es|, i requires 0 <= i < |es| => SizeFirst(es[i], clean(es[i].key.name)))
  }

  /** The decisions of a pass that checks the extension first. */
  function VideoFirstPlan(es: seq<Entry>, clean: Str -> Str): (ds: seq<Decision>)
    ensures |ds| == |es| && forall i :: 0 <= i < |es| ==> ds[i] == VideoFirst(es[i], clean(es[i].key.name))
  {
    seq(|es|, i requires 0 <= i < |es| => VideoFirst(es[i], clean(es[i].key.name)))
  }

  /** The walk of file_clean.py's `file_clean`: the size check, then the
      video check, then the cleaner.  In a dry run the four lists are filled
      and nothing is done; otherwise the files are removed and renamed (the
      lists are then not used). */
  method SizeFirstPass(dryRun: bool, es: seq<Entry>, clean: Str -> Str)
    returns (ops: seq<Op>, noChange: seq<Str>, renameFiles: seq<Str>, renamedFiles: seq<Str>, deletedFiles: seq<Str>)
    ensures var ds := SizeFirstPlan(es, clean);
      if dryRun then
        ops == [] && noChange == Unchanged(es, ds) && renameFiles == Firsts(Renames(es, ds)) &&
        renamedFiles == Seconds(Renames(es, ds)) && deletedFiles == Deleted(es, ds)
      else
        ops == OpsOf(es, ds)
  {
    ghost var ds := SizeFirstPlan(es, clean);
    noChange, renameFiles, renamedFiles, deletedFiles := [], [], [], [];
    ops := [];
    for i := 0 to |es|
      invariant dryRun ==> (ops == [] && noChange == Unchanged(es[..i], ds[..i]) &&
        renameFiles == Firsts(Renames(es[..i], ds[..i])) && renamedFiles == Seconds(Renames(es[..i], ds[..i])) &&
        deletedFiles == Deleted(es[..i], ds[..i]))
      invariant !dryRun ==>
        ops == OpsOf(es[..i], ds[..i])
    {
      var op, del, same, from, to := SizeFirstVisit(dryRun, es[i], clean);
      PassSnoc(es, ds, i);
      RenamesSnoc(es, ds, i);
      ops, deletedFiles, noChange := ops + op, deletedFiles + del, noChange + same;
      renameFiles, renamedFiles := renameFiles + from, renamedFiles + to;
    }
    assert es[..|es|] == es && ds[..|es|] == ds;
  }

  /** One file of the walk that checks the size first: the operation of an
      apply pass, or the entries a dry run adds to the four lists. */
  method SizeFirstVisit(dryRun: bool, e: Entry, clean: Str -> Str)
    returns (op: seq<Op>, del: seq<Str>, same: seq<Str>, from: seq<Str>, to: seq<Str>)
    ensures var d := SizeFirst(e, clean(e.key.name));
      op == (if dryRun then [] else OpOf(e, d)) &&
      del == (if dryRun && d == Delete then [e.key.name] else []) &&
      same == (if dryRun && d == Keep then [e.key.name] else []) &&
      from == (if dryRun && d.RenameTo? then [e.key.name] else []) &&
      to == (if dryRun && d.RenameTo? then [d.to] else [])
  {
    op, del, same, from, to := [], [], [], [], [];
    if e.info.isFile && IsValidFileSize(e.info.size) {
      if dryRun {
        del := [e.key.name];
      } else {
        op := [Remove(e.key)];
      }
    } else if IsVideoFile(e.key.name) {
      var cleaned := clean(e.key.name);
      if cleaned != e.key.name {
        if dryRun {
          from, to := [e.key.name], [cleaned];
        } else {
          op := [Rename(e.key, Key(e.key.dir, cleaned))];
        }
      } else if dryRun {
        same := [e.key.name];
      }
    }
  }

  lemma RenamesSnoc(es: seq<Entry>, ds: seq<Decision>, i: nat)
    requires |es| == |ds| && i < |es|
    ensures Firsts(Renames(es[..i + 1], ds[..i + 1])) ==
      Firsts(Renames(es[..i], ds[..i])) + (if ds[i].RenameTo? then [es[i].key.name] else [])
    ensures Seconds(Renames(es[..i + 1], ds[..i + 1])) ==
      Seconds(Renames(es[..i], ds[..i])) + (if ds[i].RenameTo? then [ds[i].to] else [])
  {
    PassSnoc(es, ds, i);
    if ds[i].RenameTo? {
      PairsSnoc(Renames(es[..i], ds[..i]), (es[i].key.name, ds[i].to));
    } else {
      assert Renames(es[..i + 1], ds[..i + 1]) == Renames(es[..i], ds[..i]);
    }
  }

  /** The walk of the Movie_* scripts' `main`: the video check, then the size
      check, then the cleaner.  A dry run only reports, so it performs no
      operation. */
  method VideoFirstPass(dryRun: bool, es: seq<Entry>, clean: Str -> Str) returns (ops: seq<Op>)
    ensures ops == if dryRun then [] else OpsOf(es, VideoFirstPlan(es, clean))
  {
    ghost var ds := VideoFirstPlan(es, clean);
    ops := [];
    for i := 0 to |es|
      invariant ops == if dryRun then [] else OpsOf(es[..i], ds[..i])
    {
      var op := VideoFirstVisit(dryRun, es[i], clean);
      OpsSnoc(es, ds, i);
      ops := ops + op;
    }
    assert es[..|es|] == es && ds[..|es|] == ds;
  }

  /** The body of `main`'s loop for one file: a file that is not a video is
      passed over; a small video is removed; another video is renamed when
      the cleaner changes its name.  A dry run does neither. */
  method VideoFirstVisit(dryRun: bool, e: Entry, clean: Str -> Str) returns (op: seq<Op>)
    ensures op == if dryRun then [] else OpOf(e, VideoFirst(e, clean(e.key.name)))
  {
    op := [];
    if !IsVideoFile(e.key.name) {
      return;
    }
    if e.info.isFile && IsValidFileSize(e.info.size) {
      if !dryRun {
        op := [Remove(e.key)];
      }
      return;
    }
    var cleaned := clean(e.key.name);
    if cleaned != e.key.name && !dryRun {
      op := [Rename(e.key, Key(e.key.dir, cleaned))];
    }
  }

  /** After an apply pass that checks the extension first, over a complete
      walk and with no rename landing on an existing name, no small video is
      left. */
  lemma NoSmallVideoLeft(fs: Files, es: seq<Entry>, clean: Str -> Str)
    requires IsListing(fs, es) && FreshTargets(fs, es, VideoFirstPlan(es, clean))
    ensures var r := ApplyAll(fs, OpsOf(es, VideoFirstPlan(es, clean)));
      forall k :: k in r && IsVideoFile(k.name) ==> !(r[k].isFile && IsValidFileSize(r[k].size))
  {
    var ds := VideoFirstPlan(es, clean);
    var r := ApplyAll(fs, OpsOf(es, ds));
    forall k | k in r && IsVideoFile(k.name) ensures !(r[k].isFile && IsValidFileSize(r[k].size)) {
      ApplyPlanRemains(fs, es, ds, k);
      var i :| 0 <= i < |es| && r[k] == es[i].info &&
        ((es[i].key == k && (ds[i] == Skip || ds[i] == Keep)) || (ds[i].RenameTo? && Target(es[i], ds[i]) == k));
      assert !IsSmall(es[i]);
    }
  }

  /** The same pass leaves every file that is not a video exactly where it
      was, with its contents. */
  lemma NonVideosUntouched(fs: Files, es: seq<Entry>, clean: Str -> Str)
    requires IsListing(fs, es) && FreshTargets(fs, es, VideoFirstPlan(es, clean))
    ensures var r := ApplyAll(fs, OpsOf(es, VideoFirstPlan(es, clean)));
      forall k :: k in fs && !IsVideoFile(k.name) ==> k in r && r[k] == fs[k]
  {
    var ds := VideoFirstPlan(es, clean);
    var r := ApplyAll(fs, OpsOf(es, ds));
    forall k | k in fs && !IsVideoFile(k.name) ensures k in r && r[k] == fs[k] {
      KeyFate(fs, es, ds, k);
      var i :| 0 <= i < |es| && es[i].key == k;
      assert ds[i] == Skip;
      assert !Touched(es, ds, k);
    }
  }
}
