/** file_clean.py: the filename cleaner with CD capture and four tag
    policies, and the batch pass that deletes small files, renames videos
    and, in a dry run, writes the report. */
module FileClean {
  import opened Wrappers
  import opened Text
  import opened Rewrites
  import opened Fs
  import opened Walk
  import opened Policy
  import opened Report

  // -------------------------------------------------------------------
  // os.path.splitext

  /** Some character of `s[a..b]` is not a dot. */
  predicate HasNonDot(s: Str, a: nat, b: nat)
    requires a <= b <= |s|
  {
    exists i :: a <= i < b && s[i] != '.'
  }

  /** Where `os.path.splitext` starts the extension: at the last dot of the
      last path component, unless only dots come before it in that
      component; `|s|` when there is no extension. */
  function ExtStart(s: Str): (k: nat)
    ensures k <= |s|
    ensures k < |s| ==> s[k] == '.' && forall i :: k < i < |s| ==> s[i] != '.' && s[i] != '/'
    ensures k < |s| ==> HasNonDot(s, 0, k)
  {
    match LastIndexOf(s, '.')
    case None => |s|
    case Some(d) =>
      var start := match LastIndexOf(s, '/') case None => 0 case Some(j) => j + 1;
      if start <= d && HasNonDot(s, start, d) then d else |s|
  }

  /** `os.path.splitext(s)`: the two parts always spell `s`. */
  function SplitExt(s: Str): (r: (Str, Str))
    ensures r.0 + r.1 == s
    ensures r.1 == [] || (r.1[0] == '.' && forall i :: 0 < i < |r.1| ==> r.1[i] != '.' && r.1[i] != '/')
  {
    var k := ExtStart(s);
    assert s[..k] + s[k..] == s;
    (s[..k], s[k..])
  }

  /** Leading dots do not start an extension: `.mp4` and `..mp4` have none. */
  lemma LeadingDotsNoExt(s: Str, d: nat)
    requires d < |s| && forall i :: 0 <= i <= d ==> s[i] == '.'
    requires forall i :: d < i < |s| ==> s[i] != '.' && s[i] != '/'
    ensures ExtStart(s) == |s| && SplitExt(s) == (s, [])
  {
    var r := LastIndexOf(s, '.');
    assert r.Some? by { assert s[d] == '.'; }
    assert d <= r.value by { assert s[d] == '.'; }
    assert r.value <= d by { assert s[r.value] == '.'; }
    assert LastIndexOf(s, '/').None? by { assert s[0] != '/'; }
    assert !HasNonDot(s, 0, d);
    assert ExtStart(s) == |s|;
    assert s[..|s|] == s;
  }

  /** `t` is a file name (no `/`) whose last dot is at `k`, with a
      character other than a dot somewhere before it. */
  predicate ExtAt(t: Str, k: nat) {
    k < |t| && t[k] == '.' && (forall i :: k < i < |t| ==> t[i] != '.') &&
    (forall i :: 0 <= i < |t| ==> t[i] != '/') && (exists i :: 0 <= i < k && t[i] != '.')
  }

  /** Such a name splits at that dot. */
  lemma SplitExtAt(s: Str, k: nat)
    requires ExtAt(s, k)
    ensures SplitExt(s) == (s[..k], s[k..])
  {
    assert LastIndexOf(s, '.') == Some(k);
    assert LastIndexOf(s, '/').None?;
    assert HasNonDot(s, 0, k);
  }

  /** `f"{base}-{cd_number}{ext}"` when a CD number was captured. */
  function AppendCd(s: Str, cd: Str): Str {
    if cd == [] then s else SplitExt(s).0 + "-" + cd + SplitExt(s).1
  }

  /** Appending a CD marker that holds no dot or slash puts it right before
      the extension, which stays the extension of the result. */
  lemma AppendCdBeforeExt(s: Str, k: nat, cd: Str)
    requires ExtAt(s, k)
    requires cd != [] && forall i :: 0 <= i < |cd| ==> cd[i] != '.' && cd[i] != '/'
    ensures AppendCd(s, cd) == s[..k] + "-" + cd + s[k..]
    ensures ExtAt(AppendCd(s, cd), k + 1 + |cd|)
  {
    SplitExtAt(s, k);
    var r := s[..k] + "-" + cd + s[k..];
    var m := k + 1 + |cd|;
    assert r[m..] == s[k..];
    assert r[k] == '-';
    var j :| 0 <= j < k && s[j] != '.';
    assert r[j] == s[j];
    forall i | 0 <= i < |r| ensures r[i] != '/' {
      if i < k { assert r[i] == s[i]; }
      else if i > k && i < m { assert r[i] == cd[i - k - 1]; }
      else if i >= m { assert r[i] == s[i - m + k]; }
    }
  }

  // -------------------------------------------------------------------
  // clean_filename

  /** The common steps before the CD marker, as lines 107-129 chain them. */
  function Normalise(s: Str): Str {
    DeleteAfterNumber(AddDashesOrBare(StripLeadingBracket(StripLeadingDigits(s))))
  }

  /** `clean_filename(filename, c, no, u, uc)`. */
  function CleanFilename(name: Str, f: Flags): Str {
    var s := StripLeadingBracket(StripLeadingDigits(name));
    var cd := CdNumber(s);
    var t := DeleteAfterNumber(AddDashesOrBare(s));
    ApplyPolicy(AppendCd(AppendCd(t, cd), cd), f)
  }

  /** The CD marker is captured once but appended twice: a captured `cd`
      appears twice before the extension. */
  lemma CdAppendedTwice(name: Str, f: Flags, k: nat)
    requires CdNumber(StripLeadingBracket(StripLeadingDigits(name))) != []
    requires ExtAt(Normalise(name), k)
    ensures var cd := CdNumber(StripLeadingBracket(StripLeadingDigits(name)));
      var t := Normalise(name);
      CleanFilename(name, f) == ApplyPolicy(t[..k] + "-" + cd + "-" + cd + t[k..], f)
  {
    var s := StripLeadingBracket(StripLeadingDigits(name));
    var cd := CdNumber(s);
    var t := Normalise(name);
    CdShape(s);
    AppendCdBeforeExt(t, k, cd);
    var t1 := AppendCd(t, cd);
    AppendCdBeforeExt(t1, k + 1 + |cd|, cd);
    assert t1[..k + 1 + |cd|] == t[..k] + "-" + cd;
    assert t1[k + 1 + |cd|..] == t[k..];
  }

  /** A captured CD marker is `cd`, `CD`, `cD` or `Cd` and digits: it holds
      no dot and no slash. */
  lemma CdShape(s: Str)
    requires CdNumber(s) != []
    ensures forall i :: 0 <= i < |CdNumber(s)| ==> CdNumber(s)[i] != '.' && CdNumber(s)[i] != '/'
  {
    var r := CdNumber(s);
    CdNumberMatch(s);
    var i :| 0 <= i && i + |r| <= |s| && CdAt(s, i) && r == s[i..i + |r|] && |r| >= 3 && AllDigits(r[2..]);
    assert r[0] == s[i] && r[1] == s[i + 1];
    MarkerShape(r);
  }

  /** `c` and `d` in either case, then digits: no dot and no slash. */
  lemma MarkerShape(r: Str)
    requires |r| >= 2 && ToLower(r[0]) == 'c' && ToLower(r[1]) == 'd' && AllDigits(r[2..])
    ensures forall j :: 0 <= j < |r| ==> r[j] != '.' && r[j] != '/'
  {
    forall j | 2 <= j < |r| ensures IsDigit(r[j]) {
      assert r[2..][j - 2] == r[j];
    }
  }

  // -------------------------------------------------------------------
  // Examples from the comments of clean_filename

  const NoFlags := Flags(false, false, false, false)
  const NoOnly := Flags(false, true, false, false)

  /** `SSNI-888-CD2.mp4`: the `CD2` marker is captured, deleted with the rest
      of the text after the number, and put back twice. */
  lemma CdExample(name: Str)
    requires name == "SSNI-888-CD2.mp4"
    ensures CleanFilename(name, NoFlags) == "SSNI-888-CD2-CD2.mp4"
    ensures CleanFilename(name, NoOnly) == "SSNI-888-CD2-CD2.mp4"
  {
    CdExampleNormalise(name);
    CdExampleFront();
    CdExampleCd();
    CdExampleExt();
    CdAppendedTwice(name, NoFlags, 8);
    CdExampleSpell();
  }

  lemma CdExampleNormalise(name: Str)
    requires name == "SSNI-888-CD2.mp4"
    ensures Normalise(name) == "SSNI-888.mp4"
  {
    CdExampleFront();
    CdExampleDashes();
    CdExampleFacts();
    ExtDotUnique(name, 12);
    DeleteAfterNumberAt(name, 5);
  }

  lemma CdExampleFront()
    ensures StripLeadingBracket(StripLeadingDigits("SSNI-888-CD2.mp4")) == "SSNI-888-CD2.mp4"
  {
    assert StripLeadingDigits("SSNI-888-CD2.mp4") == "SSNI-888-CD2.mp4";
  }

  lemma CdExampleCd()
    ensures CdNumber("SSNI-888-CD2.mp4") == "CD2"
  {
    var name := "SSNI-888-CD2.mp4";
    assert FindCd(name, 0) == Some(9) by {
      assert forall k :: 0 <= k < 9 ==> !CdAt(name, k);
    }
    assert RunEnd(name, 11, IsDigit) == 12;
  }

  lemma CdExampleDashes()
    ensures AddDashesOrBare("SSNI-888-CD2.mp4") == "SSNI-888-CD2.mp4"
  {
    var name := "SSNI-888-CD2.mp4";
    RunEndUnique(name, 0, 4, IsLetter);
    LettersDashFrontUnchanged(name);
  }

  lemma CdExampleFacts()
    ensures var s := "SSNI-888-CD2.mp4";
      s[12] == '.' && (forall i :: 12 < i < |s| ==> s[i] != '.') && IsDigit(s[5]) &&
      (forall j :: 0 <= j < 5 ==> !IsDigit(s[j])) && '\n' !in s && RunEnd(s, 5, IsDigit) == 8 &&
      s[..8] + s[12..] == "SSNI-888.mp4"
  {
  }

  lemma CdExampleExt()
    ensures ExtAt("SSNI-888.mp4", 8)
  {
    assert "SSNI-888.mp4"[0] != '.';
  }

  lemma CdExampleSpell()
    ensures var t := "SSNI-888.mp4"; t[..8] + "-" + "CD2" + "-" + "CD2" + t[8..] == "SSNI-888-CD2-CD2.mp4"
  {
  }

  const COnly := Flags(true, false, false, false)

  /** `232GANA-334-C.mp4`: the number prefix is dropped, the `-C` tag is
      deleted with the rest of the text after the number, and policy `c`
      puts it back; with no policy it stays off. */
  lemma PrefixExample(name: Str)
    requires name == "232GANA-334-C.mp4"
    ensures CleanFilename(name, COnly) == "GANA-334-C.mp4"
    ensures CleanFilename(name, NoFlags) == "GANA-334.mp4"
    ensures CleanFilename(name, NoOnly) == "GANA-334.mp4"
  {
    PrefixExampleFront();
    PrefixExampleCd();
    PrefixExampleBody("GANA-334-C.mp4");
    PrefixExampleTag("GANA-334.mp4");
  }

  lemma PrefixExampleFront()
    ensures StripLeadingBracket(StripLeadingDigits("232GANA-334-C.mp4")) == "GANA-334-C.mp4"
  {
    var s := "232GANA-334-C.mp4";
    RunEndUnique(s, 0, 3, IsDigit);
    assert s[3..] == "GANA-334-C.mp4";
  }

  lemma PrefixExampleCd()
    ensures CdNumber("GANA-334-C.mp4") == []
  {
    var s := "GANA-334-C.mp4";
    assert forall k :: 0 <= k < |s| ==> !CdAt(s, k);
  }

  lemma PrefixExampleBody(s: Str)
    requires s == "GANA-334-C.mp4"
    ensures DeleteAfterNumber(AddDashesOrBare(s)) == "GANA-334.mp4"
  {
    PrefixExampleDashes();
    PrefixExampleFacts();
    ExtDotUnique(s, 10);
    DeleteAfterNumberAt(s, 5);
  }

  lemma PrefixExampleDashes()
    ensures AddDashesOrBare("GANA-334-C.mp4") == "GANA-334-C.mp4"
  {
    var s := "GANA-334-C.mp4";
    RunEndUnique(s, 0, 4, IsLetter);
    LettersDashFrontUnchanged(s);
  }

  lemma PrefixExampleFacts()
    ensures var s := "GANA-334-C.mp4";
      s[10] == '.' && (forall i :: 10 < i < |s| ==> s[i] != '.') && IsDigit(s[5]) &&
      (forall j :: 0 <= j < 5 ==> !IsDigit(s[j])) && '\n' !in s && RunEnd(s, 5, IsDigit) == 8 &&
      s[..8] + s[10..] == "GANA-334.mp4"
  {
  }

  lemma PrefixExampleTag(t: Str)
    requires t == "GANA-334.mp4"
    ensures AddCTag(t) == "GANA-334-C.mp4"
  {
    ExtDotUnique(t, 8);
    HasCTagAtExtension(t);
    AddCTagEnsuresTag(t);
    assert t[..8] + "-C" + t[8..] == "GANA-334-C.mp4";
  }

  /** `ABC1.mp4`: a single digit before the dot sends the name down the bare
      dash branch, whose global substitution also splits the extension; the
      cleaned name `ABC-1.mp-4` is no longer a video file name. */
  lemma BareDigitExample(name: Str)
    requires name == "ABC1.mp4"
    ensures CleanFilename(name, NoOnly) == "ABC-1.mp-4"
    ensures CleanFilename(name, NoFlags) == "ABC-1.mp-4"
    ensures IsVideoFile(name) && !IsVideoFile("ABC-1.mp-4")
  {
    BareDigitExampleFront();
    BareDigitExampleCd();
    BareDigitExampleBody(name);
    BareDigitExampleVideo();
  }

  lemma BareDigitExampleFront()
    ensures StripLeadingBracket(StripLeadingDigits("ABC1.mp4")) == "ABC1.mp4"
  {
    assert StripLeadingDigits("ABC1.mp4") == "ABC1.mp4";
  }

  lemma BareDigitExampleCd()
    ensures CdNumber("ABC1.mp4") == []
  {
    var s := "ABC1.mp4";
    assert forall k :: 0 <= k < |s| ==> !CdAt(s, k);
  }

  lemma BareDigitExampleBody(s: Str)
    requires s == "ABC1.mp4"
    ensures DeleteAfterNumber(AddDashesOrBare(s)) == "ABC-1.mp-4"
  {
    BareBranchExample(s);
    BareDigitExampleKept("ABC-1.mp-4");
  }

  lemma BareDigitExampleKept(t: Str)
    requires t == "ABC-1.mp-4"
    ensures DeleteAfterNumber(t) == t
  {
    ExtDotUnique(t, 5);
    assert forall j :: 0 <= j < 4 ==> !IsDigit(t[j]);
    DeleteAfterNumberAt(t, 4);
    assert RunEnd(t, 4, IsDigit) == 5;
    assert t[..5] + t[5..] == t;
  }

  lemma BareDigitExampleVideo()
    ensures IsVideoFile("ABC1.mp4") && !IsVideoFile("ABC-1.mp-4")
  {
    var a := Lower("ABC1.mp4");
    assert a[4..] == ".mp4";
    assert EndsWith(a, VideoExtensions[0]);
    var b := Lower("ABC-1.mp-4");
    assert b[8] == '-' && b[9] == '4';
    forall i | 0 <= i < |VideoExtensions| ensures !EndsWith(b, VideoExtensions[i]) {
    }
  }

  // -------------------------------------------------------------------
  // The dry-run report

  /** The line of 99 `=` that closes a section. */
  const Separator: Str := "==================================================================================================="

  /** `s.ljust(w)`: `s` padded with spaces to width `w`. */
  function LJust(s: Str, w: nat): (r: Str)
    ensures |r| == if |s| < w then w else |s|
    ensures r[..|s|] == s && forall i :: |s| <= i < |r| ==> r[i] == ' '
  {
    if |s| < w then s + seq(w - |s|, _ => ' ') else s
  }

  /** `f"'{before.ljust(width)}'\t->\t'{after}'"`. */
  function RenameLine(before: Str, after: Str, width: nat): Str {
    "'" + LJust(before, width) + "'\t->\t'" + after + "'"
  }

  function RenameLines(olds: seq<Str>, news: seq<Str>, width: nat): (r: seq<Str>)
    requires |olds| == |news|
    ensures |r| == |olds| && forall i :: 0 <= i < |olds| ==> r[i] == RenameLine(olds[i], news[i], width)
  {
    seq(|olds|, i requires 0 <= i < |olds| => RenameLine(olds[i], news[i], width))
  }

  /** The rename section of the log: one line per rename, the old names
      padded to the longest of them. */
  function RenameSection(olds: seq<Str>, news: seq<Str>): (r: seq<Str>)
    requires |olds| == |news|
    ensures |r| == |olds| && forall i :: 0 <= i < |olds| ==> r[i] == RenameLine(olds[i], news[i], MaxLen(olds))
  {
    RenameLines(olds, news, MaxLen(olds))
  }

  /** The lines written to the log file, once the rename lines are
      formatted: the three sections in the order NO CHANGE, RENAME, DELETE,
      each under its header and with a separator between them, holding
      exactly the unchanged names, the rename lines and the deleted names. */
  function Log(noChange: seq<Str>, renames: seq<Str>, deleted: seq<Str>): (log: seq<Str>)
    ensures var u, n := |noChange|, |renames|;
      |log| == u + n + |deleted| + 5 &&
      log[0] == NoChangeHeader && log[1..u + 1] == noChange &&
      log[u + 1] == Separator && log[u + 2] == RenameHeader &&
      log[u + 3..u + n + 3] == renames &&
      log[u + n + 3] == Separator && log[u + n + 4] == DeleteHeader &&
      log[u + n + 5..] == deleted
  {
    var l := [NoChangeHeader] + noChange + [Separator, RenameHeader] + renames + [Separator, DeleteHeader] + deleted;
    Layout(l, NoChangeHeader, noChange, Separator, RenameHeader, renames, Separator, DeleteHeader, deleted);
    l
  }

  /** Three lists, with a header before the first and two lines between
      each two. */
  lemma Layout<T>(l: seq<T>, h: T, xs: seq<T>, a: T, b: T, ys: seq<T>, c: T, d: T, zs: seq<T>)
    requires l == [h] + xs + [a, b] + ys + [c, d] + zs
    ensures var u, n := |xs|, |ys|;
      |l| == u + n + |zs| + 5 &&
      l[0] == h && l[1..u + 1] == xs && l[u + 1] == a && l[u + 2] == b &&
      l[u + 3..u + n + 3] == ys &&
      l[u + n + 3] == c && l[u + n + 4] == d && l[u + n + 5..] == zs
  {
    var rest := ys + [c, d] + zs;
    assert l == [h] + xs + [a, b] + rest;
    Headed(h, xs, a, b, rest);
    Closed(ys, c, d, zs);
    assert l[|xs| + 3..] == rest;
    assert l[|xs| + 3..|xs| + |ys| + 3] == rest[..|ys|];
    assert l[|xs| + |ys| + 3] == rest[|ys|] && l[|xs| + |ys| + 4] == rest[|ys| + 1];
    assert l[|xs| + |ys| + 5..] == rest[|ys| + 2..];
  }

  /** A header, a list and two more lines, then the rest. */
  lemma Headed<T>(h: T, xs: seq<T>, a: T, b: T, rest: seq<T>)
    ensures var l := [h] + xs + [a, b] + rest;
      |l| == |xs| + 3 + |rest| && l[0] == h && l[1..|xs| + 1] == xs &&
      l[|xs| + 1] == a && l[|xs| + 2] == b && l[|xs| + 3..] == rest
  {
  }

  /** A list, two more lines, then the rest. */
  lemma Closed<T>(xs: seq<T>, a: T, b: T, rest: seq<T>)
    ensures var l := xs + [a, b] + rest;
      |l| == |xs| + 2 + |rest| && l[..|xs|] == xs &&
      l[|xs|] == a && l[|xs| + 1] == b && l[|xs| + 2..] == rest
  {
  }

  /** Every rename line pads the old name to the longest old name, so the
      arrows of all lines start in the same column. */
  lemma RenameLinesAligned(olds: seq<Str>, news: seq<Str>, i: nat)
    requires |olds| == |news| && i < |olds|
    ensures var w := MaxLen(olds);
      var line := RenameLine(olds[i], news[i], w);
      line[..w + 2] == "'" + LJust(olds[i], w) + "'" && |LJust(olds[i], w)| == w &&
      line[w + 2..w + 6] == "\t->\t" && line[w + 6..] == "'" + news[i] + "'"
  {
    var w := MaxLen(olds);
    var p := LJust(olds[i], w);
    var line := RenameLine(olds[i], news[i], w);
    assert |p| == w;
    assert line == ("'" + p + "'") + "\t->\t" + ("'" + news[i] + "'");
  }

  /** Writing the log: the three header-and-list sections, the rename list
      by index as `for i in range(len(rename_files))` does. */
  method WriteLog(noChange: seq<Str>, olds: seq<Str>, news: seq<Str>, deleted: seq<Str>)
    returns (lines: seq<Str>)
    requires |olds| == |news|
    ensures lines == Log(noChange, RenameSection(olds, news), deleted)
  {
    var width := if olds != [] then MaxLen(olds) else 0;
    lines := WriteNames([NoChangeHeader], noChange);
    lines := lines + [Separator, RenameHeader];
    lines := WriteRenames(lines, olds, news, width);
    lines := lines + [Separator, DeleteHeader];
    lines := WriteNames(lines, deleted);
  }

  /** One aligned line per rename, in list order. */
  method WriteRenames(before: seq<Str>, olds: seq<Str>, news: seq<Str>, width: nat) returns (lines: seq<Str>)
    requires |olds| == |news|
    ensures lines == before + RenameLines(olds, news, width)
  {
    lines := before;
    for i := 0 to |olds|
      invariant lines == before + RenameLines(olds[..i], news[..i], width)
    {
      lines := lines + [RenameLine(olds[i], news[i], width)];
      assert RenameLines(olds[..i + 1], news[..i + 1], width) ==
             RenameLines(olds[..i], news[..i], width) + [RenameLine(olds[i], news[i], width)];
    }
    assert olds[..|olds|] == olds && news[..|news|] == news;
  }

  // -------------------------------------------------------------------
  // file_clean

  /** The decision `file_clean` takes for each file of the walk. */
  function Plan(es: seq<Entry>, f: Flags): (ds: seq<Decision>)
    ensures |ds| == |es| && forall i :: 0 <= i < |es| ==> ds[i] == SizeFirst(es[i], CleanFilename(es[i].key.name, f))
  {
    SizeFirstPlan(es, name => CleanFilename(name, f))
  }

  /** `file_clean(dry_run, folder_path, c, no, u, uc)` over the walk `es`.
      A dry run fills the four lists and writes the log and performs
      nothing; otherwise the pass removes and renames and logs nothing. */
  method FileCleanPass(dryRun: bool, es: seq<Entry>, f: Flags) returns (ops: seq<Op>, log: seq<Str>)
    ensures var ds := Plan(es, f);
      if dryRun then
        ops == [] &&
        log == Log(Unchanged(es, ds), RenameSection(Firsts(Renames(es, ds)), Seconds(Renames(es, ds))), Deleted(es, ds))
      else
        ops == OpsOf(es, ds) && log == []
  {
    var noChange, renameFiles, renamedFiles, deletedFiles;
    ops, noChange, renameFiles, renamedFiles, deletedFiles := SizeFirstPass(dryRun, es, name => CleanFilename(name, f));
    if dryRun {
      log := WriteLog(noChange, renameFiles, renamedFiles, deletedFiles);
    } else {
      log := [];
    }
  }

  /** After the apply pass, when no rename lands on an existing name, no
      regular file below 500 MiB is left, whatever its extension, and every
      file that remains is one the pass kept, skipped or renamed. */
  lemma ApplyLeavesNoSmallFile(fs: Files, es: seq<Entry>, f: Flags)
    requires IsListing(fs, es) && FreshTargets(fs, es, Plan(es, f))
    ensures var r := ApplyAll(fs, OpsOf(es, Plan(es, f)));
      forall k :: k in r ==> !(r[k].isFile && IsValidFileSize(r[k].size))
    ensures var ds, r := Plan(es, f), ApplyAll(fs, OpsOf(es, Plan(es, f)));
      forall k :: k in r ==>
        exists i :: (0 <= i < |es| && r[k] == es[i].info &&
          ((es[i].key == k && (ds[i] == Skip || ds[i] == Keep)) || (ds[i].RenameTo? && Target(es[i], ds[i]) == k)))
  {
    var ds := Plan(es, f);
    ApplyPlanRemainsAll(fs, es, ds);
    SmallDeletedLeavesNone(fs, es, ds);
  }

  /** A plan that deletes every small entry leaves no small file. */
  lemma SmallDeletedLeavesNone(fs: Files, es: seq<Entry>, ds: seq<Decision>)
    requires |ds| == |es| && IsListing(fs, es) && FreshTargets(fs, es, ds)
    requires forall i :: 0 <= i < |es| ==> (ds[i] == Delete <==> IsSmall(es[i]))
    ensures var r := ApplyAll(fs, OpsOf(es, ds));
      forall k :: k in r ==> !(r[k].isFile && IsValidFileSize(r[k].size))
  {
    ApplyPlanRemainsAll(fs, es, ds);
  }
}
