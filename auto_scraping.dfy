/** Movie_AutoScraping.py: the cleaner whose junk deletion keeps only the
    number, the walk that checks the extension first, and the run that
    cleans, counts down, applies, updates the MDC configuration and starts
    MDC. */
module AutoScraping {
  import opened Wrappers
  import opened Text
  import opened Rewrites
  import opened Policy
  import opened Fs
  import opened Walk
  import opened Control
  import opened Scrape

  // -------------------------------------------------------------------
  // clean_filename

  /** Lines 16-30: the digit and bracket strips, the dashes, and the line-30
      deletion of the tag after the number. */
  function Normalise(s: Str): Str {
    DeleteTagAfterNumber(AddDashesOrBare(StripLeadingBracket(StripLeadingDigits(s))))
  }

  /** `clean_filename(filename, c, no, u, uc)`: the policy block after the
      common steps is the one of file_clean.py. */
  function CleanFilename(name: Str, f: Flags): Str {
    ApplyPolicy(Normalise(name), f)
  }

  /** A name shaped `letters-digits-tag.ext` (letters up to `a`, digits up
      to `q`, tag free of `-` and `.` up to the last dot `k`) loses its tag
      on line 30. */
  lemma NormaliseDropsTag(s: Str, a: nat, q: nat, k: nat)
    requires a == RunEnd(s, 0, IsLetter) && 0 < a && a + 1 < q && q + 1 < k && k + 1 < |s|
    requires s[a] == '-' && q == RunEnd(s, a + 1, IsDigit) && s[q] == '-' && s[k] == '.'
    requires NoDashOrDot(s[q + 1..k]) && forall i :: k < i < |s| ==> s[i] != '.'
    ensures Normalise(s) == s[..q] + s[k..]
  {
    NormaliseLettersDash(s, a);
    NoDigitBefore(s, a);
    TagAfterNumberDeleted(s, a, q, k);
  }

  /** Behind letters and a dash only line 30 changes anything. */
  lemma NormaliseLettersDash(s: Str, a: nat)
    requires a == RunEnd(s, 0, IsLetter) && 0 < a < |s| && s[a] == '-'
    ensures Normalise(s) == DeleteTagAfterNumber(s)
  {
    LettersDashFrontUnchanged(s);
  }

  lemma TagAfterNumberDeleted(s: Str, a: nat, q: nat, k: nat)
    requires a + 1 < q && q + 1 < k && k + 1 < |s|
    requires q == RunEnd(s, a + 1, IsDigit) && s[q] == '-' && s[k] == '.'
    requires NoDashOrDot(s[q + 1..k]) && forall i :: k < i < |s| ==> s[i] != '.'
    requires forall j :: 0 <= j < a + 1 ==> !IsDigit(s[j])
    ensures DeleteTagAfterNumber(s) == s[..q] + s[k..]
  {
    ExtDotUnique(s, k);
    DeleteDashTag(s, a + 1, q);
  }

  /** Letters, then one more character that is not a digit. */
  lemma NoDigitBefore(s: Str, a: nat)
    requires a == RunEnd(s, 0, IsLetter) && a < |s| && s[a] == '-'
    ensures forall j :: 0 <= j < a + 1 ==> !IsDigit(s[j])
  {
    forall j | 0 <= j < a + 1 ensures !IsDigit(s[j]) {
      if j < a { assert IsLetter(s[j]); }
    }
  }

  /** Under `c`, `SSNI-334-C.mp4` is a fixed point: line 30 strips `-C` and
      the policy puts it back. */
  lemma CTagFixedPoint(name: Str)
    requires name == "SSNI-334-C.mp4"
    ensures CleanFilename(name, Flags(true, false, false, false)) == name
  {
    TagExampleDropped(name, 10);
    CTagExampleRestored("SSNI-334.mp4");
  }

  /** Under `u`, `SSNI-334-hack.mp4` is a fixed point. */
  lemma HackFixedPoint(name: Str)
    requires name == "SSNI-334-hack.mp4"
    ensures CleanFilename(name, Flags(false, false, true, false)) == name
  {
    TagExampleDropped(name, 13);
    HackExampleRestored("SSNI-334.mp4");
  }

  /** `SSNI-334` and a dash-free tag before the extension `.mp4` at `k`:
      line 30 leaves `SSNI-334.mp4`. */
  lemma TagExampleDropped(name: Str, k: nat)
    requires (name == "SSNI-334-C.mp4" && k == 10) || (name == "SSNI-334-hack.mp4" && k == 13)
    ensures Normalise(name) == "SSNI-334.mp4"
  {
    SsniExampleFacts(name);
    TagExampleFacts(name, k);
    NormaliseDropsTag(name, 4, 8, k);
  }

  lemma TagExampleFacts(name: Str, k: nat)
    requires (name == "SSNI-334-C.mp4" && k == 10) || (name == "SSNI-334-hack.mp4" && k == 13)
    ensures k + 1 < |name| && name[8] == '-' && name[k] == '.' && NoDashOrDot(name[9..k])
    ensures (forall i :: k < i < |name| ==> name[i] != '.') && name[..8] + name[k..] == "SSNI-334.mp4"
  {
  }

  lemma CTagExampleRestored(t: Str)
    requires t == "SSNI-334.mp4"
    ensures ApplyPolicy(t, Flags(true, false, false, false)) == "SSNI-334-C.mp4"
  {
    ExtDotUnique(t, 8);
    HasCTagAtExtension(t);
    AddCTagEnsuresTag(t);
    assert t[..8] + "-C" + t[8..] == "SSNI-334-C.mp4";
  }

  lemma HackExampleRestored(t: Str)
    requires t == "SSNI-334.mp4"
    ensures ApplyPolicy(t, Flags(false, false, true, false)) == "SSNI-334-hack.mp4"
  {
    ExtDotUnique(t, 8);
    PolicyEffect(t, Flags(false, false, true, false));
    assert t[..8] + "-hack" + t[8..] == "SSNI-334-hack.mp4";
  }

  /** Under `uc` the tag `-hack-c` holds a dash, so line 30 keeps it, and the
      policy appends a second one: `SSNI-334-hack-c.mp4` is not a fixed point. */
  lemma HackCNotFixed(name: Str)
    requires name == "SSNI-334-hack-c.mp4"
    ensures CleanFilename(name, Flags(false, false, false, true)) == "SSNI-334-hack-c-hack-c.mp4"
  {
    HackCExampleKept(name);
    HackCExampleAppended(name);
  }

  lemma HackCExampleKept(name: Str)
    requires name == "SSNI-334-hack-c.mp4"
    ensures Normalise(name) == name
  {
    SsniExampleFacts(name);
    NormaliseLettersDash(name, 4);
    HackCExampleNoMatch(name);
    SubFromNoMatch(NumberThenTag, name, 0);
  }

  lemma HackCExampleAppended(name: Str)
    requires name == "SSNI-334-hack-c.mp4"
    ensures ApplyPolicy(name, Flags(false, false, false, true)) == "SSNI-334-hack-c-hack-c.mp4"
  {
    ExtDotUnique(name, 15);
    PolicyEffect(name, Flags(false, false, false, true));
    assert name[..15] + "-hack-c" + name[15..] == "SSNI-334-hack-c-hack-c.mp4";
  }

  /** Under `no`, a name with nothing between the number and the dot loses
      the last digit of its number: line 30 backtracks into the digit run. */
  lemma BareNumberLosesDigit(name: Str)
    requires name == "SSNI-334.mp4"
    ensures CleanFilename(name, Flags(false, true, false, false)) == "SSNI-33.mp4"
  {
    BareNumberExampleNormalise(name);
  }

  lemma BareNumberExampleNormalise(name: Str)
    requires name == "SSNI-334.mp4"
    ensures Normalise(name) == "SSNI-33.mp4"
  {
    SsniExampleFacts(name);
    NormaliseLettersDash(name, 4);
    BareNumberExampleDeleted(name);
  }

  lemma BareNumberExampleDeleted(s: Str)
    requires s == "SSNI-334.mp4"
    ensures DeleteTagAfterNumber(s) == "SSNI-33.mp4"
  {
    SsniExampleFacts(s);
    ExtDotUnique(s, 8);
    DeleteLastDigit(s, 5);
    BareNumberExampleSpell(s);
  }

  lemma BareNumberExampleSpell(s: Str)
    requires s == "SSNI-334.mp4"
    ensures s[..7] + s[8..] == "SSNI-33.mp4"
  {
  }

  /** What the examples share: `SSNI`, a dash, the digits `334`. */
  lemma SsniExampleFacts(s: Str)
    requires |s| > 8 && (s[..9] == "SSNI-334." || s[..9] == "SSNI-334-")
    ensures RunEnd(s, 0, IsLetter) == 4 && s[4] == '-' && RunEnd(s, 5, IsDigit) == 8
    ensures forall j :: 0 <= j < 5 ==> !IsDigit(s[j])
  {
    assert forall j :: 0 <= j < 9 ==> s[j] == s[..9][j];
    RunEndUnique(s, 0, 4, IsLetter);
    RunEndUnique(s, 5, 8, IsDigit);
  }

  /** `ABC1.mp4`: the bare dash branch also splits the extension, and policy
      `c` then puts its tag before the dot: `ABC-1-C.mp-4`, which no longer
      ends in a video extension. */
  lemma BareDigitExample(name: Str)
    requires name == "ABC1.mp4"
    ensures CleanFilename(name, Flags(true, false, false, false)) == "ABC-1-C.mp-4"
    ensures CleanFilename(name, Flags(false, true, false, false)) == "ABC-1.mp-4"
    ensures IsVideoFile(name) && !IsVideoFile("ABC-1-C.mp-4")
  {
    BareDigitExampleNormalise(name);
    BareDigitExampleTag("ABC-1.mp-4");
    BareDigitExampleVideo();
  }

  lemma BareDigitExampleNormalise(name: Str)
    requires name == "ABC1.mp4"
    ensures Normalise(name) == "ABC-1.mp-4"
  {
    assert StripLeadingDigits(name) == name;
    BareBranchExample(name);
    var t := "ABC-1.mp-4";
    BareDigitExampleNoMatch(t);
    SubFromNoMatch(NumberThenTag, t, 0);
  }

  /** In `ABC-1.mp-4` no position starts a line-30 match: the digit before
      the dot is a number of one digit, and the one after it lies past the
      dot. */
  lemma BareDigitExampleNoMatch(t: Str)
    requires t == "ABC-1.mp-4"
    ensures forall j :: 0 <= j < |t| ==> MatchAt(NumberThenTag, t, j).None?
  {
    ExtDotUnique(t, 5);
    forall j | 0 <= j < |t| ensures MatchAt(NumberThenTag, t, j).None? {
      if j == 4 {
        RunEndUnique(t, 4, 5, IsDigit);
      } else if j == 9 {
        RunEndUnique(t, 9, 10, IsDigit);
      } else {
        NoTagMatchOffDigit(t, j);
      }
    }
  }

  lemma BareDigitExampleTag(t: Str)
    requires t == "ABC-1.mp-4"
    ensures ApplyPolicy(t, Flags(true, false, false, false)) == "ABC-1-C.mp-4"
  {
    ExtDotUnique(t, 5);
    HasCTagAtExtension(t);
    AddCTagEnsuresTag(t);
    assert t[..5] + "-C" + t[5..] == "ABC-1-C.mp-4";
  }

  lemma BareDigitExampleVideo()
    ensures IsVideoFile("ABC1.mp4") && !IsVideoFile("ABC-1-C.mp-4")
  {
    var a := Lower("ABC1.mp4");
    assert a[4..] == ".mp4";
    assert EndsWith(a, VideoExtensions[0]);
    var b := Lower("ABC-1-C.mp-4");
    assert b[10] == '-' && b[11] == '4';
    forall i | 0 <= i < |VideoExtensions| ensures !EndsWith(b, VideoExtensions[i]) {
    }
  }

  /** In `SSNI-334-hack-c.mp4` no position starts a line-30 match. */
  lemma HackCExampleNoMatch(s: Str)
    requires s == "SSNI-334-hack-c.mp4"
    ensures forall j :: 0 <= j < |s| ==> MatchAt(NumberThenTag, s, j).None?
  {
    ExtDotUnique(s, 15);
    assert !NoDashOrDot(s[9..15]) by { assert s[9..15][4] == '-'; }
    assert forall i :: 0 <= i < |s| && IsDigit(s[i]) ==> 5 <= i < 8 || i == 18;
    forall j | 0 <= j < |s| ensures MatchAt(NumberThenTag, s, j).None? {
      if 5 <= j < 8 {
        RunEndUnique(s, j, 8, IsDigit);
      } else if j == 18 {
        RunEndUnique(s, 18, 19, IsDigit);
      } else {
        NoTagMatchOffDigit(s, j);
      }
    }
  }

  /** A line-30 match starts on a digit. */
  lemma NoTagMatchOffDigit(s: Str, j: nat)
    requires j < |s| && !IsDigit(s[j])
    ensures MatchAt(NumberThenTag, s, j).None?
  {
    assert RunEnd(s, j, IsDigit) == j;
  }

  // -------------------------------------------------------------------
  // main

  /** The decisions `main` takes: the extension first, then the size. */
  function Plan(es: seq<Entry>, f: Flags): (ds: seq<Decision>)
    ensures |ds| == |es| && forall i :: 0 <= i < |es| ==> ds[i] == VideoFirst(es[i], CleanFilename(es[i].key.name, f))
  {
    VideoFirstPlan(es, name => CleanFilename(name, f))
  }

  /** `main(dry_run, folder_path, c, no, u, uc)`: a dry run only prints and
      performs no operation; otherwise small videos are removed and other
      videos renamed in place when the cleaner changes their names. */
  method CleanFolder(dryRun: bool, es: seq<Entry>, f: Flags) returns (ops: seq<Op>)
    ensures ops == if dryRun then [] else OpsOf(es, Plan(es, f))
  {
    ops := VideoFirstPass(dryRun, es, name => CleanFilename(name, f));
  }

  // -------------------------------------------------------------------
  // __main__

  /** The command line as argparse stores it. */
  datatype Args = Args(source: Str, destination: Str, mdc: Str, dryRun: bool, flags: Flags)

  /** The run with line 146's switch check corrected (SwitchCheck): without
      exactly one switch it exits at once, otherwise it is the sequence of
      Scrape.ScrapeRun with this script's cleaner.  As written, every run
      stops at line 146 (SwitchCheckAlwaysRaises). */
  method Run(args: Args, pathExists: bool, interruptAt: Option<nat>, es: seq<Entry>, read: Config)
    returns (steps: seq<Step>, ops: seq<Op>, written: Option<ConfigUpdate>)
    ensures steps ==
      if ExactlyOne(args.flags)
      then ScrapeSteps(pathExists, args.dryRun, interruptAt, ConfigError(args.source, args.destination, read), EnsureSlash(args.mdc))
      else [Exit(BadFlags)]
    ensures ops ==
      if ExactlyOne(args.flags) && Applies(pathExists, args.dryRun, interruptAt)
      then OpsOf(es, Plan(es, args.flags)) else []
    ensures written.Some? <==>
      ExactlyOne(args.flags) && Configures(pathExists, args.dryRun, interruptAt) && ConfigError(args.source, args.destination, read).None?
    ensures written.Some? ==>
      ModifyConfig(EnsureSlash(args.mdc), args.source, args.destination, read) == Ok(written.value)
  {
    if !ExactlyOne(args.flags) {
      return [Exit(BadFlags)], [], None;
    }
    steps, ops, written := ScrapeRun(args.source, args.destination, args.mdc, args.dryRun, pathExists,
                                     interruptAt, es, name => CleanFilename(name, args.flags), read);
  }

  // -------------------------------------------------------------------
  // The switch check as written

  /** The attributes argparse sets: the `dest` of each option (lines 133-141). */
  const ParsedAttributes: set<Str> := {"source", "destination", "mdc", "dryrun", "sub", "no_sub", "hack", "hack_sub"}

  /** `getattr(args, name)`: an `AttributeError` when argparse set no such
      attribute. */
  function Attribute(ns: map<Str, bool>, name: Str): (r: Result<bool, Str>)
    ensures r.Ok? <==> name in ns
    ensures r.Ok? ==> r.value == ns[name]
    ensures r.Err? ==> r.error == "AttributeError"
  {
    if name in ns then Ok(ns[name]) else Err("AttributeError")
  }

  /** Lines 146-148 as written: `sum([args.c, args.u, args.uc, args.no]) != 1`. */
  function SwitchCheckAsWritten(ns: map<Str, bool>): (r: Result<bool, Str>)
    ensures r.Ok? ==> "c" in ns && "u" in ns && "uc" in ns && "no" in ns
  {
    match Attribute(ns, "c")
    case Err(e) => Err(e)
    case Ok(c) =>
      match Attribute(ns, "u")
      case Err(e) => Err(e)
      case Ok(u) =>
        match Attribute(ns, "uc")
        case Err(e) => Err(e)
        case Ok(uc) =>
          match Attribute(ns, "no")
          case Err(e) => Err(e)
          case Ok(no) => Ok(ExactlyOne(Flags(c, no, u, uc)))
  }

  /** The check as written fails on every command line argparse accepts:
      `args.c` is not an attribute of the parsed namespace. */
  lemma SwitchCheckAlwaysRaises(ns: map<Str, bool>)
    requires ns.Keys == ParsedAttributes
    ensures SwitchCheckAsWritten(ns) == Err("AttributeError")
  {
    assert "c" !in ParsedAttributes;
  }

  /** The check its message describes, reading the attributes argparse sets. */
  function SwitchCheck(ns: map<Str, bool>): (r: Result<bool, Str>)
    ensures ns.Keys == ParsedAttributes ==>
      r == Ok(ExactlyOne(Flags(ns["sub"], ns["no_sub"], ns["hack"], ns["hack_sub"])))
  {
    match Attribute(ns, "sub")
    case Err(e) => Err(e)
    case Ok(c) =>
      match Attribute(ns, "no_sub")
      case Err(e) => Err(e)
      case Ok(no) =>
        match Attribute(ns, "hack")
        case Err(e) => Err(e)
        case Ok(u) =>
          match Attribute(ns, "hack_sub")
          case Err(e) => Err(e)
          case Ok(uc) => Ok(ExactlyOne(Flags(c, no, u, uc)))
  }

  /** The corrected check accepts exactly the command lines with one switch. */
  lemma SwitchCheckExactlyOne(ns: map<Str, bool>)
    requires ns.Keys == ParsedAttributes
    ensures SwitchCheck(ns) == Ok(true) <==>
      (if ns["sub"] then 1 else 0) + (if ns["no_sub"] then 1 else 0) +
      (if ns["hack"] then 1 else 0) + (if ns["hack_sub"] then 1 else 0) == 1
  {
  }
}
