/** Movie_Filename_Clean.py: the cleaner that strips the number prefix and
    the bracket group, adds missing dashes and always ensures the `-C` tag;
    its walker and its run, which shares the sequence of Scrape. */
module FilenameClean {
  import opened Wrappers
  import opened Text
  import opened Rewrites
  import opened Fs
  import opened Walk
  import opened Control
  import opened Scrape

  // -------------------------------------------------------------------
  // clean_filename

  /** The name after the two anchored strips and the dash insertion, the
      form the `-C` check looks at. */
  function Dashed(name: Str): Str {
    AddDashes(StripLeadingBracket(StripLeadingDigits(name)))
  }

  /** `clean_filename(filename)`. */
  function CleanFilename(name: Str): Str {
    AddCTag(Dashed(name))
  }

  /** What the cleaner does after the strips: it only adds dashes, then adds
      `-C` right before the extension dot exactly when no `-c.` or `-C.` is
      there; a name with an extension always comes out tagged, and one
      without an extension is not tagged at all. */
  lemma CleanFilenameShape(name: Str)
    ensures var s := StripLeadingBracket(StripLeadingDigits(name));
      Filter(Dashed(name), IsNotDash) == Filter(s, IsNotDash)
    ensures var t := Dashed(name);
      (HasCTag(t) ==> CleanFilename(name) == t) &&
      (!HasCTag(t) && ExtDot(t).Some? ==>
         CleanFilename(name) == t[..ExtDot(t).value] + "-C" + t[ExtDot(t).value..]) &&
      (ExtDot(t).None? ==> CleanFilename(name) == t)
    ensures ExtDot(Dashed(name)).Some? ==> HasCTag(CleanFilename(name))
  {
    AddDashesKeepsRest(StripLeadingBracket(StripLeadingDigits(name)));
    AddCTagEnsuresTag(Dashed(name));
  }

  /** Cleaning a cleaned name does not add a second tag: the tag step is
      idempotent. */
  lemma CleanTagOnce(name: Str)
    ensures AddCTag(CleanFilename(name)) == CleanFilename(name)
  {
    AddCTagIdempotent(Dashed(name));
  }

  /** Only the `...C.` and `...-C.` branches exist: a name made of letters,
      one digit and the extension, which file_clean.py's third branch would
      split, keeps its form here. */
  lemma NoBareNumberBranch(s: Str)
    requires StartsLettersDigitDot(s)
    ensures AddDashes(s) == s
  {
    var a := RunEnd(s, 0, IsLetter);
    RunEndUnique(s, a, a + 1, IsDigit);
  }

  // -------------------------------------------------------------------
  // The examples in the comments of clean_filename

  /** A name that already ends in `-C` before its extension keeps it. */
  lemma TaggedKept(t: Str, k: nat)
    requires 2 <= k < |t| - 1 && t[k] == '.' && t[k - 2] == '-' && t[k - 1] == 'C'
    requires forall i :: k < i < |t| ==> t[i] != '.'
    ensures AddCTag(t) == t
  {
    ExtDotUnique(t, k);
    HasCTagAtExtension(t);
  }

  /** `232GANA-334-C.mp4 -> GANA-334-C.mp4`. */
  lemma DigitPrefixExample(name: Str)
    requires name == "232GANA-334-C.mp4"
    ensures CleanFilename(name) == "GANA-334-C.mp4"
  {
    DigitPrefixFront(name);
    GanaDashed("GANA-334-C.mp4");
    GanaTagged("GANA-334-C.mp4");
  }

  lemma DigitPrefixFront(name: Str)
    requires name == "232GANA-334-C.mp4"
    ensures StripLeadingBracket(StripLeadingDigits(name)) == "GANA-334-C.mp4"
  {
    RunEndUnique(name, 0, 3, IsDigit);
    assert name[3..] == "GANA-334-C.mp4";
  }

  lemma GanaDashed(t: Str)
    requires t == "GANA-334-C.mp4"
    ensures AddDashes(t) == t
  {
    RunEndUnique(t, 0, 4, IsLetter);
    LettersDashFrontUnchanged(t);
  }

  lemma GanaTagged(t: Str)
    requires t == "GANA-334-C.mp4"
    ensures AddCTag(t) == t
  {
    TaggedKept(t, 10);
  }

  /** `[233.com]SSNI-334-C.mp4 -> SSNI-334-C.mp4`: the `.com` inside the
      group goes with it. */
  lemma BracketExample(name: Str)
    requires name == "[233.com]SSNI-334-C.mp4"
    ensures CleanFilename(name) == "SSNI-334-C.mp4"
  {
    BracketNoDigits(name);
    BracketDropped(name);
    SsniDashed("SSNI-334-C.mp4");
    SsniTagged("SSNI-334-C.mp4");
  }

  lemma BracketNoDigits(name: Str)
    requires name == "[233.com]SSNI-334-C.mp4"
    ensures StripLeadingDigits(name) == name
  {
  }

  lemma BracketDropped(name: Str)
    requires name == "[233.com]SSNI-334-C.mp4"
    ensures StripLeadingBracket(name) == "SSNI-334-C.mp4"
  {
    BracketParts("233.com", "SSNI-334-C.mp4", name);
  }

  lemma BracketParts(g: Str, rest: Str, name: Str)
    requires g == "233.com" && rest == "SSNI-334-C.mp4"
    requires name == "[" + g + "]" + rest
    ensures StripLeadingBracket(name) == rest
  {
    StripBracketGroup(g, rest);
  }

  lemma SsniDashed(t: Str)
    requires t == "SSNI-334-C.mp4"
    ensures AddDashes(t) == t
  {
    RunEndUnique(t, 0, 4, IsLetter);
    LettersDashFrontUnchanged(t);
  }

  lemma SsniTagged(t: Str)
    requires t == "SSNI-334-C.mp4"
    ensures AddCTag(t) == t
  {
    TaggedKept(t, 10);
  }

  /** `SSNI334C.mp4 -> SSNI-334-C.mp4`. */
  lemma DashExample(name: Str)
    requires name == "SSNI334C.mp4"
    ensures CleanFilename(name) == "SSNI-334-C.mp4"
  {
    DashExampleFront(name);
    DashExampleDashes(name);
    SsniTagged("SSNI-334-C.mp4");
  }

  lemma DashExampleFront(name: Str)
    requires name == "SSNI334C.mp4"
    ensures StripLeadingBracket(StripLeadingDigits(name)) == name
  {
    assert StripLeadingDigits(name) == name;
  }

  lemma DashExampleDashes(s: Str)
    requires s == "SSNI334C.mp4"
    ensures AddDashes(s) == "SSNI-334-C.mp4"
  {
    DashExampleHead(s);
    DashExampleTail(s);
    SubFromOneMatch(LettersDigitsC, s, 0, 0);
    assert s[9..] == "mp4";
  }

  lemma DashExampleHead(s: Str)
    requires s == "SSNI334C.mp4"
    ensures MatchAt(LettersDigitsC, s, 0) == Some((9, "SSNI-334-C."))
  {
    RunEndUnique(s, 0, 4, IsLetter);
    RunEndUnique(s, 4, 7, IsDigit);
    assert s[0..4] == "SSNI" && s[4..7] == "334" && s[7] == 'C' && s[8] == '.';
    assert MatchLettersDigitsC(s, 0).value.1 == "SSNI-334-C.";
  }

  lemma DashExampleTail(s: Str)
    requires s == "SSNI334C.mp4"
    ensures forall j :: 9 <= j < |s| ==> MatchAt(LettersDigitsC, s, j).None?
  {
    forall j | 9 <= j < |s| ensures MatchAt(LettersDigitsC, s, j).None? {
      RunEndUnique(s, 11, 12, IsDigit);
      if j < 11 {
        RunEndUnique(s, j, 11, IsLetter);
      } else {
        RunEndUnique(s, j, j, IsLetter);
      }
    }
  }

  /** `SSNI-334.mp4 -> SSNI-334-C.mp4`. */
  lemma TagExample(name: Str)
    requires name == "SSNI-334.mp4"
    ensures CleanFilename(name) == "SSNI-334-C.mp4"
  {
    TagExampleFront(name);
    TagExampleTag(name);
  }

  lemma TagExampleFront(name: Str)
    requires name == "SSNI-334.mp4"
    ensures Dashed(name) == name
  {
    RunEndUnique(name, 0, 4, IsLetter);
    LettersDashFrontUnchanged(name);
  }

  lemma TagExampleTag(t: Str)
    requires t == "SSNI-334.mp4"
    ensures AddCTag(t) == "SSNI-334-C.mp4"
  {
    ExtDotUnique(t, 8);
    HasCTagAtExtension(t);
    AddCTagEnsuresTag(t);
    assert t[..8] + "-C" + t[8..] == "SSNI-334-C.mp4";
  }

  // -------------------------------------------------------------------
  // main and __main__

  /** The decisions `main` takes: the extension first, then the size, then
      the cleaner. */
  function Plan(es: seq<Entry>): (ds: seq<Decision>)
    ensures |ds| == |es| && forall i :: 0 <= i < |es| ==> ds[i] == VideoFirst(es[i], CleanFilename(es[i].key.name))
  {
    VideoFirstPlan(es, CleanFilename)
  }

  /** `main(dry_run, folder_path)`: a dry run performs no operation;
      otherwise small videos are removed and other videos renamed in place
      when the cleaner changes their names. */
  method CleanFolder(dryRun: bool, es: seq<Entry>) returns (ops: seq<Op>)
    ensures ops == if dryRun then [] else OpsOf(es, Plan(es))
  {
    ops := VideoFirstPass(dryRun, es, CleanFilename);
  }

  /** The run of `__main__` once argparse has read `-s`, `-dp`, `-m` and
      `-d`: the sequence of Scrape.ScrapeRun with this script's cleaner;
      there is no policy switch to check. */
  method Run(source: Str, destination: Str, mdc: Str, dryRun: bool, pathExists: bool,
             interruptAt: Option<nat>, es: seq<Entry>, read: Config)
    returns (steps: seq<Step>, ops: seq<Op>, written: Option<ConfigUpdate>)
    ensures steps == ScrapeSteps(pathExists, dryRun, interruptAt, ConfigError(source, destination, read), EnsureSlash(mdc))
    ensures ops == if Applies(pathExists, dryRun, interruptAt) then OpsOf(es, Plan(es)) else []
    ensures written.Some? <==> Configures(pathExists, dryRun, interruptAt) && ConfigError(source, destination, read).None?
    ensures written.Some? ==> ModifyConfig(EnsureSlash(mdc), source, destination, read) == Ok(written.value)
  {
    steps, ops, written := ScrapeRun(source, destination, mdc, dryRun, pathExists, interruptAt, es, CleanFilename, read);
  }
}
