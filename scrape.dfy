/** The `__main__` sequence that Movie_AutoScraping.py and
    Movie_Filename_Clean.py share once their arguments are read: the path
    check, the dry pass, the countdown and the apply pass unless a dry run
    was asked for, the update of the MDC configuration, and MDC itself.
    The two scripts differ only in the cleaner the walker uses. */
module Scrape {
  import opened Wrappers
  import opened Text
  import opened Fs
  import opened Walk
  import opened Control

  /** The removes and renames of the apply pass. */
  function PlannedOps(es: seq<Entry>, clean: Str -> Str): seq<Op> {
    OpsOf(es, VideoFirstPlan(es, clean))
  }

  /** The run gets past the countdown to the apply pass. */
  predicate Applies(pathExists: bool, dryRun: bool, interruptAt: Option<nat>) {
    pathExists && !dryRun && !Interrupts(interruptAt, 10)
  }

  /** The run gets as far as `modify_config`. */
  predicate Configures(pathExists: bool, dryRun: bool, interruptAt: Option<nat>) {
    pathExists && (dryRun || !Interrupts(interruptAt, 10))
  }

  /** The steps of a run: `configError` is why `modify_config` raises, if
      it does (see Control.ConfigError), `mdcPath` is the MDC folder once its
      trailing slash is added. */
  function ScrapeSteps(pathExists: bool, dryRun: bool, interruptAt: Option<nat>, configError: Option<Stop>, mdcPath: Str)
    : seq<Step>
  {
    if !pathExists then [Exit(NoPath)]
    else
      var head :=
        if dryRun then [DryPass]
        else if Interrupts(interruptAt, 10) then [DryPass, Countdown(CountdownShown(10, interruptAt)), Exit(Interrupted)]
        else [DryPass, Countdown(CountdownShown(10, interruptAt)), ApplyPass];
      var tail :=
        if !Configures(pathExists, dryRun, interruptAt) then []
        else if configError.None? then [WriteConfig("./config.ini"), RunMdc(mdcPath + "mdc")]
        else [Exit(configError.value)];
      head + tail
  }

  /** A missing folder ends the run at once; otherwise the dry pass comes
      first and something follows it. */
  lemma ScrapeStepsStart(pathExists: bool, dryRun: bool, interruptAt: Option<nat>, configError: Option<Stop>, mdcPath: Str)
    ensures var steps := ScrapeSteps(pathExists, dryRun, interruptAt, configError, mdcPath);
      (!pathExists ==> steps == [Exit(NoPath)]) &&
      (pathExists ==> |steps| > 1 && steps[0] == DryPass)
  {
  }

  /** Files are changed exactly when the folder exists, no dry run was asked
      for and the countdown ran out. */
  lemma ScrapeStepsApply(pathExists: bool, dryRun: bool, interruptAt: Option<nat>, configError: Option<Stop>, mdcPath: Str)
    ensures ApplyPass in ScrapeSteps(pathExists, dryRun, interruptAt, configError, mdcPath) <==>
      Applies(pathExists, dryRun, interruptAt)
  {
    var steps := ScrapeSteps(pathExists, dryRun, interruptAt, configError, mdcPath);
    if Applies(pathExists, dryRun, interruptAt) {
      assert steps[2] == ApplyPass;
    }
  }

  /** A dry run never counts down: the report is followed straight by the
      configuration and MDC. */
  lemma ScrapeStepsDry(dryRun: bool, interruptAt: Option<nat>, configError: Option<Stop>, mdcPath: Str)
    requires dryRun
    ensures ScrapeSteps(true, dryRun, interruptAt, configError, mdcPath) ==
      if configError.None? then [DryPass, WriteConfig("./config.ini"), RunMdc(mdcPath + "mdc")]
      else [DryPass, Exit(configError.value)]
  {
  }

  /** Ctrl+C during the countdown ends the run: neither the configuration
      nor MDC is touched. */
  lemma ScrapeStepsInterrupted(dryRun: bool, interruptAt: Option<nat>, configError: Option<Stop>, mdcPath: Str)
    requires !dryRun && Interrupts(interruptAt, 10)
    ensures var steps := ScrapeSteps(true, dryRun, interruptAt, configError, mdcPath);
      steps == [DryPass, Countdown(CountdownShown(10, interruptAt)), Exit(Interrupted)] &&
      forall j :: 0 <= j < |steps| ==> !steps[j].WriteConfig? && !steps[j].RunMdc?
  {
  }

  /** MDC is started exactly when the run gets to `modify_config` and that
      does not raise, and then it is the last step, right after the
      configuration is written; when it raises, the run ends there. */
  lemma ScrapeStepsMdc(pathExists: bool, dryRun: bool, interruptAt: Option<nat>, configError: Option<Stop>, mdcPath: Str)
    ensures var steps := ScrapeSteps(pathExists, dryRun, interruptAt, configError, mdcPath);
      (RunMdc(mdcPath + "mdc") in steps <==> Configures(pathExists, dryRun, interruptAt) && configError.None?) &&
      (Configures(pathExists, dryRun, interruptAt) && configError.None? ==>
         |steps| >= 3 && steps[|steps| - 2..] == [WriteConfig("./config.ini"), RunMdc(mdcPath + "mdc")]) &&
      (Configures(pathExists, dryRun, interruptAt) && configError.Some? ==>
         forall j :: 0 <= j < |steps| ==> !steps[j].WriteConfig? && !steps[j].RunMdc?)
  {
    var steps := ScrapeSteps(pathExists, dryRun, interruptAt, configError, mdcPath);
    if Configures(pathExists, dryRun, interruptAt) && configError.None? {
      assert steps[|steps| - 1] == RunMdc(mdcPath + "mdc");
    }
  }

  /** A source folder such as `/data/100%` that configparser refuses ends
      the run at `modify_config`: MDC is never started. */
  lemma PercentSourceStopsRun(dryRun: bool, interruptAt: Option<nat>, destination: Str, read: Config, mdcPath: Str)
    requires Configures(true, dryRun, interruptAt) && Common in read
    ensures var steps := ScrapeSteps(true, dryRun, interruptAt, ConfigError("/data/100%", destination, read), mdcPath);
      steps[|steps| - 1] == Exit(BadInterpolation) && RunMdc(mdcPath + "mdc") !in steps
  {
    PercentSourceRefused(mdcPath, destination, read);
    ScrapeStepsMdc(true, dryRun, interruptAt, ConfigError("/data/100%", destination, read), mdcPath);
  }

  /** The run, from the path check on.  `pathExists` answers
      `os.path.exists(folder_path)`, `interruptAt` says when Ctrl+C arrives
      during the countdown, `es` is the walk, `clean` the script's
      `clean_filename` and `read` what `config.read` finds. */
  method ScrapeRun(source: Str, destination: Str, mdc: Str, dryRun: bool, pathExists: bool,
                   interruptAt: Option<nat>, es: seq<Entry>, clean: Str -> Str, read: Config)
    returns (steps: seq<Step>, ops: seq<Op>, written: Option<ConfigUpdate>)
    ensures steps == ScrapeSteps(pathExists, dryRun, interruptAt, ConfigError(source, destination, read), EnsureSlash(mdc))
    ensures ops == if Applies(pathExists, dryRun, interruptAt) then PlannedOps(es, clean) else []
    ensures written.Some? <==>
      Configures(pathExists, dryRun, interruptAt) && ConfigError(source, destination, read).None?
    ensures written.Some? ==> ModifyConfig(EnsureSlash(mdc), source, destination, read) == Ok(written.value)
  {
    var mdcPath := EnsureSlash(mdc);
    if !pathExists {
      return [Exit(NoPath)], [], None;
    }
    var head, stopped;
    head, ops, stopped := Passes(dryRun, interruptAt, es, clean);
    if stopped {
      return head, [], None;
    }
    var tail;
    tail, written := Finish(mdcPath, source, destination, read);
    steps := head + tail;
  }

  /** The dry pass and, unless a dry run was asked for, the countdown and
      the apply pass; Ctrl+C during the countdown ends the run before
      anything is applied. */
  method Passes(dryRun: bool, interruptAt: Option<nat>, es: seq<Entry>, clean: Str -> Str)
    returns (head: seq<Step>, ops: seq<Op>, stopped: bool)
    ensures stopped <==> !dryRun && Interrupts(interruptAt, 10)
    ensures head ==
      if dryRun then [DryPass]
      else [DryPass, Countdown(CountdownShown(10, interruptAt)), if stopped then Exit(Interrupted) else ApplyPass]
    ensures ops == if !dryRun && !stopped then PlannedOps(es, clean) else []
  {
    ops := VideoFirstPass(true, es, clean);
    head := [DryPass];
    stopped := false;
    if !dryRun {
      var shown, interrupted := RunCountdown(10, interruptAt);
      if interrupted {
        return [DryPass, Countdown(shown), Exit(Interrupted)], [], true;
      }
      var applied := VideoFirstPass(false, es, clean);
      ops := ops + applied;
      head := [DryPass, Countdown(shown), ApplyPass];
    }
  }

  /** `modify_config`, then MDC started from its folder. */
  method Finish(mdcPath: Str, source: Str, destination: Str, read: Config)
    returns (tail: seq<Step>, written: Option<ConfigUpdate>)
    ensures written.Some? <==> ConfigError(source, destination, read).None?
    ensures written.Some? ==> ModifyConfig(mdcPath, source, destination, read) == Ok(written.value)
    ensures tail ==
      match ConfigError(source, destination, read)
      case None => [WriteConfig("./config.ini"), RunMdc(mdcPath + "mdc")]
      case Some(e) => [Exit(e)]
  {
    var update := ModifyConfig(mdcPath, source, destination, read);
    if update.Err? {
      tail, written := [Exit(update.error)], None;
    } else {
      tail, written := [WriteConfig(update.value.writeTo), RunMdc(mdcPath + "mdc")], Some(update.value);
    }
  }
}
