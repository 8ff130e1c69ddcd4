# Movie_AutoScraping in Dafny

A verified model of the scripts in Movie_AutoScraping. They tidy a folder of
downloaded videos before the MDC scraper runs.

- **Cleaners.** `clean_filename` comes in three variants, in `file_clean.py`,
  `Movie_AutoScraping.py` and `Movie_Filename_Clean.py`. Each is a fixed chain
  of regular-expression rewrites on one name. Every pattern is a hand-written
  Dafny function that gives the leftmost, backtracking result of that one
  pattern:
  - strip a leading digit run;
  - strip a leading `[...]` group;
  - insert missing dashes;
  - delete the junk after the number;
  - re-append a CD marker and/or a policy tag (`-C`, `-hack`, `-hack-c`) before
    the extension.
- **utility.py.**
  - `clean_filename`: extension split, domain-prefix strip and character
    filter.
  - `parse_filename`: the seven-field grammar, with its error and its warning.
- **Passes.** These are `file_clean`, `main` and `filename_clean`. Each walks a
  list of entries `(dir, name, size, is-file)` and takes one decision per
  entry: delete, skip, rename in place, or keep. Two results follow from those
  decisions:
  - apply mode gives a sequence of remove/rename operations on an abstract file
    map;
  - dry-run mode gives the report buckets and the log's lines.
- **clean.py** also moves every file to the root and prunes empty directories
  bottom-up.
- **Controllers.** The `__main__` blocks are a sequence of steps over these
  inputs: whether the path exists, the dry-run flag, the moment a Ctrl+C
  arrives during the countdown, and the configuration file's sections.

Module layout:
- `Wrappers`: Option and Result.
- `Text`: character classes, runs, the last dot, filters.
- `Rewrites`: every regular expression the cleaners use.
- `Policy`: the c/no/u/uc block.
- `Fs`: the abstract file map and its operations.
- `Walk`: decisions, plans, operations, buckets and the two walk loops.
- `Control`: the countdown, trailing slashes and `modify_config`.
- `Report`: log helpers.
- `Scrape`: the shared `__main__` of the two MDC scripts.
- One module per script: `FileClean`, `AutoScraping`, `FilenameClean`,
  `Utility`, `Clean` and `CleanSmallFile`.

Where a comment in the source and the code disagree, the model follows the
code, with one exception: the switch check on `Movie_AutoScraping.py:146`
(see "## Findings"). Four places where the code parts from its comments or
from what it evidently means are kept as the code has them:
- The comment on `utility.py:82` gives a parse result that is stale.
- `file_clean.py:112-118` and `131-139` duplicate their blocks, so a CD marker
  is appended twice: `SSNI-888-CD2.mp4` becomes `SSNI-888-CD2-CD2.mp4`
  (FileClean.CdExample).
- The line-30 deletion of `Movie_AutoScraping.py` backtracks into a bare
  number: `SSNI-334.mp4` becomes `SSNI-33.mp4`
  (AutoScraping.BareNumberLosesDigit).
- The bare dash branch (`file_clean.py:125-126`, `Movie_AutoScraping.py:26-27`)
  is a global substitution, so it also splits letters and digits in the
  extension: `ABC1.mp4` becomes `ABC-1.mp-4` in `file_clean.py`, and
  `ABC-1-C.mp-4` under `c` in `Movie_AutoScraping.py`. The new name no
  longer ends in a video extension (FileClean.BareDigitExample,
  AutoScraping.BareDigitExample).

The last three look unintended. Each touches only the names that show it,
and each is proved as the behaviour of the code as written.

## Model

| member | source | states |
|---|---|---|
| Text.Lower | file_clean.py:13 | `str.lower()` on ASCII: each upper-case letter mapped to its lower-case letter, everything else kept, length kept |
| Text.RunEnd | file_clean.py:107 | the end of the maximal run of characters with a property starting at a position: every character before it has the property, the one at it does not |
| Text.ExtDot | file_clean.py:144 | the dot the lookahead `\.(?=[^.]+$)` finds: the last dot, followed by at least one character; none when no dot is followed by a dot-free non-empty tail |
| Rewrites.StripLeadingDigits | file_clean.py:107 | `^\d+` removed: the removed prefix is all digits, and what remains is empty or starts with a non-digit |
| Rewrites.StripLeadingBracket | file_clean.py:110 | `^\[.*?\]` removed: either nothing changes, or the result is what follows the first `]` after a leading `[` with no newline between; a name with such a group always gets shorter |
| Rewrites.StripBracketGroup | file_clean.py:110 | a leading `[g]` group whose body has no `]` or newline is dropped exactly, and nothing else is |
| Rewrites.CdNumber | file_clean.py:113-114 | empty exactly when no case-insensitive `cd<digits>` occurs |
| Rewrites.CdNumberMatch | file_clean.py:113-114 | a non-empty CD number is the leftmost `cd\d+` occurrence in its original case, with its maximal digit run (at least one digit) |
| Rewrites.HasCTagAtExtension | file_clean.py:143 | the `-c\.(?=[^.]+$)` search, case-insensitive, succeeds exactly when `-c` or `-C` sits right before the extension dot |
| Rewrites.ScanKeepsFilter | file_clean.py:122 | a global substitution whose every replacement keeps a character class keeps it for the whole string |
| Rewrites.SubFromOneMatch | file_clean.py:122 | a global substitution with exactly one match replaces that match and leaves the rest verbatim |
| Rewrites.InsertBeforeExt | file_clean.py:144-160 | the tag insert every policy and the `-C` step use (also Movie_AutoScraping.py lines 35, 45 and 51 and Movie_Filename_Clean.py line 29); its contract is Rewrites.InsertBeforeExtAt |
| Rewrites.InsertBeforeExtAt | file_clean.py:144-160 | a name without an extension dot is unchanged; otherwise the tag is inserted right before the last dot, the text before and from that dot kept as it was |
| Rewrites.AddCTagEnsuresTag | Movie_Filename_Clean.py:27-29 | `-C` is inserted right before the extension dot exactly when no `-c.`/`-C.` is there already; after the insertion a name with an extension always carries the tag |
| Rewrites.AddCTagIdempotent | Movie_Filename_Clean.py:27-29 | adding the tag twice is the same as adding it once |
| Rewrites.AddCTag | Movie_Filename_Clean.py:27-29 | the tag step: by Rewrites.AddCTagEnsuresTag it inserts `-C` right before the extension dot exactly when no `-c.` or `-C.` sits there, which leaves every name with an extension tagged, and by Rewrites.AddCTagIdempotent a second application changes nothing |
| Rewrites.AddDashes | Movie_Filename_Clean.py:21-25 | the two dash branches: by Rewrites.AddDashesKeepsRest it only inserts dashes, by Rewrites.AddDashesAtStart a name beginning `letters digits C.` or `letters digits -C.` comes out beginning `letters-digits-C.`, and by Rewrites.LettersDashFrontUnchanged a name whose letters are followed by a dash is untouched |
| Rewrites.AddDashesOrBare | file_clean.py:120-126 | the same two branches and then the bare `letters digit.` branch (also Movie_AutoScraping.py lines 21-27): the same three lemmas state that it only inserts dashes, that it agrees with the two-branch step on `C.` names, and that a letters-then-dash name is untouched |
| Rewrites.AddDashesKeepsRest | file_clean.py:120-126 | the dash step only inserts dashes: with dashes removed, the name before and after is the same |
| Rewrites.AddDashesAtStart | file_clean.py:121-124 | a name starting with letters, digits and `C.` or `-C.` comes out starting `letters-digits-C.` |
| Rewrites.LettersDashFrontUnchanged | file_clean.py:106-126 | a name starting with letters and then a dash is untouched by the digit strip, the bracket strip and every dash branch |
| Rewrites.BareBranchTaken | file_clean.py:120-126 | a name starting with letters, one digit and a dot fails both `C.` tests and takes the bare branch, which substitutes letters-then-digits everywhere (also Movie_AutoScraping.py lines 21-27) |
| Rewrites.LettersDigitsToEnd | file_clean.py:126 | a letters run followed by digits up to the end of the name is rewritten with a dash between them and nothing after |
| Rewrites.BareBranchTail | file_clean.py:126 | from the dot of `letters digit . letters digits` on, the substitution copies the dot and dashes the run after it |
| Rewrites.BareBranchAt | file_clean.py:125-126 | on a name `letters digit . letters digits` the bare branch puts a dash in both runs, the second inside the extension |
| Rewrites.BareBranchSplitsExtension | file_clean.py:125-126 | the same, stated on the parts: `l + d + "." + e + n` becomes `l-d.e-n` (also Movie_AutoScraping.py lines 26-27) |
| Rewrites.BareBranchExample | file_clean.py:125-126 | the bare branch turns `ABC1.mp4` into `ABC-1.mp-4` |
| Rewrites.DeleteAfterNumberAt | file_clean.py:129 | in a name without a newline, everything from the end of the first digit run up to the last dot is deleted, so the body ends in that run |
| Rewrites.DeleteAfterNumberNoDigit | file_clean.py:129 | a name with no digit before its extension dot, or with no extension, is unchanged |
| Rewrites.DeleteAfterNumber | file_clean.py:129 | the deletion after the number: by Rewrites.DeleteAfterNumberAt, in a name without a newline, the text from the end of the first digit run before the extension dot up to that dot is deleted; by Rewrites.DeleteAfterNumberNoDigit a name with no such digit, or no extension, is unchanged |
| Rewrites.DeleteNotKeptIsFilter | utility.py:20 | the unanchored `[^a-zA-Z0-9-_]+` substitution deletes those characters everywhere, the same as a filter |
| Rewrites.StripLeadingNotKeptRedundant | utility.py:17-20 | the anchored strip on line 17 changes nothing that line 20 would not already delete |
| Rewrites.DeleteDashTag | Movie_AutoScraping.py:30 | after the first digit run, a dash and a dash-free, dot-free tag ending at the last dot are deleted |
| Rewrites.DeletePlainTag | Movie_AutoScraping.py:30 | a dash-free, dot-free tag right after the first digit run, ending at the last dot, is deleted |
| Rewrites.DeleteLastDigit | Movie_AutoScraping.py:30 | when the first digit run reaches the last dot and has at least two digits, the backtracking match deletes its last digit |
| Rewrites.KeepOneDigit | Movie_AutoScraping.py:30 | a single digit right before the last dot is kept: the pattern needs at least one character after the digits |
| Rewrites.DeleteTagAfterNumberNoDigit | Movie_AutoScraping.py:30 | a name with no digit before its extension dot is unchanged by line 30 |
| Rewrites.DeleteTagAfterNumber | Movie_AutoScraping.py:30 | the tag deletion: Rewrites.DeleteDashTag and Rewrites.DeletePlainTag give the deleted tag after the first digit run, Rewrites.DeleteLastDigit the backtracking into a digit run that reaches the extension dot, Rewrites.KeepOneDigit the single digit kept, and Rewrites.DeleteTagAfterNumberNoDigit the unchanged names |
| Policy.ApplyPolicy | file_clean.py:141-160 | the policy block; its contract is carried by the three lemmas that follow: the elif order, idempotence under `c`, and growth under `u` and `uc` |
| Policy.PolicyEffect | file_clean.py:141-160 | the policy block in elif order c > no > u > uc: `c` adds `-C` when it is missing, `no` and no switch at all leave the name, `u` always inserts `-hack` and `uc` always inserts `-hack-c` before the last dot, and nothing is inserted without an extension |
| Policy.CPolicyIdempotent | file_clean.py:141-144 | under `c` the block is idempotent |
| Policy.HackPolicyGrows | file_clean.py:147-160 | under `u` or `uc` a name with an extension always changes and grows: there is no check for a tag already present |
| FileClean.ExtStart | file_clean.py:133 | where `os.path.splitext` splits: the last dot of the name whose tail has no dot or slash, with some character other than a dot before it, or the end |
| FileClean.LeadingDotsNoExt | file_clean.py:133 | leading dots do not start an extension: `.mp4` and `..mp4` split into the whole name and an empty extension |
| FileClean.SplitExt | file_clean.py:133 | the two halves rebuild the name, and the extension is empty or a dot followed by no dot or slash |
| FileClean.SplitExtAt | file_clean.py:133 | at an extension dot the split is exactly before and from that dot |
| FileClean.AppendCdBeforeExt | file_clean.py:132-134 | the CD marker is inserted as `-<cd>` right before the extension, and the extension stays where the split finds it |
| FileClean.Normalise | file_clean.py:106-129 | the steps before the CD marker is appended: digit prefix, bracket group, dashes, deletion after the number; FileClean.CdAppendedTwice builds the cleaner's result from it, and FileClean.CdExampleNormalise gives `SSNI-888-CD2.mp4` to `SSNI-888.mp4` |
| FileClean.CleanFilename | file_clean.py:103-160 | the cleaner: FileClean.CdAppendedTwice states its result as the normalised name with the CD marker inserted twice before the extension and the policy applied, and FileClean.CdExample and FileClean.PrefixExample give its outcome on concrete names |
| FileClean.CdAppendedTwice | file_clean.py:112-139 | the duplicated capture and append blocks put `-<cd>-<cd>` before the extension of the normalised name, and then the policy applies |
| FileClean.CdShape | file_clean.py:113-114 | a captured CD number holds no dot and no slash, so it cannot move the extension |
| FileClean.CdExample | file_clean.py:112 | `SSNI-888-CD2.mp4` becomes `SSNI-888-CD2-CD2.mp4` under `no` and with no switch set |
| FileClean.BareDigitExample | file_clean.py:103-160 | `ABC1.mp4`, a video file name, becomes `ABC-1.mp-4` under `no` and with no switch set, which is not a video file name |
| FileClean.PrefixExample | file_clean.py:106-144 | `232GANA-334-C.mp4` becomes `GANA-334-C.mp4` under `c` and `GANA-334.mp4` under `no` and with no switch set |
| FileClean.LJust | file_clean.py:88 | `str.ljust`: the name followed by spaces up to the width, never shortened |
| FileClean.RenameSection | file_clean.py:65-90 | one RENAME line per pair, in order, padded to the longest original name (0 when there is none) |
| FileClean.RenameLinesAligned | file_clean.py:88 | each RENAME line is the quoted original padded to the width, a tab arrow tab, then the quoted new name |
| FileClean.Log | file_clean.py:73-99 | the log's sections in order: NO CHANGE header and names, separator, RENAME header and lines, separator, DELETE header and names |
| FileClean.WriteLog | file_clean.py:73-99 | the write loop produces exactly the lines of `Log` |
| FileClean.WriteRenames | file_clean.py:87-90 | the indexed loop appends the RENAME lines of the parallel lists, in order |
| FileClean.Plan | file_clean.py:29-53 | one decision per entry, taken by the size check first |
| FileClean.FileCleanPass | file_clean.py:15-99 | a dry run performs no operation and writes the log of the buckets; otherwise it performs the plan's operations and writes nothing |
| FileClean.ApplyLeavesNoSmallFile | file_clean.py:29-53 | after the apply pass no regular file below 500 MiB is left, whatever its extension, and every file left is an entry the pass skipped or kept, or the target of a rename, holding that entry's contents |
| FileClean.SmallDeletedLeavesNone | file_clean.py:29-35 | any plan that deletes exactly the small entries leaves no small file, given a complete walk and fresh rename targets |
| Walk.IsValidFileSize | file_clean.py:6-8 | a size is small when strictly below the limit, 500 MiB as every script sets it; Walk.SizeFirst, Walk.VideoFirst and Walk.SmallOnly state what a small file's fate is |
| Walk.IsVideoFile | file_clean.py:10-13 | a name is a video when its lower-cased form ends with one of the seven extensions; Walk.NonVideosUntouched and Walk.NoSmallVideoLeft state its effect on a pass |
| Walk.SizeFirst | file_clean.py:29-53 | every small file is deleted whatever its extension, a large non-video is skipped, a large video is renamed exactly when the cleaner changes its name and kept otherwise |
| Walk.VideoFirst | Movie_AutoScraping.py:83-107 | a non-video is skipped before any size test, a small video is deleted and never renamed, and another video is renamed exactly when the cleaner changes its name |
| Walk.SmallOnly | clean_small_file.py:46-55 | a small file is deleted and everything else is left |
| Walk.CheckOrderMatters | file_clean.py:29-38 | the two check orders disagree exactly on small non-video files, which one deletes and the other skips |
| Walk.OpsStayInPlace | Movie_AutoScraping.py:98-104 | every remove deletes an entry decided Delete, and every rename moves an entry decided RenameTo within its own directory to the cleaned name |
| Fs.Apply | Movie_AutoScraping.py:91-103 | `os.remove` and `os.rename` on the file map; Walk.ApplyPlan states their combined effect: a remove deletes the key, a rename moves the contents to the new key |
| Walk.ApplyPlan | Movie_AutoScraping.py:79-104 | with fresh rename targets, applying the operations of a plan deletes what it deletes, moves what it renames with its contents, and leaves every other file as it was |
| Walk.ApplyPlanRemains | Movie_AutoScraping.py:79-104 | every file left after the pass is an entry that was skipped or kept, or the target of a rename, holding that entry's contents |
| Walk.ApplyPlanRemainsAll | Movie_AutoScraping.py:79-104 | the same, for every file left after the pass at once |
| Walk.BucketMembers | file_clean.py:29-53 | the delete, unchanged and rename buckets hold exactly the entries with those decisions |
| Walk.RenameListsParallel | file_clean.py:45-46 | `rename_files` and `renamed_files` have the same length and pair up position by position |
| Walk.SizeFirstPass | file_clean.py:24-53 | the walk loop: in a dry run, no operation and the four buckets in walk order; otherwise exactly the plan's operations |
| Walk.SizeFirstVisit | file_clean.py:26-53 | the effect of one visit on the operations and each bucket |
| Walk.VideoFirstPass | Movie_AutoScraping.py:79-107 | the walk loop: no operation in a dry run, otherwise exactly the plan's operations |
| Walk.VideoFirstVisit | Movie_AutoScraping.py:81-107 | the operation one visit emits |
| Walk.NoSmallVideoLeft | Movie_AutoScraping.py:83-93 | after the apply pass no small video is left |
| Walk.NonVideosUntouched | Movie_AutoScraping.py:83-84 | a pass that checks the extension first leaves every non-video exactly as it was |
| Control.CountdownEnds | Movie_AutoScraping.py:62-72 | the countdown shows `seconds` first, never more than `seconds` values, and ends at 1, or where Ctrl+C arrives |
| Control.RunCountdown | Movie_AutoScraping.py:68-71 | the loop shows exactly those values and reports the interrupt exactly when one arrives in time |
| Control.EnsureSlash | Movie_AutoScraping.py:120-121 | after it the path ends in `/`; a path already ending in `/` is unchanged, another gets one `/` |
| Control.EnsureSlashIdempotent | Movie_AutoScraping.py:159-160 | adding the slash twice is adding it once, and it only ever appends |
| Control.ModifyConfig | Movie_AutoScraping.py:115-129 | it fails exactly when Control.ConfigError names a reason, with that reason; otherwise it writes `./config.ini` read from `<mdc>config.ini` with source and failed folders set from the slashed source and the success folder as given, and every other key and section unchanged |
| Control.DropEscapes | Movie_AutoScraping.py:124-126 | configparser's first step on an assigned value, removing `%%` pairs from the left: never longer, only characters of the value, and a value without `%` is unchanged |
| Control.KeyEnd | Movie_AutoScraping.py:124-126 | the end of the `%(name)s` reference at the start of a value: a match found is one (a non-empty name free of `)`, then `)s`), and every reference there is the one found |
| Control.DropKeys | Movie_AutoScraping.py:124-126 | configparser's second step, removing the `%(name)s` references from the left: never longer, and a value without `%` is unchanged |
| Control.Interpolable | Movie_AutoScraping.py:124-126 | a value configparser's basic interpolation accepts on assignment: no `%` left once escapes and references are removed (the lemmas below give its cases) |
| Control.PlainInterpolable | Movie_AutoScraping.py:124-126 | a value without `%` is always accepted |
| Control.StrayPercentRefused | Movie_AutoScraping.py:124-126 | a value whose only `%` is followed by nothing or by a character other than `(` is refused |
| Control.PlainPrefixKept | Movie_AutoScraping.py:124-126 | text before the first `%` passes through both removal steps unchanged |
| Control.EscapeAccepted | Movie_AutoScraping.py:124-126 | an escaped `%%` with no other `%` is accepted |
| Control.KeyAccepted | Movie_AutoScraping.py:124-126 | a `%(name)s` reference followed by plain text is accepted |
| Control.ConfigError | Movie_AutoScraping.py:115-126 | why `modify_config` raises: `KeyError` when the file read has no `common` section, checked first; otherwise `ValueError` exactly when the slashed source, the success folder or the failed folder is refused by the interpolation check; nothing when all three are accepted |
| Control.PercentSourceRefused | Movie_AutoScraping.py:120-124 | with a `common` section, the source folder `/data/100%` makes the update fail with the interpolation error, so no configuration is written |
| Control.FailedInsideSource | Movie_AutoScraping.py:121-123 | whenever the update succeeds, the failed folder is the source folder, ending in `/`, followed by `fail` |
| Report.MaxLen | file_clean.py:65-68 | the longest length in the list, 0 for an empty list |
| Report.WriteNames | clean_small_file.py:76-80 | the write loop appends the names after the header, in order |
| Scrape.ScrapeSteps | Movie_AutoScraping.py:159-193 | the steps of a run; its meaning is stated by the lemmas that follow: start, apply pass, dry run, interrupt and MDC |
| Scrape.ScrapeStepsStart | Movie_AutoScraping.py:164-176 | a missing path exits first; otherwise the dry pass always runs first |
| Scrape.ScrapeStepsApply | Movie_AutoScraping.py:176-185 | the apply pass runs exactly when the path exists, no dry run was asked for and the countdown was not interrupted |
| Scrape.ScrapeStepsDry | Movie_AutoScraping.py:176-193 | a dry run goes straight from the dry pass to the configuration write and the MDC run, or to the exit `modify_config` raises |
| Scrape.ScrapeStepsInterrupted | Movie_AutoScraping.py:178-184 | an interrupt exits after the countdown, before any change, configuration write or MDC run |
| Scrape.ScrapeStepsMdc | Movie_AutoScraping.py:187-193 | MDC runs exactly when the run got that far and `modify_config` does not raise, and then it runs last, right after the configuration write; when it raises, neither the write nor MDC happens |
| Scrape.PercentSourceStopsRun | Movie_AutoScraping.py:187-193 | a run that reaches `modify_config` with the source folder `/data/100%` ends in the interpolation error and never starts MDC |
| Scrape.ScrapeRun | Movie_AutoScraping.py:159-193 | the controller's steps, with the reason `modify_config` raises taken from the folders and the configuration read; the operations of the apply pass; and the configuration written, present exactly when the run reaches `modify_config` and it does not raise |
| Scrape.Passes | Movie_AutoScraping.py:176-184 | the dry pass always runs first; without a dry run the countdown follows, and the run stops exactly when Ctrl+C arrives during it; otherwise the apply pass follows and performs exactly the planned operations, while a dry run or a stopped run performs none (also Movie_Filename_Clean.py lines 148-156) |
| Scrape.Finish | Movie_AutoScraping.py:187-193 | `modify_config` then MDC: a configuration is written exactly when the update does not raise, and then MDC is started from its folder; otherwise the run exits with the update's error |
| AutoScraping.Normalise | Movie_AutoScraping.py:15-30 | the steps before the policy: digit prefix, bracket group, dashes, tag deletion; AutoScraping.NormaliseDropsTag says a `letters-digits-tag.ext` name loses its tag, and AutoScraping.BareNumberExampleNormalise that `SSNI-334.mp4` becomes `SSNI-33.mp4` |
| AutoScraping.CleanFilename | Movie_AutoScraping.py:12-53 | the normalised name with the policy applied; its fixed points and non-fixed points are the example lemmas that follow |
| AutoScraping.NormaliseDropsTag | Movie_AutoScraping.py:16-30 | `letters-digits-tag.ext` loses its tag in the common steps |
| AutoScraping.CTagFixedPoint | Movie_AutoScraping.py:30-35 | under `c`, `SSNI-334-C.mp4` is left as it is: line 30 strips `-C` and lines 34-35 restore it |
| AutoScraping.HackFixedPoint | Movie_AutoScraping.py:30-45 | under `u`, `SSNI-334-hack.mp4` is left as it is |
| AutoScraping.HackCNotFixed | Movie_AutoScraping.py:46-51 | under `uc`, `SSNI-334-hack-c.mp4` gets a second `-hack-c`, because that tag's normalisation is commented out |
| AutoScraping.BareDigitExample | Movie_AutoScraping.py:12-37 | `ABC1.mp4`, a video file name, becomes `ABC-1-C.mp-4` under `c` and `ABC-1.mp-4` under `no`; the first is not a video file name |
| AutoScraping.BareDigitExampleNoMatch | Movie_AutoScraping.py:30 | in `ABC-1.mp-4` no position starts a line-30 match: the one-digit number before the dot is too short to lose a digit, and the digit after the dot lies past it |
| AutoScraping.BareNumberLosesDigit | Movie_AutoScraping.py:30 | under `no`, `SSNI-334.mp4` becomes `SSNI-33.mp4`: the match backtracks into the digit run |
| AutoScraping.Plan | Movie_AutoScraping.py:83-107 | one decision per entry, taken by the extension check first |
| AutoScraping.CleanFolder | Movie_AutoScraping.py:75-107 | `main`: no operation in a dry run, otherwise the plan's operations |
| AutoScraping.Run | Movie_AutoScraping.py:146-193 | the controller with line 146's check corrected (AutoScraping.SwitchCheck): without exactly one switch the run exits at once, otherwise it is the shared controller with this cleaner under the chosen policy; as written every run stops at line 146 (AutoScraping.SwitchCheckAlwaysRaises) |
| AutoScraping.Attribute | Movie_AutoScraping.py:146 | reading an attribute argparse did not set raises `AttributeError` |
| AutoScraping.SwitchCheckAsWritten | Movie_AutoScraping.py:146-148 | the check as written succeeds only if `c`, `u`, `uc` and `no` are attributes |
| AutoScraping.SwitchCheckAlwaysRaises | Movie_AutoScraping.py:138-148 | on the namespace argparse builds, the check as written always raises `AttributeError` |
| AutoScraping.SwitchCheck | Movie_AutoScraping.py:138-148 | the check its message describes, reading `sub`, `no_sub`, `hack` and `hack_sub` |
| AutoScraping.SwitchCheckExactlyOne | Movie_AutoScraping.py:146-148 | the corrected check passes exactly when one of the four switches is set |
| FilenameClean.Dashed | Movie_Filename_Clean.py:15-25 | the strips and the dash step; by FilenameClean.CleanFilenameShape it only inserts dashes into the stripped name |
| FilenameClean.CleanFilename | Movie_Filename_Clean.py:12-31 | the cleaner: its contract is FilenameClean.CleanFilenameShape (dashes only, then `-C` exactly when missing) and FilenameClean.CleanTagOnce, with the docstring's four examples as lemmas |
| FilenameClean.CleanFilenameShape | Movie_Filename_Clean.py:12-31 | after the strips the cleaner only adds dashes, then adds `-C` right before the extension dot exactly when it is missing; a name with an extension always comes out tagged |
| FilenameClean.CleanTagOnce | Movie_Filename_Clean.py:27-29 | tagging a cleaned name again adds nothing |
| FilenameClean.NoBareNumberBranch | Movie_Filename_Clean.py:21-25 | there is no bare-number branch: a name made of letters, one digit and a dot keeps its form |
| FilenameClean.DigitPrefixExample | Movie_Filename_Clean.py:15-16 | `232GANA-334-C.mp4` becomes `GANA-334-C.mp4` |
| FilenameClean.BracketExample | Movie_Filename_Clean.py:18-19 | `[233.com]SSNI-334-C.mp4` becomes `SSNI-334-C.mp4` |
| FilenameClean.DashExample | Movie_Filename_Clean.py:21-23 | `SSNI334C.mp4` becomes `SSNI-334-C.mp4` |
| FilenameClean.TagExample | Movie_Filename_Clean.py:27-29 | `SSNI-334.mp4` becomes `SSNI-334-C.mp4` |
| FilenameClean.Plan | Movie_Filename_Clean.py:61-85 | one decision per entry, taken by the extension check first |
| FilenameClean.CleanFolder | Movie_Filename_Clean.py:53-85 | `main`: no operation in a dry run, otherwise the plan's operations |
| FilenameClean.Run | Movie_Filename_Clean.py:120-165 | the shared controller with this cleaner |
| Utility.LineEnd | utility.py:9 | where `$` can match: the end, or right before a final newline |
| Utility.ExtensionMatchIsRegex | utility.py:9 | the match of `(.*?)(\.\w+)$` found is one, and every span the pattern could match is the one found |
| Utility.SpanIsLastDot | utility.py:9 | the extension starts at the last dot before `$` and runs through word characters up to `$` |
| Utility.DomainPrefixMatches | utility.py:11-15 | the prefix removed is one `[A-Za-z0-9_-]+\.[A-Za-z0-9]+[-_]` match, and it is the only one the anchored pattern can find |
| Utility.CleanFilename | utility.py:3-24 | the cleaner; its contract is Utility.CleanFilenameResult (the error case and the shape of the result), Utility.CleanBodyIsFilter and Utility.CleanFilenameIdempotent |
| Utility.CleanFilenameResult | utility.py:3-24 | the call raises exactly when no extension exists; otherwise the result is the filtered body followed by the verbatim extension, the body holds only `[A-Za-z0-9_-]`, and the result is never longer than the input |
| Utility.CleanBodyIsFilter | utility.py:11-20 | the body is the name without its domain prefix, with every character outside `[A-Za-z0-9_-]` deleted |
| Utility.CleanFilenameIdempotent | utility.py:3-24 | cleaning a cleaned name changes nothing |
| Utility.DomainExample | utility.py:11-15 | `japlib.top-SSNI-334-C.mp4` becomes `SSNI-334-C.mp4` |
| Utility.ChoicesExact | utility.py:35 | the ends each element can reach, in the regex engine's order, are exactly the ends of the spans that element matches |
| Utility.MatchFromSound | utility.py:35-37 | a match found is a decomposition of the name into the pattern's elements |
| Utility.MatchFromComplete | utility.py:35-37 | whenever the name decomposes into the pattern's elements, the matcher finds a match |
| Utility.DecomposesIsFlat | utility.py:35 | a decomposition is exactly a list of cut points where each element matches its span and the last one ends at `$` |
| Utility.ParsedCuts | utility.py:35-37 | the cut points of a match are ordered and end at the end of the name |
| Utility.ParsedGroups | utility.py:35-42 | the seven fields have their shapes: prefix number 3 digits or absent, prefix letters, number 2 to 4 digits, both CD fields lower-case `cd` and one digit or absent, postfix letters or absent, extension a dot and word characters |
| Utility.ParsedSeps | utility.py:35 | each joint between fields is empty, `-` or `_` |
| Utility.ParsedSpells | utility.py:35-37 | the fields, joined by their separators, spell the whole name |
| Utility.SpellingMatches | utility.py:35-37 | any such spelling of the name means the pattern matches |
| Utility.ParseFilename | utility.py:26-57 | the parser; its contract is Utility.ParseFilenameMeaning, with Utility.ParsedGroups for the shape of each field |
| Utility.ParseFilenameMeaning | utility.py:26-57 | a parse spells the name; it raises `ValueError` exactly when no spelling exists; the warning comes exactly when the number has 2 digits |
| Utility.TriesMatch | utility.py:37 | the first choice at every element, when they reach the end, is the match the engine returns |
| Utility.GanaParse | utility.py:35-42 | `232GANA-334-C.mp4` parses to `232`, `GANA`, `334`, no CD, `C` (upper-case is not a CD), no CD, `.mp4`, with no warning |
| Utility.ShortParse | utility.py:35-55 | `ABC-12.mp4` parses, with the warning |
| Utility.ExampleParse | utility.py:78-82 | `example_1234_c.mp4` parses to no prefix number, `example`, `1234`, no CD, `c`, no CD, `.mp4`; the comment on line 82 is stale |
| CleanSmallFile.Plan | clean_small_file.py:46-55 | one decision per entry, by size alone |
| CleanSmallFile.CleanPass | clean_small_file.py:32-81 | a dry run performs no operation and writes the DELETE header and the small files' names in walk order; otherwise it removes the small files and writes nothing |
| CleanSmallFile.DryLogNamesSmallFiles | clean_small_file.py:75-80 | the dry log names exactly the small files, below its one header |
| CleanSmallFile.ApplyRemovesExactlySmall | clean_small_file.py:46-55 | after the apply pass the files left are exactly those that were not small, each as it was |
| CleanSmallFile.SmallSteps | clean_small_file.py:92-131 | the steps of a run; CleanSmallFile.SmallStepsOrder and CleanSmallFile.SmallStepsCountdown state their order and when files are removed |
| CleanSmallFile.SmallStepsOrder | clean_small_file.py:92-131 | the dry report comes first; files are removed exactly when the folder exists, no dry run was asked for and the countdown ran out; any other run ends in an exit |
| CleanSmallFile.SmallStepsCountdown | clean_small_file.py:123-130 | the countdown runs exactly when the folder exists and no dry run was asked for |
| CleanSmallFile.Run | clean_small_file.py:83-132 | the steps of the run, the operations of the apply pass and the log of the dry pass |
| Clean.FolderFor | clean.py:121-132 | a folder is selected exactly when one switch is set |
| Clean.FolderForDistinct | clean.py:125-132 | different switches select different folders |
| Clean.MoveOps | clean.py:84-96 | every move takes a file below the root to the root under its own name |
| Clean.MoveFilesToRoot | clean.py:84-97 | the walk loop emits exactly those moves, skipping files already in the root |
| Clean.MovesFate | clean.py:84-96 | with unique names, each walked file below the root ends up in the root under its own name with its contents, every other file stays where it was, and nothing else appears |
| Clean.MoveToRootEffect | clean.py:84-96 | after the moves every file is in the root, and each original file is there under its name with its contents |
| Clean.RemoveEmptyDirs | clean.py:100-107 | the bottom-up loop removes exactly the directories the pruning removes |
| Clean.Prune | clean.py:100-106 | the bottom-up removal of empty directories; Clean.PruneKeepsExactly states which directories remain and Clean.PruneFlatTree the case where every file is in the root |
| Clean.PruneKeepsExactly | clean.py:100-106 | walking bottom-up, a directory is removed exactly when nothing below it holds a file, and the root is never removed |
| Clean.PruneFlatTree | clean.py:100-106 | once every file is in the root, only the root is left |
| Clean.CleanSteps | clean.py:121-179 | the steps of a run; Clean.CleanStepsOrder states their order |
| Clean.CleanStepsOrder | clean.py:121-179 | moving and pruning happen exactly when one switch is set and the apply pass ran, and then in that order right after it; otherwise the run ends in an exit |
| Clean.Run | clean.py:109-180 | the steps of the run and the operations of the apply, move and prune stages |
| Clean.RunFlattens | clean.py:164-179 | after a full run every remaining file is in the root and not small, every file that was not small is there with its contents, and only the root directory is left |

## Left out

- Characters: `\d`, `\w`, `[A-Za-z]` and `str.lower()` are modelled on ASCII.
  Python's Unicode digits, letters and case mappings are not modelled.
- Regular expressions: only the patterns the scripts use are modelled, each
  by its own matcher. There is no general regex engine.
- File system: `os.walk`, `getsize`, `isfile`, `remove`, `rename`, `listdir`
  and `rmdir` are not called.
  - The walk is an input sequence of entries. Its order is taken as given.
  - The effect of the operations is modelled on an abstract map from
    (directory, name) to (size, is-file).
  - A rename onto an existing name overwrites it, as POSIX `rename` does
    (Fs.Apply). The lemmas about whole plans exclude such collisions by a
    fresh-target hypothesis (FreshTargets, UniqueNames). The
    `FileExistsError` that Windows raises instead is not modelled.
- Logs: the log folder, its timestamped file name and the file writing are
  not modelled. Each log is the sequence of its lines.
- Console output: `print` and the dry-run listing printed by the two MDC
  scripts' `main` are not modelled.
  - The length warning of `parse_filename` is a boolean in the result.
  - Errors are stop reasons or `Err` values with their exception's name, not
    the message text.
- Countdown: `time.sleep`, stdout and KeyboardInterrupt are not modelled. An
  input says after how many seconds Ctrl+C arrives, if at all.
- Foreign calls: argparse parsing, configparser reading and writing, and the
  `subprocess.run` of MDC are not modelled.
  - Parsed arguments and the configuration's sections are inputs.
  - The write and the MDC run are steps with their paths.
  - A failing MDC run is not modelled.
  - Of configparser's checks, only the one an assignment makes is modelled:
    basic interpolation refuses a value with a `%` that is neither `%%`
    nor part of `%(name)s`. A `config.ini` that fails to parse is not.
- `utility.py:59-72`: `modify_filename` only unpacks the fields and returns
  nothing.
- `utility.py:78-82`: the module-level demo prints are not modelled. Their
  parse is stated by ExampleParse.
- Tag reconciliation: u↔hack and the uc/cu/u-c spellings are not modelled,
  because the source has them commented out at `file_clean.py:148-157` and
  `Movie_AutoScraping.py:39-48`.

## Findings

| source | as written | input that shows it | evidently intended | confidence | as-written member | corrected member |
|---|---|---|---|---|---|---|
| Movie_AutoScraping.py:146 | reads `args.c`, `args.u`, `args.uc` and `args.no`. argparse stores these options as `sub`, `hack`, `hack_sub` and `no_sub` (lines 138-141), so the check raises `AttributeError` | any command line argparse accepts, e.g. `-s a -dp b -m c -c` | exit unless exactly one of the four switches is set, as the message on line 147 says | high; not executed | AutoScraping.SwitchCheckAsWritten, AutoScraping.SwitchCheckAlwaysRaises | AutoScraping.SwitchCheck, AutoScraping.SwitchCheckExactlyOne, AutoScraping.Run |
