/** What the `__main__` blocks of the scripts share: the countdown before
    the apply pass, the trailing-slash normalisation of paths, the update
    of the MDC configuration, and the steps a run goes through. */
module Control {
  import opened Wrappers
  import opened Text

  /** Why a run ends early (`sys.exit()`) or crashes. */
  datatype Stop =
    | BadFlags        // not exactly one policy switch
    | NoPath          // the folder does not exist
    | DryRunOnly      // the report was asked for and shown
    | Interrupted     // Ctrl+C during the countdown
    | NoCommonSection // `config['common']` raises KeyError
    | BadInterpolation // configparser refuses a value with a stray `%` (ValueError)

  /** The visible steps of a run, in the order they happen. */
  datatype Step =
    | DryPass                      // the pass with `dry_run=True`
    | Countdown(shown: seq<nat>)   // the seconds the countdown displayed
    | ApplyPass                    // the pass with `dry_run=False`
    | MoveToRoot
    | PruneDirs
    | WriteConfig(path: Str)
    | RunMdc(command: Str)
    | Exit(why: Stop)

  // -------------------------------------------------------------------
  // countdown

  /** Ctrl+C arrives before a countdown of `seconds` ends. */
  predicate Interrupts(interruptAt: Option<nat>, seconds: nat) {
    interruptAt.Some? && interruptAt.value < seconds
  }

  /** What a countdown of `seconds` displays: `seconds`, `seconds - 1`, ...,
      one number per second, cut short after the second in which Ctrl+C
      arrives. */
  function CountdownShown(seconds: nat, interruptAt: Option<nat>): seq<nat> {
    var n := if Interrupts(interruptAt, seconds) then interruptAt.value + 1 else seconds;
    seq(n, j requires 0 <= j < n => seconds - j)
  }

  /** An uninterrupted countdown ends on 1; an interrupted one ends on the
      second Ctrl+C arrived in; either way it starts from `seconds`. */
  lemma CountdownEnds(seconds: nat, interruptAt: Option<nat>)
    requires seconds > 0
    ensures var r := CountdownShown(seconds, interruptAt);
      |r| > 0 && r[0] == seconds && |r| <= seconds &&
      r[|r| - 1] == if Interrupts(interruptAt, seconds) then seconds - interruptAt.value else 1
  {
  }

  /** `countdown(seconds)`: shows `seconds`, `seconds - 1`, ..., `1`, one per
      second.  `interruptAt` is the second (counted from 0) during which
      Ctrl+C arrives, if it does; the `KeyboardInterrupt` ends the loop
      right there. */
  method RunCountdown(seconds: nat, interruptAt: Option<nat>) returns (shown: seq<nat>, interrupted: bool)
    ensures interrupted <==> Interrupts(interruptAt, seconds)
    ensures shown == CountdownShown(seconds, interruptAt)
  {
    shown := [];
    interrupted := false;
    var i := seconds;
    while i > 0
      invariant 0 <= i <= seconds
      invariant |shown| == seconds - i
      invariant forall j :: 0 <= j < |shown| ==> shown[j] == seconds - j
      invariant interruptAt.Some? ==> interruptAt.value >= |shown|
      decreases i
    {
      shown := shown + [i];
      if interruptAt == Some(seconds - i) {
        interrupted := true;
        return;
      }
      i := i - 1;
    }
  }

  // -------------------------------------------------------------------
  // Paths and the MDC configuration

  /** `if not p.endswith('/'): p += '/'`. */
  function EnsureSlash(p: Str): (r: Str)
    ensures EndsWith(r, "/")
    ensures EndsWith(p, "/") ==> r == p
    ensures !EndsWith(p, "/") ==> r == p + "/"
  {
    if EndsWith(p, "/") then p else p + "/"
  }

  /** Normalising twice gives the same path, and only a slash is ever added. */
  lemma EnsureSlashIdempotent(p: Str)
    ensures EnsureSlash(EnsureSlash(p)) == EnsureSlash(p)
    ensures p <= EnsureSlash(p) && |EnsureSlash(p)| <= |p| + 1
  {
  }

  /** An INI file: sections, each mapping keys to values. */
  type Config = map<Str, map<Str, Str>>

  /** What `modify_config` reads and writes. */
  datatype ConfigUpdate = ConfigUpdate(readFrom: Str, writeTo: Str, config: Config)

  const Common: Str := "common"
  const SourceKey: Str := "source_folder"
  const SuccessKey: Str := "success_output_folder"
  const FailedKey: Str := "failed_output_folder"

  // -------------------------------------------------------------------
  // configparser's check of a value it is given

  /** `value.replace('%%', '')`: every escaped percent sign removed, pairs
      taken from the left. */
  function DropEscapes(s: Str): (r: Str)
    ensures |r| <= |s|
    ensures '%' !in s ==> r == s
    ensures forall i :: 0 <= i < |r| ==> r[i] in s
    decreases |s|
  {
    if |s| < 2 then s
    else if s[0] == '%' && s[1] == '%' then DropEscapes(s[2..])
    else [s[0]] + DropEscapes(s[1..])
  }

  predicate IsNotCloseParen(c: char) { c != ')' }

  /** `s[..n]` is one match of `%\(([^)]+)\)s`, the interpolation syntax
      `%(name)s`. */
  predicate IsKeyAt(s: Str, n: nat) {
    5 <= n <= |s| && s[0] == '%' && s[1] == '(' && s[n - 2] == ')' && s[n - 1] == 's' &&
    forall j :: 2 <= j < n - 2 ==> s[j] != ')'
  }

  /** The end of the `%(name)s` match at the start of `s`, if there is one:
      the name runs up to the first `)`, which `s` must follow. */
  function KeyEnd(s: Str): (r: Option<nat>)
    ensures r.Some? ==> IsKeyAt(s, r.value)
    ensures forall n: nat :: IsKeyAt(s, n) ==> r == Some(n)
  {
    if |s| < 2 || s[0] != '%' || s[1] != '(' then None
    else
      var k := RunEnd(s, 2, IsNotCloseParen);
      assert forall n: nat :: IsKeyAt(s, n) ==> n == k + 2 by {
        forall n: nat | IsKeyAt(s, n) ensures n == k + 2 {
          RunEndUnique(s, 2, n - 2, IsNotCloseParen);
        }
      }
      if k > 2 && k + 1 < |s| && s[k] == ')' && s[k + 1] == 's' then Some(k + 2) else None
  }

  /** `_KEYCRE.sub('', value)`: every `%(name)s` removed, matches found from
      the left. */
  function DropKeys(s: Str): (r: Str)
    ensures |r| <= |s|
    ensures '%' !in s ==> r == s
    decreases |s|
  {
    if s == [] then []
    else match KeyEnd(s)
      case Some(n) => DropKeys(s[n..])
      case None => [s[0]] + DropKeys(s[1..])
  }

  /** `BasicInterpolation.before_set`: a value is accepted exactly when no
      `%` is left once the escapes and the `%(name)s` references are gone. */
  predicate Interpolable(v: Str) {
    '%' !in DropKeys(DropEscapes(v))
  }

  /** A value without `%` is always accepted. */
  lemma PlainInterpolable(v: Str)
    requires '%' !in v
    ensures Interpolable(v)
  {
    assert '%' !in DropEscapes(v);
  }

  /** A value whose only `%` starts neither an escape nor a reference is
      refused. */
  lemma StrayPercentRefused(v: Str, i: nat)
    requires i < |v| && v[i] == '%' && forall j :: 0 <= j < |v| && j != i ==> v[j] != '%'
    requires i + 1 == |v| || v[i + 1] != '('
    ensures !Interpolable(v)
  {
    NoEscape(v);
    StrayKept(v, i);
  }

  lemma {:induction false} NoEscape(s: Str)
    requires forall j :: 0 <= j < |s| - 1 ==> !(s[j] == '%' && s[j + 1] == '%')
    ensures DropEscapes(s) == s
    decreases |s|
  {
    if |s| >= 2 {
      NoEscape(s[1..]);
    }
  }

  lemma {:induction false} StrayKept(s: Str, i: nat)
    requires i < |s| && s[i] == '%' && forall j :: 0 <= j < |s| && j != i ==> s[j] != '%'
    requires i + 1 == |s| || s[i + 1] != '('
    ensures '%' in DropKeys(s)
    decreases |s|
  {
    assert KeyEnd(s).None?;
    if i == 0 {
      assert DropKeys(s)[0] == '%';
    } else {
      StrayKept(s[1..], i - 1);
      assert DropKeys(s) == [s[0]] + DropKeys(s[1..]);
    }
  }

  /** Text before the first `%` is kept as it is by both steps. */
  lemma {:induction false} PlainPrefixKept(a: Str, t: Str)
    requires '%' !in a
    ensures DropEscapes(a + t) == a + DropEscapes(t)
    ensures DropKeys(a + t) == a + DropKeys(t)
    decreases |a|
  {
    if a != [] {
      var s := a + t;
      assert s[0] == a[0] && s[1..] == a[1..] + t && a == [a[0]] + a[1..];
      assert a[0] != '%';
      PlainPrefixKept(a[1..], t);
      if |s| < 2 {
        assert t == [] && a == s;
      } else {
        assert DropEscapes(s) == [s[0]] + DropEscapes(s[1..]);
      }
      assert KeyEnd(s).None?;
      assert DropKeys(s) == [s[0]] + DropKeys(s[1..]);
    } else {
      assert a + t == t;
    }
  }

  /** An escaped percent sign is accepted: `a%%b` with no other `%`. */
  lemma EscapeAccepted(a: Str, b: Str)
    requires '%' !in a && '%' !in b
    ensures Interpolable(a + "%%" + b)
  {
    var t := "%%" + b;
    assert a + "%%" + b == a + t;
    PlainPrefixKept(a, t);
    assert t[2..] == b;
    assert DropEscapes(t) == b;
  }

  /** A `%(name)s` reference is accepted: `%(name)s` followed by plain text. */
  lemma KeyAccepted(name: Str, b: Str)
    requires name != [] && ')' !in name && '%' !in name && '%' !in b
    ensures Interpolable("%(" + name + ")s" + b)
  {
    var v := "%(" + name + ")s" + b;
    var n := |name| + 4;
    assert forall j :: 2 <= j < n - 2 ==> v[j] == name[j - 2];
    NoEscape(v);
    assert IsKeyAt(v, n);
    assert v[n..] == b;
    assert DropKeys(v) == DropKeys(b);
  }

  // -------------------------------------------------------------------
  // modify_config

  /** Why `modify_config(c, f, o)` raises, given `read`, if it does: the
      lookup of section `common` comes first, then the three assignments,
      each checked by configparser. */
  function ConfigError(f: Str, o: Str, read: Config): (r: Option<Stop>)
    ensures r.None? <==>
      Common in read && Interpolable(EnsureSlash(f)) && Interpolable(o) && Interpolable(EnsureSlash(f) + "fail")
    ensures Common !in read ==> r == Some(NoCommonSection)
    ensures Common in read && r.Some? ==> r == Some(BadInterpolation)
  {
    if Common !in read then Some(NoCommonSection)
    else if !Interpolable(EnsureSlash(f)) || !Interpolable(o) || !Interpolable(EnsureSlash(f) + "fail")
    then Some(BadInterpolation)
    else None
  }

  /** `modify_config(c, f, o)`, given `read`, the content of `c + 'config.ini'`:
      the three folders of section `common` are set and the result is written
      to `./config.ini`; without a `common` section the lookup raises, and a
      folder configparser refuses stops it before anything is written. */
  function ModifyConfig(c: Str, f: Str, o: Str, read: Config): (r: Result<ConfigUpdate, Stop>)
    ensures r.Err? <==> ConfigError(f, o, read).Some?
    ensures r.Err? ==> ConfigError(f, o, read) == Some(r.error)
    ensures r.Ok? ==> r.value.readFrom == c + "config.ini" && r.value.writeTo == "./config.ini"
    ensures r.Ok? ==> r.value.config.Keys == read.Keys
    ensures r.Ok? ==> forall s :: s in read && s != Common ==> r.value.config[s] == read[s]
    ensures r.Ok? ==>
      var before, after := read[Common], r.value.config[Common];
      after.Keys == before.Keys + {SourceKey, SuccessKey, FailedKey} &&
      after[SourceKey] == EnsureSlash(f) && after[SuccessKey] == o &&
      after[FailedKey] == EnsureSlash(f) + "fail" &&
      (forall k :: k in before && k != SourceKey && k != SuccessKey && k != FailedKey ==> after[k] == before[k])
  {
    var error := ConfigError(f, o, read);
    if error.Some? then Err(error.value)
    else
      var source := EnsureSlash(f);
      var failed := source + "fail";
      var common := read[Common][SourceKey := source][SuccessKey := o][FailedKey := failed];
      Ok(ConfigUpdate(c + "config.ini", "./config.ini", read[Common := common]))
  }

  /** A source folder with a bare `%`, such as `/data/100%/`, makes
      `modify_config` raise before the configuration is written. */
  lemma PercentSourceRefused(c: Str, o: Str, read: Config)
    requires Common in read
    ensures ModifyConfig(c, "/data/100%", o, read) == Err(BadInterpolation)
  {
    var v := "/data/100%/";
    assert EnsureSlash("/data/100%") == v;
    StrayPercentRefused(v, 9);
  }

  /** The failed folder always sits directly inside the source folder. */
  lemma FailedInsideSource(c: Str, f: Str, o: Str, read: Config)
    requires ModifyConfig(c, f, o, read).Ok?
    ensures var common := ModifyConfig(c, f, o, read).value.config[Common];
      common[FailedKey] == common[SourceKey] + "fail" && EndsWith(common[SourceKey], "/")
  {
  }
}
