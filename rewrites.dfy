/** The regular-expression rewrites the filename cleaners chain together, each
    written out as the function it computes for its one pattern.

    Anchored substitutions (`^...`) can match only at position 0 and are
    written directly.  Every unanchored `re.sub` goes through `SubFrom`, which
    scans the string left to right exactly as `re.sub` does: at each position
    it asks the pattern's own matcher `MatchAt` for the leftmost-first match,
    emits the replacement and resumes after the match, or copies one
    character and moves on. */
module Rewrites {
  import opened Wrappers
  import opened Text

  predicate IsNotKept(c: char) { !IsKept(c) }

  predicate IsNotDash(c: char) { c != '-' }

  // -------------------------------------------------------------------
  // Anchored rewrites

  /** `re.sub(r"^\d+", "", s)`: drop the longest leading run of digits. */
  function StripLeadingDigits(s: Str): (r: Str)
    ensures |r| <= |s| && s == s[..|s| - |r|] + r
    ensures AllDigits(s[..|s| - |r|])
    ensures r == [] || !IsDigit(r[0])
  {
    s[RunEnd(s, 0, IsDigit)..]
  }

  /** Where the lazy `.*?\]` starting at `i` stops: the first `]`, unless a
      newline (which `.` does not match) comes before it. */
  function BracketClose(s: Str, i: nat): (r: Option<nat>)
    requires i <= |s|
    ensures r.Some? ==> i <= r.value < |s| && s[r.value] == ']'
    ensures r.Some? ==> forall k :: i <= k < r.value ==> s[k] != ']' && s[k] != '\n'
    ensures r.None? ==> forall j :: i <= j < |s| && s[j] == ']' ==>
                          exists k :: i <= k < j && s[k] == '\n'
    decreases |s| - i
  {
    if i == |s| then None
    else if s[i] == ']' then Some(i)
    else if s[i] == '\n' then None
    else BracketClose(s, i + 1)
  }

  /** The lazy match stops at the first `]` when no newline precedes it. */
  lemma {:induction false} BracketCloseAt(s: Str, i: nat, j: nat)
    requires i <= j < |s| && s[j] == ']'
    requires forall k :: i <= k < j ==> s[k] != ']' && s[k] != '\n'
    ensures BracketClose(s, i) == Some(j)
    decreases j - i
  {
    if i < j {
      BracketCloseAt(s, i + 1, j);
    }
  }

  /** `re.sub(r"^\[.*?\]", "", s)`: drop a leading `[` ... first `]` group. */
  function StripLeadingBracket(s: Str): (r: Str)
    ensures r == s || exists j :: 0 < j < |s| && s[0] == '[' && s[j] == ']' && r == s[j + 1..] &&
                                  forall k :: 0 < k < j ==> s[k] != ']' && s[k] != '\n'
    ensures (|s| > 0 && s[0] == '[' &&
             exists j :: 0 < j < |s| && s[j] == ']' && forall k :: 0 < k < j ==> s[k] != '\n')
            ==> |r| < |s|
  {
    if |s| > 0 && s[0] == '[' then
      match BracketClose(s, 1)
      case Some(j) => s[j + 1..]
      case None => s
    else s
  }

  /** `cd\d` under `re.IGNORECASE`, starting at `i`. */
  predicate CdAt(s: Str, i: nat) {
    i + 2 < |s| && ToLower(s[i]) == 'c' && ToLower(s[i + 1]) == 'd' && IsDigit(s[i + 2])
  }

  function FindCd(s: Str, i: nat): (r: Option<nat>)
    requires i <= |s|
    ensures r.Some? ==> i <= r.value && CdAt(s, r.value)
    ensures r.Some? ==> forall k :: i <= k < r.value ==> !CdAt(s, k)
    ensures r.None? ==> forall k :: i <= k < |s| ==> !CdAt(s, k)
    decreases |s| - i
  {
    if i == |s| then None
    else if CdAt(s, i) then Some(i)
    else FindCd(s, i + 1)
  }

  /** `re.search(r"(cd\d+)", s, re.IGNORECASE)`: group 1 of the leftmost
      match, in its original case, or `''` when there is none. */
  function CdNumber(s: Str): (r: Str)
    ensures r == [] <==> forall k :: 0 <= k < |s| ==> !CdAt(s, k)
  {
    match FindCd(s, 0)
    case None => []
    case Some(i) => s[i..RunEnd(s, i + 2, IsDigit)]
  }

  /** A captured marker is the leftmost `cd` followed by a digit, in its
      original case, with all the digits that follow it. */
  lemma CdNumberMatch(s: Str)
    requires CdNumber(s) != []
    ensures var r := CdNumber(s);
      exists i :: 0 <= i && i + |r| <= |s| && CdAt(s, i) && r == s[i..i + |r|] &&
                  (forall k :: 0 <= k < i ==> !CdAt(s, k)) &&
                  |r| >= 3 && AllDigits(r[2..]) && (i + |r| == |s| || !IsDigit(s[i + |r|]))
  {
    var r := CdNumber(s);
    var i := FindCd(s, 0).value;
    var e := RunEnd(s, i + 2, IsDigit);
    assert r == s[i..e] && |r| == e - i;
    assert r[2..] == s[i + 2..e];
    assert AllDigits(r[2..]);
    assert i + |r| == e;
  }

  /** `re.search(r"-c\.(?=[^.]+$)", s, re.I)`. */
  predicate HasCTag(s: Str) {
    exists i :: 0 <= i && i + 2 < |s| && s[i] == '-' && ToLower(s[i + 1]) == 'c' && s[i + 2] == '.' &&
                ExtDot(s) == Some(i + 2)
  }

  /** The search succeeds exactly when the two characters before the
      extension dot are `-c` or `-C`. */
  lemma HasCTagAtExtension(s: Str)
    ensures HasCTag(s) <==>
      (ExtDot(s).Some? && ExtDot(s).value >= 2 &&
       s[ExtDot(s).value - 2] == '-' && ToLower(s[ExtDot(s).value - 1]) == 'c')
  {
    if ExtDot(s).Some? && ExtDot(s).value >= 2 &&
       s[ExtDot(s).value - 2] == '-' && ToLower(s[ExtDot(s).value - 1]) == 'c' {
      var i := ExtDot(s).value - 2;
      assert s[i] == '-' && s[i + 2] == '.';
    }
  }

  /** A leading group closed at `j` is dropped with its brackets. */
  lemma StripLeadingBracketAt(s: Str, j: nat)
    requires 0 < j < |s| && s[0] == '[' && s[j] == ']'
    requires forall k :: 0 < k < j ==> s[k] != ']' && s[k] != '\n'
    ensures StripLeadingBracket(s) == s[j + 1..]
  {
    BracketCloseAt(s, 1, j);
  }

  /** `[g]rest` loses its group when `g` holds no `]` and no newline. */
  lemma StripBracketGroup(g: Str, rest: Str)
    requires ']' !in g && '\n' !in g
    ensures StripLeadingBracket("[" + g + "]" + rest) == rest
  {
    var s := "[" + g + "]" + rest;
    var j := |g| + 1;
    forall k | 0 < k < j ensures s[k] != ']' && s[k] != '\n' {
      assert s[k] == g[k - 1];
    }
    StripLeadingBracketAt(s, j);
    assert s[j + 1..] == rest;
  }

  // -------------------------------------------------------------------
  // Unanchored rewrites

  datatype Pattern =
    | LettersDigitsC          // ([A-Za-z]+)(\d+)(C\.)       -> \1-\2-\3
    | LettersDigitsDashC      // ([A-Za-z]+)(\d+)-C\.        -> \1-\2-C.
    | LettersDigits           // ([A-Za-z]+)(\d+)            -> \1-\2
    | NumberThenAnything      // (\d+).*?(?=\.[^.]+$)        -> \1
    | NumberThenTag           // (\d+)-?[^-.]+(?=\.[^.]+$)   -> \1
    | ExtensionDot(tag: Str)  // \.(?=[^.]+$)                -> <tag>.
    | NotKeptRun              // [^a-zA-Z0-9-_]+             -> (nothing)

  predicate NoDashOrDot(t: Str) { forall i :: 0 <= i < |t| ==> t[i] != '-' && t[i] != '.' }

  /** The match of `pat` that `re` finds when it tries position `p`: its end
      and the replacement text.

      `[A-Za-z]+` and `\d+` are greedy, and giving back characters never
      helps them (a shorter letter run is followed by a letter where a digit
      is needed, a shorter digit run by a digit where `C` or `-` is needed),
      so each match is decided by the two maximal runs.

      In `(\d+).*?(?=\.[^.]+$)` the lookahead holds only at the extension
      dot, so the lazy `.*?` reaches it unless a newline is in the way.

      In `(\d+)-?[^-.]+(?=\.[^.]+$)` the text between the digits and the
      extension dot must be one optional dash and a non-empty run free of
      `-` and `.`.  When nothing at all follows the digits, backtracking
      gives the last digit of the run to `[^-.]+`, so that digit is deleted
      (the run must then have at least two digits). */
  function MatchAt(pat: Pattern, s: Str, p: nat): (m: Option<(nat, Str)>)
    requires p < |s|
    ensures m.Some? ==> p < m.value.0 <= |s|
  {
    match pat
    case LettersDigitsC => MatchLettersDigitsC(s, p)
    case LettersDigitsDashC => MatchLettersDigitsDashC(s, p)
    case LettersDigits => MatchLettersDigits(s, p)
    case NumberThenAnything => MatchNumberThenAnything(s, p)
    case NumberThenTag => MatchNumberThenTag(s, p)
    case ExtensionDot(tag) => if ExtDot(s) == Some(p) then Some((p + 1, tag + ".")) else None
    case NotKeptRun => if IsKept(s[p]) then None else Some((RunEnd(s, p, IsNotKept), []))
  }

  function MatchLettersDigitsC(s: Str, p: nat): (m: Option<(nat, Str)>)
    requires p < |s|
    ensures m.Some? ==> p < m.value.0 <= |s|
  {
    var a := RunEnd(s, p, IsLetter);
    var b := RunEnd(s, a, IsDigit);
    if p < a < b && b + 1 < |s| && s[b] == 'C' && s[b + 1] == '.'
    then Some((b + 2, s[p..a] + "-" + s[a..b] + "-C."))
    else None
  }

  function MatchLettersDigitsDashC(s: Str, p: nat): (m: Option<(nat, Str)>)
    requires p < |s|
    ensures m.Some? ==> p < m.value.0 <= |s|
  {
    var a := RunEnd(s, p, IsLetter);
    var b := RunEnd(s, a, IsDigit);
    if p < a < b && b + 2 < |s| && s[b] == '-' && s[b + 1] == 'C' && s[b + 2] == '.'
    then Some((b + 3, s[p..a] + "-" + s[a..b] + "-C."))
    else None
  }

  function MatchLettersDigits(s: Str, p: nat): (m: Option<(nat, Str)>)
    requires p < |s|
    ensures m.Some? ==> p < m.value.0 <= |s|
  {
    var a := RunEnd(s, p, IsLetter);
    var b := RunEnd(s, a, IsDigit);
    if p < a < b then Some((b, s[p..a] + "-" + s[a..b])) else None
  }

  function MatchNumberThenAnything(s: Str, p: nat): (m: Option<(nat, Str)>)
    requires p < |s|
    ensures m.Some? ==> p < m.value.0 <= |s|
  {
    var q := RunEnd(s, p, IsDigit);
    match ExtDot(s)
    case None => None
    case Some(k) =>
      if p < q <= k && '\n' !in s[q..k] then Some((k, s[p..q])) else None
  }

  function MatchNumberThenTag(s: Str, p: nat): (m: Option<(nat, Str)>)
    requires p < |s|
    ensures m.Some? ==> p < m.value.0 <= |s|
  {
    var q := RunEnd(s, p, IsDigit);
    match ExtDot(s)
    case None => None
    case Some(k) =>
      if q == p || k < q then None
      else if q < k && s[q] == '-' then
        (if q + 1 < k && NoDashOrDot(s[q + 1..k]) then Some((k, s[p..q])) else None)
      else if q < k then
        (if NoDashOrDot(s[q..k]) then Some((k, s[p..q])) else None)
      else if q - p >= 2 then Some((k, s[p..q - 1]))
      else None
  }

  /** What a pattern does at each position of one string: the end of the
      match found there and its replacement, or nothing. */
  type Matcher = nat -> Option<(nat, Str)>

  /** Every match ends after it starts and within the string. */
  ghost predicate Progresses(m: Matcher, n: nat) {
    forall j: nat :: j < n && m(j).Some? ==> j < m(j).value.0 <= n
  }

  function Matches(pat: Pattern, s: Str): (m: Matcher)
    ensures Progresses(m, |s|)
  {
    (j: nat) => if j < |s| then MatchAt(pat, s, j) else None
  }

  /** The `re.sub` loop over `s[p:]`. */
  function Scan(s: Str, p: nat, m: Matcher): Str
    requires p <= |s| && Progresses(m, |s|)
    decreases |s| - p
  {
    if p == |s| then []
    else match m(p)
      case Some((e, rep)) => rep + Scan(s, e, m)
      case None => [s[p]] + Scan(s, p + 1, m)
  }

  /** `re.sub(pat, repl, s[p:])`. */
  function SubFrom(pat: Pattern, s: Str, p: nat): Str
    requires p <= |s|
  {
    Scan(s, p, Matches(pat, s))
  }

  function Sub(pat: Pattern, s: Str): Str {
    SubFrom(pat, s, 0)
  }

  /** Where nothing matches from `p` on, the text is copied. */
  lemma {:induction false} ScanNoMatch(s: Str, p: nat, m: Matcher)
    requires p <= |s| && Progresses(m, |s|)
    requires forall j :: p <= j < |s| ==> m(j).None?
    ensures Scan(s, p, m) == s[p..]
    decreases |s| - p
  {
    if p < |s| {
      ScanNoMatch(s, p + 1, m);
      assert s[p..] == [s[p]] + s[p + 1..];
    }
  }

  /** Where exactly one match starts from `p` on, it is replaced once. */
  lemma {:induction false} ScanOneMatch(s: Str, p: nat, m: Matcher, k: nat)
    requires p <= k < |s| && Progresses(m, |s|)
    requires forall j :: p <= j < k ==> m(j).None?
    requires m(k).Some?
    requires forall j :: m(k).value.0 <= j < |s| ==> m(j).None?
    ensures Scan(s, p, m) == s[p..k] + m(k).value.1 + s[m(k).value.0..]
    decreases k - p
  {
    var e, rep := m(k).value.0, m(k).value.1;
    if p == k {
      ScanNoMatch(s, e, m);
      assert s[p..k] == [];
    } else {
      ScanOneMatch(s, p + 1, m, k);
      assert [s[p]] + s[p + 1..k] == s[p..k];
      assert [s[p]] + (s[p + 1..k] + rep + s[e..]) == s[p..k] + rep + s[e..];
    }
  }

  /** When every replacement keeps the characters satisfying `f` of the text
      it replaces, so does the whole scan. */
  lemma {:induction false} ScanKeepsFilter(s: Str, p: nat, m: Matcher, f: char -> bool)
    requires p <= |s| && Progresses(m, |s|)
    requires forall j :: p <= j < |s| && m(j).Some? ==>
      Filter(m(j).value.1, f) == Filter(s[j..m(j).value.0], f)
    ensures Filter(Scan(s, p, m), f) == Filter(s[p..], f)
    decreases |s| - p
  {
    if p < |s| {
      match m(p)
      case Some((e, rep)) =>
        assert Scan(s, p, m) == rep + Scan(s, e, m);
        ScanKeepsFilter(s, e, m, f);
        assert s[p..] == s[p..e] + s[e..];
        FilterJoin(rep, Scan(s, e, m), s[p..e], s[e..], f);
      case None =>
        assert Scan(s, p, m) == [s[p]] + Scan(s, p + 1, m);
        ScanKeepsFilter(s, p + 1, m, f);
        assert s[p..] == [s[p]] + s[p + 1..];
        FilterJoin([s[p]], Scan(s, p + 1, m), [s[p]], s[p + 1..], f);
    }
  }

  /** Texts that filter alike, joined, filter alike. */
  lemma FilterJoin(a: Str, b: Str, x: Str, y: Str, f: char -> bool)
    requires Filter(a, f) == Filter(x, f) && Filter(b, f) == Filter(y, f)
    ensures Filter(a + b, f) == Filter(x + y, f)
  {
    FilterConcat(a, b, f);
    FilterConcat(x, y, f);
  }

  lemma SubFromNoMatch(pat: Pattern, s: Str, p: nat)
    requires p <= |s|
    requires forall j :: p <= j < |s| ==> MatchAt(pat, s, j).None?
    ensures SubFrom(pat, s, p) == s[p..]
  {
    ScanNoMatch(s, p, Matches(pat, s));
  }

  lemma SubFromOneMatch(pat: Pattern, s: Str, p: nat, k: nat)
    requires p <= k < |s|
    requires forall j :: p <= j < k ==> MatchAt(pat, s, j).None?
    requires MatchAt(pat, s, k).Some?
    requires forall j :: MatchAt(pat, s, k).value.0 <= j < |s| ==> MatchAt(pat, s, j).None?
    ensures SubFrom(pat, s, p) == s[p..k] + MatchAt(pat, s, k).value.1 + s[MatchAt(pat, s, k).value.0..]
  {
    ScanOneMatch(s, p, Matches(pat, s), k);
  }

  /** One step of the scan. */
  lemma SubFromStep(pat: Pattern, s: Str, p: nat)
    requires p < |s|
    ensures MatchAt(pat, s, p).Some? ==>
      SubFrom(pat, s, p) == MatchAt(pat, s, p).value.1 + SubFrom(pat, s, MatchAt(pat, s, p).value.0)
    ensures MatchAt(pat, s, p).None? ==> SubFrom(pat, s, p) == [s[p]] + SubFrom(pat, s, p + 1)
  {
  }

  // -------------------------------------------------------------------
  // The rewrites built on the scanner

  /** `re.sub(r"\.(?=[^.]+$)", tag + ".", s)`. */
  function InsertBeforeExt(s: Str, tag: Str): Str {
    Sub(ExtensionDot(tag), s)
  }

  /** Only the extension dot matches, so the tag lands just before it, and a
      name without an extension is left alone. */
  lemma InsertBeforeExtAt(s: Str, tag: Str)
    ensures ExtDot(s).None? ==> InsertBeforeExt(s, tag) == s
    ensures ExtDot(s).Some? ==>
      InsertBeforeExt(s, tag) == s[..ExtDot(s).value] + tag + s[ExtDot(s).value..]
  {
    match ExtDot(s)
    case None =>
      SubFromNoMatch(ExtensionDot(tag), s, 0);
    case Some(k) =>
      SubFromOneMatch(ExtensionDot(tag), s, 0, k);
      assert s[k..] == "." + s[k + 1..];
  }

  /** Policy `c`: `-C` goes before the extension unless `-c.` is already there. */
  function AddCTag(s: Str): Str {
    if HasCTag(s) then s else InsertBeforeExt(s, "-C")
  }

  /** After `AddCTag` a name with an extension carries the tag, and `-C` was
      inserted exactly when the tag was missing. */
  lemma AddCTagEnsuresTag(s: Str)
    ensures HasCTag(s) ==> AddCTag(s) == s
    ensures !HasCTag(s) && ExtDot(s).Some? ==>
      AddCTag(s) == s[..ExtDot(s).value] + "-C" + s[ExtDot(s).value..]
    ensures !HasCTag(s) && ExtDot(s).None? ==> AddCTag(s) == s
    ensures ExtDot(s).Some? ==> HasCTag(AddCTag(s))
  {
    InsertBeforeExtAt(s, "-C");
    if !HasCTag(s) && ExtDot(s).Some? {
      var k := ExtDot(s).value;
      var r := s[..k] + "-C" + s[k..];
      assert r[k + 2..] == s[k..];
      ExtDotUnique(r, k + 2);
      HasCTagAtExtension(r);
    }
  }

  /** `re.match(r"[A-Za-z]+\d\.", s)`: letters, one digit, a dot. */
  predicate StartsLettersDigitDot(s: Str) {
    var a := RunEnd(s, 0, IsLetter);
    0 < a && a + 1 < |s| && IsDigit(s[a]) && s[a + 1] == '.'
  }

  /** The two `re.match`/`re.sub` branches of Movie_Filename_Clean.py that add
      missing dashes around the number. */
  function AddDashes(s: Str): Str {
    if |s| > 0 && MatchAt(LettersDigitsC, s, 0).Some? then Sub(LettersDigitsC, s)
    else if |s| > 0 && MatchAt(LettersDigitsDashC, s, 0).Some? then Sub(LettersDigitsDashC, s)
    else s
  }

  /** The three-branch version of file_clean.py and Movie_AutoScraping.py:
      the third branch puts a dash between every letter run and the digit
      run that follows it, anywhere in the name. */
  function AddDashesOrBare(s: Str): Str {
    if |s| > 0 && MatchAt(LettersDigitsC, s, 0).Some? then Sub(LettersDigitsC, s)
    else if |s| > 0 && MatchAt(LettersDigitsDashC, s, 0).Some? then Sub(LettersDigitsDashC, s)
    else if StartsLettersDigitDot(s) then Sub(LettersDigits, s)
    else s
  }

  /** `re.sub(r'(\d+).*?(?=\.[^.]+$)', r'\1', s)` (file_clean.py). */
  function DeleteAfterNumber(s: Str): Str {
    Sub(NumberThenAnything, s)
  }

  /** `re.sub(r"(\d+)-?[^-.]+(?=\.[^.]+$)", r"\1", s)` (Movie_AutoScraping.py). */
  function DeleteTagAfterNumber(s: Str): Str {
    Sub(NumberThenTag, s)
  }

  /** `re.sub(r'[^a-zA-Z0-9-_]+', '', s)` (utility.py). */
  function DeleteNotKept(s: Str): Str {
    Sub(NotKeptRun, s)
  }

  /** `re.sub(r'^[^a-zA-Z0-9-_]+', '', s)` (utility.py). */
  function StripLeadingNotKept(s: Str): (r: Str)
    ensures |r| <= |s| && s == s[..|s| - |r|] + r
    ensures forall i :: 0 <= i < |s| - |r| ==> !IsKept(s[i])
    ensures r == [] || IsKept(r[0])
  {
    s[RunEnd(s, 0, IsNotKept)..]
  }

  // -------------------------------------------------------------------
  // What the scanned rewrites do, in closed form

  /** The two number patterns need a digit where they start... */
  lemma NumberMatchesNotBefore(pat: Pattern, s: Str, p: nat)
    requires pat.NumberThenAnything? || pat.NumberThenTag?
    requires p <= |s| && forall j :: 0 <= j < p ==> !IsDigit(s[j])
    ensures forall j :: 0 <= j < p ==> MatchAt(pat, s, j).None?
  {
    forall j | 0 <= j < p ensures MatchAt(pat, s, j).None? {
      assert RunEnd(s, j, IsDigit) == j;
    }
  }

  /** ... and end at the extension dot, so none starts at or after it. */
  lemma NumberMatchesNotAfterDot(pat: Pattern, s: Str)
    requires pat.NumberThenAnything? || pat.NumberThenTag?
    requires ExtDot(s).Some?
    ensures forall j :: ExtDot(s).value <= j < |s| ==> MatchAt(pat, s, j).None?
  {
    var k := ExtDot(s).value;
    forall j | k <= j < |s| ensures MatchAt(pat, s, j).None? {
      var qj := RunEnd(s, j, IsDigit);
      if j == k { assert qj == j; } else if qj > j { assert qj > k; }
    }
  }

  /** `(\d+).*?(?=\.[^.]+$)` on a name whose first digit `p` comes before the
      extension dot: everything from the end of that digit run up to the
      extension dot is deleted. */
  lemma DeleteAfterNumberAt(s: Str, p: nat)
    requires ExtDot(s).Some? && p < ExtDot(s).value
    requires IsDigit(s[p]) && forall j :: 0 <= j < p ==> !IsDigit(s[j])
    requires '\n' !in s
    ensures RunEnd(s, p, IsDigit) <= ExtDot(s).value
    ensures DeleteAfterNumber(s) == s[..RunEnd(s, p, IsDigit)] + s[ExtDot(s).value..]
  {
    var q := RunEnd(s, p, IsDigit);
    AnyMatchAt(s, p);
    AnyMatchDeleted(s, p);
    Reassemble(s, p, q, ExtDot(s).value, DeleteAfterNumber(s), s[p..q]);
  }

  /** At the first digit the lazy match runs to the extension dot. */
  lemma AnyMatchAt(s: Str, p: nat)
    requires ExtDot(s).Some? && p < ExtDot(s).value && IsDigit(s[p]) && '\n' !in s
    ensures RunEnd(s, p, IsDigit) <= ExtDot(s).value
    ensures MatchAt(NumberThenAnything, s, p) == Some((ExtDot(s).value, s[p..RunEnd(s, p, IsDigit)]))
  {
    var k := ExtDot(s).value;
    var q := RunEnd(s, p, IsDigit);
    assert q <= k;
    assert '\n' !in s[q..k];
    assert MatchAt(NumberThenAnything, s, p) == MatchNumberThenAnything(s, p);
  }

  /** That match at the first digit is the only one. */
  lemma AnyMatchDeleted(s: Str, p: nat)
    requires ExtDot(s).Some? && p < ExtDot(s).value
    requires IsDigit(s[p]) && forall j :: 0 <= j < p ==> !IsDigit(s[j])
    requires MatchAt(NumberThenAnything, s, p) == Some((ExtDot(s).value, s[p..RunEnd(s, p, IsDigit)]))
    ensures DeleteAfterNumber(s) == s[..p] + s[p..RunEnd(s, p, IsDigit)] + s[ExtDot(s).value..]
  {
    NumberMatchesNotBefore(NumberThenAnything, s, p);
    NumberMatchesNotAfterDot(NumberThenAnything, s);
    SubFromOneMatch(NumberThenAnything, s, 0, p);
  }

  /** With no digit before the extension dot, nothing is deleted. */
  lemma DeleteAfterNumberNoDigit(s: Str)
    requires ExtDot(s).None? || forall j :: 0 <= j < ExtDot(s).value ==> !IsDigit(s[j])
    ensures DeleteAfterNumber(s) == s
  {
    forall j | 0 <= j < |s| ensures MatchAt(NumberThenAnything, s, j).None? {
      var qj := RunEnd(s, j, IsDigit);
      if ExtDot(s).Some? && j < ExtDot(s).value { assert qj == j; }
    }
    SubFromNoMatch(NumberThenAnything, s, 0);
  }

  /** `(\d+)-?[^-.]+(?=\.[^.]+$)` on a name whose first digit `p` comes before
      the extension dot, with the digit run ending at `q`: a `-tag` after
      the number is deleted, ... */
  lemma DeleteDashTag(s: Str, p: nat, q: nat)
    requires ExtDot(s).Some? && p < ExtDot(s).value
    requires IsDigit(s[p]) && forall j :: 0 <= j < p ==> !IsDigit(s[j])
    requires q == RunEnd(s, p, IsDigit) && q + 1 < ExtDot(s).value && s[q] == '-'
    requires NoDashOrDot(s[q + 1..ExtDot(s).value])
    ensures DeleteTagAfterNumber(s) == s[..q] + s[ExtDot(s).value..]
  {
    TagMatchDash(s, p, q);
    TagCaseKept(s, p, q);
  }

  /** ... so is a dash-free tag right after the number, ... */
  lemma DeletePlainTag(s: Str, p: nat, q: nat)
    requires ExtDot(s).Some? && p < ExtDot(s).value
    requires IsDigit(s[p]) && forall j :: 0 <= j < p ==> !IsDigit(s[j])
    requires q == RunEnd(s, p, IsDigit) && q < ExtDot(s).value && s[q] != '-'
    requires NoDashOrDot(s[q..ExtDot(s).value])
    ensures DeleteTagAfterNumber(s) == s[..q] + s[ExtDot(s).value..]
  {
    TagMatchPlain(s, p, q);
    TagCaseKept(s, p, q);
  }

  /** ... a number of two or more digits right before the dot loses its
      last digit, ... */
  lemma DeleteLastDigit(s: Str, p: nat)
    requires ExtDot(s).Some? && p < ExtDot(s).value
    requires IsDigit(s[p]) && forall j :: 0 <= j < p ==> !IsDigit(s[j])
    requires RunEnd(s, p, IsDigit) == ExtDot(s).value && ExtDot(s).value - p >= 2
    ensures DeleteTagAfterNumber(s) == s[..ExtDot(s).value - 1] + s[ExtDot(s).value..]
  {
    TagMatchLast(s, p);
    TagCaseKept(s, p, ExtDot(s).value - 1);
  }

  /** ... and a one-digit number right before the dot is left alone. */
  lemma KeepOneDigit(s: Str, p: nat)
    requires ExtDot(s).Some? && p < ExtDot(s).value
    requires IsDigit(s[p]) && forall j :: 0 <= j < p ==> !IsDigit(s[j])
    requires p + 1 == ExtDot(s).value
    ensures DeleteTagAfterNumber(s) == s
  {
    TagMatchOne(s, p);
    TagMatchDeleted(s, p, MatchAt(NumberThenTag, s, p));
  }

  /** A match at the first digit that keeps `s[p..q]` leaves the front up
      to `q` and the extension. */
  lemma TagCaseKept(s: Str, p: nat, q: nat)
    requires ExtDot(s).Some? && p < ExtDot(s).value && p <= q <= ExtDot(s).value
    requires IsDigit(s[p]) && forall j :: 0 <= j < p ==> !IsDigit(s[j])
    requires MatchAt(NumberThenTag, s, p) == Some((ExtDot(s).value, s[p..q]))
    ensures DeleteTagAfterNumber(s) == s[..q] + s[ExtDot(s).value..]
  {
    var m := MatchAt(NumberThenTag, s, p);
    TagMatchDeleted(s, p, m);
    Reassemble(s, p, q, ExtDot(s).value, DeleteTagAfterNumber(s), m.value.1);
  }

  /** A kept capture `s[p..q]` between the untouched front and the
      extension joins up with the front. */
  lemma Reassemble(s: Str, p: nat, q: nat, k: nat, d: Str, x: Str)
    requires p <= q <= k <= |s| && x == s[p..q] && d == s[..p] + x + s[k..]
    ensures d == s[..q] + s[k..]
  {
    assert s[..p] + s[p..q] == s[..q];
  }

  /** What `(\d+)-?[^-.]+(?=\.[^.]+$)` captures at the first digit `p`, case
      by case. */
  lemma TagMatchDash(s: Str, p: nat, q: nat)
    requires ExtDot(s).Some? && p < ExtDot(s).value && IsDigit(s[p])
    requires q == RunEnd(s, p, IsDigit) && q + 1 < ExtDot(s).value && s[q] == '-'
    requires NoDashOrDot(s[q + 1..ExtDot(s).value])
    ensures MatchAt(NumberThenTag, s, p) == Some((ExtDot(s).value, s[p..q]))
  {
    assert MatchAt(NumberThenTag, s, p) == MatchNumberThenTag(s, p);
  }

  lemma TagMatchPlain(s: Str, p: nat, q: nat)
    requires ExtDot(s).Some? && p < ExtDot(s).value && IsDigit(s[p])
    requires q == RunEnd(s, p, IsDigit) && q < ExtDot(s).value && s[q] != '-'
    requires NoDashOrDot(s[q..ExtDot(s).value])
    ensures MatchAt(NumberThenTag, s, p) == Some((ExtDot(s).value, s[p..q]))
  {
    assert MatchAt(NumberThenTag, s, p) == MatchNumberThenTag(s, p);
  }

  lemma TagMatchLast(s: Str, p: nat)
    requires ExtDot(s).Some? && p < ExtDot(s).value && IsDigit(s[p])
    requires RunEnd(s, p, IsDigit) == ExtDot(s).value && ExtDot(s).value - p >= 2
    ensures MatchAt(NumberThenTag, s, p) == Some((ExtDot(s).value, s[p..ExtDot(s).value - 1]))
  {
    assert MatchAt(NumberThenTag, s, p) == MatchNumberThenTag(s, p);
  }

  lemma TagMatchOne(s: Str, p: nat)
    requires ExtDot(s).Some? && p + 1 == ExtDot(s).value && IsDigit(s[p])
    ensures MatchAt(NumberThenTag, s, p).None?
  {
    var k := ExtDot(s).value;
    RunEndUnique(s, p, k, IsDigit);
    assert MatchAt(NumberThenTag, s, p) == MatchNumberThenTag(s, p);
  }

  /** A match at the first digit `p` is the only one: none starts before
      it, and it reaches the extension dot. */
  lemma TagMatchDeleted(s: Str, p: nat, m: Option<(nat, Str)>)
    requires ExtDot(s).Some? && p < ExtDot(s).value
    requires IsDigit(s[p]) && forall j :: 0 <= j < p ==> !IsDigit(s[j])
    requires MatchAt(NumberThenTag, s, p) == m
    ensures m.Some? ==> DeleteTagAfterNumber(s) == s[..p] + m.value.1 + s[ExtDot(s).value..]
    ensures m.None? && p + 1 == ExtDot(s).value ==> DeleteTagAfterNumber(s) == s
  {
    NumberMatchesNotBefore(NumberThenTag, s, p);
    NumberMatchesNotAfterDot(NumberThenTag, s);
    if m.Some? {
      SubFromOneMatch(NumberThenTag, s, 0, p);
    } else if p + 1 == ExtDot(s).value {
      SubFromNoMatch(NumberThenTag, s, 0);
    }
  }

  /** With no digit before the extension dot, nothing is deleted. */
  lemma DeleteTagAfterNumberNoDigit(s: Str)
    requires ExtDot(s).None? || forall j :: 0 <= j < ExtDot(s).value ==> !IsDigit(s[j])
    ensures DeleteTagAfterNumber(s) == s
  {
    forall j | 0 <= j < |s| ensures MatchAt(NumberThenTag, s, j).None? {
      var qj := RunEnd(s, j, IsDigit);
      if ExtDot(s).Some? && j < ExtDot(s).value { assert qj == j; }
    }
    SubFromNoMatch(NumberThenTag, s, 0);
  }

  /** Dropping one dash does not change the non-dash characters. */
  lemma FilterDashInsert(x: Str, y: Str)
    ensures Filter(x + "-" + y, IsNotDash) == Filter(x + y, IsNotDash)
  {
    assert x + "-" + y == x + ("-" + y);
    FilterConcat(x, "-" + y, IsNotDash);
    assert ("-" + y)[1..] == y;
    FilterConcat(x, y, IsNotDash);
  }

  /** One replacement of a dash pattern changes nothing but dashes. */
  lemma DashMatchKeepsRest(pat: Pattern, s: Str, p: nat)
    requires pat.LettersDigitsC? || pat.LettersDigitsDashC? || pat.LettersDigits?
    requires p < |s| && MatchAt(pat, s, p).Some?
    ensures Filter(MatchAt(pat, s, p).value.1, IsNotDash) == Filter(s[p..MatchAt(pat, s, p).value.0], IsNotDash)
  {
    if pat.LettersDigits? {
      BareDashKeepsRest(s, p);
    } else if pat.LettersDigitsC? {
      CDashKeepsRest(s, p);
    } else {
      DashCDashKeepsRest(s, p);
    }
  }

  lemma BareDashKeepsRest(s: Str, p: nat)
    requires p < |s| && MatchAt(LettersDigits, s, p).Some?
    ensures var m := MatchAt(LettersDigits, s, p).value;
      Filter(m.1, IsNotDash) == Filter(s[p..m.0], IsNotDash)
  {
    var a := RunEnd(s, p, IsLetter);
    var b := RunEnd(s, a, IsDigit);
    var L, D := s[p..a], s[a..b];
    assert MatchAt(LettersDigits, s, p) == Some((b, L + "-" + D));
    assert s[p..b] == L + D;
    FilterDashInsert(L, D);
  }

  lemma CDashKeepsRest(s: Str, p: nat)
    requires p < |s| && MatchAt(LettersDigitsC, s, p).Some?
    ensures var m := MatchAt(LettersDigitsC, s, p).value;
      Filter(m.1, IsNotDash) == Filter(s[p..m.0], IsNotDash)
  {
    var a := RunEnd(s, p, IsLetter);
    var b := RunEnd(s, a, IsDigit);
    var L, D := s[p..a], s[a..b];
    assert MatchAt(LettersDigitsC, s, p) == Some((b + 2, L + "-" + D + "-C."));
    assert s[p..b + 2] == L + D + "C.";
    assert L + "-" + D + "-C." == L + "-" + (D + "-C.");
    FilterDashInsert(L, D + "-C.");
    assert L + (D + "-C.") == (L + D) + "-" + "C.";
    FilterDashInsert(L + D, "C.");
  }

  lemma DashCDashKeepsRest(s: Str, p: nat)
    requires p < |s| && MatchAt(LettersDigitsDashC, s, p).Some?
    ensures var m := MatchAt(LettersDigitsDashC, s, p).value;
      Filter(m.1, IsNotDash) == Filter(s[p..m.0], IsNotDash)
  {
    var a := RunEnd(s, p, IsLetter);
    var b := RunEnd(s, a, IsDigit);
    var L, D := s[p..a], s[a..b];
    assert MatchAt(LettersDigitsDashC, s, p) == Some((b + 3, L + "-" + D + "-C."));
    assert s[p..b + 3] == L + D + "-C.";
    assert L + "-" + D + "-C." == L + "-" + (D + "-C.");
    FilterDashInsert(L, D + "-C.");
    assert L + (D + "-C.") == L + D + "-C.";
  }

  lemma DashSubKeepsRest(pat: Pattern, s: Str)
    requires pat.LettersDigitsC? || pat.LettersDigitsDashC? || pat.LettersDigits?
    ensures Filter(Sub(pat, s), IsNotDash) == Filter(s, IsNotDash)
  {
    var m := Matches(pat, s);
    forall j | 0 <= j < |s| && m(j).Some?
      ensures Filter(m(j).value.1, IsNotDash) == Filter(s[j..m(j).value.0], IsNotDash)
    {
      DashMatchKeepsRest(pat, s, j);
    }
    ScanKeepsFilter(s, 0, m, IsNotDash);
    assert s[0..] == s;
  }

  /** Adding dashes only adds dashes: every other character is kept, in order. */
  lemma AddDashesKeepsRest(s: Str)
    ensures Filter(AddDashes(s), IsNotDash) == Filter(s, IsNotDash)
    ensures Filter(AddDashesOrBare(s), IsNotDash) == Filter(s, IsNotDash)
  {
    DashSubKeepsRest(LettersDigitsC, s);
    DashSubKeepsRest(LettersDigitsDashC, s);
    DashSubKeepsRest(LettersDigits, s);
  }

  /** `SSNI334C.` becomes `SSNI-334-C.`, and `SSNI334-C.` becomes `SSNI-334-C.`:
      a name that starts with letters, digits and `C.` or `-C.` gets its
      missing dashes, whichever of the two dash functions is used. */
  lemma AddDashesAtStart(s: Str, a: nat, b: nat)
    requires 0 < a < b <= |s| && AllLetters(s[..a]) && AllDigits(s[a..b])
    requires (b + 1 < |s| && s[b] == 'C' && s[b + 1] == '.') ||
             (b + 2 < |s| && s[b] == '-' && s[b + 1] == 'C' && s[b + 2] == '.')
    ensures s[..a] + "-" + s[a..b] + "-C." <= AddDashes(s)
    ensures AddDashes(s) == AddDashesOrBare(s)
  {
    RunEndUnique(s, 0, a, IsLetter);
    RunEndUnique(s, a, b, IsDigit);
    if s[b] == 'C' {
      CAtStart(s, a, b);
    } else {
      DashCAtStart(s, a, b);
    }
  }

  lemma CAtStart(s: Str, a: nat, b: nat)
    requires 0 < a < b && b + 1 < |s| && s[b] == 'C' && s[b + 1] == '.'
    requires RunEnd(s, 0, IsLetter) == a && RunEnd(s, a, IsDigit) == b
    ensures s[..a] + "-" + s[a..b] + "-C." <= AddDashes(s)
    ensures AddDashes(s) == AddDashesOrBare(s)
  {
    assert MatchAt(LettersDigitsC, s, 0) == Some((b + 2, s[0..a] + "-" + s[a..b] + "-C."));
    SubFromStep(LettersDigitsC, s, 0);
  }

  lemma DashCAtStart(s: Str, a: nat, b: nat)
    requires 0 < a < b && b + 2 < |s| && s[b] == '-' && s[b + 1] == 'C' && s[b + 2] == '.'
    requires RunEnd(s, 0, IsLetter) == a && RunEnd(s, a, IsDigit) == b
    ensures s[..a] + "-" + s[a..b] + "-C." <= AddDashes(s)
    ensures AddDashes(s) == AddDashesOrBare(s)
  {
    assert MatchAt(LettersDigitsC, s, 0).None?;
    assert MatchAt(LettersDigitsDashC, s, 0) == Some((b + 3, s[0..a] + "-" + s[a..b] + "-C."));
    SubFromStep(LettersDigitsDashC, s, 0);
  }

  /** utility.py's line-20 filter deletes every character outside
      `[a-zA-Z0-9_-]`, wherever it is. */
  lemma {:induction false} DeleteNotKeptFrom(s: Str, p: nat)
    requires p <= |s|
    ensures SubFrom(NotKeptRun, s, p) == Filter(s[p..], IsKept)
    decreases |s| - p
  {
    if p < |s| {
      SubFromStep(NotKeptRun, s, p);
      if IsKept(s[p]) {
        DeleteNotKeptFrom(s, p + 1);
        assert s[p..][1..] == s[p + 1..];
      } else {
        var e := RunEnd(s, p, IsNotKept);
        DeleteNotKeptFrom(s, e);
        assert s[p..] == s[p..e] + s[e..];
        FilterConcat(s[p..e], s[e..], IsKept);
        FilterNone(s[p..e], IsKept);
      }
    }
  }

  lemma DeleteNotKeptIsFilter(s: Str)
    ensures DeleteNotKept(s) == Filter(s, IsKept)
  {
    DeleteNotKeptFrom(s, 0);
    assert s[0..] == s;
  }

  /** The anchored line-17 strip is subsumed by the line-20 filter. */
  lemma StripLeadingNotKeptRedundant(s: Str)
    ensures DeleteNotKept(StripLeadingNotKept(s)) == DeleteNotKept(s)
  {
    var r := StripLeadingNotKept(s);
    var n := |s| - |r|;
    DeleteNotKeptIsFilter(s);
    DeleteNotKeptIsFilter(r);
    FilterConcat(s[..n], r, IsKept);
    FilterNone(s[..n], IsKept);
  }

  /** A name that starts with letters and then a dash, like `SSNI-334.mp4`,
      passes the digit strip, the bracket strip and the dash insertion
      unchanged. */
  lemma LettersDashFrontUnchanged(s: Str)
    requires 0 < RunEnd(s, 0, IsLetter) < |s| && s[RunEnd(s, 0, IsLetter)] == '-'
    ensures StripLeadingBracket(StripLeadingDigits(s)) == s
    ensures AddDashesOrBare(s) == s && AddDashes(s) == s
  {
    var a := RunEnd(s, 0, IsLetter);
    assert IsLetter(s[0]);
    assert RunEnd(s, 0, IsDigit) == 0;
    assert s[0..] == s;
    assert StripLeadingDigits(s) == s;
    assert StripLeadingBracket(s) == s;
    assert RunEnd(s, a, IsDigit) == a;
    assert MatchAt(LettersDigitsC, s, 0).None?;
    assert MatchAt(LettersDigitsDashC, s, 0).None?;
    assert !StartsLettersDigitDot(s);
  }

  /** `-C` is added at most once: a second pass leaves the name alone. */
  lemma AddCTagIdempotent(s: Str)
    ensures AddCTag(AddCTag(s)) == AddCTag(s)
  {
    AddCTagEnsuresTag(s);
    AddCTagEnsuresTag(AddCTag(s));
  }

  /** Where `pat` is `LettersDigits`, a letters run followed by a digits
      run matches and is rewritten with a dash between them. */
  lemma LettersDigitsAt(s: Str, p: nat, a: nat, b: nat)
    requires p < a < b <= |s|
    requires forall k :: p <= k < a ==> IsLetter(s[k])
    requires forall k :: a <= k < b ==> IsDigit(s[k])
    requires b == |s| || !IsDigit(s[b])
    ensures RunEnd(s, p, IsLetter) == a && RunEnd(s, a, IsDigit) == b
    ensures MatchAt(LettersDigits, s, p) == Some((b, s[p..a] + "-" + s[a..b]))
  {
    RunEndUnique(s, p, a, IsLetter);
    RunEndUnique(s, a, b, IsDigit);
  }

  /** A name that starts with letters, one digit and a dot takes the bare
      dash branch. */
  lemma BareBranchTaken(s: Str, a: nat)
    requires 0 < a && a + 1 < |s|
    requires forall k :: 0 <= k < a ==> IsLetter(s[k])
    requires IsDigit(s[a]) && s[a + 1] == '.'
    ensures AddDashesOrBare(s) == Sub(LettersDigits, s)
  {
    RunEndUnique(s, 0, a, IsLetter);
    RunEndUnique(s, a, a + 1, IsDigit);
    assert MatchAt(LettersDigitsC, s, 0).None?;
    assert MatchAt(LettersDigitsDashC, s, 0).None?;
  }

  /** A letters run and then digits up to the end: the substitution from
      the run's start dashes them and stops. */
  lemma LettersDigitsToEnd(s: Str, p: nat, c: nat)
    requires p < c < |s|
    requires forall k :: p <= k < c ==> IsLetter(s[k])
    requires forall k :: c <= k < |s| ==> IsDigit(s[k])
    ensures SubFrom(LettersDigits, s, p) == s[p..c] + "-" + s[c..]
  {
    LettersDigitsAt(s, p, c, |s|);
    assert s[c..|s|] == s[c..];
    SubFromStep(LettersDigits, s, p);
    assert SubFrom(LettersDigits, s, |s|) == [];
  }

  /** A letters-then-digits match starts on a letter. */
  lemma NoLettersNoMatch(s: Str, p: nat)
    requires p < |s| && !IsLetter(s[p])
    ensures MatchAt(LettersDigits, s, p).None?
  {
    assert RunEnd(s, p, IsLetter) == p;
  }

  /** From the dot of `letters digit . letters digits` on, the substitution
      copies the dot and then dashes the second run. */
  lemma BareBranchTail(s: Str, a: nat, c: nat)
    requires a + 2 < c < |s| && s[a + 1] == '.'
    requires forall k :: a + 2 <= k < c ==> IsLetter(s[k])
    requires forall k :: c <= k < |s| ==> IsDigit(s[k])
    ensures SubFrom(LettersDigits, s, a + 1) == "." + s[a + 2..c] + "-" + s[c..]
  {
    LettersDigitsToEnd(s, a + 2, c);
    var t := SubFrom(LettersDigits, s, a + 2);
    NoLettersNoMatch(s, a + 1);
    SubFromStep(LettersDigits, s, a + 1);
    assert [s[a + 1]] == ".";
    assert SubFrom(LettersDigits, s, a + 1) == "." + t;
  }

  /** The bare dash branch on a name shaped `letters digit . letters digits`,
      stated by positions: both runs get a dash. */
  lemma BareBranchAt(s: Str, a: nat, c: nat)
    requires 0 < a && a + 2 < c < |s|
    requires forall k :: 0 <= k < a ==> IsLetter(s[k])
    requires IsDigit(s[a]) && s[a + 1] == '.'
    requires forall k :: a + 2 <= k < c ==> IsLetter(s[k])
    requires forall k :: c <= k < |s| ==> IsDigit(s[k])
    ensures AddDashesOrBare(s) == s[..a] + "-" + [s[a]] + "." + s[a + 2..c] + "-" + s[c..]
  {
    BareBranchTaken(s, a);
    BareBranchTail(s, a, c);
    LettersDigitsAt(s, 0, a, a + 1);
    SubFromStep(LettersDigits, s, 0);
    assert s[0..a] == s[..a] && s[a..a + 1] == [s[a]];
  }

  /** The bare dash branch is a global substitution: in a name shaped
      `letters digit . letters digits` it also puts a dash inside the
      extension, so `ABC1.mp4` becomes `ABC-1.mp-4`. */
  lemma BareBranchSplitsExtension(l: Str, d: char, e: Str, n: Str)
    requires l != [] && AllLetters(l) && IsDigit(d)
    requires e != [] && AllLetters(e) && n != [] && AllDigits(n)
    ensures AddDashesOrBare(l + [d] + "." + e + n) == l + "-" + [d] + "." + e + "-" + n
  {
    var s := l + [d] + "." + e + n;
    var a := |l|;
    var c := a + 2 + |e|;
    assert forall k :: 0 <= k < a ==> s[k] == l[k];
    assert forall k :: a + 2 <= k < c ==> s[k] == e[k - a - 2];
    assert forall k :: c <= k < |s| ==> s[k] == n[k - c];
    BareBranchAt(s, a, c);
    assert s[..a] == l && s[a] == d && s[a + 2..c] == e && s[c..] == n;
  }

  lemma BareBranchExample(s: Str)
    requires s == "ABC1.mp4"
    ensures AddDashesOrBare(s) == "ABC-1.mp-4"
  {
    var l, e, n := "ABC", "mp", "4";
    assert AllLetters(l) && AllLetters(e) && AllDigits(n);
    assert s == l + ['1'] + "." + e + n;
    BareBranchSplitsExtension(l, '1', e, n);
    assert l + "-" + ['1'] + "." + e + "-" + n == "ABC-1.mp-4";
  }
}
