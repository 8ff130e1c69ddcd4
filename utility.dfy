/** utility.py: a second, stricter cleaner that keeps only
    `[a-zA-Z0-9_-]` in front of the extension, and a parser that splits a
    name into the seven fields of its grammar. */
module Utility {
  import opened Wrappers
  import opened Text
  import opened Rewrites

  // -------------------------------------------------------------------
  // clean_filename: the extension split

  predicate NoNewline(t: Str) { forall k :: 0 <= k < |t| ==> t[k] != '\n' }

  /** `re.match(r'(.*?)(\.\w+)$', s)` can match with group 1 `s[..i]` and
      group 2 `s[i..j]`: `.` does not cross a newline, group 2 is a dot and
      at least one word character, and `$` holds after it. */
  predicate ExtensionSpan(s: Str, i: nat, j: nat) {
    i + 1 < j <= |s| && s[i] == '.' && All(s[i + 1..j], IsWordChar) && AtEnd(s, j) && NoNewline(s[..i])
  }

  /** Where `$` can hold after a run of word characters: the end, or just
      before a final newline. */
  function LineEnd(s: Str): (e: nat)
    ensures e <= |s| && (e == |s| || (e == |s| - 1 && s[e] == '\n'))
  {
    if |s| > 0 && s[|s| - 1] == '\n' then |s| - 1 else |s|
  }

  /** The bounds of the match's group 2, if there is a match; group 1 is
      everything before it. */
  function ExtensionMatch(s: Str): (r: Option<(nat, nat)>)
    ensures r.Some? ==> r.value.0 < r.value.1 <= |s|
  {
    var e := LineEnd(s);
    match LastIndexOf(s[..e], '.')
    case None => None
    case Some(i) =>
      if i + 1 < e && RunEnd(s, i + 1, IsWordChar) == e && NoNewline(s[..i]) then Some((i, e)) else None
  }

  /** The match found is the regex's: it is found exactly when the regex
      can match, and then the match is unique, so the lazy body and the
      anchored extension leave no choice. */
  lemma ExtensionMatchIsRegex(s: Str)
    ensures ExtensionMatch(s).Some? ==> ExtensionSpan(s, ExtensionMatch(s).value.0, ExtensionMatch(s).value.1)
    ensures forall i: nat, j: nat :: ExtensionSpan(s, i, j) ==> ExtensionMatch(s) == Some((i, j))
  {
    ExtensionMatchSound(s);
    forall i: nat, j: nat | ExtensionSpan(s, i, j) ensures ExtensionMatch(s) == Some((i, j)) {
      SpanIsLastDot(s, i, j);
    }
  }

  lemma ExtensionMatchSound(s: Str)
    ensures ExtensionMatch(s).Some? ==> ExtensionSpan(s, ExtensionMatch(s).value.0, ExtensionMatch(s).value.1)
  {
    if ExtensionMatch(s).Some? {
      var e := LineEnd(s);
      var i := LastIndexOf(s[..e], '.').value;
      var w := s[i + 1..e];
      forall k | 0 <= k < |w| ensures IsWordChar(w[k]) {
        assert w[k] == s[i + 1 + k];
      }
    }
  }

  /** An extension run is the last dot before the line end and the word
      run after it. */
  lemma SpanIsLastDot(s: Str, i: nat, j: nat)
    requires ExtensionSpan(s, i, j)
    ensures j == LineEnd(s) && LastIndexOf(s[..j], '.') == Some(i) && RunEnd(s, i + 1, IsWordChar) == j
  {
    SpanEndsAtLineEnd(s, i, j);
    AllSlice(s, i + 1, j, IsWordChar);
    assert s[..j][i] == '.';
    assert forall k :: i < k < j ==> s[..j][k] == s[k];
    RunEndUnique(s, i + 1, j, IsWordChar);
  }

  /** An extension run ends where `$` can hold. */
  lemma SpanEndsAtLineEnd(s: Str, i: nat, j: nat)
    requires ExtensionSpan(s, i, j)
    ensures j == LineEnd(s)
  {
    AllSlice(s, i + 1, j, IsWordChar);
  }

  /** `All` on a slice, index by index of the whole. */
  lemma AllSlice(s: Str, lo: nat, hi: nat, p: char -> bool)
    requires lo <= hi <= |s| && All(s[lo..hi], p)
    ensures forall k :: lo <= k < hi ==> p(s[k])
  {
    forall k | lo <= k < hi ensures p(s[k]) {
      assert s[lo..hi][k - lo] == s[k];
    }
  }

  // -------------------------------------------------------------------
  // clean_filename: the domain prefix

  /** `^[a-zA-Z0-9\-_]+\.([a-zA-Z0-9]+)[-_]` matches `b[..n]`, with the dot
      at `a`. */
  predicate DomainSpan(b: Str, a: nat, n: nat) {
    0 < a && a + 2 < n <= |b| && All(b[..a], IsKept) && b[a] == '.' &&
    All(b[a + 1..n - 1], IsAlnum) && IsSep(b[n - 1])
  }

  /** The length of the domain-prefix match, or 0 when there is none. */
  function DomainPrefixEnd(b: Str): (n: nat)
    ensures n <= |b|
  {
    var a := RunEnd(b, 0, IsKept);
    if 0 < a < |b| && b[a] == '.' then
      var c := RunEnd(b, a + 1, IsAlnum);
      if a + 1 < c < |b| && IsSep(b[c]) then c + 1 else 0
    else 0
  }

  /** Lines 13-15: the matched prefix is cut off the body. */
  function StripDomain(b: Str): (r: Str)
    ensures |r| <= |b| && b == b[..|b| - |r|] + r
  {
    b[DomainPrefixEnd(b)..]
  }

  /** The prefix found is the regex's: it is cut exactly when the regex
      matches, and the greedy runs make the match unique. */
  lemma DomainPrefixMatches(b: Str)
    ensures DomainPrefixEnd(b) > 0 ==> DomainSpan(b, RunEnd(b, 0, IsKept), DomainPrefixEnd(b))
    ensures forall a: nat, n: nat :: DomainSpan(b, a, n) ==> DomainPrefixEnd(b) == n
  {
    forall a: nat, n: nat | DomainSpan(b, a, n) ensures DomainPrefixEnd(b) == n {
      AllSlice(b, 0, a, IsKept);
      RunEndUnique(b, 0, a, IsKept);
      AllSlice(b, a + 1, n - 1, IsAlnum);
      RunEndUnique(b, a + 1, n - 1, IsAlnum);
    }
  }

  // -------------------------------------------------------------------
  // clean_filename

  /** Lines 11-20 on the body: the domain prefix, then the two filters. */
  function CleanBody(b: Str): Str {
    DeleteNotKept(StripLeadingNotKept(StripDomain(b)))
  }

  /** `clean_filename(filename)`: a name without an extension reaches
      `None.groups()` and raises. */
  function CleanFilename(s: Str): Result<Str, Str> {
    match ExtensionMatch(s)
    case None => Err("AttributeError")
    case Some((i, j)) => Ok(CleanBody(s[..i]) + s[i..j])
  }

  /** The cleaner fails exactly when the name has no extension as line 9
      reads it; otherwise it keeps the characters `[a-zA-Z0-9_-]` of the
      body after the domain prefix, in order, and the extension verbatim
      after them, so the result is never longer than the name. */
  lemma CleanFilenameResult(s: Str)
    ensures CleanFilename(s).Err? <==> forall i: nat, j: nat :: !ExtensionSpan(s, i, j)
    ensures forall i: nat, j: nat :: ExtensionSpan(s, i, j) ==>
      var r := Filter(StripDomain(s[..i]), IsKept);
      CleanFilename(s) == Ok(r + s[i..j]) && All(r, IsKept) && |r + s[i..j]| <= |s|
  {
    forall i: nat, j: nat | ExtensionSpan(s, i, j)
      ensures var r := Filter(StripDomain(s[..i]), IsKept);
        CleanFilename(s) == Ok(r + s[i..j]) && All(r, IsKept) && |r + s[i..j]| <= |s|
    {
      CleanOnSpan(s, i, j);
    }
    ExtensionMatchSound(s);
  }

  lemma CleanOnSpan(s: Str, i: nat, j: nat)
    requires ExtensionSpan(s, i, j)
    ensures var r := Filter(StripDomain(s[..i]), IsKept);
      CleanFilename(s) == Ok(r + s[i..j]) && All(r, IsKept) && |r + s[i..j]| <= |s|
  {
    ExtensionMatchIsRegex(s);
    CleanBodyIsFilter(s[..i]);
  }

  /** The line-17 strip is subsumed by the line-20 filter, which keeps the
      characters `[a-zA-Z0-9_-]` wherever they are. */
  lemma CleanBodyIsFilter(b: Str)
    ensures CleanBody(b) == Filter(StripDomain(b), IsKept)
  {
    StripLeadingNotKeptRedundant(StripDomain(b));
    DeleteNotKeptIsFilter(StripDomain(b));
  }

  /** A body without newlines followed by a dot and word characters has
      that extension. */
  lemma BodyThenExtension(k: Str, x: Str)
    requires NoNewline(k) && 2 <= |x| && x[0] == '.' && All(x[1..], IsWordChar)
    ensures ExtensionSpan(k + x, |k|, |k + x|)
  {
    var r := k + x;
    assert r[|k| + 1..] == x[1..];
    assert r[..|k|] == k;
  }

  /** A cleaned name is clean: the body has no dot left for the domain
      pattern and nothing the filters remove. */
  lemma CleanFilenameIdempotent(s: Str)
    requires CleanFilename(s).Ok?
    ensures CleanFilename(CleanFilename(s).value) == CleanFilename(s)
  {
    ExtensionMatchSound(s);
    var i, j := ExtensionMatch(s).value.0, ExtensionMatch(s).value.1;
    CleanOnSpan(s, i, j);
    ExtensionShape(s, i, j);
    CleanOnKept(Filter(StripDomain(s[..i]), IsKept), s[i..j]);
  }

  /** Group 2 by itself: a dot and word characters. */
  lemma ExtensionShape(s: Str, i: nat, j: nat)
    requires ExtensionSpan(s, i, j)
    ensures var x := s[i..j]; 2 <= |x| && x[0] == '.' && All(x[1..], IsWordChar)
  {
    assert s[i..j][1..] == s[i + 1..j];
  }

  /** Kept characters and an extension are cleaned to themselves. */
  lemma CleanOnKept(k: Str, x: Str)
    requires All(k, IsKept) && 2 <= |x| && x[0] == '.' && All(x[1..], IsWordChar)
    ensures CleanFilename(k + x) == Ok(k + x)
  {
    KeptIsClean(k);
    CleanOnBody(k, x, k);
  }

  /** A body whose domain strip leaves only kept characters, and an
      extension. */
  lemma CleanOnBody(b: Str, x: Str, c: Str)
    requires NoNewline(b) && StripDomain(b) == c && All(c, IsKept)
    requires 2 <= |x| && x[0] == '.' && All(x[1..], IsWordChar)
    ensures CleanFilename(b + x) == Ok(c + x)
  {
    BodyThenExtension(b, x);
    BodySplit(b, x, c);
    CleanOnSpanValue(b + x, |b|, |b + x|, c + x);
  }

  lemma BodySplit(b: Str, x: Str, c: Str)
    requires StripDomain(b) == c && All(c, IsKept)
    ensures c + x == Filter(StripDomain((b + x)[..|b|]), IsKept) + (b + x)[|b|..|b + x|]
  {
    assert (b + x)[..|b|] == b;
    assert (b + x)[|b|..|b + x|] == x;
    FilterAll(c, IsKept);
  }

  /** `CleanOnSpan` with the result named. */
  lemma CleanOnSpanValue(s: Str, i: nat, j: nat, v: Str)
    requires ExtensionSpan(s, i, j) && v == Filter(StripDomain(s[..i]), IsKept) + s[i..j]
    ensures CleanFilename(s) == Ok(v)
  {
    CleanOnSpan(s, i, j);
  }

  /** A body of kept characters has no domain prefix and nothing the
      filters remove. */
  lemma KeptIsClean(k: Str)
    requires All(k, IsKept)
    ensures NoNewline(k) && StripDomain(k) == k && Filter(k, IsKept) == k
  {
    KeptNoDomain(k);
    KeptNoNewline(k);
    FilterAll(k, IsKept);
  }

  lemma KeptNoDomain(k: Str)
    requires All(k, IsKept)
    ensures StripDomain(k) == k
  {
    RunEndUnique(k, 0, |k|, IsKept);
    assert DomainPrefixEnd(k) == 0;
    assert k[0..] == k;
  }

  lemma KeptNoNewline(k: Str)
    requires All(k, IsKept)
    ensures NoNewline(k)
  {
    forall i | 0 <= i < |k| ensures k[i] != '\n' {
      assert IsKept(k[i]);
    }
  }

  /** `japlib.top-SSNI-334-C.mp4 -> SSNI-334-C.mp4`: the domain prefix
      goes, with the separator after it. */
  lemma DomainExample(s: Str)
    requires s == "japlib.top-SSNI-334-C.mp4"
    ensures CleanFilename(s) == Ok("SSNI-334-C.mp4")
  {
    DomainExampleParts(s, s[..21], s[21..]);
  }

  lemma DomainExampleParts(s: Str, b: Str, x: Str)
    requires b == "japlib.top-SSNI-334-C" && x == ".mp4" && s == b + x
    ensures CleanFilename(s) == Ok("SSNI-334-C.mp4")
  {
    DomainBody(b);
    Mp4(x);
    var c := StripDomain(b);
    assert c + x == "SSNI-334-C.mp4";
    CleanOnBody(b, x, c);
  }

  lemma DomainBody(b: Str)
    requires b == "japlib.top-SSNI-334-C"
    ensures StripDomain(b) == "SSNI-334-C" && NoNewline(b) && All(StripDomain(b), IsKept)
  {
    DomainOfExample(b);
    DomainPrefixMatches(b);
    assert b[11..] == "SSNI-334-C";
    KeptKey(b[11..]);
  }

  lemma DomainOfExample(b: Str)
    requires b == "japlib.top-SSNI-334-C"
    ensures DomainSpan(b, 6, 11) && NoNewline(b)
  {
    assert b[..6] == "japlib" && b[7..10] == "top";
  }

  lemma KeptKey(c: Str)
    requires c == "SSNI-334-C"
    ensures All(c, IsKept)
  {
  }

  lemma Mp4(x: Str)
    requires x == ".mp4"
    ensures 2 <= |x| && x[0] == '.' && All(x[1..], IsWordChar)
  {
    assert x[1..] == "mp4";
  }

  // -------------------------------------------------------------------
  // parse_filename

  /* The pattern of line 35, element by element:

       0 (\d{3,3})?   1 [-_]?   2 ([a-zA-Z]+)   3 [-_]?   4 (\d{2,4})
       5 [-_]?        6 (cd\d{1,1})?   7 [-_]?   8 ([a-zA-Z]+)?   9 [-_]?
      10 (cd\d{1,1})?   11 [-_]?   12 (\.\w+)      followed by `$`.

     The even elements are the seven groups. */

  const Elements: nat := 13

  /** `[-_]?` */
  predicate OptSep(x: Str) { x == "" || (|x| == 1 && IsSep(x[0])) }

  /** `cd\d{1,1}` */
  predicate IsCdTag(x: Str) { |x| == 3 && x[0] == 'c' && x[1] == 'd' && IsDigit(x[2]) }

  /** Element `k` matches exactly the piece `x`. */
  predicate PieceShape(k: nat, x: Str) {
    if k == 0 then x == "" || (|x| == 3 && AllDigits(x))
    else if k % 2 == 1 then OptSep(x)
    else if k == 2 then |x| > 0 && AllLetters(x)
    else if k == 4 then 2 <= |x| <= 4 && AllDigits(x)
    else if k == 6 || k == 10 then x == "" || IsCdTag(x)
    else if k == 8 then AllLetters(x)
    else |x| >= 2 && x[0] == '.' && All(x[1..], IsWordChar)
  }

  predicate IsCd(s: Str, p: nat) {
    p + 3 <= |s| && s[p] == 'c' && s[p + 1] == 'd' && IsDigit(s[p + 2])
  }

  /** Element `k` can match `s[p..q]`, stated on positions of `s`. */
  predicate Shape(k: nat, s: Str, p: nat, q: nat)
    requires p <= q <= |s|
  {
    if k == 0 then q == p || (q == p + 3 && AllDigits(s[p..q]))
    else if k % 2 == 1 then q == p || (q == p + 1 && IsSep(s[p]))
    else if k == 2 then p < q && AllLetters(s[p..q])
    else if k == 4 then p + 2 <= q <= p + 4 && AllDigits(s[p..q])
    else if k == 6 || k == 10 then q == p || (q == p + 3 && IsCd(s, p))
    else if k == 8 then AllLetters(s[p..q])
    else p + 2 <= q && s[p] == '.' && All(s[p + 1..q], IsWordChar)
  }

  /** The two statements of an element's shape agree. */
  lemma ShapeOfPiece(k: nat, s: Str, p: nat, q: nat)
    requires p <= q <= |s|
    ensures Shape(k, s, p, q) <==> PieceShape(k, s[p..q])
  {
    var x := s[p..q];
    if k == 12 && q >= p + 1 {
      assert x[1..] == s[p + 1..q];
    }
  }

  /** `hi, hi - 1, ..., lo`. */
  function Desc(hi: nat, lo: nat): (r: seq<nat>)
    ensures |r| == if hi < lo then 0 else hi - lo + 1
    ensures forall i :: 0 <= i < |r| ==> r[i] == hi - i
    decreases hi - lo
  {
    if hi < lo then [] else if hi == lo then [lo] else [hi] + Desc(hi - 1, lo)
  }

  /** The ends element `k` tries from `p`, in the order the engine tries
      them: a greedy `?` first with, then without; a greedy repeat longest
      first. */
  function Choices(k: nat, s: Str, p: nat): (cs: seq<nat>)
    requires k < Elements && p <= |s|
  {
    if k == 0 then (if p + 3 <= RunEnd(s, p, IsDigit) then [p + 3, p] else [p])
    else if k % 2 == 1 then (if p < |s| && IsSep(s[p]) then [p + 1, p] else [p])
    else if k == 2 then Desc(RunEnd(s, p, IsLetter), p + 1)
    else if k == 4 then
      var e := RunEnd(s, p, IsDigit);
      Desc(if e < p + 4 then e else p + 4, p + 2)
    else if k == 6 || k == 10 then (if IsCd(s, p) then [p + 3, p] else [p])
    else if k == 8 then Desc(RunEnd(s, p, IsLetter), p + 1) + [p]
    else if p < |s| && s[p] == '.' then Desc(RunEnd(s, p + 1, IsWordChar), p + 2)
    else []
  }

  /** The candidates are exactly the ends element `k` can match. */
  lemma ChoicesExact(k: nat, s: Str, p: nat, q: nat)
    requires k < Elements && p <= |s|
    ensures q in Choices(k, s, p) <==> p <= q <= |s| && Shape(k, s, p, q)
  {
    if k == 0 {
      PrefixChoices(s, p, q);
    } else if k == 2 || k == 8 {
      LetterChoices(k, s, p, q);
    } else if k == 4 {
      NumberChoices(s, p, q);
    } else if k == 12 {
      ExtensionChoices(s, p, q);
    } else {
      OptionalChoices(k, s, p, q);
    }
  }

  lemma PrefixChoices(s: Str, p: nat, q: nat)
    requires p <= |s|
    ensures q in Choices(0, s, p) <==> p <= q <= |s| && Shape(0, s, p, q)
  {
    if p + 3 <= |s| {
      RunPrefix(s, p, p + 3, IsDigit);
      assert AllDigits(s[p..p + 3]) == All(s[p..p + 3], IsDigit);
    }
  }

  lemma OptionalChoices(k: nat, s: Str, p: nat, q: nat)
    requires k < Elements && (k % 2 == 1 || k == 6 || k == 10) && p <= |s|
    ensures q in Choices(k, s, p) <==> p <= q <= |s| && Shape(k, s, p, q)
  {
  }

  lemma LetterChoices(k: nat, s: Str, p: nat, q: nat)
    requires (k == 2 || k == 8) && p <= |s|
    ensures q in Choices(k, s, p) <==> p <= q <= |s| && Shape(k, s, p, q)
  {
    var e := RunEnd(s, p, IsLetter);
    assert Choices(k, s, p) == if k == 2 then Desc(e, p + 1) else Desc(e, p + 1) + [p];
    if p <= q <= |s| {
      RunPrefix(s, p, q, IsLetter);
      assert AllLetters(s[p..q]) == All(s[p..q], IsLetter);
    }
    DescMembers(e, p + 1, q);
  }

  lemma NumberChoices(s: Str, p: nat, q: nat)
    requires p <= |s|
    ensures q in Choices(4, s, p) <==> p <= q <= |s| && Shape(4, s, p, q)
  {
    var e := RunEnd(s, p, IsDigit);
    var hi := if e < p + 4 then e else p + 4;
    assert Choices(4, s, p) == Desc(hi, p + 2);
    if p <= q <= |s| {
      RunPrefix(s, p, q, IsDigit);
      assert AllDigits(s[p..q]) == All(s[p..q], IsDigit);
    }
    DescMembers(hi, p + 2, q);
  }

  lemma ExtensionChoices(s: Str, p: nat, q: nat)
    requires p <= |s|
    ensures q in Choices(12, s, p) <==> p <= q <= |s| && Shape(12, s, p, q)
  {
    if p < |s| && s[p] == '.' {
      var e := RunEnd(s, p + 1, IsWordChar);
      assert Choices(12, s, p) == Desc(e, p + 2);
      if p + 1 <= q <= |s| {
        RunPrefix(s, p + 1, q, IsWordChar);
      }
      DescMembers(e, p + 2, q);
    }
  }

  /** A piece starting at `a` lies inside the run of `f` from `a` exactly
      when all of it satisfies `f`. */
  lemma RunPrefix(s: Str, a: nat, q: nat, f: char -> bool)
    requires a <= q <= |s|
    ensures All(s[a..q], f) <==> q <= RunEnd(s, a, f)
  {
    var e := RunEnd(s, a, f);
    var w := s[a..q];
    if e < q {
      assert w[e - a] == s[e];
    }
    if q <= e {
      forall t | 0 <= t < |w| ensures f(w[t]) {
        assert w[t] == s[a + t];
      }
    }
  }

  lemma DescMembers(hi: nat, lo: nat, q: nat)
    ensures q in Desc(hi, lo) <==> lo <= q <= hi
  {
    var r := Desc(hi, lo);
    if lo <= q <= hi {
      assert r[hi - q] == q;
    }
  }

  /** The engine at element `k` and position `p`: the ends of the elements
      from `k` on in the first combination that reaches `$`. */
  function MatchFrom(s: Str, k: nat, p: nat): Option<seq<nat>>
    requires k <= Elements && p <= |s|
    decreases Elements - k, 1, 0
  {
    if k == Elements then (if AtEnd(s, p) then Some([]) else None)
    else TryEach(s, k, p, Choices(k, s, p))
  }

  /** Element `k` tries the ends `cs` in turn; the first one after which
      the rest of the pattern matches is taken. */
  function TryEach(s: Str, k: nat, p: nat, cs: seq<nat>): Option<seq<nat>>
    requires k < Elements && p <= |s|
    decreases Elements - k, 0, |cs|
  {
    if cs == [] then None
    else if cs[0] > |s| then TryEach(s, k, p, cs[1..])
    else match MatchFrom(s, k + 1, cs[0])
      case Some(rest) => Some([cs[0]] + rest)
      case None => TryEach(s, k, p, cs[1..])
  }

  /** `s[p..]` splits at `ends` into pieces that the elements from `k` on
      match, the last ending where `$` holds: the pattern can match this
      way. */
  ghost predicate Decomposes(s: Str, k: nat, p: nat, ends: seq<nat>)
    requires k <= Elements && p <= |s|
    decreases Elements - k
  {
    if k == Elements then ends == [] && AtEnd(s, p)
    else |ends| > 0 && p <= ends[0] <= |s| && Shape(k, s, p, ends[0]) && Decomposes(s, k + 1, ends[0], ends[1..])
  }

  /** What the engine finds is a way for the pattern to match. */
  lemma {:induction false} MatchFromSound(s: Str, k: nat, p: nat)
    requires k <= Elements && p <= |s|
    ensures MatchFrom(s, k, p).Some? ==> Decomposes(s, k, p, MatchFrom(s, k, p).value)
    decreases Elements - k, 1, 0
  {
    if k < Elements {
      TryEachSound(s, k, p, Choices(k, s, p));
    }
  }

  lemma {:induction false} TryEachSound(s: Str, k: nat, p: nat, cs: seq<nat>)
    requires k < Elements && p <= |s| && forall q :: q in cs ==> q in Choices(k, s, p)
    ensures TryEach(s, k, p, cs).Some? ==> Decomposes(s, k, p, TryEach(s, k, p, cs).value)
    decreases Elements - k, 0, |cs|
  {
    if cs != [] {
      if cs[0] <= |s| {
        MatchFromSound(s, k + 1, cs[0]);
        ChoicesExact(k, s, p, cs[0]);
        var r := TryEach(s, k, p, cs);
        if MatchFrom(s, k + 1, cs[0]).Some? {
          assert r.value[1..] == MatchFrom(s, k + 1, cs[0]).value;
        }
      }
      assert forall q :: q in cs[1..] ==> q in cs;
      TryEachSound(s, k, p, cs[1..]);
    }
  }

  /** Whenever the pattern can match, the engine finds a match: it only
      fails when there is none. */
  lemma {:induction false} MatchFromComplete(s: Str, k: nat, p: nat, ends: seq<nat>)
    requires k <= Elements && p <= |s| && Decomposes(s, k, p, ends)
    ensures MatchFrom(s, k, p).Some?
    decreases Elements - k
  {
    if k < Elements {
      DecomposesTail(s, k, p, ends);
      MatchFromComplete(s, k + 1, ends[0], ends[1..]);
      CompleteStep(s, k, p, ends);
    }
  }

  lemma DecomposesTail(s: Str, k: nat, p: nat, ends: seq<nat>)
    requires k < Elements && p <= |s| && Decomposes(s, k, p, ends)
    ensures |ends| > 0 && p <= ends[0] <= |s| && Decomposes(s, k + 1, ends[0], ends[1..])
  {
  }

  /** A piece element `k` can match, followed by a match of the rest, makes
      the engine succeed at element `k`. */
  lemma CompleteStep(s: Str, k: nat, p: nat, ends: seq<nat>)
    requires k < Elements && p <= |s| && Decomposes(s, k, p, ends)
    requires |ends| > 0 && ends[0] <= |s| && MatchFrom(s, k + 1, ends[0]).Some?
    ensures MatchFrom(s, k, p).Some?
  {
    var q := ends[0];
    assert Shape(k, s, p, q);
    ChoicesExact(k, s, p, q);
    TryEachFinds(s, k, p, Choices(k, s, p), q);
  }

  lemma {:induction false} TryEachFinds(s: Str, k: nat, p: nat, cs: seq<nat>, q: nat)
    requires k < Elements && p <= |s| && q <= |s| && q in cs && MatchFrom(s, k + 1, q).Some?
    ensures TryEach(s, k, p, cs).Some?
    decreases |cs|
  {
    if cs[0] != q || MatchFrom(s, k + 1, cs[0]).None? {
      assert q in cs[1..];
      TryEachFinds(s, k, p, cs[1..], q);
    }
  }

  /** Where the `t`-th element of a split at `ends` from `p` starts. */
  function Start(p: nat, ends: seq<nat>, t: nat): nat
    requires t <= |ends|
  {
    if t == 0 then p else ends[t - 1]
  }

  /** `ends` cuts the name from `p` into pieces, and `r` holds of each
      piece together with the element, counted from `k`, it belongs to. */
  ghost predicate Chain(r: (nat, nat, nat) -> bool, k: nat, p: nat, ends: seq<nat>) {
    forall t :: 0 <= t < |ends| ==> r(k + t, Start(p, ends, t), ends[t])
  }

  /** The first piece of a chain, and the chain after it. */
  lemma ChainTail(r: (nat, nat, nat) -> bool, k: nat, p: nat, ends: seq<nat>)
    requires |ends| > 0 && Chain(r, k, p, ends)
    ensures r(k, p, ends[0]) && Chain(r, k + 1, ends[0], ends[1..])
    ensures Start(p, ends, |ends|) == Start(ends[0], ends[1..], |ends| - 1)
  {
    var tail := ends[1..];
    assert r(k + 0, Start(p, ends, 0), ends[0]);
    forall t | 0 <= t < |tail| ensures r(k + 1 + t, Start(ends[0], tail, t), tail[t]) {
      var u := t + 1;
      assert r(k + u, Start(p, ends, u), ends[u]);
      assert tail[t] == ends[u] && Start(ends[0], tail, t) == Start(p, ends, u) && k + 1 + t == k + u;
    }
  }

  /** A first piece in front of a chain for the elements after it. */
  lemma ChainCons(r: (nat, nat, nat) -> bool, k: nat, p: nat, ends: seq<nat>)
    requires |ends| > 0 && r(k, p, ends[0]) && Chain(r, k + 1, ends[0], ends[1..])
    ensures Chain(r, k, p, ends)
    ensures Start(p, ends, |ends|) == Start(ends[0], ends[1..], |ends| - 1)
  {
    var tail := ends[1..];
    forall t | 0 <= t < |ends| ensures r(k + t, Start(p, ends, t), ends[t]) {
      if t > 0 {
        var u := t - 1;
        assert r(k + 1 + u, Start(ends[0], tail, u), tail[u]);
        assert tail[u] == ends[t] && Start(ends[0], tail, u) == Start(p, ends, t) && k + 1 + u == k + t;
      } else {
        assert Start(p, ends, t) == p && k + t == k;
      }
    }
  }

  /** Element `k` can match `s[p..q]`. */
  ghost function ShapeRel(s: Str): (nat, nat, nat) -> bool {
    (k: nat, p: nat, q: nat) => p <= q <= |s| && Shape(k, s, p, q)
  }

  /** Decomposes, spelled out piece by piece. */
  ghost predicate Flat(s: Str, k: nat, p: nat, ends: seq<nat>) {
    k <= Elements && |ends| == Elements - k && Chain(ShapeRel(s), k, p, ends) &&
    AtEnd(s, Start(p, ends, |ends|))
  }

  lemma DecomposesIsFlat(s: Str, k: nat, p: nat, ends: seq<nat>)
    requires k <= Elements && p <= |s|
    ensures Decomposes(s, k, p, ends) <==> Flat(s, k, p, ends)
  {
    if Decomposes(s, k, p, ends) {
      FlatOfDecomposes(s, k, p, ends);
    }
    if Flat(s, k, p, ends) {
      DecomposesOfFlat(s, k, p, ends);
    }
  }

  lemma {:induction false} FlatOfDecomposes(s: Str, k: nat, p: nat, ends: seq<nat>)
    requires k <= Elements && p <= |s| && Decomposes(s, k, p, ends)
    ensures Flat(s, k, p, ends)
    decreases Elements - k
  {
    if k < Elements {
      FlatOfDecomposes(s, k + 1, ends[0], ends[1..]);
      assert ShapeRel(s)(k, p, ends[0]);
      ChainCons(ShapeRel(s), k, p, ends);
    } else {
      assert Start(p, ends, 0) == p;
    }
  }

  lemma {:induction false} DecomposesOfFlat(s: Str, k: nat, p: nat, ends: seq<nat>)
    requires k <= Elements && p <= |s| && Flat(s, k, p, ends)
    ensures Decomposes(s, k, p, ends)
    decreases Elements - k
  {
    if k < Elements {
      ChainTail(ShapeRel(s), k, p, ends);
      assert ShapeRel(s)(k, p, ends[0]);
      DecomposesOfFlat(s, k + 1, ends[0], ends[1..]);
    } else {
      assert Start(p, ends, 0) == p;
    }
  }

  /** The cuts the engine returns run forward and stay inside the name. */
  predicate Cuts(ends: seq<nat>, n: nat) {
    |ends| == Elements &&
    (forall t :: 0 <= t < Elements - 1 ==> ends[t] <= ends[t + 1]) &&
    (forall t :: 0 <= t < Elements ==> ends[t] <= n)
  }

  lemma FlatCuts(s: Str, ends: seq<nat>)
    requires Flat(s, 0, 0, ends)
    ensures Cuts(ends, |s|)
  {
    forall t | 0 <= t < Elements ensures Start(0, ends, t) <= ends[t] <= |s| {
      assert ShapeRel(s)(0 + t, Start(0, ends, t), ends[t]);
    }
    forall t | 0 <= t < Elements - 1 ensures ends[t] <= ends[t + 1] {
      assert Start(0, ends, t + 1) == ends[t];
    }
  }

  /** The seven groups of `match.groups()`: an optional group that takes
      no part in the match is `None`. */
  datatype Parts = Parts(prefixNumber: Option<Str>, prefix: Str, number: Str, cd1: Option<Str>,
                         postfix: Option<Str>, cd2: Option<Str>, ext: Str)

  /** An optional group of this pattern can only match a non-empty piece,
      so an empty piece means the group took no part. */
  function Group(s: Str, a: nat, b: nat): Option<Str>
    requires a <= b <= |s|
  {
    if a == b then None else Some(s[a..b])
  }

  function PartsOf(s: Str, ends: seq<nat>): Parts
    requires Cuts(ends, |s|)
  {
    Parts(Group(s, 0, ends[0]), s[ends[1]..ends[2]], s[ends[3]..ends[4]], Group(s, ends[5], ends[6]),
          Group(s, ends[7], ends[8]), Group(s, ends[9], ends[10]), s[ends[11]..ends[12]])
  }

  /** The separators the match consumed; the groups do not report them. */
  function SepsOf(s: Str, ends: seq<nat>): seq<Str>
    requires Cuts(ends, |s|)
  {
    [s[ends[0]..ends[1]], s[ends[2]..ends[3]], s[ends[4]..ends[5]],
     s[ends[6]..ends[7]], s[ends[8]..ends[9]], s[ends[10]..ends[11]]]
  }

  lemma ParsedCuts(s: Str, ends: seq<nat>)
    requires MatchFrom(s, 0, 0) == Some(ends)
    ensures Flat(s, 0, 0, ends) && Cuts(ends, |s|)
  {
    MatchFromSound(s, 0, 0);
    DecomposesIsFlat(s, 0, 0, ends);
    FlatCuts(s, ends);
  }

  /** `parse_filename(filename)`: the groups of the first match the engine
      finds, with whether the warning about a short number is printed; no
      match raises the ValueError. */
  function ParseFilename(s: Str): Result<(Parts, bool), Str> {
    match MatchFrom(s, 0, 0)
    case None => Err("ValueError")
    case Some(ends) =>
      ParsedCuts(s, ends);
      var r := PartsOf(s, ends);
      Ok((r, |r.number| < 3))
  }

  // What a parse means

  function OrEmpty(g: Option<Str>): Str {
    if g.None? then "" else g.value
  }

  function Join(ps: seq<Str>): Str {
    if ps == [] then "" else ps[0] + Join(ps[1..])
  }

  /** The thirteen pieces, groups and separators, in the pattern's order. */
  function Pieces(r: Parts, seps: seq<Str>): (ps: seq<Str>)
    requires |seps| == 6
    ensures |ps| == Elements
  {
    [OrEmpty(r.prefixNumber), seps[0], r.prefix, seps[1], r.number, seps[2], OrEmpty(r.cd1), seps[3],
     OrEmpty(r.postfix), seps[4], OrEmpty(r.cd2), seps[5], r.ext]
  }

  /** The name the groups spell with the separators `seps`. */
  function Spelling(r: Parts, seps: seq<Str>): Str
    requires |seps| == 6
  {
    Join(Pieces(r, seps))
  }

  /** Each group has the shape its part of the pattern admits. */
  predicate WellFormed(r: Parts) {
    (r.prefixNumber.Some? ==> |r.prefixNumber.value| == 3 && AllDigits(r.prefixNumber.value)) &&
    |r.prefix| > 0 && AllLetters(r.prefix) &&
    2 <= |r.number| <= 4 && AllDigits(r.number) &&
    (r.cd1.Some? ==> IsCdTag(r.cd1.value)) &&
    (r.postfix.Some? ==> |r.postfix.value| > 0 && AllLetters(r.postfix.value)) &&
    (r.cd2.Some? ==> IsCdTag(r.cd2.value)) &&
    |r.ext| >= 2 && r.ext[0] == '.' && All(r.ext[1..], IsWordChar)
  }

  /** `s` is the groups `r` and the optional separators `seps` written one
      after the other, possibly followed by the one newline `$` allows. */
  ghost predicate Spells(s: Str, r: Parts, seps: seq<Str>) {
    |seps| == 6 && WellFormed(r) && (forall t :: 0 <= t < 6 ==> OptSep(seps[t])) &&
    (s == Spelling(r, seps) || s == Spelling(r, seps) + "\n")
  }

  /** `ps` are the pieces of `s` between the cuts `ends`, from `p`. */
  ghost predicate SplitInto(s: Str, p: nat, ends: seq<nat>, ps: seq<Str>) {
    |ps| == |ends| &&
    forall t :: 0 <= t < |ends| ==> Start(p, ends, t) <= ends[t] <= |s| && ps[t] == s[Start(p, ends, t)..ends[t]]
  }

  lemma {:induction false} JoinSplit(s: Str, p: nat, ends: seq<nat>, ps: seq<Str>)
    requires p <= |s| && SplitInto(s, p, ends, ps)
    ensures p <= Start(p, ends, |ends|) <= |s| && Join(ps) == s[p..Start(p, ends, |ends|)]
    decreases |ps|
  {
    if ps != [] {
      SplitTail(s, p, ends, ps);
      JoinSplit(s, ends[0], ends[1..], ps[1..]);
      JoinFirst(s, p, ends[0], Start(p, ends, |ends|), ps);
    }
  }

  lemma SplitTail(s: Str, p: nat, ends: seq<nat>, ps: seq<Str>)
    requires SplitInto(s, p, ends, ps) && ps != []
    ensures p <= ends[0] <= |s| && ps[0] == s[p..ends[0]]
    ensures SplitInto(s, ends[0], ends[1..], ps[1..])
    ensures Start(p, ends, |ends|) == Start(ends[0], ends[1..], |ends| - 1)
  {
    var tail, rest := ends[1..], ps[1..];
    assert Start(p, ends, 0) == p;
    forall t | 0 <= t < |tail|
      ensures Start(ends[0], tail, t) <= tail[t] <= |s| && rest[t] == s[Start(ends[0], tail, t)..tail[t]]
    {
      assert tail[t] == ends[t + 1] && rest[t] == ps[t + 1] && Start(ends[0], tail, t) == Start(p, ends, t + 1);
    }
  }

  lemma JoinFirst(s: Str, p: nat, a: nat, e: nat, ps: seq<Str>)
    requires ps != [] && p <= a <= e <= |s| && ps[0] == s[p..a] && Join(ps[1..]) == s[a..e]
    ensures Join(ps) == s[p..e]
  {
    assert s[p..e] == s[p..a] + s[a..e];
  }

  lemma {:induction false} JoinAppend(a: seq<Str>, b: seq<Str>)
    ensures Join(a + b) == Join(a) + Join(b)
    decreases |a|
  {
    if a == [] {
      assert a + b == b;
    } else {
      assert (a + b)[0] == a[0] && (a + b)[1..] == a[1..] + b;
      JoinAppend(a[1..], b);
    }
  }

  /** Where each of the pieces `ps` ends once they are joined. */
  function Offsets(ps: seq<Str>): (ends: seq<nat>)
    ensures |ends| == |ps|
  {
    seq(|ps|, t requires 0 <= t < |ps| => |Join(ps[..t + 1])|)
  }

  /** Joined pieces split back into themselves at their offsets. */
  lemma OffsetsSplit(ps: seq<Str>, s: Str)
    requires |Join(ps)| <= |s| && s[..|Join(ps)|] == Join(ps)
    ensures SplitInto(s, 0, Offsets(ps), ps) && Start(0, Offsets(ps), |ps|) == |Join(ps)|
  {
    var ends := Offsets(ps);
    forall t | 0 <= t < |ps|
      ensures Start(0, ends, t) <= ends[t] <= |s| && ps[t] == s[Start(0, ends, t)..ends[t]]
    {
      OffsetPiece(ps, s, t);
    }
    if ps != [] {
      assert ps[..|ps|] == ps;
    }
  }

  lemma OffsetPiece(ps: seq<Str>, s: Str, t: nat)
    requires |Join(ps)| <= |s| && s[..|Join(ps)|] == Join(ps) && t < |ps|
    ensures Start(0, Offsets(ps), t) <= Offsets(ps)[t] <= |s|
    ensures ps[t] == s[Start(0, Offsets(ps), t)..Offsets(ps)[t]]
  {
    var before, upto := Join(ps[..t]), Join(ps[..t + 1]);
    assert ps[..t + 1] == ps[..t] + [ps[t]];
    JoinAppend(ps[..t], [ps[t]]);
    assert Join([ps[t]]) == ps[t] + Join([]);
    assert ps == ps[..t + 1] + ps[t + 1..];
    JoinAppend(ps[..t + 1], ps[t + 1..]);
    assert upto == before + ps[t];
    assert Join(ps) == upto + Join(ps[t + 1..]);
    if t > 0 {
      assert ps[..t - 1 + 1] == ps[..t];
    }
    assert Start(0, Offsets(ps), t) == |before|;
    assert Join(ps)[|before|..|upto|] == ps[t];
  }

  /** No optional group holds the empty string. */
  predicate NoEmptyGroup(r: Parts) {
    r.prefixNumber != Some("") && r.cd1 != Some("") && r.postfix != Some("") && r.cd2 != Some("")
  }

  /** Well-formed groups and optional separators give pieces of the shapes
      their elements admit. */
  lemma WellFormedPieces(r: Parts, seps: seq<Str>)
    requires |seps| == 6 && WellFormed(r) && forall t :: 0 <= t < 6 ==> OptSep(seps[t])
    ensures forall t :: 0 <= t < Elements ==> PieceShape(t, Pieces(r, seps)[t])
  {
    forall t | 0 <= t < Elements ensures PieceShape(t, Pieces(r, seps)[t]) {
      if t % 2 == 1 {
        SepPiece(r, seps, t);
      } else {
        GroupPiece(r, seps, t);
      }
    }
  }

  lemma SepPiece(r: Parts, seps: seq<Str>, t: nat)
    requires |seps| == 6 && t < Elements && t % 2 == 1 && OptSep(seps[t / 2])
    ensures PieceShape(t, Pieces(r, seps)[t])
  {
    assert Pieces(r, seps)[t] == seps[t / 2];
  }

  lemma GroupPiece(r: Parts, seps: seq<Str>, t: nat)
    requires |seps| == 6 && t < Elements && t % 2 == 0 && WellFormed(r)
    ensures PieceShape(t, Pieces(r, seps)[t])
  {
    var ps := Pieces(r, seps);
    if t == 12 {
      assert ps[12][1..] == r.ext[1..];
    }
  }

  /** What element `t` of a match consumed. */
  lemma FlatAt(s: Str, ends: seq<nat>, t: nat)
    requires Flat(s, 0, 0, ends) && t < Elements
    ensures Start(0, ends, t) <= ends[t] <= |s| && PieceShape(t, s[Start(0, ends, t)..ends[t]])
  {
    assert ShapeRel(s)(0 + t, Start(0, ends, t), ends[t]);
    ShapeOfPiece(t, s, Start(0, ends, t), ends[t]);
  }

  lemma ParsedGroups(s: Str, ends: seq<nat>)
    requires Flat(s, 0, 0, ends) && Cuts(ends, |s|)
    ensures WellFormed(PartsOf(s, ends))
  {
    var r := PartsOf(s, ends);
    FlatAt(s, ends, 0);
    FlatAt(s, ends, 2);
    FlatAt(s, ends, 4);
    FlatAt(s, ends, 6);
    FlatAt(s, ends, 8);
    FlatAt(s, ends, 10);
    FlatAt(s, ends, 12);
  }

  lemma ParsedSeps(s: Str, ends: seq<nat>)
    requires Flat(s, 0, 0, ends) && Cuts(ends, |s|)
    ensures forall t :: 0 <= t < 6 ==> OptSep(SepsOf(s, ends)[t])
  {
    forall t | 0 <= t < 6 ensures OptSep(SepsOf(s, ends)[t]) {
      ParsedSep(s, ends, t);
    }
  }

  lemma ParsedSep(s: Str, ends: seq<nat>, t: nat)
    requires Flat(s, 0, 0, ends) && Cuts(ends, |s|) && t < 6
    ensures OptSep(SepsOf(s, ends)[t])
  {
    SepAt(s, ends, 2 * t + 1);
    SepOfCut(s, ends, t);
  }

  lemma SepAt(s: Str, ends: seq<nat>, k: nat)
    requires Flat(s, 0, 0, ends) && k < Elements && k % 2 == 1
    ensures Start(0, ends, k) <= ends[k] <= |s| && OptSep(s[Start(0, ends, k)..ends[k]])
  {
    FlatAt(s, ends, k);
  }

  lemma SepOfCut(s: Str, ends: seq<nat>, t: nat)
    requires Cuts(ends, |s|) && t < 6
    ensures Start(0, ends, 2 * t + 1) == ends[2 * t] && SepsOf(s, ends)[t] == s[ends[2 * t]..ends[2 * t + 1]]
  {
  }

  /** The pieces of a match are the groups of PartsOf and the separators of
      SepsOf. */
  lemma PiecesAreSlices(s: Str, ends: seq<nat>)
    requires Cuts(ends, |s|)
    ensures SplitInto(s, 0, ends, Pieces(PartsOf(s, ends), SepsOf(s, ends)))
  {
    var ps := Pieces(PartsOf(s, ends), SepsOf(s, ends));
    forall t | 0 <= t < Elements
      ensures Start(0, ends, t) <= ends[t] <= |s| && ps[t] == s[Start(0, ends, t)..ends[t]]
    {
      if t == 0 {
        assert Start(0, ends, 0) == 0;
      } else {
        assert Start(0, ends, t) == ends[t - 1];
      }
    }
  }

  /** A match spells the name: its groups are well formed, the separators
      it skipped are optional separators, and together they make up the
      name up to the end `$` accepts. */
  lemma ParsedSpells(s: Str, ends: seq<nat>)
    requires MatchFrom(s, 0, 0) == Some(ends)
    ensures Cuts(ends, |s|) && Spells(s, PartsOf(s, ends), SepsOf(s, ends))
  {
    ParsedCuts(s, ends);
    ParsedGroups(s, ends);
    ParsedSeps(s, ends);
    ParsedJoin(s, ends);
  }

  lemma ParsedJoin(s: Str, ends: seq<nat>)
    requires Cuts(ends, |s|) && AtEnd(s, ends[12])
    ensures var j := Spelling(PartsOf(s, ends), SepsOf(s, ends)); s == j || s == j + "\n"
  {
    var ps := Pieces(PartsOf(s, ends), SepsOf(s, ends));
    PiecesAreSlices(s, ends);
    JoinSplit(s, 0, ends, ps);
    assert Start(0, ends, |ends|) == ends[12];
    if ends[12] == |s| {
      assert s[0..ends[12]] == s;
    } else {
      assert s == s[0..ends[12]] + "\n";
    }
  }

  /** Any way of spelling the name from well-formed groups and optional
      separators is a way for the pattern to match. */
  lemma SpellingMatches(s: Str, r: Parts, seps: seq<Str>)
    requires Spells(s, r, seps)
    ensures MatchFrom(s, 0, 0).Some?
  {
    var ps := Pieces(r, seps);
    var n := |Join(ps)|;
    assert s[..n] == Join(ps) && AtEnd(s, n);
    WellFormedPieces(r, seps);
    PiecesFlat(s, ps);
    DecomposesIsFlat(s, 0, 0, Offsets(ps));
    MatchFromComplete(s, 0, 0, Offsets(ps));
  }

  /** Shaped pieces that make up the name up to an end `$` accepts split
      it the way Flat asks for. */
  lemma PiecesFlat(s: Str, ps: seq<Str>)
    requires |ps| == Elements && forall t :: 0 <= t < Elements ==> PieceShape(t, ps[t])
    requires |Join(ps)| <= |s| && s[..|Join(ps)|] == Join(ps) && AtEnd(s, |Join(ps)|)
    ensures Flat(s, 0, 0, Offsets(ps))
  {
    OffsetsSplit(ps, s);
    var ends := Offsets(ps);
    forall t | 0 <= t < |ends| ensures ShapeRel(s)(0 + t, Start(0, ends, t), ends[t]) {
      ShapeOfPiece(t, s, Start(0, ends, t), ends[t]);
    }
  }

  /** `parse_filename` succeeds exactly when the name can be spelled from
      well-formed groups and optional separators, and then its groups are
      such a spelling; otherwise it raises the ValueError.  The warning is
      printed exactly when the number has two digits. */
  lemma ParseFilenameMeaning(s: Str)
    ensures ParseFilename(s).Ok? ==> exists seps :: Spells(s, ParseFilename(s).value.0, seps)
    ensures ParseFilename(s).Err? <==> forall r, seps :: !Spells(s, r, seps)
    ensures ParseFilename(s).Err? ==> ParseFilename(s).error == "ValueError"
    ensures ParseFilename(s).Ok? ==> (ParseFilename(s).value.1 <==> |ParseFilename(s).value.0.number| == 2)
  {
    match MatchFrom(s, 0, 0)
    case Some(ends) =>
      ParsedSpells(s, ends);
      assert ParseFilename(s).value.0 == PartsOf(s, ends);
      assert Spells(s, PartsOf(s, ends), SepsOf(s, ends));
    case None =>
      forall r, seps ensures !Spells(s, r, seps) {
        if Spells(s, r, seps) {
          SpellingMatches(s, r, seps);
        }
      }
  }

  // -------------------------------------------------------------------
  // The examples at the end of utility.py

  /** The first end element `k` tries from `p` is `q`. */
  predicate FirstTry(k: nat, s: Str, p: nat, q: nat)
    requires k < Elements && p <= |s|
  {
    |Choices(k, s, p)| > 0 && Choices(k, s, p)[0] == q
  }

  /** From element `k` on, the first end each element tries is the next
      cut of `ends`, and `$` holds after the last. */
  ghost predicate Tries(s: Str, k: nat, p: nat, ends: seq<nat>) {
    k <= Elements && p <= |s| && |ends| == Elements - k && Chain(TryRel(s), k, p, ends) &&
    AtEnd(s, Start(p, ends, |ends|))
  }

  /** Element `k`'s first try from `p` is `q`. */
  ghost function TryRel(s: Str): (nat, nat, nat) -> bool {
    (k: nat, p: nat, q: nat) => k < Elements && p <= q <= |s| && FirstTry(k, s, p, q)
  }

  /** When every element's first try works out, the engine returns those
      tries without backtracking. */
  lemma TriesMatch(s: Str, p: nat, ends: seq<nat>)
    requires Tries(s, 0, p, ends)
    ensures MatchFrom(s, 0, p) == Some(ends)
  {
    GreedyOfTries(s, 0, p, ends);
    GreedyMatches(s, 0, p, ends);
  }

  /** The first tries, element by element, as the engine meets them. */
  ghost predicate Greedy(s: Str, k: nat, p: nat, ends: seq<nat>)
    requires k <= Elements && p <= |s|
    decreases Elements - k
  {
    if k == Elements then ends == [] && AtEnd(s, p)
    else |ends| > 0 && ends[0] <= |s| && FirstTry(k, s, p, ends[0]) && Greedy(s, k + 1, ends[0], ends[1..])
  }

  lemma {:induction false} GreedyOfTries(s: Str, k: nat, p: nat, ends: seq<nat>)
    requires Tries(s, k, p, ends)
    ensures Greedy(s, k, p, ends)
    decreases Elements - k
  {
    if k < Elements {
      TriesTail(s, k, p, ends);
      GreedyOfTries(s, k + 1, ends[0], ends[1..]);
    } else {
      assert ends == [] && Start(p, ends, 0) == p;
    }
  }

  lemma {:induction false} GreedyMatches(s: Str, k: nat, p: nat, ends: seq<nat>)
    requires k <= Elements && p <= |s| && Greedy(s, k, p, ends)
    ensures MatchFrom(s, k, p) == Some(ends)
    decreases Elements - k
  {
    if k < Elements {
      GreedyMatches(s, k + 1, ends[0], ends[1..]);
      MatchStep(s, k, p, ends);
    }
  }

  /** The first candidate is taken when the rest of the pattern matches
      after it. */
  lemma MatchStep(s: Str, k: nat, p: nat, ends: seq<nat>)
    requires k < Elements && p <= |s| && |ends| > 0 && ends[0] <= |s| && FirstTry(k, s, p, ends[0])
    requires MatchFrom(s, k + 1, ends[0]) == Some(ends[1..])
    ensures MatchFrom(s, k, p) == Some(ends)
  {
    var cs := Choices(k, s, p);
    assert TryEach(s, k, p, cs) == Some([ends[0]] + ends[1..]);
    assert ends == [ends[0]] + ends[1..];
  }

  lemma TriesTail(s: Str, k: nat, p: nat, ends: seq<nat>)
    requires Tries(s, k, p, ends) && k < Elements
    ensures ends[0] <= |s| && FirstTry(k, s, p, ends[0]) && Tries(s, k + 1, ends[0], ends[1..])
  {
    ChainTail(TryRel(s), k, p, ends);
    assert TryRel(s)(k, p, ends[0]);
  }

  /** `parse_filename("232GANA-334-C.mp4")` reports the three digits in
      front, `GANA`, `334` and `C` with the extension, and no warning: `C`
      is the postfix, since a cd needs a lower-case `cd` and a digit. */
  lemma GanaParse(s: Str)
    requires s == "232GANA-334-C.mp4"
    ensures ParseFilename(s) == Ok((Parts(Some("232"), "GANA", "334", None, Some("C"), None, ".mp4"), false))
  {
    var e := [3, 3, 7, 8, 11, 12, 12, 12, 13, 13, 13, 13, 17];
    GanaMatch(s, e);
    ParsedCuts(s, e);
    GanaParts(s, e);
  }

  lemma GanaMatch(s: Str, e: seq<nat>)
    requires s == "232GANA-334-C.mp4" && e == [3, 3, 7, 8, 11, 12, 12, 12, 13, 13, 13, 13, 17]
    ensures MatchFrom(s, 0, 0) == Some(e)
  {
    GanaTries(s, e);
    TriesMatch(s, 0, e);
  }

  lemma GanaParts(s: Str, e: seq<nat>)
    requires s == "232GANA-334-C.mp4" && e == [3, 3, 7, 8, 11, 12, 12, 12, 13, 13, 13, 13, 17]
    requires Cuts(e, |s|)
    ensures PartsOf(s, e) == Parts(Some("232"), "GANA", "334", None, Some("C"), None, ".mp4")
  {
    assert s[0..3] == "232" && s[3..7] == "GANA" && s[8..11] == "334" && s[12..13] == "C" && s[13..17] == ".mp4";
  }

  lemma GanaTries(s: Str, e: seq<nat>)
    requires s == "232GANA-334-C.mp4" && e == [3, 3, 7, 8, 11, 12, 12, 12, 13, 13, 13, 13, 17]
    ensures Tries(s, 0, 0, e)
  {
    forall t | 0 <= t < Elements ensures TryRel(s)(0 + t, Start(0, e, t), e[t]) {
      if t == 0 {
        GanaExampleRun0(s, e, t);
      } else if t == 2 {
        GanaExampleRun2(s, e, t);
      } else if t == 4 {
        GanaExampleRun4(s, e, t);
      } else if t == 8 {
        GanaExampleRun8(s, e, t);
      } else if t == 12 {
        GanaExampleRun12(s, e, t);
      } else {
        GanaPlain(s, e, t);
      }
    }
    assert Start(0, e, |e|) == 17 && |s| == 17;
  }

  lemma GanaPlain(s: Str, e: seq<nat>, t: nat)
    requires s == "232GANA-334-C.mp4" && e == [3, 3, 7, 8, 11, 12, 12, 12, 13, 13, 13, 13, 17]
    requires t == 1 || t == 3 || t == 5 || t == 6 || t == 7 || t == 9 || t == 10 || t == 11
    ensures Start(0, e, t) <= e[t] <= |s| && FirstTry(t, s, Start(0, e, t), e[t])
  {
  }

  lemma GanaExampleRun0(s: Str, e: seq<nat>, t: nat)
    requires s == "232GANA-334-C.mp4" && e == [3, 3, 7, 8, 11, 12, 12, 12, 13, 13, 13, 13, 17]
    requires t == 0
    ensures Start(0, e, t) <= e[t] <= |s| && FirstTry(t, s, Start(0, e, t), e[t])
  {
    RunEndUnique(s, 0, 3, IsDigit);
  }

  lemma GanaExampleRun2(s: Str, e: seq<nat>, t: nat)
    requires s == "232GANA-334-C.mp4" && e == [3, 3, 7, 8, 11, 12, 12, 12, 13, 13, 13, 13, 17]
    requires t == 2
    ensures Start(0, e, t) <= e[t] <= |s| && FirstTry(t, s, Start(0, e, t), e[t])
  {
    RunEndUnique(s, 3, 7, IsLetter);
  }

  lemma GanaExampleRun4(s: Str, e: seq<nat>, t: nat)
    requires s == "232GANA-334-C.mp4" && e == [3, 3, 7, 8, 11, 12, 12, 12, 13, 13, 13, 13, 17]
    requires t == 4
    ensures Start(0, e, t) <= e[t] <= |s| && FirstTry(t, s, Start(0, e, t), e[t])
  {
    RunEndUnique(s, 8, 11, IsDigit);
  }

  lemma GanaExampleRun8(s: Str, e: seq<nat>, t: nat)
    requires s == "232GANA-334-C.mp4" && e == [3, 3, 7, 8, 11, 12, 12, 12, 13, 13, 13, 13, 17]
    requires t == 8
    ensures Start(0, e, t) <= e[t] <= |s| && FirstTry(t, s, Start(0, e, t), e[t])
  {
    RunEndUnique(s, 12, 13, IsLetter);
  }

  lemma GanaExampleRun12(s: Str, e: seq<nat>, t: nat)
    requires s == "232GANA-334-C.mp4" && e == [3, 3, 7, 8, 11, 12, 12, 12, 13, 13, 13, 13, 17]
    requires t == 12
    ensures Start(0, e, t) <= e[t] <= |s| && FirstTry(t, s, Start(0, e, t), e[t])
  {
    RunEndUnique(s, 14, 17, IsWordChar);
  }

  /** `parse_filename("ABC-12.mp4")` matches with a two-digit number, so the
      warning is printed. */
  lemma ShortParse(s: Str)
    requires s == "ABC-12.mp4"
    ensures ParseFilename(s) == Ok((Parts(None, "ABC", "12", None, None, None, ".mp4"), true))
  {
    var e := [0, 0, 3, 4, 6, 6, 6, 6, 6, 6, 6, 6, 10];
    ShortMatch(s, e);
    ParsedCuts(s, e);
    ShortParts(s, e);
  }

  lemma ShortMatch(s: Str, e: seq<nat>)
    requires s == "ABC-12.mp4" && e == [0, 0, 3, 4, 6, 6, 6, 6, 6, 6, 6, 6, 10]
    ensures MatchFrom(s, 0, 0) == Some(e)
  {
    ShortTries(s, e);
    TriesMatch(s, 0, e);
  }

  lemma ShortParts(s: Str, e: seq<nat>)
    requires s == "ABC-12.mp4" && e == [0, 0, 3, 4, 6, 6, 6, 6, 6, 6, 6, 6, 10]
    requires Cuts(e, |s|)
    ensures PartsOf(s, e) == Parts(None, "ABC", "12", None, None, None, ".mp4")
  {
    assert s[0..3] == "ABC" && s[4..6] == "12" && s[6..10] == ".mp4";
  }

  lemma ShortTries(s: Str, e: seq<nat>)
    requires s == "ABC-12.mp4" && e == [0, 0, 3, 4, 6, 6, 6, 6, 6, 6, 6, 6, 10]
    ensures Tries(s, 0, 0, e)
  {
    forall t | 0 <= t < Elements ensures TryRel(s)(0 + t, Start(0, e, t), e[t]) {
      if t == 0 {
        ShortRun0(s, e, t);
      } else if t == 2 {
        ShortRun2(s, e, t);
      } else if t == 4 {
        ShortRun4(s, e, t);
      } else if t == 8 {
        ShortRun8(s, e, t);
      } else if t == 12 {
        ShortRun12(s, e, t);
      } else {
        ShortPlain(s, e, t);
      }
    }
    assert Start(0, e, |e|) == 10 && |s| == 10;
  }

  lemma ShortPlain(s: Str, e: seq<nat>, t: nat)
    requires s == "ABC-12.mp4" && e == [0, 0, 3, 4, 6, 6, 6, 6, 6, 6, 6, 6, 10]
    requires t == 1 || t == 3 || t == 5 || t == 6 || t == 7 || t == 9 || t == 10 || t == 11
    ensures Start(0, e, t) <= e[t] <= |s| && FirstTry(t, s, Start(0, e, t), e[t])
  {
  }

  lemma ShortRun0(s: Str, e: seq<nat>, t: nat)
    requires s == "ABC-12.mp4" && e == [0, 0, 3, 4, 6, 6, 6, 6, 6, 6, 6, 6, 10]
    requires t == 0
    ensures Start(0, e, t) <= e[t] <= |s| && FirstTry(t, s, Start(0, e, t), e[t])
  {
    RunEndUnique(s, 0, 0, IsDigit);
  }

  lemma ShortRun2(s: Str, e: seq<nat>, t: nat)
    requires s == "ABC-12.mp4" && e == [0, 0, 3, 4, 6, 6, 6, 6, 6, 6, 6, 6, 10]
    requires t == 2
    ensures Start(0, e, t) <= e[t] <= |s| && FirstTry(t, s, Start(0, e, t), e[t])
  {
    RunEndUnique(s, 0, 3, IsLetter);
  }

  lemma ShortRun4(s: Str, e: seq<nat>, t: nat)
    requires s == "ABC-12.mp4" && e == [0, 0, 3, 4, 6, 6, 6, 6, 6, 6, 6, 6, 10]
    requires t == 4
    ensures Start(0, e, t) <= e[t] <= |s| && FirstTry(t, s, Start(0, e, t), e[t])
  {
    RunEndUnique(s, 4, 6, IsDigit);
  }

  lemma ShortRun8(s: Str, e: seq<nat>, t: nat)
    requires s == "ABC-12.mp4" && e == [0, 0, 3, 4, 6, 6, 6, 6, 6, 6, 6, 6, 10]
    requires t == 8
    ensures Start(0, e, t) <= e[t] <= |s| && FirstTry(t, s, Start(0, e, t), e[t])
  {
    RunEndUnique(s, 6, 6, IsLetter);
  }

  lemma ShortRun12(s: Str, e: seq<nat>, t: nat)
    requires s == "ABC-12.mp4" && e == [0, 0, 3, 4, 6, 6, 6, 6, 6, 6, 6, 6, 10]
    requires t == 12
    ensures Start(0, e, t) <= e[t] <= |s| && FirstTry(t, s, Start(0, e, t), e[t])
  {
    RunEndUnique(s, 7, 10, IsWordChar);
  }

  /** `parse_filename("example_1234_c.mp4")`: no digits in front, the four
      digits as the number and the lower-case `c` as the postfix, since a cd
      needs a digit after it. */
  lemma ExampleParse(s: Str)
    requires s == "example_1234_c.mp4"
    ensures ParseFilename(s) == Ok((Parts(None, "example", "1234", None, Some("c"), None, ".mp4"), false))
  {
    var e := [0, 0, 7, 8, 12, 13, 13, 13, 14, 14, 14, 14, 18];
    ExampleMatch(s, e);
    ParsedCuts(s, e);
    ExampleParts(s, e);
  }

  lemma ExampleMatch(s: Str, e: seq<nat>)
    requires s == "example_1234_c.mp4" && e == [0, 0, 7, 8, 12, 13, 13, 13, 14, 14, 14, 14, 18]
    ensures MatchFrom(s, 0, 0) == Some(e)
  {
    ExampleTries(s, e);
    TriesMatch(s, 0, e);
  }

  lemma ExampleParts(s: Str, e: seq<nat>)
    requires s == "example_1234_c.mp4" && e == [0, 0, 7, 8, 12, 13, 13, 13, 14, 14, 14, 14, 18]
    requires Cuts(e, |s|)
    ensures PartsOf(s, e) == Parts(None, "example", "1234", None, Some("c"), None, ".mp4")
  {
    assert s[0..7] == "example" && s[8..12] == "1234" && s[13..14] == "c" && s[14..18] == ".mp4";
  }

  lemma ExampleTries(s: Str, e: seq<nat>)
    requires s == "example_1234_c.mp4" && e == [0, 0, 7, 8, 12, 13, 13, 13, 14, 14, 14, 14, 18]
    ensures Tries(s, 0, 0, e)
  {
    forall t | 0 <= t < Elements ensures TryRel(s)(0 + t, Start(0, e, t), e[t]) {
      if t == 0 {
        ExampleRun0(s, e, t);
      } else if t == 2 {
        ExampleRun2(s, e, t);
      } else if t == 4 {
        ExampleRun4(s, e, t);
      } else if t == 8 {
        ExampleRun8(s, e, t);
      } else if t == 12 {
        ExampleRun12(s, e, t);
      } else {
        ExamplePlain(s, e, t);
      }
    }
    assert Start(0, e, |e|) == 18 && |s| == 18;
  }

  lemma ExamplePlain(s: Str, e: seq<nat>, t: nat)
    requires s == "example_1234_c.mp4" && e == [0, 0, 7, 8, 12, 13, 13, 13, 14, 14, 14, 14, 18]
    requires t == 1 || t == 3 || t == 5 || t == 6 || t == 7 || t == 9 || t == 10 || t == 11
    ensures Start(0, e, t) <= e[t] <= |s| && FirstTry(t, s, Start(0, e, t), e[t])
  {
  }

  lemma ExampleRun0(s: Str, e: seq<nat>, t: nat)
    requires s == "example_1234_c.mp4" && e == [0, 0, 7, 8, 12, 13, 13, 13, 14, 14, 14, 14, 18]
    requires t == 0
    ensures Start(0, e, t) <= e[t] <= |s| && FirstTry(t, s, Start(0, e, t), e[t])
  {
    RunEndUnique(s, 0, 0, IsDigit);
  }

  lemma ExampleRun2(s: Str, e: seq<nat>, t: nat)
    requires s == "example_1234_c.mp4" && e == [0, 0, 7, 8, 12, 13, 13, 13, 14, 14, 14, 14, 18]
    requires t == 2
    ensures Start(0, e, t) <= e[t] <= |s| && FirstTry(t, s, Start(0, e, t), e[t])
  {
    RunEndUnique(s, 0, 7, IsLetter);
  }

  lemma ExampleRun4(s: Str, e: seq<nat>, t: nat)
    requires s == "example_1234_c.mp4" && e == [0, 0, 7, 8, 12, 13, 13, 13, 14, 14, 14, 14, 18]
    requires t == 4
    ensures Start(0, e, t) <= e[t] <= |s| && FirstTry(t, s, Start(0, e, t), e[t])
  {
    RunEndUnique(s, 8, 12, IsDigit);
  }

  lemma ExampleRun8(s: Str, e: seq<nat>, t: nat)
    requires s == "example_1234_c.mp4" && e == [0, 0, 7, 8, 12, 13, 13, 13, 14, 14, 14, 14, 18]
    requires t == 8
    ensures Start(0, e, t) <= e[t] <= |s| && FirstTry(t, s, Start(0, e, t), e[t])
  {
    RunEndUnique(s, 13, 14, IsLetter);
  }

  lemma ExampleRun12(s: Str, e: seq<nat>, t: nat)
    requires s == "example_1234_c.mp4" && e == [0, 0, 7, 8, 12, 13, 13, 13, 14, 14, 14, 14, 18]
    requires t == 12
    ensures Start(0, e, t) <= e[t] <= |s| && FirstTry(t, s, Start(0, e, t), e[t])
  {
    RunEndUnique(s, 15, 18, IsWordChar);
  }
}
