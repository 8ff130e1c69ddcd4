/** Characters and strings as the scripts' regular expressions see them.
    Python's `\d` and `\w` are taken to be their ASCII subsets, and
    `str.lower()` the ASCII case mapping. */
module Text {
  import opened Wrappers

  type Str = seq<char>

  predicate IsDigit(c: char) { '0' <= c <= '9' }

  /** `[A-Za-z]` */
  predicate IsLetter(c: char) { 'a' <= c <= 'z' || 'A' <= c <= 'Z' }

  /** `[a-zA-Z0-9]` */
  predicate IsAlnum(c: char) { IsLetter(c) || IsDigit(c) }

  /** `\w` */
  predicate IsWordChar(c: char) { IsAlnum(c) || c == '_' }

  /** `[a-zA-Z0-9-_]`, the characters utility.py keeps in a body. */
  predicate IsKept(c: char) { IsAlnum(c) || c == '-' || c == '_' }

  /** `[-_]` */
  predicate IsSep(c: char) { c == '-' || c == '_' }

  predicate All(s: Str, p: char -> bool) { forall i :: 0 <= i < |s| ==> p(s[i]) }

  predicate AllDigits(s: Str) { forall i :: 0 <= i < |s| ==> IsDigit(s[i]) }

  predicate AllLetters(s: Str) { forall i :: 0 <= i < |s| ==> IsLetter(s[i]) }

  function ToLower(c: char): (d: char)
    ensures 'A' <= c <= 'Z' ==> 'a' <= d <= 'z' && d as int == c as int + 32
    ensures !('A' <= c <= 'Z') ==> d == c
  {
    if 'A' <= c <= 'Z' then (c as int + 32) as char else c
  }

  function Lower(s: Str): (r: Str)
    ensures |r| == |s|
    ensures forall i :: 0 <= i < |s| ==> r[i] == ToLower(s[i])
  {
    seq(|s|, i requires 0 <= i < |s| => ToLower(s[i]))
  }

  predicate EndsWith(s: Str, suffix: Str) { |suffix| <= |s| && s[|s| - |suffix|..] == suffix }

  /** End of the longest run of characters satisfying `p` that starts at `i`. */
  function RunEnd(s: Str, i: nat, p: char -> bool): (j: nat)
    requires i <= |s|
    ensures i <= j <= |s|
    ensures forall k :: i <= k < j ==> p(s[k])
    ensures j == |s| || !p(s[j])
    decreases |s| - i
  {
    if i < |s| && p(s[i]) then RunEnd(s, i + 1, p) else i
  }

  /** Any position inside a run has the same run end. */
  lemma {:induction false} RunEndInside(s: Str, i: nat, k: nat, p: char -> bool)
    requires i <= k <= |s| && k <= RunEnd(s, i, p)
    ensures RunEnd(s, k, p) == RunEnd(s, i, p)
    decreases k - i
  {
    if i < k {
      RunEndInside(s, i + 1, k, p);
    }
  }

  /** The run end is determined by what the run looks like. */
  lemma RunEndUnique(s: Str, i: nat, j: nat, p: char -> bool)
    requires i <= j <= |s|
    requires forall k :: i <= k < j ==> p(s[k])
    requires j == |s| || !p(s[j])
    ensures RunEnd(s, i, p) == j
  {
  }

  /** Index of the last occurrence of `c` in `s`. */
  function LastIndexOf(s: Str, c: char): (r: Option<nat>)
    ensures r.None? ==> forall i :: 0 <= i < |s| ==> s[i] != c
    ensures r.Some? ==> r.value < |s| && s[r.value] == c
    ensures r.Some? ==> forall i :: r.value < i < |s| ==> s[i] != c
  {
    if |s| == 0 then None
    else if s[|s| - 1] == c then Some(|s| - 1)
    else LastIndexOf(s[..|s| - 1], c)
  }

  /** The position at which the lookahead `(?=\.[^.]+$)`, preceded by a
      literal `\.`, holds: the last dot of `s`, provided at least one
      character follows it.  (`[^.]` also matches a newline, so `$` adds
      nothing here.) */
  function ExtDot(s: Str): (r: Option<nat>)
    ensures r.Some? ==> r.value < |s| - 1 && s[r.value] == '.'
    ensures r.Some? ==> forall i :: r.value < i < |s| ==> s[i] != '.'
    ensures r.None? ==> forall k :: 0 <= k < |s| - 1 && s[k] == '.' ==>
                          exists i :: k < i < |s| && s[i] == '.'
  {
    match LastIndexOf(s, '.')
    case None => None
    case Some(k) => if k < |s| - 1 then Some(k) else None
  }

  /** A dot followed by a non-empty dot-free tail is the extension dot. */
  lemma ExtDotUnique(s: Str, k: nat)
    requires k < |s| - 1 && s[k] == '.'
    requires forall i :: k < i < |s| ==> s[i] != '.'
    ensures ExtDot(s) == Some(k)
  {
  }

  /** Python's `$`: the end of the string, or just before a final newline. */
  predicate AtEnd(s: Str, i: nat) { i == |s| || (i == |s| - 1 && s[i] == '\n') }

  /** The characters of `s` for which `p` holds, in order. */
  function Filter(s: Str, p: char -> bool): (r: Str)
    ensures |r| <= |s|
    ensures forall i :: 0 <= i < |r| ==> p(r[i])
    decreases |s|
  {
    if |s| == 0 then []
    else if p(s[0]) then [s[0]] + Filter(s[1..], p)
    else Filter(s[1..], p)
  }

  lemma {:induction false} FilterConcat(a: Str, b: Str, p: char -> bool)
    ensures Filter(a + b, p) == Filter(a, p) + Filter(b, p)
    decreases |a|
  {
    if |a| > 0 {
      assert (a + b)[1..] == a[1..] + b;
      FilterConcat(a[1..], b, p);
    } else {
      assert a + b == b;
    }
  }

  lemma {:induction false} FilterAll(s: Str, p: char -> bool)
    requires forall i :: 0 <= i < |s| ==> p(s[i])
    ensures Filter(s, p) == s
    decreases |s|
  {
    if |s| > 0 { FilterAll(s[1..], p); }
  }

  lemma {:induction false} FilterNone(s: Str, p: char -> bool)
    requires forall i :: 0 <= i < |s| ==> !p(s[i])
    ensures Filter(s, p) == []
    decreases |s|
  {
    if |s| > 0 { FilterNone(s[1..], p); }
  }
}
