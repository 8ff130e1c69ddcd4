/** The four tag policies chosen on the command line (`-c`, `-no`, `-u`,
    `-uc`) and what they do to a cleaned name.  file_clean.py and
    Movie_AutoScraping.py share this block word for word. */
module Policy {
  import opened Text
  import opened Rewrites

  /** The four policy switches `c`, `no`, `u` and `uc`. */
  datatype Flags = Flags(c: bool, no: bool, u: bool, uc: bool)

  /** The rule the command-line check states: exactly one switch is set. */
  predicate ExactlyOne(f: Flags) {
    (if f.c then 1 else 0) + (if f.no then 1 else 0) + (if f.u then 1 else 0) + (if f.uc then 1 else 0) == 1
  }

  /** The tag policy after the common steps, in the `elif` order c, no, u, uc. */
  function ApplyPolicy(s: Str, f: Flags): Str {
    if f.c then AddCTag(s)
    else if f.no then s
    else if f.u then InsertBeforeExt(s, "-hack")
    else if f.uc then InsertBeforeExt(s, "-hack-c")
    else s
  }

  /** Policy `c` wins over the others; `no` returns the name as it is; `u`
      and `uc` always put their tag right before the extension dot, with no
      check for a tag already there; with no switch the name is kept. */
  lemma PolicyEffect(s: Str, f: Flags)
    ensures f.c ==> ApplyPolicy(s, f) == AddCTag(s)
    ensures !f.c && (f.no || !(f.u || f.uc)) ==> ApplyPolicy(s, f) == s
    ensures !f.c && !f.no && (f.u || f.uc) && ExtDot(s).Some? ==>
      ApplyPolicy(s, f) == s[..ExtDot(s).value] + (if f.u then "-hack" else "-hack-c") + s[ExtDot(s).value..]
    ensures !f.c && ExtDot(s).None? ==> ApplyPolicy(s, f) == s
  {
    InsertBeforeExtAt(s, "-hack");
    InsertBeforeExtAt(s, "-hack-c");
  }

  /** Under `c` the policy is idempotent: a name that already carries `-c.`
      before its extension is left alone. */
  lemma CPolicyIdempotent(s: Str, f: Flags)
    requires f.c
    ensures ApplyPolicy(ApplyPolicy(s, f), f) == ApplyPolicy(s, f)
  {
    AddCTagIdempotent(s);
  }

  /** Under `u` and `uc` the tag is added again on every pass: the policy
      has no fixed point among names with an extension. */
  lemma HackPolicyGrows(s: Str, f: Flags)
    requires !f.c && !f.no && (f.u || f.uc) && ExtDot(s).Some?
    ensures |ApplyPolicy(s, f)| > |s|
    ensures ApplyPolicy(s, f) != s
  {
    PolicyEffect(s, f);
  }
}
