/** The part of the filesystem the scripts work on: the files below the
    folder given on the command line, each keyed by its directory (the path
    components below that folder; `[]` is the folder itself) and its name,
    and the two operations the scripts perform on them. */
module Fs {
  import opened Text

  type Dir = seq<Str>

  datatype Key = Key(dir: Dir, name: Str)

  /** What `os.path.isfile` and `os.path.getsize` report for an entry. */
  datatype Info = Info(size: nat, isFile: bool)

  type Files = map<Key, Info>

  /** `os.remove(path)` and `os.rename(from, to)`. */
  datatype Op = Remove(at: Key) | Rename(from: Key, to: Key)

  /** One operation.  A rename replaces an existing target, as POSIX `rename`
      does.  An operation whose source is missing changes nothing. */
  function Apply(fs: Files, op: Op): Files {
    match op
    case Remove(k) => fs - {k}
    case Rename(a, b) => if a in fs then (fs - {a})[b := fs[a]] else fs
  }

  /** The operations in order, the last one applied last. */
  function ApplyAll(fs: Files, ops: seq<Op>): Files
    decreases |ops|
  {
    if ops == [] then fs else Apply(ApplyAll(fs, ops[..|ops| - 1]), ops[|ops| - 1])
  }

  /** One entry of `os.walk`: where the file is, and what the size and
      file-type checks report for it. */
  datatype Entry = Entry(key: Key, info: Info)

  /** `es` visits the files of `fs` as `os.walk` does: each file exactly
      once, with its own size and type.  The order itself is left open. */
  ghost predicate IsListing(fs: Files, es: seq<Entry>) {
    (forall i, j :: 0 <= i < j < |es| ==> es[i].key != es[j].key) &&
    (forall i :: 0 <= i < |es| ==> es[i].key in fs && fs[es[i].key] == es[i].info) &&
    (forall k :: k in fs ==> exists i :: 0 <= i < |es| && es[i].key == k)
  }

  lemma ApplyAllSnoc(fs: Files, ops: seq<Op>, op: Op)
    ensures ApplyAll(fs, ops + [op]) == Apply(ApplyAll(fs, ops), op)
  {
    assert (ops + [op])[..|ops|] == ops;
  }
}
