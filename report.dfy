/** What the cleaning passes write to their log file: the section headers,
    the width the rename lines are padded to, and the name lists. */
module Report {
  import opened Text

  const NoChangeHeader: Str := "The following file has NO CHANGE:"
  const RenameHeader: Str := "The following file will RENAME:"
  const DeleteHeader: Str := "The following file will DELETE:"

  /** `max(len(file) for file in names)`, and 0 for no names. */
  function MaxLen(names: seq<Str>): (m: nat)
    ensures forall i :: 0 <= i < |names| ==> |names[i]| <= m
    ensures names == [] ==> m == 0
    ensures names != [] ==> exists i :: 0 <= i < |names| && |names[i]| == m
  {
    if names == [] then 0
    else
      var m := MaxLen(names[..|names| - 1]);
      var last := |names[|names| - 1]|;
      if last > m then last else m
  }

  /** `for file in names: f.write(file + '\n')`. */
  method WriteNames(before: seq<Str>, names: seq<Str>) returns (lines: seq<Str>)
    ensures lines == before + names
  {
    lines := before;
    for j := 0 to |names|
      invariant lines == before + names[..j]
    {
      lines := lines + [names[j]];
      assert names[..j + 1] == names[..j] + [names[j]];
    }
    assert names[..|names|] == names;
  }
}
