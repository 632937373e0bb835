/**
 * The part of `pathlib` the pipeline relies on: a path as its sequence of parts, joining one
 * name onto a directory, the final name, and the name without its suffix (`stem`).
 */
module Paths {
  /** A path as `Path.parts`: its components, in order. */
  type Path = seq<string>

  /** A name that joins as a single component: no separator and not `.` (which `pathlib`
      drops). Every directory and file name the pipeline builds is such a name, or empty. */
  predicate IsComponent(name: string) {
    '/' !in name && name != "."
  }

  /** `dir / name` for one component; joining the empty name leaves the path as it is. */
  function Join(dir: Path, name: string): (p: Path)
    requires IsComponent(name)
    ensures name == "" ==> p == dir
    ensures name != "" ==> |p| == |dir| + 1 && p[..|dir|] == dir && Name(p) == name
  {
    if name == "" then dir else dir + [name]
  }

  /** `Path.name`: the last component, or empty for the empty path. */
  function Name(p: Path): string {
    if p == [] then "" else p[|p| - 1]
  }

  /** `str.rfind(c)`: the last index holding `c`, or -1 when there is none. */
  function RFind(s: string, c: char): (i: int)
    ensures -1 <= i < |s|
    ensures i >= 0 ==> s[i] == c
    ensures forall j :: i < j < |s| ==> s[j] != c
  {
    if s == [] then -1
    else if s[|s| - 1] == c then |s| - 1
    else RFind(s[..|s| - 1], c)
  }

  /** `Path.stem`: the final name without its last suffix. A dot in first or last position does
      not start a suffix. */
  function Stem(p: Path): (r: string)
    ensures |r| <= |Name(p)| && r == Name(p)[..|r|]
  {
    var name := Name(p);
    var i := RFind(name, '.');
    if 0 < i < |name| - 1 then name[..i] else name
  }

  /** A non-empty name without dots followed by `.pdf` has that name as its stem. */
  lemma StemOfPdf(dir: Path, base: string)
    requires base != [] && '.' !in base
    ensures Stem(dir + [base + ".pdf"]) == base
  {
    var name := base + ".pdf";
    assert Name(dir + [name]) == name;
    assert name[|base|] == '.';
    var i := RFind(name, '.');
    assert name[|base| + 1] == 'p' && name[|base| + 2] == 'd' && name[|base| + 3] == 'f';
    assert i == |base|;
    assert name[..|base|] == base;
  }
}
