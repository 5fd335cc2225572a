/**
 * File paths as the program uses them through `pathlib`: a directory part
 * and a final component. Path normalisation is not modelled.
 */
module Paths {
  import opened Text

  /** A path: its parent directory's components and its final component (`PurePath.name`). */
  datatype FilePath = FilePath(dir: seq<string>, name: string)

  /** `path.parent / name`. */
  function Sibling(p: FilePath, name: string): FilePath
  {
    FilePath(p.dir, name)
  }

  /** `PurePath.stem`: the name without its last suffix, where a suffix is a `.` that is neither the first nor the last character. */
  function Stem(p: FilePath): (r: string)
    ensures StartsWith(p.name, r)
    ensures r != p.name ==> 0 < |r| < |p.name| - 1 && p.name[|r|] == '.' && NoChar(p.name[|r| + 1..], '.')
  {
    var i := RFind(p.name, '.');
    if 0 < i < |p.name| - 1 then p.name[..i] else p.name
  }
}
