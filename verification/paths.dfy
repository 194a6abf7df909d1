/**
 * The slice of `pathlib` the pipeline uses. A path is the sequence of its
 * components, so `str(path)` keys and `relative_to` are lexical, as they are
 * for `PurePath`.
 */
module Paths {
  import opened Results
  import opened Text

  type Path = seq<string>

  /** `Path.name`: the final component, or "" for the empty path. */
  function Name(p: Path): string
  {
    if |p| == 0 then "" else p[|p| - 1]
  }

  /**
   * `Path.suffix`: from the last dot of the name to its end, provided that dot
   * is neither the first nor the last character; otherwise "".
   */
  function Suffix(name: string): (r: string)
    ensures r == "" || (|r| >= 2 && r[0] == '.' && |r| < |name|)
    ensures r != "" ==> r == name[|name| - |r|..]
    ensures r != "" ==> forall j :: 0 < j < |r| ==> r[j] != '.'
    ensures r == "" <==> (RFind(name, '.') <= 0 || RFind(name, '.') == |name| - 1)
  {
    var i := RFind(name, '.');
    if 0 < i < |name| - 1 then name[i..] else ""
  }

  /** The lower-cased suffix of a name is the suffix of the lower-cased name. */
  lemma SuffixLower(name: string)
    ensures Lower(Suffix(name)) == Suffix(Lower(name))
  {
    RFindLower(name);
    var i := RFind(name, '.');
    if 0 < i < |name| - 1 {
      assert Lower(name)[i..] == Lower(name[i..]);
    }
  }

  /**
   * `path.relative_to(root).parts`: the components after `root` when `root` is
   * a prefix of `path`; `None` where pathlib raises `ValueError`.
   */
  function RelativeParts(p: Path, root: Path): (r: Option<Path>)
    ensures r.Some? <==> (|root| <= |p| && p[..|root|] == root)
    ensures r.Some? ==> root + r.value == p
  {
    if |root| <= |p| && p[..|root|] == root then Some(p[|root|..]) else None
  }
}
