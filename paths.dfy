/**
 * The two `std::path` queries `extract_afb` relies on, for Windows paths (both '/' and '\'
 * separate components): `Path::file_name` and `Path::file_stem`.
 */
module Paths {
  import opened Common

  predicate IsSeparator(c: char) {
    c == '/' || c == '\\'
  }

  predicate NoSeparator(s: string) {
    forall i :: 0 <= i < |s| ==> !IsSeparator(s[i])
  }

  /** A name that `file_name` can return: a normal component, not `.` or `..`. */
  predicate PlainName(name: string) {
    name != "" && name != "." && name != ".." && NoSeparator(name)
  }

  /** The text after the last separator (all of `path` when it has none). */
  function LastComponent(path: string): (name: string)
    ensures |name| <= |path| && name == path[|path| - |name|..] && NoSeparator(name)
    ensures |name| < |path| ==> IsSeparator(path[|path| - |name| - 1])
  {
    if path == [] || IsSeparator(path[|path| - 1]) then []
    else LastComponent(path[..|path| - 1]) + [path[|path| - 1]]
  }

  /**
   * `Path::file_name`: the last component once empty and `.` components are dropped,
   * or nothing when that component is `..` or there is none.
   */
  function FileName(path: string): (r: Option<string>)
    ensures r.Some? ==> PlainName(r.value)
    decreases |path|
  {
    if path == [] then None
    else
      var name := LastComponent(path);
      if name == "" || name == "." then
        if |name| == |path| then None else FileName(path[..|path| - |name| - 1])
      else if name == ".." then None
      else Some(name)
  }

  /** The index of the last '.' of `s`, if it has one. */
  function LastDot(s: string): (r: Option<nat>)
    ensures r.Some? ==> r.value < |s| && s[r.value] == '.' && forall j :: r.value < j < |s| ==> s[j] != '.'
    ensures r.None? ==> forall j :: 0 <= j < |s| ==> s[j] != '.'
  {
    if s == [] then None
    else if s[|s| - 1] == '.' then Some(|s| - 1)
    else LastDot(s[..|s| - 1])
  }

  /**
   * The stem of a file name: the part before its last '.', unless that dot is the first
   * character (".hidden" is its own stem) or there is no dot at all.
   */
  function Stem(name: string): (stem: string)
    ensures |stem| <= |name| && stem == name[..|stem|]
    ensures name != "" ==> stem != ""
    ensures |stem| < |name| ==> name[|stem|] == '.' && forall j :: |stem| < j < |name| ==> name[j] != '.'
    ensures |stem| == |name| ==> forall j :: 0 < j < |name| ==> name[j] != '.'
  {
    match LastDot(name)
    case Some(i) => if i > 0 then name[..i] else name
    case None => name
  }

  /** `Path::file_stem`. */
  function FileStem(path: string): (r: Option<string>)
    ensures r.Some? <==> FileName(path).Some?
    ensures r.Some? ==> r.value == Stem(FileName(path).value) && r.value != ""
  {
    match FileName(path)
    case Some(name) => Some(Stem(name))
    case None => None
  }

  /** The last component of `dir` joined with a plain name is that name. */
  lemma {:induction false} LastComponentOfJoin(dir: string, sep: char, name: string)
    requires IsSeparator(sep) && NoSeparator(name)
    ensures LastComponent(dir + [sep] + name) == name
    ensures LastComponent(name) == name
    decreases |name|
  {
    if name != [] {
      var p := dir + [sep] + name;
      var init := name[..|name| - 1];
      assert p[..|p| - 1] == dir + [sep] + init;
      LastComponentOfJoin(dir, sep, init);
      assert init + [name[|name| - 1]] == name;
    }
  }

  /** `file_name` gives back a plain name, whether or not a directory is joined in front of it. */
  lemma FileNameOfJoin(dir: string, sep: char, name: string)
    requires IsSeparator(sep) && PlainName(name)
    ensures FileName(dir + [sep] + name) == Some(name)
    ensures FileName(name) == Some(name)
  {
    LastComponentOfJoin(dir, sep, name);
  }

  /** The last dot of `prefix + "." + ext` is the one before `ext` when `ext` has none. */
  lemma {:induction false} LastDotBeforeExtension(prefix: string, ext: string)
    requires forall j :: 0 <= j < |ext| ==> ext[j] != '.'
    ensures LastDot(prefix + "." + ext) == Some(|prefix|)
    decreases |ext|
  {
    if ext != [] {
      var s := prefix + "." + ext;
      var init := ext[..|ext| - 1];
      assert s[..|s| - 1] == prefix + "." + init;
      LastDotBeforeExtension(prefix, init);
    }
  }

  /** The stem of `base.ext` is `base`, for a non-empty `base` and an extension without dots. */
  lemma StemOfExtension(base: string, ext: string)
    requires base != "" && forall j :: 0 <= j < |ext| ==> ext[j] != '.'
    ensures Stem(base + "." + ext) == base
  {
    LastDotBeforeExtension(base, ext);
    assert (base + "." + ext)[..|base|] == base;
  }
}
