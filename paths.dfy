/** The part of `std::filesystem` the core relies on (POSIX paths, no root names), and the file system as a value. */
module Paths {
  import opened Wrappers

  type Path = string

  /** The last position of `c` in `s`. */
  function LastIndexOf(s: string, c: char): (r: Option<nat>)
    ensures r.Some? ==> r.value < |s| && s[r.value] == c
    ensures r.Some? ==> forall j :: r.value < j < |s| ==> s[j] != c
    ensures r.None? ==> forall j :: 0 <= j < |s| ==> s[j] != c
  {
    if s == [] then None
    else if s[|s| - 1] == c then Some(|s| - 1)
    else LastIndexOf(s[..|s| - 1], c)
  }

  predicate IsAbsolute(p: Path) { |p| > 0 && p[0] == '/' }

  /** `p / q`: an absolute `q` replaces `p`; otherwise a separator is added unless `p` is empty or already ends in one. */
  function Combine(p: Path, q: Path): Path
  {
    if IsAbsolute(q) then q
    else if p == [] || p[|p| - 1] == '/' then p + q
    else p + "/" + q
  }

  /** `p / q` keeps `p` in front of a relative `q`, with one separator between them unless `p` is empty or ends
      in one. */
  lemma CombineJoins(p: Path, q: Path)
    ensures IsAbsolute(q) ==> Combine(p, q) == q
    ensures !IsAbsolute(q) ==> var r := Combine(p, q);
      && |r| >= |p| + |q| && r[..|p|] == p && r[|r| - |q|..] == q
      && (p == [] || p[|p| - 1] == '/' ==> |r| == |p| + |q|)
      && (p != [] && p[|p| - 1] != '/' ==> |r| == |p| + 1 + |q| && r[|p|] == '/')
  {
    if !IsAbsolute(q) {
      var r := Combine(p, q);
      if p == [] || p[|p| - 1] == '/' {
        assert r == p + q;
      } else {
        assert r == p + "/" + q;
      }
    }
  }

  /** `parent_path()`: everything before the last separator; the root for a path directly under it, and the
      empty path when there is no separator. Redundant separators are not collapsed. */
  function Parent(p: Path): (r: Path)
    ensures |r| <= |p| && r == p[..|r|]
    ensures r == [] <==> forall j :: 0 <= j < |p| ==> p[j] != '/'
    ensures r != [] && r != "/" ==> |r| < |p| && p[|r|] == '/' && forall j :: |r| < j < |p| ==> p[j] != '/'
    ensures r == "/" ==> p[0] == '/' && forall j :: 1 < j < |p| ==> p[j] != '/'
  {
    match LastIndexOf(p, '/')
    case None => ""
    case Some(j) => if j == 0 then "/" else p[..j]
  }

  /** `filename()`: what follows the last separator. */
  function Filename(p: Path): (r: Path)
    ensures |r| <= |p| && r == p[|p| - |r|..]
    ensures forall j :: 0 <= j < |r| ==> r[j] != '/'
    ensures |r| < |p| ==> p[|p| - |r| - 1] == '/'
  {
    match LastIndexOf(p, '/')
    case None => p
    case Some(j) => p[j + 1..]
  }

  /** `extension()`: from the last dot of the file name, unless the name is "." or "..", or its only dot leads it. */
  function Extension(p: Path): (r: string)
    ensures r == [] || r[0] == '.'
    ensures |r| <= |p| && r == p[|p| - |r|..]
    ensures forall j :: 0 <= j < |r| ==> r[j] != '/'
    ensures forall j :: 0 < j < |r| ==> r[j] != '.'
    ensures r != [] ==> |r| < |Filename(p)| && Filename(p) != ".."
    ensures r == [] ==> Filename(p) == "." || Filename(p) == ".." || forall j :: 0 < j < |Filename(p)| ==> Filename(p)[j] != '.'
  {
    var name := Filename(p);
    if name == "." || name == ".." then ""
    else match LastIndexOf(name, '.')
      case None => ""
      case Some(i) => if i == 0 then "" else ExtensionSuffix(p, name, i); name[i..]
  }

  /** The suffix of the file name from its last dot is a dot-led, separator-free suffix of the path. */
  lemma ExtensionSuffix(p: Path, name: Path, i: nat)
    requires name == Filename(p) && 0 < i < |name| && name[i] == '.'
    requires forall j :: i < j < |name| ==> name[j] != '.'
    ensures var r := name[i..];
      && r[0] == '.' && |r| < |name| <= |p| && r == p[|p| - |r|..]
      && (forall j :: 0 <= j < |r| ==> r[j] != '/') && (forall j :: 0 < j < |r| ==> r[j] != '.')
  {
    var r := name[i..];
    assert forall j :: 0 <= j < |r| ==> r[j] == name[i + j];
    assert r == p[|p| - |r|..] by {
      assert name == p[|p| - |name|..];
    }
  }

  /** `replace_extension(ext)`: the extension is dropped and `ext` appended, after a dot unless it brings its own. */
  function ReplaceExtension(p: Path, ext: string): (r: Path)
    ensures |r| >= |ext|
    ensures r[|r| - |ext|..] == ext
    ensures |r| >= |p| - |Extension(p)| && r[..|p| - |Extension(p)|] == p[..|p| - |Extension(p)|]
    ensures ext == [] || ext[0] == '.' ==> |r| == |p| - |Extension(p)| + |ext|
    ensures ext != [] && ext[0] != '.' ==> |r| == |p| - |Extension(p)| + 1 + |ext| && r[|r| - |ext| - 1] == '.'
  {
    var e := Extension(p);
    var stem := p[..|p| - |e|];
    if ext == [] || ext[0] == '.' then stem + ext else stem + "." + ext
  }

  type AbsolutePath = p: Path | IsAbsolute(p) witness "/"

  /** The file system: the working directory, the paths that exist (files and directories), and the contents of
      the files that can be opened for reading. */
  datatype FileSystem = FileSystem(cwd: AbsolutePath, existing: set<Path>, contents: map<Path, string>)

  /** `std::filesystem::absolute`: a relative path is taken from the working directory; nothing is normalised. */
  function Absolute(fs: FileSystem, p: Path): (r: Path)
    ensures IsAbsolute(r)
    ensures IsAbsolute(p) ==> r == p
    ensures !IsAbsolute(p) ==> |r| >= |p| && r[|r| - |p|..] == p
  {
    if IsAbsolute(p) then p else Combine(fs.cwd, p)
  }

  /** A relative path is put after the working directory, with a separator between them unless the working
      directory already ends in one. */
  lemma AbsoluteUnderCwd(fs: FileSystem, p: Path)
    requires !IsAbsolute(p)
    ensures var r := Absolute(fs, p);
      && r[..|fs.cwd|] == fs.cwd
      && (fs.cwd[|fs.cwd| - 1] == '/' ==> |r| == |fs.cwd| + |p|)
      && (fs.cwd[|fs.cwd| - 1] != '/' ==> |r| == |fs.cwd| + 1 + |p| && r[|fs.cwd|] == '/')
  {
    var r := Absolute(fs, p);
    if fs.cwd[|fs.cwd| - 1] == '/' {
      assert r == fs.cwd + p;
    } else {
      assert r == fs.cwd + "/" + p;
    }
  }

  /** `std::filesystem::exists`. */
  predicate Exists(fs: FileSystem, p: Path) {
    Absolute(fs, p) in fs.existing
  }
}
