/** The vocabulary rustpkg's path utilities work with: package identifiers,
    output kinds and stages, the platform and version helpers they call, and
    an abstract filesystem. */
module PkgTypes {
  import opened Base
  import opened Paths

  /** A package version. Parsing, printing and comparing versions are done
      by helpers outside this model; they are fields of `Env`. */
  datatype Version = NoVersion | ExactRevision(rev: string)

  /** A package identifier: its local path (relative, e.g.
      `github.com/catamorphism/test_pkg`), its short name and its version. */
  datatype PkgId = PkgId(path: Path, shortName: string, version: Version)

  /** What is being produced. */
  datatype OutputType = Main | Lib | Test | Bench

  /** Where it goes: the per-package build tree or the flat install tree. */
  datatype Target = Build | Install

  /** The platform and the helpers rustpkg calls but does not define:
      `os::consts::DLL_PREFIX`, `DLL_SUFFIX`, `os::EXE_SUFFIX`,
      `os::dll_filename`, `Version::to_str`, `try_parsing_version`, the
      version equality used by the library matcher, and `os::getcwd()`. */
  datatype Env = Env(
    dllPrefix: string,
    dllSuffix: string,
    exeSuffix: string,
    dllFilename: string -> string,
    versionToStr: Version -> string,
    tryParsingVersion: string -> Option<Version>,
    versionEq: (Version, Version) -> bool,
    cwd: Path)

  /** The working directory is absolute. */
  predicate ValidEnv(env: Env) {
    env.cwd.absolute
  }

  /** The payload of the `bad_path` condition: the path that could not be
      made into a directory. */
  datatype PathError = BadPath(path: Path)

  /** The filesystem as rustpkg observes it: which paths are files and which
      are directories, which directories one `make_dir` would manage to
      create, and what `list_dir` returns for a directory. */
  datatype Fs = Fs(
    files: set<Path>,
    dirs: set<Path>,
    creatable: set<Path>,
    listing: map<Path, seq<string>>)

  /** `os::path_exists`. */
  predicate PathExists(fs: Fs, p: Path) {
    p in fs.files || p in fs.dirs
  }

  /** `os::path_is_dir`. */
  predicate PathIsDir(fs: Fs, p: Path) {
    p in fs.dirs
  }

  /** `os::list_dir`: the names in a directory, none for a missing one. */
  function ListDir(fs: Fs, p: Path): seq<string> {
    if p in fs.listing then fs.listing[p] else []
  }

  /** The directory holding `p`: `p` without its last component. */
  function Parent(p: Path): (q: Path)
    requires |p.comps| > 0
    ensures q.absolute == p.absolute && |q.comps| == |p.comps| - 1
  {
    Path(p.absolute, p.comps[..|p.comps| - 1])
  }

  /** The directories above `p`, down from its first component: the ones
      `mkdir_recursive` may create on its way to `p`. */
  function Ancestors(p: Path): set<Path> {
    set k | 1 <= k < |p.comps| :: Path(p.absolute, p.comps[..k])
  }

  /** Each ancestor has the same absoluteness and fewer components. */
  lemma AncestorsShorter(p: Path, q: Path)
    requires q in Ancestors(p)
    ensures q.absolute == p.absolute && 1 <= |q.comps| < |p.comps|
  {
  }

  /** The parent and its ancestors are ancestors. */
  lemma ParentAncestors(p: Path)
    requires |p.comps| > 1
    ensures {Parent(p)} + Ancestors(Parent(p)) <= Ancestors(p)
  {
    var n := |p.comps|;
    assert Parent(p) == Path(p.absolute, p.comps[..n - 1]);
    forall q | q in Ancestors(Parent(p)) ensures q in Ancestors(p) {
      var k :| 1 <= k < n - 1 && q == Path(p.absolute, p.comps[..n - 1][..k]);
      assert p.comps[..n - 1][..k] == p.comps[..k];
    }
  }

  /** `os::make_dir`: succeeds exactly on the paths the environment lets
      it create, which then are directories. */
  function MakeDir(fs: Fs, p: Path): (r: (bool, Fs))
    ensures r.0 <==> p in fs.creatable
    ensures r.0 ==> p in r.1.dirs
    ensures r.1.files == fs.files && r.1.creatable == fs.creatable
    ensures fs.dirs <= r.1.dirs <= fs.dirs + {p}
  {
    if p in fs.creatable then (true, fs.(dirs := fs.dirs + {p})) else (false, fs)
  }

  /** When `os::mkdir_recursive` succeeds on `p`: `p` is already a
      directory, or it can be made once its parent is there. A path with
      no components that is not a directory cannot be made. */
  predicate CanMake(fs: Fs, p: Path)
    decreases |p.comps|
  {
    || p in fs.dirs
    || (|p.comps| == 1 && p in fs.creatable)
    || (|p.comps| > 1 && CanMake(fs, Parent(p)) && p in fs.creatable)
  }

  /** `os::mkdir_recursive`: a directory succeeds at once; otherwise the
      parent is made first and then `p` itself. Directories made on the
      way stay even when a later step fails. */
  function MakeDirRecursive(fs: Fs, p: Path): (r: (bool, Fs))
    ensures r.0 <==> CanMake(fs, p)
    ensures r.0 ==> p in r.1.dirs
    ensures r.1.files == fs.files && r.1.creatable == fs.creatable
    ensures fs.dirs <= r.1.dirs <= fs.dirs + {p} + Ancestors(p)
    ensures !r.0 ==> r.1.dirs <= fs.dirs + Ancestors(p)
    decreases |p.comps|
  {
    if p in fs.dirs then (true, fs)
    else if |p.comps| == 0 then (false, fs)
    else if |p.comps| == 1 then MakeDir(fs, p)
    else
      ParentAncestors(p);
      var (made, fs') := MakeDirRecursive(fs, Parent(p));
      if made then MakeDir(fs', p) else (false, fs')
  }

  /** Under an existing directory, `mkdir_recursive` of a child succeeds
      exactly when the child is a directory already or can be made. */
  lemma CanMakeChild(fs: Fs, p: Path)
    requires |p.comps| > 0 && Parent(p) in fs.dirs
    ensures CanMake(fs, p) <==> p in fs.dirs || p in fs.creatable
  {
  }

  /** Under an existing directory, a failing `mkdir_recursive` of a child
      makes nothing: the parent is there, so only the child was tried. */
  lemma MakeDirRecursiveChildFails(fs: Fs, p: Path)
    requires |p.comps| > 0 && Parent(p) in fs.dirs
    ensures !MakeDirRecursive(fs, p).0 ==> MakeDirRecursive(fs, p).1 == fs
  {
  }

  /** `os::remove_file`: the file is gone, nothing else changes. */
  function RemoveFile(fs: Fs, p: Path): (r: Fs)
    ensures r.files == fs.files - {p}
    ensures r.dirs == fs.dirs && r.creatable == fs.creatable
  {
    fs.(files := fs.files - {p})
  }
}
