/** Where rustpkg looks for sources and puts build and install artifacts
    (src/librustpkg/path_util.rs). Filesystem effects go through `Fs`; a
    raised `bad_path` condition that no handler traps is an `Err`. */
module PathUtil {
  import opened Base
  import opened Paths
  import opened PkgTypes

  /** `<short name>-<version>`, the versioned name of a library. */
  function ShortNameWithVersion(env: Env, pkg: PkgId): string {
    pkg.shortName + "-" + env.versionToStr(pkg.version)
  }

  /** What an executable name carries between the short name and the
      platform suffix. */
  function ExeInfix(what: OutputType): string {
    match what
    case Test => "test"
    case Bench => "bench"
    case _ => ""
  }

  /** The output file name: the platform's library name for the versioned
      name, or the unversioned executable name. */
  function OutputFileName(env: Env, what: OutputType, pkg: PkgId): string {
    if what == Lib then env.dllFilename(ShortNameWithVersion(env, pkg))
    else pkg.shortName + ExeInfix(what) + env.exeSuffix
  }

  /** The directory an output goes in: the given one when installing, the
      package's own sub-directory of it when building. */
  function OutputDir(where: Target, pkg: PkgId, workspace: Path): (d: Path)
    ensures d.absolute == workspace.absolute
    ensures where == Install ==> d.comps == workspace.comps
    ensures where == Build ==> d.comps == workspace.comps + pkg.path.comps
  {
    match where
    case Install => workspace
    case Build => PushRel(workspace, pkg.path)
  }

  /** `mk_output_path`: the output file in its directory; a relative result
      is put under the working directory and normalised. */
  function MkOutputPath(env: Env, what: OutputType, where: Target, pkg: PkgId, workspace: Path): (r: Path)
    ensures ValidEnv(env) ==> r.absolute
    ensures workspace.absolute ==>
              r == Path(true, OutputDir(where, pkg, workspace).comps + Split(OutputFileName(env, what, pkg)))
    ensures !workspace.absolute ==>
              r == LexicalNormalize(Path(env.cwd.absolute,
                     env.cwd.comps + OutputDir(where, pkg, workspace).comps + Split(OutputFileName(env, what, pkg))))
  {
    var d := OutputDir(where, pkg, workspace);
    var out := Push(d, OutputFileName(env, what, pkg));
    assert env.cwd.comps + out.comps == env.cwd.comps + d.comps + Split(OutputFileName(env, what, pkg));
    if !out.absolute then LexicalNormalize(PushRel(env.cwd, out)) else out
  }

  /** The file name of the output is the platform library name of
      `<short name>-<version>` for a library, and `<short name>` followed
      by `test`, `bench` or nothing and the executable suffix otherwise,
      whether or not the directory was relative. */
  lemma MkOutputFileName(env: Env, what: OutputType, where: Target, pkg: PkgId, workspace: Path)
    requires var name := OutputFileName(env, what, pkg);
             IsComponent(name) && name != "." && name != ".."
    ensures what == Lib ==>
              FileName(MkOutputPath(env, what, where, pkg, workspace))
                == Some(env.dllFilename(pkg.shortName + "-" + env.versionToStr(pkg.version)))
    ensures what != Lib ==>
              FileName(MkOutputPath(env, what, where, pkg, workspace))
                == Some(pkg.shortName + (if what == Test then "test" else if what == Bench then "bench" else "")
                        + env.exeSuffix)
  {
    var name := OutputFileName(env, what, pkg);
    SplitComponent(name);
    if !workspace.absolute {
      var d := OutputDir(where, pkg, workspace);
      NormalizeKeepsFileName(Path(env.cwd.absolute, env.cwd.comps + d.comps), name);
    }
  }

  /** Executable names are not versioned: two packages that differ only in
      their version get the same executable, test and bench paths. */
  lemma ExecutableUnversioned(env: Env, what: OutputType, where: Target, pkg: PkgId, workspace: Path, v: Version)
    requires what != Lib
    ensures MkOutputPath(env, what, where, pkg, workspace)
         == MkOutputPath(env, what, where, pkg.(version := v), workspace)
  {
  }

  /** With an absolute directory and plain names the output path is the
      directory, the package path when building, and the file name. */
  lemma MkOutputLayout(env: Env, what: OutputType, where: Target, pkg: PkgId, workspace: Path)
    requires workspace.absolute && IsComponent(OutputFileName(env, what, pkg))
    ensures MkOutputPath(env, what, where, pkg, workspace)
         == Path(true, workspace.comps + (if where == Build then pkg.path.comps else [])
                       + [OutputFileName(env, what, pkg)])
  {
    SplitComponent(OutputFileName(env, what, pkg));
  }

  /** A relative directory is resolved against the working directory:
      with plain components throughout, the output is the working
      directory followed by the directory and the file name. */
  lemma MkOutputRelative(env: Env, what: OutputType, pkg: PkgId, workspace: Path)
    requires ValidEnv(env) && !workspace.absolute
    requires Plain(env.cwd.comps) && Plain(workspace.comps)
    requires IsComponent(OutputFileName(env, what, pkg))
    requires OutputFileName(env, what, pkg) != "." && OutputFileName(env, what, pkg) != ".."
    ensures MkOutputPath(env, what, Install, pkg, workspace)
         == Path(true, env.cwd.comps + workspace.comps + [OutputFileName(env, what, pkg)])
  {
    var name := OutputFileName(env, what, pkg);
    SplitComponent(name);
    var cs := env.cwd.comps + workspace.comps + [name];
    assert Plain(cs) by {
      forall k | 0 <= k < |cs| ensures cs[k] != "." && cs[k] != ".." && cs[k] != "" {
        if k < |env.cwd.comps| { assert cs[k] == env.cwd.comps[k]; }
        else if k < |env.cwd.comps| + |workspace.comps| { assert cs[k] == workspace.comps[k - |env.cwd.comps|]; }
        else { assert cs[k] == name; }
      }
    }
    NormalizePlain(Path(true, cs));
  }

  /** The sub-directory artifacts of a kind go to. */
  function Subdir(what: OutputType): string {
    if what == Lib then "lib" else "bin"
  }

  /** The directory `target_file_in_workspace` makes sure of:
      `<workspace>/<lib|bin>`, followed by the package path when building. */
  function TargetDir(pkg: PkgId, workspace: Path, what: OutputType, where: Target): (d: Path)
    ensures d.absolute == workspace.absolute
    ensures d.comps == workspace.comps + [if what == Lib then "lib" else "bin"]
                       + (if where == Build then pkg.path.comps else [])
  {
    PushComponent(workspace, Subdir(what));
    match where
    case Build => PushRel(Push(workspace, Subdir(what)), pkg.path)
    case Install => Push(workspace, Subdir(what))
  }

  /** `target_file_in_workspace`: create the target directory if it is
      missing, raising `bad_path` on it when that fails, and return the
      output path in it together with the new filesystem. A raised
      `bad_path` comes with the filesystem `mkdir_recursive` left, which
      may hold directories above the target made before it failed. */
  function TargetFileInWorkspace(fs: Fs, env: Env, pkg: PkgId, workspace: Path, what: OutputType, where: Target)
    : (r: Result<(Path, Fs), (PathError, Fs)>)
    ensures var d := TargetDir(pkg, workspace, what, where);
            r.Err? <==> !PathExists(fs, d) && !CanMake(fs, d)
    ensures var d := TargetDir(pkg, workspace, what, where);
            r.Err? ==> && r.error.0 == BadPath(d)
                       && r.error.1.files == fs.files
                       && fs.dirs <= r.error.1.dirs <= fs.dirs + Ancestors(d)
    ensures var d := TargetDir(pkg, workspace, what, where);
            r.Ok? ==> && PathExists(r.value.1, d)
                      && r.value.1.files == fs.files
                      && fs.dirs <= r.value.1.dirs <= fs.dirs + {d} + Ancestors(d)
    ensures r.Ok? ==> r.value.0 == MkOutputPath(env, what, where, pkg, TargetDir(pkg, workspace, what, where))
  {
    var d := TargetDir(pkg, workspace, what, where);
    if PathExists(fs, d) then Ok((MkOutputPath(env, what, where, pkg, d), fs))
    else
      var (made, fs') := MakeDirRecursive(fs, d);
      if made then Ok((MkOutputPath(env, what, where, pkg, d), fs'))
      else Err((BadPath(d), fs'))
  }

  /** For the build tree the package path is pushed twice, once for the
      target directory and once more by `mk_output_path`. */
  lemma TargetFileBuildNesting(fs: Fs, env: Env, pkg: PkgId, workspace: Path, what: OutputType)
    requires workspace.absolute && IsComponent(OutputFileName(env, what, pkg))
    requires TargetFileInWorkspace(fs, env, pkg, workspace, what, Build).Ok?
    ensures TargetFileInWorkspace(fs, env, pkg, workspace, what, Build).value.0
         == Path(true, workspace.comps + [Subdir(what)] + pkg.path.comps + pkg.path.comps
                       + [OutputFileName(env, what, pkg)])
  {
    MkOutputLayout(env, what, Build, pkg, TargetDir(pkg, workspace, what, Build));
  }

  /** `target_executable_in_workspace`: `<workspace>/bin/<short name><exe suffix>`. */
  function TargetExecutableInWorkspace(fs: Fs, env: Env, pkg: PkgId, workspace: Path): (r: Result<(Path, Fs), (PathError, Fs)>)
    ensures var d := Path(workspace.absolute, workspace.comps + ["bin"]);
            r.Err? <==> !PathExists(fs, d) && !CanMake(fs, d)
    ensures var d := Path(workspace.absolute, workspace.comps + ["bin"]);
            r.Err? ==> && r.error.0 == BadPath(d) && r.error.1.files == fs.files
                       && fs.dirs <= r.error.1.dirs <= fs.dirs + Ancestors(d)
    ensures workspace.absolute && IsComponent(pkg.shortName + env.exeSuffix) && r.Ok? ==>
              r.value.0 == Path(true, workspace.comps + ["bin", pkg.shortName + env.exeSuffix])
    ensures r.Ok? ==> r.value.0 == InstalledBin(env, pkg, workspace)
    ensures var d := Path(workspace.absolute, workspace.comps + ["bin"]);
            r.Ok? ==> r.value.1.files == fs.files && fs.dirs <= r.value.1.dirs <= fs.dirs + {d} + Ancestors(d)
  {
    var r := TargetFileInWorkspace(fs, env, pkg, workspace, Main, Install);
    assert pkg.shortName + "" + env.exeSuffix == pkg.shortName + env.exeSuffix;
    if workspace.absolute && IsComponent(pkg.shortName + env.exeSuffix) then
      MkOutputLayout(env, Main, Install, pkg, TargetDir(pkg, workspace, Main, Install));
      r
    else r
  }

  /** `target_test_in_workspace`: `<workspace>/bin/<short name>test<exe suffix>`. */
  function TargetTestInWorkspace(fs: Fs, env: Env, pkg: PkgId, workspace: Path): (r: Result<(Path, Fs), (PathError, Fs)>)
    ensures var d := Path(workspace.absolute, workspace.comps + ["bin"]);
            r.Err? <==> !PathExists(fs, d) && !CanMake(fs, d)
    ensures var d := Path(workspace.absolute, workspace.comps + ["bin"]);
            r.Err? ==> && r.error.0 == BadPath(d) && r.error.1.files == fs.files
                       && fs.dirs <= r.error.1.dirs <= fs.dirs + Ancestors(d)
    ensures workspace.absolute && IsComponent(pkg.shortName + "test" + env.exeSuffix) && r.Ok? ==>
              r.value.0 == Path(true, workspace.comps + ["bin", pkg.shortName + "test" + env.exeSuffix])
    ensures var d := Path(workspace.absolute, workspace.comps + ["bin"]);
            r.Ok? ==> r.value.1.files == fs.files && fs.dirs <= r.value.1.dirs <= fs.dirs + {d} + Ancestors(d)
  {
    var r := TargetFileInWorkspace(fs, env, pkg, workspace, Test, Install);
    if workspace.absolute && IsComponent(pkg.shortName + "test" + env.exeSuffix) then
      MkOutputLayout(env, Test, Install, pkg, TargetDir(pkg, workspace, Test, Install));
      r
    else r
  }

  /** `target_bench_in_workspace`: `<workspace>/bin/<short name>bench<exe suffix>`. */
  function TargetBenchInWorkspace(fs: Fs, env: Env, pkg: PkgId, workspace: Path): (r: Result<(Path, Fs), (PathError, Fs)>)
    ensures var d := Path(workspace.absolute, workspace.comps + ["bin"]);
            r.Err? <==> !PathExists(fs, d) && !CanMake(fs, d)
    ensures var d := Path(workspace.absolute, workspace.comps + ["bin"]);
            r.Err? ==> && r.error.0 == BadPath(d) && r.error.1.files == fs.files
                       && fs.dirs <= r.error.1.dirs <= fs.dirs + Ancestors(d)
    ensures workspace.absolute && IsComponent(pkg.shortName + "bench" + env.exeSuffix) && r.Ok? ==>
              r.value.0 == Path(true, workspace.comps + ["bin", pkg.shortName + "bench" + env.exeSuffix])
    ensures var d := Path(workspace.absolute, workspace.comps + ["bin"]);
            r.Ok? ==> r.value.1.files == fs.files && fs.dirs <= r.value.1.dirs <= fs.dirs + {d} + Ancestors(d)
  {
    var r := TargetFileInWorkspace(fs, env, pkg, workspace, Bench, Install);
    if workspace.absolute && IsComponent(pkg.shortName + "bench" + env.exeSuffix) then
      MkOutputLayout(env, Bench, Install, pkg, TargetDir(pkg, workspace, Bench, Install));
      r
    else r
  }

  /** `target_library_in_workspace`: the workspace must be a directory,
      then `<workspace>/lib/<dll name of short name-version>`. */
  function TargetLibraryInWorkspace(fs: Fs, env: Env, pkg: PkgId, workspace: Path): (r: Result<(Path, Fs), (PathError, Fs)>)
    ensures !PathIsDir(fs, workspace) ==> r == Err((BadPath(workspace), fs))
    ensures var d := Path(workspace.absolute, workspace.comps + ["lib"]);
            PathIsDir(fs, workspace) ==> (r.Err? <==> !PathExists(fs, d) && !CanMake(fs, d))
    ensures PathIsDir(fs, workspace) && r.Err? ==>
              r.error == (BadPath(Path(workspace.absolute, workspace.comps + ["lib"])), fs)
    ensures var name := env.dllFilename(pkg.shortName + "-" + env.versionToStr(pkg.version));
            workspace.absolute && IsComponent(name) && r.Ok? ==>
              r.value.0 == Path(true, workspace.comps + ["lib", name])
    ensures r.Ok? ==> r.value.0 == InstalledLib(env, pkg, workspace)
    ensures var d := Path(workspace.absolute, workspace.comps + ["lib"]);
            r.Ok? ==> r.value.1.files == fs.files && fs.dirs <= r.value.1.dirs <= fs.dirs + {d} + Ancestors(d)
  {
    if !PathIsDir(fs, workspace) then Err((BadPath(workspace), fs))
    else
      var r := TargetFileInWorkspace(fs, env, pkg, workspace, Lib, Install);
      assert Parent(TargetDir(pkg, workspace, Lib, Install)) == workspace;
      MakeDirRecursiveChildFails(fs, TargetDir(pkg, workspace, Lib, Install));
      if workspace.absolute && IsComponent(OutputFileName(env, Lib, pkg)) then
        MkOutputLayout(env, Lib, Install, pkg, TargetDir(pkg, workspace, Lib, Install));
        r
      else r
  }

  /** `pkgid_src_in_workspace`: first `<workspace>/src/<path>-<version>`,
      then `<workspace>/src/<path>`; neither is checked to exist. */
  function PkgidSrcInWorkspace(env: Env, pkg: PkgId, workspace: Path): (r: seq<Path>)
    ensures |r| == 2
    ensures r[1] == Path(workspace.absolute, workspace.comps + ["src"] + pkg.path.comps)
    ensures r[0].absolute == workspace.absolute
  {
    var src := Push(workspace, "src");
    PushComponent(workspace, "src");
    [Push(src, ToStr(pkg.path) + "-" + env.versionToStr(pkg.version)), PushRel(src, pkg.path)]
  }

  /** The versioned candidate appends `-<version>` to the last component
      of the package path and keeps the others. */
  lemma PkgidSrcVersioned(env: Env, pkg: PkgId, workspace: Path)
    requires WellFormed(pkg.path.comps) && |pkg.path.comps| > 0
    requires Lacks(env.versionToStr(pkg.version), Sep)
    ensures var cs := pkg.path.comps;
            PkgidSrcInWorkspace(env, pkg, workspace)[0]
              == Path(workspace.absolute, workspace.comps + ["src"] + cs[..|cs| - 1]
                                          + [cs[|cs| - 1] + "-" + env.versionToStr(pkg.version)])
  {
    var cs := pkg.path.comps;
    var v := env.versionToStr(pkg.version);
    var suffix := "-" + v;
    LacksConcat("-", v, Sep);
    var last := cs[|cs| - 1];
    ConcatAssoc(ToStr(pkg.path), "-", v);
    ConcatAssoc(last, "-", v);
    SplitToStrSuffix(pkg.path, suffix);
    PushComponent(workspace, "src");
    ConcatAssoc(workspace.comps + ["src"], cs[..|cs| - 1], [last + suffix]);
  }

  /** The index of the first path that exists. */
  function FirstExisting(fs: Fs, ps: seq<Path>): (r: Option<nat>)
    ensures r.None? <==> forall k :: 0 <= k < |ps| ==> !PathExists(fs, ps[k])
    ensures r.Some? ==> && r.value < |ps| && PathExists(fs, ps[r.value])
                        && forall k :: 0 <= k < r.value ==> !PathExists(fs, ps[k])
  {
    if |ps| == 0 then None
    else if PathExists(fs, ps[0]) then Some(0)
    else match FirstExisting(fs, ps[1..])
      case None => None
      case Some(k) => Some(k + 1)
  }

  /** `first_pkgid_src_in_workspace`: the first candidate source directory
      that exists. */
  function FirstPkgidSrcInWorkspace(fs: Fs, env: Env, pkg: PkgId, workspace: Path): (r: Option<Path>)
    ensures var cands := PkgidSrcInWorkspace(env, pkg, workspace);
            && (r.None? <==> !PathExists(fs, cands[0]) && !PathExists(fs, cands[1]))
            && (PathExists(fs, cands[0]) ==> r == Some(cands[0]))
            && (!PathExists(fs, cands[0]) && PathExists(fs, cands[1]) ==> r == Some(cands[1]))
  {
    var cands := PkgidSrcInWorkspace(env, pkg, workspace);
    match FirstExisting(fs, cands)
    case None => None
    case Some(k) => Some(cands[k])
  }

  /** `output_in_workspace`: the output of a kind in the build tree, when
      that file exists. */
  function OutputInWorkspace(fs: Fs, env: Env, pkg: PkgId, workspace: Path, what: OutputType): (r: Option<Path>)
    ensures r.Some? ==> PathExists(fs, r.value)
    ensures r.Some? ==> r.value == MkOutputPath(env, what, Build, pkg, Push(workspace, "build"))
    ensures r.None? <==> !PathExists(fs, MkOutputPath(env, what, Build, pkg, Push(workspace, "build")))
  {
    var result := MkOutputPath(env, what, Build, pkg, Push(workspace, "build"));
    if PathExists(fs, result) then Some(result) else None
  }

  /** `built_executable_in_workspace`. */
  function BuiltExecutableInWorkspace(fs: Fs, env: Env, pkg: PkgId, workspace: Path): (r: Option<Path>)
    ensures r.None? <==> !PathExists(fs, MkOutputPath(env, Main, Build, pkg, Push(workspace, "build")))
    ensures r.Some? ==> r.value == MkOutputPath(env, Main, Build, pkg, Push(workspace, "build")) && PathExists(fs, r.value)
    ensures var name := pkg.shortName + env.exeSuffix;
            workspace.absolute && IsComponent(name) && r.Some? ==>
              r.value == Path(true, workspace.comps + ["build"] + pkg.path.comps + [name])
  {
    var r := OutputInWorkspace(fs, env, pkg, workspace, Main);
    assert pkg.shortName + "" + env.exeSuffix == pkg.shortName + env.exeSuffix;
    if workspace.absolute && IsComponent(pkg.shortName + env.exeSuffix) then
      PushComponent(workspace, "build");
      MkOutputLayout(env, Main, Build, pkg, Push(workspace, "build"));
      r
    else r
  }

  /** `built_test_in_workspace`. */
  function BuiltTestInWorkspace(fs: Fs, env: Env, pkg: PkgId, workspace: Path): (r: Option<Path>)
    ensures r.None? <==> !PathExists(fs, MkOutputPath(env, Test, Build, pkg, Push(workspace, "build")))
    ensures r.Some? ==> r.value == MkOutputPath(env, Test, Build, pkg, Push(workspace, "build")) && PathExists(fs, r.value)
    ensures var name := pkg.shortName + "test" + env.exeSuffix;
            workspace.absolute && IsComponent(name) && r.Some? ==>
              r.value == Path(true, workspace.comps + ["build"] + pkg.path.comps + [name])
  {
    var r := OutputInWorkspace(fs, env, pkg, workspace, Test);
    if workspace.absolute && IsComponent(pkg.shortName + "test" + env.exeSuffix) then
      PushComponent(workspace, "build");
      MkOutputLayout(env, Test, Build, pkg, Push(workspace, "build"));
      r
    else r
  }

  /** `built_bench_in_workspace`. */
  function BuiltBenchInWorkspace(fs: Fs, env: Env, pkg: PkgId, workspace: Path): (r: Option<Path>)
    ensures r.None? <==> !PathExists(fs, MkOutputPath(env, Bench, Build, pkg, Push(workspace, "build")))
    ensures r.Some? ==> r.value == MkOutputPath(env, Bench, Build, pkg, Push(workspace, "build")) && PathExists(fs, r.value)
    ensures var name := pkg.shortName + "bench" + env.exeSuffix;
            workspace.absolute && IsComponent(name) && r.Some? ==>
              r.value == Path(true, workspace.comps + ["build"] + pkg.path.comps + [name])
  {
    var r := OutputInWorkspace(fs, env, pkg, workspace, Bench);
    if workspace.absolute && IsComponent(pkg.shortName + "bench" + env.exeSuffix) then
      PushComponent(workspace, "build");
      MkOutputLayout(env, Bench, Build, pkg, Push(workspace, "build"));
      r
    else r
  }

  /** `build_pkg_id_in_workspace`: `<workspace>/build/<path>`, created if
      missing; `bad_path` on it when that fails. */
  function BuildPkgIdInWorkspace(fs: Fs, pkg: PkgId, workspace: Path): (r: Result<(Path, Fs), (PathError, Fs)>)
    ensures var d := Path(workspace.absolute, workspace.comps + ["build"] + pkg.path.comps);
            && (r.Err? <==> !PathExists(fs, d) && !CanMake(fs, d))
            && (r.Err? ==> && r.error.0 == BadPath(d) && r.error.1.files == fs.files
                           && fs.dirs <= r.error.1.dirs <= fs.dirs + Ancestors(d))
            && (r.Ok? ==> && r.value.0 == d && PathExists(r.value.1, d) && r.value.1.files == fs.files
                          && fs.dirs <= r.value.1.dirs <= fs.dirs + {d} + Ancestors(d))
  {
    PushComponent(workspace, "build");
    var d := PushRel(Push(workspace, "build"), pkg.path);
    if PathExists(fs, d) then Ok((d, fs))
    else
      var (made, fs') := MakeDirRecursive(fs, d);
      if made then Ok((d, fs')) else Err((BadPath(d), fs'))
  }

  /** The installed executable and library of a package. */
  function InstalledBin(env: Env, pkg: PkgId, workspace: Path): Path {
    MkOutputPath(env, Main, Install, pkg, Path(workspace.absolute, workspace.comps + ["bin"]))
  }

  function InstalledLib(env: Env, pkg: PkgId, workspace: Path): Path {
    MkOutputPath(env, Lib, Install, pkg, Path(workspace.absolute, workspace.comps + ["lib"]))
  }

  /** The directories the installed executable and library go in. */
  function BinDir(workspace: Path): Path {
    Path(workspace.absolute, workspace.comps + ["bin"])
  }

  function LibDir(workspace: Path): Path {
    Path(workspace.absolute, workspace.comps + ["lib"])
  }

  /** The installed executable and library are different paths, and
      neither is a directory that looking up their targets may create. */
  predicate InstalledSeparate(env: Env, pkg: PkgId, workspace: Path) {
    var bin, lib := InstalledBin(env, pkg, workspace), InstalledLib(env, pkg, workspace);
    var binDir, libDir := BinDir(workspace), LibDir(workspace);
    && bin != lib && bin != libDir
    && bin !in {binDir} + Ancestors(binDir)
    && lib !in {binDir, libDir} + Ancestors(binDir) + Ancestors(libDir)
  }

  /** `uninstall_package_from`: remove the installed executable, then the
      installed library, each only if it exists. The result carries the
      new filesystem and whether the "nothing installed" warning is given;
      a raised `bad_path` carries the filesystem as it was left, with the
      executable already gone when only the library's directory failed. */
  function UninstallPackageFrom(fs: Fs, env: Env, workspace: Path, pkg: PkgId)
    : (r: Result<(Fs, bool), (PathError, Fs)>)
    ensures var bin, lib := InstalledBin(env, pkg, workspace), InstalledLib(env, pkg, workspace);
            r.Ok? ==> r.value.0.files == fs.files - {bin, lib}
    ensures var binDir := BinDir(workspace);
            var binOk := PathExists(fs, binDir) || CanMake(fs, binDir);
            && (r.Err? && !binOk ==> && r.error.0 == BadPath(binDir) && r.error.1.files == fs.files
                                     && fs.dirs <= r.error.1.dirs <= fs.dirs + Ancestors(binDir))
            && (r.Err? && binOk ==> r.error.1.files == fs.files - {InstalledBin(env, pkg, workspace)})
    ensures var binDir, libDir := BinDir(workspace), LibDir(workspace);
            r.Ok? ==> fs.dirs <= r.value.0.dirs <= fs.dirs + {binDir, libDir} + Ancestors(binDir) + Ancestors(libDir)
    ensures r.Ok? && InstalledSeparate(env, pkg, workspace) ==>
              (r.value.1 <==> !PathExists(fs, InstalledBin(env, pkg, workspace))
                              && !PathExists(fs, InstalledLib(env, pkg, workspace)))
  {
    match UninstallBinary(fs, env, workspace, pkg)
    case Err(e) => Err(e)
    case Ok((fs2, hadBin)) =>
      match UninstallLibrary(fs2, env, workspace, pkg)
      case Err(e) => Err(e)
      case Ok((fs4, hadLib)) => Ok((fs4, !hadBin && !hadLib))
  }

  /** The first half of `uninstall_package_from`: remove the installed
      executable if it exists, and tell whether it did. */
  function UninstallBinary(fs: Fs, env: Env, workspace: Path, pkg: PkgId): (r: Result<(Fs, bool), (PathError, Fs)>)
    ensures var binDir := BinDir(workspace);
            r.Err? <==> !PathExists(fs, binDir) && !CanMake(fs, binDir)
    ensures var binDir := BinDir(workspace);
            r.Err? ==> && r.error.0 == BadPath(binDir) && r.error.1.files == fs.files
                       && fs.dirs <= r.error.1.dirs <= fs.dirs + Ancestors(binDir)
    ensures var bin, binDir := InstalledBin(env, pkg, workspace), BinDir(workspace);
            r.Ok? ==> && r.value.0.files == fs.files - {bin}
                      && fs.dirs <= r.value.0.dirs <= fs.dirs + {binDir} + Ancestors(binDir)
    ensures var bin, binDir := InstalledBin(env, pkg, workspace), BinDir(workspace);
            r.Ok? && bin !in {binDir} + Ancestors(binDir) ==> (r.value.1 <==> PathExists(fs, bin))
  {
    match TargetExecutableInWorkspace(fs, env, pkg, workspace)
    case Err(e) => Err(e)
    case Ok((bin, fs1)) =>
      var hadBin := PathExists(fs1, bin);
      Ok((if hadBin then RemoveFile(fs1, bin) else fs1, hadBin))
  }

  /** The second half of `uninstall_package_from`: remove the installed
      library if it exists, and tell whether it did. */
  function UninstallLibrary(fs: Fs, env: Env, workspace: Path, pkg: PkgId)
    : (r: Result<(Fs, bool), (PathError, Fs)>)
    ensures !PathIsDir(fs, workspace) ==> r == Err((BadPath(workspace), fs))
    ensures var libDir := LibDir(workspace);
            PathIsDir(fs, workspace) ==> (r.Err? <==> !PathExists(fs, libDir) && !CanMake(fs, libDir))
    ensures PathIsDir(fs, workspace) && r.Err? ==> r.error.0 == BadPath(LibDir(workspace))
    ensures r.Err? ==> r.error.1 == fs
    ensures var libDir := LibDir(workspace);
            r.Ok? ==> fs.dirs <= r.value.0.dirs <= fs.dirs + {libDir} + Ancestors(libDir)
    ensures r.Ok? ==> r.value.0.files == fs.files - {InstalledLib(env, pkg, workspace)}
    ensures var lib, libDir := InstalledLib(env, pkg, workspace), LibDir(workspace);
            r.Ok? && lib !in {libDir} + Ancestors(libDir) ==> (r.value.1 <==> PathExists(fs, lib))
  {
    match TargetLibraryInWorkspace(fs, env, pkg, workspace)
    case Err(e) => Err(e)
    case Ok((lib, fs3)) =>
      var hadLib := PathExists(fs3, lib);
      Ok((if hadLib then RemoveFile(fs3, lib) else fs3, hadLib))
  }

  /** A relative workspace resolved against a plain absolute working
      directory, with plain output names. */
  predicate PlainRelative(env: Env, pkg: PkgId, workspace: Path) {
    && ValidEnv(env) && Plain(env.cwd.comps) && Plain(workspace.comps)
    && OutputFileName(env, Main, pkg) != "." && OutputFileName(env, Main, pkg) != ".."
    && OutputFileName(env, Lib, pkg) != "." && OutputFileName(env, Lib, pkg) != ".."
  }

  /** In a workspace directory, absolute or relative with plain names, the
      uninstall fails only when a target directory can neither be found
      nor made, and otherwise warns exactly when neither file was there. */
  lemma UninstallWarnsIffNothingInstalled(fs: Fs, env: Env, workspace: Path, pkg: PkgId)
    requires PathIsDir(fs, workspace)
    requires IsComponent(OutputFileName(env, Main, pkg)) && IsComponent(OutputFileName(env, Lib, pkg))
    requires !workspace.absolute ==> PlainRelative(env, pkg, workspace)
    ensures var binDir, libDir := BinDir(workspace), LibDir(workspace);
            var r := UninstallPackageFrom(fs, env, workspace, pkg);
            && (r.Err? <==> (!PathExists(fs, binDir) && binDir !in fs.creatable)
                            || (!PathExists(fs, libDir) && libDir !in fs.creatable))
            && (r.Ok? ==> (r.value.1 <==> !PathExists(fs, InstalledBin(env, pkg, workspace))
                                          && !PathExists(fs, InstalledLib(env, pkg, workspace))))
  {
    var binDir, libDir := BinDir(workspace), LibDir(workspace);
    InstalledPathsSeparate(env, pkg, workspace);
    TargetDirsApart(workspace);
    assert Parent(binDir) == workspace && Parent(libDir) == workspace;
    CanMakeChild(fs, binDir);
    match TargetExecutableInWorkspace(fs, env, pkg, workspace)
    case Err(_) =>
    case Ok((bin, fs1)) =>
      var fs2 := if PathExists(fs1, bin) then RemoveFile(fs1, bin) else fs1;
      assert libDir in fs2.dirs <==> libDir in fs.dirs;
      assert libDir in fs2.files <==> libDir in fs.files;
      CanMakeChild(fs2, libDir);
  }

  /** The library directory is neither the executable directory nor above
      it. */
  lemma TargetDirsApart(workspace: Path)
    ensures LibDir(workspace) !in {BinDir(workspace)} + Ancestors(BinDir(workspace))
  {
    var n := |workspace.comps|;
    assert LibDir(workspace).comps[n] != BinDir(workspace).comps[n];
    if LibDir(workspace) in Ancestors(BinDir(workspace)) {
      AncestorsShorter(BinDir(workspace), LibDir(workspace));
    }
  }

  /** Absolute workspaces with component names, and relative ones with
      plain names, keep the installed files apart. */
  lemma InstalledPathsSeparate(env: Env, pkg: PkgId, workspace: Path)
    requires IsComponent(OutputFileName(env, Main, pkg)) && IsComponent(OutputFileName(env, Lib, pkg))
    requires !workspace.absolute ==> PlainRelative(env, pkg, workspace)
    ensures InstalledSeparate(env, pkg, workspace)
  {
    var bin, lib := InstalledBin(env, pkg, workspace), InstalledLib(env, pkg, workspace);
    var binDir, libDir := BinDir(workspace), LibDir(workspace);
    var n := |workspace.comps|;
    if workspace.absolute {
      InstalledPathsDistinct(env, pkg, workspace);
      assert |bin.comps| == n + 2 && |lib.comps| == n + 2;
    } else {
      assert Plain(binDir.comps) && Plain(libDir.comps) by {
        assert forall k :: 0 <= k < n ==> binDir.comps[k] == workspace.comps[k] && libDir.comps[k] == workspace.comps[k];
      }
      MkOutputRelative(env, Main, pkg, binDir);
      MkOutputRelative(env, Lib, pkg, libDir);
      var m := |env.cwd.comps| + n;
      assert bin.comps[m] == "bin" && lib.comps[m] == "lib";
      assert bin.absolute && lib.absolute;
    }
    forall q | q in {binDir, libDir} + Ancestors(binDir) + Ancestors(libDir)
      ensures q != bin && q != lib
    {
      if q in Ancestors(binDir) { AncestorsShorter(binDir, q); }
      if q in Ancestors(libDir) { AncestorsShorter(libDir, q); }
    }
  }

  /** The installed files and their directories are five different paths. */
  lemma InstalledPathsDistinct(env: Env, pkg: PkgId, workspace: Path)
    requires workspace.absolute
    requires IsComponent(OutputFileName(env, Main, pkg)) && IsComponent(OutputFileName(env, Lib, pkg))
    ensures var binDir := Path(true, workspace.comps + ["bin"]);
            var libDir := Path(true, workspace.comps + ["lib"]);
            var bin, lib := InstalledBin(env, pkg, workspace), InstalledLib(env, pkg, workspace);
            && bin == Path(true, workspace.comps + ["bin", OutputFileName(env, Main, pkg)])
            && lib == Path(true, workspace.comps + ["lib", OutputFileName(env, Lib, pkg)])
            && bin != lib && bin != binDir && bin != libDir && lib != binDir && lib != libDir
            && binDir != libDir && workspace != binDir && workspace != libDir
  {
    var binDir := Path(true, workspace.comps + ["bin"]);
    var libDir := Path(true, workspace.comps + ["lib"]);
    var bin, lib := InstalledBin(env, pkg, workspace), InstalledLib(env, pkg, workspace);
    MkOutputLayout(env, Main, Install, pkg, binDir);
    MkOutputLayout(env, Lib, Install, pkg, libDir);
    assert |bin.comps| == |workspace.comps| + 2 && |lib.comps| == |workspace.comps| + 2;
    assert bin.comps[|workspace.comps|] == "bin" && lib.comps[|workspace.comps|] == "lib";
    assert workspace != binDir && workspace != libDir by {
      assert |binDir.comps| == |workspace.comps| + 1 && |libDir.comps| == |workspace.comps| + 1;
    }
    assert binDir != libDir by { assert binDir.comps[|workspace.comps|] != libDir.comps[|workspace.comps|]; }
  }
}
