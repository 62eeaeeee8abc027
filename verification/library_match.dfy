/** Recovering an installed or built library from a directory listing
    (`library_in_workspace`, src/librustpkg/path_util.rs). The compiler puts
    an unpredictable hash between a library's name and its version, so the
    file `<dll-prefix><name>-<hash>-<version><dll-suffix>` is found by
    scanning each candidate stem from the right. */
module LibraryMatch {
  import opened Base
  import opened Paths
  import opened PkgTypes

  /** The scan of one file stem. `matches(seg)` says whether `seg` parses
      to a version equal to the requested one. The right-most `-` splits off
      a candidate version; when it matches, the text before the next `-` to
      its left must be the library prefix, and the scan stops either way;
      when it does not match, the stem is cut at that `-` and the scan goes
      on with what is left. */
  function ScanStem(f: string, libPrefix: string, matches: string -> bool): bool
    decreases |f|
  {
    if |f| == 0 then false
    else
      match LastIndexOf(f, '-')
      case None => false
      case Some(i) =>
        if matches(f[i + 1..]) then
          match LastIndexOf(f[..i], '-')
          case None => false
          case Some(j) => f[..j] == libPrefix
        else ScanStem(f[..i], libPrefix, matches)
  }

  /** `f` reads `<libPrefix>-<hash>-<version><rest>`, where the hash starts
      after `j`, the version after `i` and ends at `e`, neither holds a `-`,
      the version matches, and `rest` is empty or starts with a `-`. */
  predicate AcceptedAt(f: string, libPrefix: string, matches: string -> bool, j: nat, i: nat, e: nat) {
    && j < i < e <= |f|
    && f[..j] == libPrefix && f[j] == '-' && f[i] == '-'
    && Lacks(f[j + 1..i], '-') && Lacks(f[i + 1..e], '-')
    && matches(f[i + 1..e])
    && (e == |f| || f[e] == '-')
  }

  /** Whatever the scan accepts has the shape of a library file name. */
  lemma {:induction false} ScanStemSound(f: string, libPrefix: string, matches: string -> bool)
    requires ScanStem(f, libPrefix, matches)
    ensures exists j, i, e :: AcceptedAt(f, libPrefix, matches, j, i, e)
    decreases |f|
  {
    var i := LastIndexOf(f, '-').value;
    if matches(f[i + 1..]) {
      var j := LastIndexOf(f[..i], '-').value;
      assert f[..i][..j] == f[..j];
      assert f[..i][j + 1..] == f[j + 1..i];
      assert f[i + 1..|f|] == f[i + 1..];
      assert AcceptedAt(f, libPrefix, matches, j, i, |f|);
    } else {
      var g := f[..i];
      ScanStemSound(g, libPrefix, matches);
      var j': nat, i': nat, e': nat :| AcceptedAt(g, libPrefix, matches, j', i', e');
      assert g[..j'] == f[..j'];
      assert g[j' + 1..i'] == f[j' + 1..i'];
      assert g[i' + 1..e'] == f[i' + 1..e'];
      assert e' == |g| ==> f[e'] == '-';
      assert AcceptedAt(f, libPrefix, matches, j', i', e');
    }
  }

  /** The two `-` the scan meets first in `<prefix>-<hash>-<version>`. */
  lemma LibraryNameDashes(libPrefix: string, hash: string, ver: string)
    requires Lacks(hash, '-') && Lacks(ver, '-')
    ensures var f := libPrefix + "-" + hash + "-" + ver;
            var i := |libPrefix| + 1 + |hash|;
            && LastIndexOf(f, '-') == Some(i)
            && f[i + 1..] == ver
            && f[..i] == libPrefix + "-" + hash
            && LastIndexOf(f[..i], '-') == Some(|libPrefix|)
            && f[..i][..|libPrefix|] == libPrefix
            && f[..i][|libPrefix| + 1..] == hash
  {
    var f := libPrefix + "-" + hash + "-" + ver;
    var i := |libPrefix| + 1 + |hash|;
    assert f[i + 1..] == ver;
    LastIndexOfIs(f, '-', i);
    var g := f[..i];
    assert g == libPrefix + "-" + hash;
    assert g[|libPrefix| + 1..] == hash;
    LastIndexOfIs(g, '-', |libPrefix|);
  }

  /** The file name the compiler produces is found: a hash and a version
      without `-` after the library prefix, with a matching version. */
  lemma ScanFindsLibrary(libPrefix: string, hash: string, ver: string, matches: string -> bool)
    requires Lacks(hash, '-') && Lacks(ver, '-') && matches(ver)
    ensures ScanStem(libPrefix + "-" + hash + "-" + ver, libPrefix, matches)
  {
    LibraryNameDashes(libPrefix, hash, ver);
  }

  /** A candidate version that does not match cuts the stem at its `-`. */
  lemma ScanStemSkip(f: string, libPrefix: string, matches: string -> bool, i: nat)
    requires LastIndexOf(f, '-') == Some(i) && !matches(f[i + 1..])
    ensures ScanStem(f, libPrefix, matches) == ScanStem(f[..i], libPrefix, matches)
  {
  }

  /** A candidate version that matches with no `-` to its left rejects. */
  lemma ScanStemNoHash(f: string, libPrefix: string, matches: string -> bool, i: nat)
    requires LastIndexOf(f, '-') == Some(i) && matches(f[i + 1..]) && Lacks(f[..i], '-')
    ensures !ScanStem(f, libPrefix, matches)
  {
  }

  /** A stem without `-` is never accepted. */
  lemma ScanStemNoDash(f: string, libPrefix: string, matches: string -> bool)
    requires Lacks(f, '-')
    ensures !ScanStem(f, libPrefix, matches)
  {
  }

  /** With a prefix without `-`, a file `<prefix>-<hash>-<version>` is
      accepted exactly when its version matches; the hash is never taken
      for the version. */
  lemma ScanLibraryIff(libPrefix: string, hash: string, ver: string, matches: string -> bool)
    requires Lacks(libPrefix, '-') && Lacks(hash, '-') && Lacks(ver, '-')
    ensures ScanStem(libPrefix + "-" + hash + "-" + ver, libPrefix, matches) <==> matches(ver)
  {
    if matches(ver) {
      ScanFindsLibrary(libPrefix, hash, ver, matches);
    } else {
      ScanRejectsLibrary(libPrefix, hash, ver, matches);
    }
  }

  /** A version that does not match is rejected, whether or not the hash
      happens to match. */
  lemma ScanRejectsLibrary(libPrefix: string, hash: string, ver: string, matches: string -> bool)
    requires Lacks(libPrefix, '-') && Lacks(hash, '-') && Lacks(ver, '-') && !matches(ver)
    ensures !ScanStem(libPrefix + "-" + hash + "-" + ver, libPrefix, matches)
  {
    LibraryNameDashes(libPrefix, hash, ver);
    var f := libPrefix + "-" + hash + "-" + ver;
    var i := |libPrefix| + 1 + |hash|;
    var g := f[..i];
    ScanStemSkip(f, libPrefix, matches, i);
    var p := g[..|libPrefix|];
    assert p == libPrefix;
    if matches(hash) {
      ScanStemNoHash(g, libPrefix, matches, |libPrefix|);
    } else {
      ScanStemSkip(g, libPrefix, matches, |libPrefix|);
      ScanStemNoDash(p, libPrefix, matches);
    }
  }

  /** The scan is heuristic: a library whose own name ends in
      `-<version>` can be taken for the requested one. Asking for `foo` at
      `0.3` accepts `libfoo-x-0.3-h-0.4`, the file of a library named
      `foo-x-0.3` at version `0.4` with hash `h`. */
  lemma ScanAmbiguity(matches: string -> bool)
    requires matches("0.3") && !matches("0.4") && !matches("h")
    ensures ScanStem("libfoo-x-0.3-h-0.4", "libfoo", matches)
  {
    var f := "libfoo-x-0.3-h-0.4";
    assert f[15..] == "0.4";
    LastIndexOfIs(f, '-', 14);
    var g := f[..14];
    assert g == "libfoo-x-0.3-h";
    assert g[13..] == "h";
    LastIndexOfIs(g, '-', 12);
    assert ScanStem(f, "libfoo", matches) == ScanStem(g, "libfoo", matches);
    var h := g[..12];
    assert h == "libfoo-x-0.3";
    assert h[9..] == "0.3";
    LastIndexOfIs(h, '-', 8);
    assert ScanStem(g, "libfoo", matches) == ScanStem(h, "libfoo", matches);
    assert h[..8] == "libfoo-x";
    LastIndexOfIs(h[..8], '-', 6);
    assert h[..8][..6] == "libfoo";
  }

  /** The directory searched: `<workspace>/<prefix>/<path>` for the build
      tree, `<workspace>/<prefix>` for the install tree. */
  function SearchDir(where: Target, workspace: Path, prefix: string, path: Path): Path {
    match where
    case Build => PushRel(Push(workspace, prefix), path)
    case Install => Push(workspace, prefix)
  }

  /** A directory entry read back as a relative path, `Path(name)`. */
  function EntryPath(name: string): Path {
    Path(false, Split(name))
  }

  /** The version test of the scan: the segment parses to a version equal
      to the requested one. */
  function VersionMatcher(env: Env, version: Version): string -> bool {
    seg => var parsed := env.tryParsingVersion(seg);
           parsed.Some? && env.versionEq(version, parsed.value)
  }

  /** An entry the search accepts: its extension is the library suffix and
      the scan of its stem succeeds for `<dll-prefix><short name>`. */
  predicate IsLibraryEntry(env: Env, name: string, shortName: string, version: Version) {
    var p := EntryPath(name);
    && FileType(p) == Some(env.dllSuffix)
    && FileStem(p).Some?
    && ScanStem(FileStem(p).value, env.dllPrefix + shortName, VersionMatcher(env, version))
  }

  /** The index of the last entry that `accept` holds for. */
  function LastAccepted(entries: seq<string>, accept: string -> bool): (r: Option<nat>)
    ensures r.None? <==> forall k :: 0 <= k < |entries| ==> !accept(entries[k])
    ensures r.Some? ==> && r.value < |entries| && accept(entries[r.value])
                        && forall k :: r.value < k < |entries| ==> !accept(entries[k])
  {
    if |entries| == 0 then None
    else if accept(entries[|entries| - 1]) then Some(|entries| - 1)
    else LastAccepted(entries[..|entries| - 1], accept)
  }

  /** `library_in_workspace`: list the search directory, keep the entries
      with the library suffix, scan each stem, and return the search
      directory joined with the last entry accepted, if any. */
  function LibraryInWorkspace(fs: Fs, env: Env, path: Path, shortName: string, where: Target,
                              workspace: Path, prefix: string, version: Version): (r: Option<Path>)
    ensures var dir := SearchDir(where, workspace, prefix, path);
            var entries := ListDir(fs, dir);
            && (r.None? <==> forall k :: 0 <= k < |entries| ==> !IsLibraryEntry(env, entries[k], shortName, version))
            && (r.Some? ==> exists k :: && 0 <= k < |entries|
                                        && IsLibraryEntry(env, entries[k], shortName, version)
                                        && r.value == PushRel(dir, EntryPath(entries[k]))
                                        && forall k' :: k < k' < |entries| ==> !IsLibraryEntry(env, entries[k'], shortName, version))
  {
    var dir := SearchDir(where, workspace, prefix, path);
    var entries := ListDir(fs, dir);
    match LastAccepted(entries, name => IsLibraryEntry(env, name, shortName, version))
    case None => None
    case Some(k) => Some(PushRel(dir, EntryPath(entries[k])))
  }

  /** `built_library_in_workspace`: the package's own build directory,
      at the package's version. */
  function BuiltLibraryInWorkspace(fs: Fs, env: Env, pkg: PkgId, workspace: Path): (r: Option<Path>)
    ensures var dir := SearchDir(Build, workspace, "build", pkg.path);
            var entries := ListDir(fs, dir);
            && (r.None? <==> forall k :: 0 <= k < |entries| ==> !IsLibraryEntry(env, entries[k], pkg.shortName, pkg.version))
            && (r.Some? ==> exists k :: && 0 <= k < |entries|
                                        && IsLibraryEntry(env, entries[k], pkg.shortName, pkg.version)
                                        && r.value == PushRel(dir, EntryPath(entries[k]))
                                        && forall k' :: k < k' < |entries| ==> !IsLibraryEntry(env, entries[k'], pkg.shortName, pkg.version))
  {
    LibraryInWorkspace(fs, env, pkg.path, pkg.shortName, Build, workspace, "build", pkg.version)
  }

  /** `installed_library_in_workspace`: the flat `lib` directory, asking
      for `NoVersion`. */
  function InstalledLibraryInWorkspace(fs: Fs, env: Env, shortName: string, workspace: Path): (r: Option<Path>)
    ensures var dir := Push(workspace, "lib");
            var entries := ListDir(fs, dir);
            && (r.None? <==> forall k :: 0 <= k < |entries| ==> !IsLibraryEntry(env, entries[k], shortName, NoVersion))
            && (r.Some? ==> exists k :: && 0 <= k < |entries|
                                        && IsLibraryEntry(env, entries[k], shortName, NoVersion)
                                        && r.value == PushRel(dir, EntryPath(entries[k]))
                                        && forall k' :: k < k' < |entries| ==> !IsLibraryEntry(env, entries[k'], shortName, NoVersion))
  {
    LibraryInWorkspace(fs, env, EntryPath(shortName), shortName, Install, workspace, "lib", NoVersion)
  }

  /** The file a compiled library gets, `<dll-prefix><name>-<hash>-<version><dll-suffix>`,
      is accepted exactly when its version matches, provided the suffix is
      a dot followed by no other dot, and the prefix, the hash and the
      version hold no `-`. */
  lemma LibraryEntryIff(env: Env, shortName: string, version: Version, hash: string, ver: string)
    requires |env.dllSuffix| > 0 && env.dllSuffix[0] == '.' && Lacks(env.dllSuffix[1..], '.')
    requires Lacks(env.dllPrefix + shortName, '-') && Lacks(hash, '-') && Lacks(ver, '-')
    requires IsComponent(env.dllPrefix + shortName + "-" + hash + "-" + ver + env.dllSuffix)
    ensures IsLibraryEntry(env, env.dllPrefix + shortName + "-" + hash + "-" + ver + env.dllSuffix, shortName, version)
        <==> VersionMatcher(env, version)(ver)
  {
    var lp := env.dllPrefix + shortName;
    var st := lp + "-" + hash + "-" + ver;
    var n := st + env.dllSuffix;
    assert n == env.dllPrefix + shortName + "-" + hash + "-" + ver + env.dllSuffix;
    SplitComponent(n);
    StemTypeOfJoin(st, env.dllSuffix);
    assert FileStem(EntryPath(n)) == Some(st);
    ScanLibraryIff(lp, hash, ver, VersionMatcher(env, version));
  }

  /** Among two builds of a library with different versions in the
      package's build directory, the requested one is returned. */
  lemma FindsRequestedVersion(fs: Fs, env: Env, pkg: PkgId, workspace: Path, n1: string, n2: string,
                              hash1: string, ver1: string, hash2: string, ver2: string)
    requires |env.dllSuffix| > 0 && env.dllSuffix[0] == '.' && Lacks(env.dllSuffix[1..], '.')
    requires Lacks(env.dllPrefix + pkg.shortName, '-')
    requires Lacks(hash1, '-') && Lacks(ver1, '-') && Lacks(hash2, '-') && Lacks(ver2, '-')
    requires n1 == env.dllPrefix + pkg.shortName + "-" + hash1 + "-" + ver1 + env.dllSuffix
    requires n2 == env.dllPrefix + pkg.shortName + "-" + hash2 + "-" + ver2 + env.dllSuffix
    requires IsComponent(n1) && IsComponent(n2)
    requires VersionMatcher(env, pkg.version)(ver1) && !VersionMatcher(env, pkg.version)(ver2)
    requires ListDir(fs, SearchDir(Build, workspace, "build", pkg.path)) == [n1, n2]
    ensures BuiltLibraryInWorkspace(fs, env, pkg, workspace)
         == Some(PushRel(SearchDir(Build, workspace, "build", pkg.path), Path(false, [n1])))
  {
    LibraryEntryIff(env, pkg.shortName, pkg.version, hash1, ver1);
    LibraryEntryIff(env, pkg.shortName, pkg.version, hash2, ver2);
    SplitComponent(n1);
    var accept := name => IsLibraryEntry(env, name, pkg.shortName, pkg.version);
    assert LastAccepted([n1, n2], accept) == Some(0);
  }
}
