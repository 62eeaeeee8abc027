/** Remote and local package paths, and the normalisation that maps one to
    the other (src/librustpkg/package_path.rs). */
module PackagePath {
  import opened Base
  import opened Paths

  /** Wrappers that keep remote and local paths apart. */
  datatype RemotePath = RemotePath(path: Path)
  datatype LocalPath = LocalPath(path: Path)

  /** `-` becomes `_`. */
  function Underscored(s: string): string {
    ReplaceChar(s, '-', '_')
  }

  /** Replace every `-` in the stem of the path by `_`; the path is returned
      as it is when it has no stem or its stem has no `-`. */
  function Normalize(rp: RemotePath): (lp: LocalPath)
    ensures FileStem(rp.path).None? ==> lp.path == rp.path
    ensures FileStem(rp.path).Some? && Lacks(FileStem(rp.path).value, '-') ==> lp.path == rp.path
    ensures lp.path.absolute == rp.path.absolute
  {
    var p := rp.path;
    match FileStem(p)
    case None => LocalPath(p)
    case Some(st) =>
      var replaced := Underscored(st);
      if replaced != st then LocalPath(WithFileStem(p, replaced))
      else
        assert Lacks(st, '-') ==> replaced == st;
        LocalPath(p)
  }

  lemma UnderscoredKeeps(s: string, c: char)
    requires c != '-' && c != '_'
    ensures Lacks(Underscored(s), c) <==> Lacks(s, c)
  {
    if !Lacks(s, c) {
      var k :| 0 <= k < |s| && s[k] == c;
      assert Underscored(s)[k] == c;
    }
  }

  lemma UnderscoredDashFree(s: string)
    ensures Lacks(Underscored(s), '-')
    ensures Lacks(s, '-') ==> Underscored(s) == s
  {
  }

  /** The shape of the result: the parents and the absolute flag are those
      of the input, and the last component is the underscored stem followed
      by the unchanged type. */
  lemma {:induction false} NormalizeShape(p: Path)
    requires WellFormed(p.comps) && |p.comps| > 0
    ensures var f := p.comps[|p.comps| - 1];
            Normalize(RemotePath(p)).path
              == Path(p.absolute, p.comps[..|p.comps| - 1] + [Underscored(StemOf(f)) + TypeOf(f)])
  {
    var f := p.comps[|p.comps| - 1];
    var st, ty := StemOf(f), TypeOf(f);
    StemTypeSplit(f);
    assert FileStem(p) == Some(st);
    var replaced := Underscored(st);
    if replaced != st {
      assert FileType(p) == (if ty == [] then None else Some(ty));
      var g := replaced + ty;
      assert Lacks(st, '/') && Lacks(ty, '/') by {
        forall k | 0 <= k < |st| ensures st[k] != '/' { assert st[k] == f[k]; }
        forall k | 0 <= k < |ty| ensures ty[k] != '/' { assert ty[k] == f[|st| + k]; }
      }
      UnderscoredKeeps(st, '/');
      LacksConcat(replaced, ty, '/');
      assert IsComponent(g);
      SplitComponent(g);
      if ty == [] {
        assert g == replaced;
      }
      assert WithFileStem(p, replaced) == WithFileName(p, g);
    } else {
      assert p.comps == p.comps[..|p.comps| - 1] + [f];
    }
  }

  /** The normalised path is well formed again. */
  lemma NormalizeWellFormed(p: Path)
    requires WellFormed(p.comps)
    ensures WellFormed(Normalize(RemotePath(p)).path.comps)
  {
    if |p.comps| > 0 {
      var f := p.comps[|p.comps| - 1];
      NormalizeShape(p);
      StemTypeSplit(f);
      var st, ty := StemOf(f), TypeOf(f);
      assert Lacks(st, '/') && Lacks(ty, '/') by {
        forall k | 0 <= k < |st| ensures st[k] != '/' { assert st[k] == f[k]; }
        forall k | 0 <= k < |ty| ensures ty[k] != '/' { assert ty[k] == f[|st| + k]; }
      }
      UnderscoredKeeps(st, '/');
      LacksConcat(Underscored(st), ty, '/');
      assert |Underscored(st) + ty| == |f|;
    }
  }

  /** Every `-` of the stem becomes `_`: the new stem is the underscored old
      stem, it holds no `-`, and the type and the parents are untouched. */
  lemma NormalizeReplacesStem(p: Path)
    requires WellFormed(p.comps) && |p.comps| > 0
    ensures var q := Normalize(RemotePath(p)).path;
            && FileStem(q) == Some(Underscored(FileStem(p).value))
            && Lacks(FileStem(q).value, '-')
            && FileType(q) == FileType(p)
            && |q.comps| == |p.comps|
            && q.comps[..|q.comps| - 1] == p.comps[..|p.comps| - 1]
  {
    var f := p.comps[|p.comps| - 1];
    NormalizeShape(p);
    StemTypeSplit(f);
    var st, ty := StemOf(f), TypeOf(f);
    UnderscoredKeeps(st, '.');
    StemTypeOfJoin(Underscored(st), ty);
    var q := Normalize(RemotePath(p)).path;
    assert q.comps[|q.comps| - 1] == Underscored(st) + ty;
    assert FileStem(q) == Some(StemOf(Underscored(st) + ty));
    assert FileType(p) == (if ty == [] then None else Some(ty));
    assert q.comps[..|q.comps| - 1] == p.comps[..|p.comps| - 1];
    UnderscoredDashFree(st);
  }

  /** Normalising twice is normalising once. */
  lemma NormalizeIdempotent(p: Path)
    requires WellFormed(p.comps)
    ensures Normalize(RemotePath(Normalize(RemotePath(p)).path)) == Normalize(RemotePath(p))
  {
    var q := Normalize(RemotePath(p)).path;
    if |p.comps| > 0 {
      NormalizeReplacesStem(p);
    } else {
      assert FileStem(q).None?;
    }
  }

  /** A dot-free last component is underscored as a whole. */
  lemma NormalizeDotFree(parents: seq<string>, c: string)
    requires WellFormed(parents + [c]) && Lacks(c, '.')
    ensures Normalize(RemotePath(Path(false, parents + [c])))
         == LocalPath(Path(false, parents + [Underscored(c)]))
  {
    var p := Path(false, parents + [c]);
    NormalizeShape(p);
    assert p.comps[..|p.comps| - 1] == parents;
  }

  /** `t` is `s` with every `-` replaced by `_`. */
  lemma UnderscoredIs(s: string, t: string)
    requires |s| == |t|
    requires forall k :: 0 <= k < |s| ==> t[k] == (if s[k] == '-' then '_' else s[k])
    ensures Underscored(s) == t
  {
  }

  /** Two spellings of one package name normalise to the same local path. */
  lemma NormalizeDashUnderscore()
    ensures Normalize(RemotePath(Path(false, ["rust-foo-bar-quux"])))
         == Normalize(RemotePath(Path(false, ["rust_foo_bar_quux"])))
         == LocalPath(Path(false, ["rust_foo_bar_quux"]))
  {
    var dashed, plain := "rust-foo-bar-quux", "rust_foo_bar_quux";
    var none: seq<string> := [];
    assert none + [dashed] == [dashed] && none + [plain] == [plain];
    assert WellFormed([dashed]) && WellFormed([plain]);
    assert Lacks(dashed, '.') && Lacks(plain, '.') && Lacks(plain, '-');
    UnderscoredIs(dashed, plain);
    UnderscoredDashFree(plain);
    NormalizeDotFree(none, dashed);
    NormalizeDotFree(none, plain);
  }

  /** Only the last component changes: the dot in a parent stays. */
  lemma NormalizeRemotePackage()
    ensures Normalize(RemotePath(Path(false, ["github.com", "catamorphism", "test-pkg"])))
         == LocalPath(Path(false, ["github.com", "catamorphism", "test_pkg"]))
  {
    var parents := ["github.com", "catamorphism"];
    var last, fixed := "test-pkg", "test_pkg";
    assert parents + [last] == ["github.com", "catamorphism", "test-pkg"];
    assert parents + [fixed] == ["github.com", "catamorphism", "test_pkg"];
    assert WellFormed(parents + [last]);
    assert Lacks(last, '.');
    UnderscoredIs(last, fixed);
    NormalizeDotFree(parents, last);
  }
}
