# rustpkg paths, ropes and bit vectors, in Dafny

This project models four pieces of an early Rust tree and proves properties
about them:

- **Workspace layout of rustpkg** (`src/librustpkg/path_util.rs`). This file
  decides where a package's sources are looked for:
  `<workspace>/src/<path>-<version>`, then `<workspace>/src/<path>`. It also
  decides where build and install outputs go. The output file name is the
  platform's library name of `<short name>-<version>` for a library, and
  `<short name>` plus `test`/`bench` plus the executable suffix otherwise. A
  relative output is put under the working directory and normalised. The file
  also makes missing target directories, raising `bad_path` when it cannot. It
  finds a compiled library in a directory listing, although the compiler puts
  an unpredictable hash in its name. Finally, it uninstalls a package's
  executable and library.
- **Package path normalisation** (`src/librustpkg/package_path.rs`). This maps
  a remote package path to a local one by replacing every `-` in the file
  stem with `_`.
- **Ropes** (`src/libstd/rope.rs`). A rope is a binary tree of leaves. Each
  leaf is a byte range of a shared string, and each node records its byte
  length, character length and height. The model covers:
  - construction: `empty`, `of_substr`, the node constructor;
  - concatenation: `append_rope`, `concat`;
  - the guards of `sub_chars`/`sub_bytes`;
  - comparison: `cmp`, `eq`, `le`, `lt`, `ge`, `gt`;
  - the measures: `height`, `char_len`, `byte_len`;
  - balancing (`bal`), leaf iteration (`loop_leaves`) and `char_at`.
- **Bit vectors** (`src/libstd/bitv.rs`). A bit vector is `nbits` bits kept
  in `nbits / 64 + 1` machine words on a 64-bit target. The model covers:
  - the bit operations: `get`, `set`;
  - the word-wise operations: `union`, `intersect`, `assign`, `difference`,
    `clear`, `set_all`, `invert`;
  - comparison: `equal`, `eq_vec`;
  - conversions and copying: `to_vec`, `to_str`, `clone`.

Modules and files:

| file | module | contents |
|---|---|---|
| `base.dfy` | `Base` | `Option`, `Result`, character search, flattening lemmas |
| `utf8.dfy` | `Utf8` | byte lengths of UTF-8 text, character boundaries, slices |
| `paths.dfy` | `Paths` | the POSIX path operations rustpkg relies on (`push`, `push_rel`, `filestem`, `filetype`, `with_filestem`, `normalize`) |
| `pkg_types.dfy` | `PkgTypes` | package ids, versions, output kinds and targets, the platform environment, an abstract filesystem |
| `package_path.dfy` | `PackagePath` | `RemotePath`, `LocalPath`, `normalize` |
| `path_util.dfy` | `PathUtil` | everything in `path_util.rs` except the library search |
| `library_match.dfy` | `LibraryMatch` | `library_in_workspace` and its two callers |
| `rope.dfy` | `Rope` | ropes and nodes |
| `bitv.dfy` | `Bitv` | bit vectors |

Modelling choices:

- **Paths.** A path is an absolute flag plus its components. Pushing a string
  splits it at `/` and drops empty pieces. The stem and the type of a file
  name split at its right-most `.`. `normalize` is modelled lexically, with
  `.` and `..` resolved. The path library itself is not part of this model;
  `Paths` states the behaviour the code above relies on.
- **Platform.** `PkgTypes.Env` holds what comes from outside:
  - the library prefix and suffix, and the dll file name function;
  - the executable suffix and the working directory;
  - version printing, parsing and equality.
- **Filesystem.** `PkgTypes.Fs` stands for the filesystem: its files, its
  directories, the directories one `make_dir` would manage to create, and
  the directory listings. `mkdir_recursive` makes the missing directories
  from the top down, and those it made stay when a later one fails.
- **Raised conditions.** A `bad_path` condition that no handler traps is
  an error result holding `BadPath(p)` and the filesystem at the point of
  the raise. When `mkdir_recursive` fails, that filesystem may hold the
  directories above `p` it made before failing.
- **Uninstall.** `uninstall_package_from` returns the new filesystem and
  whether it warns. A `bad_path` raised on `lib` comes after the
  executable was removed, and its filesystem shows that.
- **Failures.** A rope operation that `fail`s returns `Fails`.
- **Bit vector words.** The word size is `uint_bits` at
  `src/libstd/bitv.rs:241`, `32 + (1 << 32 >> 27)`: 64 on a 64-bit target
  and 32 on a 32-bit one. The model fixes the 64-bit target. A word is a
  sequence of 64 booleans, bit `b` of word `w` being bit `64 * w + b` of the
  vector.
- **Normalisation.** Only the stem of the last component is rewritten: a
  `-` in its extension stays (`src/librustpkg/package_path.rs:31-36`). This is
  narrower than "the last path segment" as package identifiers are sometimes
  described; the model follows the code.
- **Rebalancing.** `node::bal` (`src/libstd/rope.rs:818-824`) holds an
  unresolved merge conflict. The model follows the second side, which
  gathers the leaves of `n`. Either side gives `none` below height 16.
- **Caller assertions.** The source `assert`s that both vectors have the same
  size in `process` and `eq_vec`, and that the index is in range in `get` and
  `set`. These become preconditions.

## Model

| member | source | states |
|---|---|---|
| PathUtil.MkOutputPath | src/librustpkg/path_util.rs:341-373 | an absolute directory gives the directory's components followed by the file name; a relative one is prefixed with the working directory and normalised; with an absolute working directory the result is always absolute |
| PathUtil.MkOutputFileName | src/librustpkg/path_util.rs:343-366 | the result's file name is the dll name of `<short name>-<version>` for a library, and `<short name>` + `test`/`bench`/nothing + the executable suffix otherwise, for relative and absolute directories alike |
| PathUtil.ExecutableUnversioned | src/librustpkg/path_util.rs:359-366 | executable, test and bench paths do not depend on the package version |
| PathUtil.MkOutputLayout | src/librustpkg/path_util.rs:347-366 | for an absolute directory the output is `<dir>/<name>` when installing and `<dir>/<package path>/<name>` when building |
| PathUtil.MkOutputRelative | src/librustpkg/path_util.rs:368-370 | a relative install directory with plain components resolves to `<cwd>/<dir>/<name>` |
| PathUtil.TargetFileInWorkspace | src/librustpkg/path_util.rs:301-320 | fails with `bad_path` on the target directory exactly when that directory neither exists nor can be made by `mkdir_recursive`; a failure keeps every file and may leave directories above the target that were made on the way; on success the directory exists, no file changes, only that directory and its ancestors may be added, and the result is `mk_output_path` in it |
| PathUtil.TargetFileBuildNesting | src/librustpkg/path_util.rs:311 | for the build tree the package path appears twice, once from the target directory and once from `mk_output_path` |
| PathUtil.TargetExecutableInWorkspace | src/librustpkg/path_util.rs:266-268 | the executable is `<workspace>/bin/<short name><exe suffix>`; it fails exactly when `bin` neither exists nor can be made, raising `bad_path` on `bin` with every file kept and at most the directories above `bin` added; on success files are untouched and only `bin` and its ancestors may be added |
| PathUtil.TargetTestInWorkspace | src/librustpkg/path_util.rs:287-289 | the test executable is `<workspace>/bin/<short name>test<exe suffix>`; it fails exactly when `bin` neither exists nor can be made, raising `bad_path` on `bin` with every file kept and at most the directories above `bin` added; on success files are untouched and only `bin` and its ancestors may be added |
| PathUtil.TargetBenchInWorkspace | src/librustpkg/path_util.rs:294-296 | the bench executable is `<workspace>/bin/<short name>bench<exe suffix>`; it fails exactly when `bin` neither exists nor can be made, raising `bad_path` on `bin` with every file kept and at most the directories above `bin` added; on success files are untouched and only `bin` and its ancestors may be added |
| PathUtil.TargetLibraryInWorkspace | src/librustpkg/path_util.rs:274-282 | a workspace that is not a directory raises `bad_path` on the workspace with the filesystem unchanged; otherwise the result is `<workspace>/lib/<dll name of short name-version>`, failing exactly when `lib` neither exists nor can be made, and then with the filesystem unchanged since only `lib` itself was tried; on success files are untouched and only `lib` and its ancestors may be added |
| PathUtil.PkgidSrcInWorkspace | src/librustpkg/path_util.rs:96-103 | there are exactly two candidates; the second is `<workspace>/src/<package path>` |
| PathUtil.PkgidSrcVersioned | src/librustpkg/path_util.rs:98-99 | the first candidate is `<workspace>/src/<path>` with `-<version>` appended to its last component only |
| PathUtil.FirstPkgidSrcInWorkspace | src/librustpkg/path_util.rs:106-111 | the result is the versioned candidate if it exists, else the unversioned one if that exists, else none |
| PathUtil.OutputInWorkspace | src/librustpkg/path_util.rs:143-156 | the result is the build-tree output path when that path exists, and none exactly when it does not |
| PathUtil.BuiltExecutableInWorkspace | src/librustpkg/path_util.rs:115-129 | none exactly when the build-tree executable output does not exist; otherwise that path, which is `<workspace>/build/<package path>/<short name><exe suffix>` for an absolute workspace |
| PathUtil.BuiltTestInWorkspace | src/librustpkg/path_util.rs:133-135 | none exactly when the build-tree test output does not exist; otherwise that path, which is `<workspace>/build/<package path>/<short name>test<exe suffix>` for an absolute workspace |
| PathUtil.BuiltBenchInWorkspace | src/librustpkg/path_util.rs:139-141 | none exactly when the build-tree bench output does not exist; otherwise that path, which is `<workspace>/build/<package path>/<short name>bench<exe suffix>` for an absolute workspace |
| PathUtil.BuildPkgIdInWorkspace | src/librustpkg/path_util.rs:324-337 | the result is `<workspace>/build/<package path>`, which then exists, with files untouched and only it and its ancestors added; it raises `bad_path` on it exactly when it neither exists nor can be made, keeping every file and adding at most directories above it |
| PathUtil.UninstallPackageFrom | src/librustpkg/path_util.rs:376-393 | on success the installed executable and library are gone, no other file is touched, no directory is removed, and only `bin`, `lib` and the directories above them may be added; a `bad_path` on `bin` keeps every file and adds at most directories above `bin`, one on `lib` comes after the executable was removed; when the installed paths lie apart from the two directories, it warns exactly when neither installed file existed |
| PathUtil.UninstallBinary | src/librustpkg/path_util.rs:378-382 | fails exactly when `bin` neither exists nor can be made, raising `bad_path` on `bin` with every file kept and at most the directories above `bin` added; otherwise the executable is gone, only `bin` and its ancestors may be added, and, when the executable lies apart from `bin` and the directories above it, it reports whether the executable existed |
| PathUtil.UninstallLibrary | src/librustpkg/path_util.rs:383-387 | a workspace that is not a directory raises `bad_path` on the workspace; otherwise it fails exactly when `lib` neither exists nor can be made, raising `bad_path` on `lib`; a failure returns the filesystem it was given; on success the library is gone, no directory is removed and only `lib` and the directories above it may be added, and, when the library lies apart from `lib` and those directories, it reports whether it existed |
| PathUtil.UninstallWarnsIffNothingInstalled | src/librustpkg/path_util.rs:376-393 | in a workspace directory that is absolute, or relative with plain components and names, uninstalling fails exactly when `bin` or `lib` can neither be found nor made, and otherwise warns exactly when neither installed file existed |
| PathUtil.InstalledPathsDistinct | src/librustpkg/path_util.rs:378-385 | the installed executable, the installed library and their two directories are all different paths |
| PathUtil.InstalledPathsSeparate | src/librustpkg/path_util.rs:368-385 | for an absolute workspace, or a relative one resolved against the working directory, the installed executable and library differ from each other, from `bin` and `lib`, and from every directory above them |
| PathUtil.TargetDirsApart | src/librustpkg/path_util.rs:305-313 | `lib` is neither `bin` nor a directory above it, so making `bin` never makes `lib` |
| PkgTypes.MakeDirRecursive | src/librustpkg/path_util.rs:314 | succeeds exactly when the directory exists or each missing directory down to it can be made; on success it is a directory; files are untouched and only it and its ancestors may be added; on failure only its ancestors may be added |
| PkgTypes.CanMakeChild | src/librustpkg/path_util.rs:331 | under an existing directory, a child can be had exactly when it is a directory or can be made |
| PkgTypes.MakeDirRecursiveChildFails | src/librustpkg/path_util.rs:274-282 | under an existing directory, a failing `mkdir_recursive` of a child leaves the filesystem unchanged |
| PkgTypes.MakeDir | src/librustpkg/path_util.rs:314 | succeeds exactly on a path the environment lets it create, which then is a directory; files are untouched and only that path may be added |
| PackagePath.Normalize | src/librustpkg/package_path.rs:29-43 | a path with no stem, or whose stem has no `-`, is returned unchanged; absoluteness is kept |
| PackagePath.NormalizeShape | src/librustpkg/package_path.rs:31-40 | the parents are kept and the last component becomes the underscored stem followed by the unchanged type |
| PackagePath.NormalizeReplacesStem | src/librustpkg/package_path.rs:26-36 | the new stem is the old one with every `-` replaced by `_`, it holds no `-`, and the type and the parent components are unchanged |
| PackagePath.NormalizeWellFormed | src/librustpkg/package_path.rs:29-43 | normalising a well-formed path gives a well-formed path |
| PackagePath.NormalizeIdempotent | src/librustpkg/package_path.rs:24-43 | normalising twice is the same as normalising once |
| PackagePath.NormalizeDotFree | src/librustpkg/package_path.rs:29-43 | a last component without a `.` is underscored as a whole |
| PackagePath.NormalizeDashUnderscore | src/librustpkg/package_path.rs:26-28 | `rust-foo-bar-quux` and `rust_foo_bar_quux` normalise to the same local path |
| PackagePath.NormalizeRemotePackage | src/librustpkg/tests.rs:55-62 | `github.com/catamorphism/test-pkg` normalises to `github.com/catamorphism/test_pkg`; the dot in a parent stays |
| PackagePath.UnderscoredKeeps | src/librustpkg/package_path.rs:34 | replacing `-` by `_` neither adds nor removes any other character |
| LibraryMatch.ScanStemSound | src/librustpkg/path_util.rs:211-245 | whatever the stem scan accepts reads `<lib prefix>-<hash>-<version>[-…]`, with a dash-free hash and a dash-free matching version |
| LibraryMatch.ScanLibraryIff | src/librustpkg/path_util.rs:211-245 | the stem `<lib prefix>-<hash>-<version>` of dash-free parts is accepted exactly when its version matches |
| LibraryMatch.ScanStemSkip | src/librustpkg/path_util.rs:221-241 | a non-matching last segment is cut off and the scan continues on what is left |
| LibraryMatch.ScanStemNoHash | src/librustpkg/path_util.rs:226-237 | a matching version with no `-` to its left is rejected |
| LibraryMatch.ScanStemNoDash | src/librustpkg/path_util.rs:221-243 | a stem without a `-` is rejected |
| LibraryMatch.ScanAmbiguity | src/librustpkg/path_util.rs:211-245 | asking for `foo` at 0.3 accepts `libfoo-x-0.3-h-0.4`, the file of library `foo-x-0.3` at 0.4 |
| LibraryMatch.LastAccepted | src/librustpkg/path_util.rs:211-245 | the index of the last accepted entry, or none exactly when no entry is accepted |
| LibraryMatch.LibraryInWorkspace | src/librustpkg/path_util.rs:172-261 | none exactly when no listed entry of the search directory is a library entry; otherwise the search directory joined with the last such entry |
| LibraryMatch.BuiltLibraryInWorkspace | src/librustpkg/path_util.rs:160-162 | none exactly when no entry of `<workspace>/build/<package path>` is accepted at the package's version; otherwise that directory joined with the last accepted entry |
| LibraryMatch.InstalledLibraryInWorkspace | src/librustpkg/path_util.rs:165-168 | none exactly when no entry of `<workspace>/lib` is accepted with no version; otherwise that directory joined with the last accepted entry |
| LibraryMatch.LibraryEntryIff | src/librustpkg/path_util.rs:191-245 | the entry `<dll prefix><name>-<hash>-<version><dll suffix>` is accepted exactly when its version matches |
| LibraryMatch.FindsRequestedVersion | src/librustpkg/path_util.rs:160-162 | among two builds of one library at different versions, the one at the requested version is returned |
| Rope.Concat2 | src/libstd/rope.rs:952-954 | a concatenation node has the summed lengths and one more than the greater height, is valid when both children are, and its text is the left text followed by the right |
| Rope.NewLeaf | src/libstd/rope.rs:526-540 | corrected: a leaf over a byte range between character boundaries is valid, of height 0, and its text is that slice of the string |
| Rope.NewLeafAsWritten | src/libstd/rope.rs:526-533 | as written, a leaf takes everything from its offset to the end of the string: it is valid, of height 0, its byte length is the rest of the string and its text is the string's tail |
| Rope.ValidLengths | src/libstd/rope.rs:526-540 | in a valid node, the stored character length, byte length and height are those of its text and its tree |
| Rope.Empty | src/libstd/rope.rs:34 | the empty rope has no text and zero lengths and height |
| Rope.CharLen | src/libstd/rope.rs:469-471 | the character length of a valid rope is the length of its text, and 0 only for the empty rope |
| Rope.RopeByteLen | src/libstd/rope.rs:480-482 | the byte length of a valid rope is the UTF-8 length of its text |
| Rope.Height | src/libstd/rope.rs:458-459 | the height is 0 for the empty rope and, for a valid rope, the depth of its tree |
| Rope.AppendRope | src/libstd/rope.rs:132-137 | the text is the left text followed by the right; an empty side gives the other rope; validity is kept |
| Rope.FoldAppendText | src/libstd/rope.rs:132-137 | appending the ropes one after the other gives their texts in order, and a valid rope when all are valid |
| Rope.MergeRound | src/libstd/rope.rs:156-166 | one pass of pairwise merging shortens the live prefix and keeps its text and its validity |
| Rope.Concat | src/libstd/rope.rs:146-170 | the result's text is the input texts in order, as appending them one by one gives; no ropes give the empty rope, one rope gives itself, valid ropes give a valid rope |
| Rope.OfSubstr | src/libstd/rope.rs:79-83 | corrected: fails exactly when the range runs past the string; an empty range gives the empty rope; otherwise, at any length, a valid rope of exactly that byte length whose text is the slice |
| Rope.ManyLeaves | src/libstd/rope.rs:669-706 | corrected: more than 256 characters, cut into leaves and collapsed, make a valid node whose text is exactly those characters |
| Rope.LeafCountIsDivCeil | src/libstd/rope.rs:670 | the number of leaves is `div_ceil(n, 256)` for `n` characters |
| Rope.FirstLeafFits | src/libstd/rope.rs:675-680 | the first leaf takes between 1 and 256 characters, and the characters after it fill exactly one leaf fewer than the count |
| Rope.ChunksCount | src/libstd/rope.rs:681-690 | cutting off the first leaf and then 256 characters at a time makes exactly the leaf count of leaves |
| Rope.Cuts | src/libstd/rope.rs:681-690 | the cut positions start at the first character, end after the last, ascend strictly, and are one more than the leaves |
| Rope.CutLeaves | src/libstd/rope.rs:681-690 | corrected: one valid leaf between each two neighbouring cuts |
| Rope.CutLeavesText | src/libstd/rope.rs:681-690 | the leaves, in order, hold exactly the characters from the first cut to the last |
| Rope.PairUp | src/libstd/rope.rs:694-702 | corrected: a pass leaves half the nodes, rounded up, and keeps them valid |
| Rope.PairUpText | src/libstd/rope.rs:694-702 | a corrected pass keeps the nodes' text, in order |
| Rope.Collapse | src/libstd/rope.rs:693-705 | corrected: the one node left holds the leaves' texts in order, and is valid when they are |
| Rope.OfSubstrAsWritten | src/libstd/rope.rs:662-706 | as written: fails exactly when the range runs past the string or holds more than 256 characters cut into an odd number of leaves; an empty range gives the empty rope; any other result is valid, and for at most 256 characters holds everything from the offset to the end of the string |
| Rope.ManyLeavesAsWritten | src/libstd/rope.rs:669-706 | as written, more than 256 characters fail exactly when they make an odd number of leaves; any result is a valid node |
| Rope.LeafBodies | src/libstd/rope.rs:681-690 | one leaf per chunk, as many as the chunk count, each starting at a character boundary |
| Rope.CollapseAsWritten | src/libstd/rope.rs:693-705 | as written, collapsing more than one node fails exactly when the vector is shorter than the count rounded up to even, so a vector of exactly that many leaves fails exactly when the count is odd; any result is a valid node |
| Rope.CollapsePassAsWritten | src/libstd/rope.rs:694-702 | as written, the rest of a pass fails exactly when it still has iterations to run and the vector is shorter than the count rounded up to even |
| Rope.ManyLeavesCount | src/libstd/rope.rs:693-703 | more than 256 characters make at least two leaves, and the first pass reads past them exactly when their count is odd |
| Rope.OfSubstrThreeLeavesFails | src/libstd/rope.rs:693-703 | as written, `of_substr` of any 513 ASCII characters fails: three leaves are paired as if there were four |
| Rope.OfSubstrTakesTail | src/libstd/rope.rs:79-83 | as written, `of_substr("abc", 1, 1)` holds `bc` |
| Rope.OfSubstrTakesRange | src/libstd/rope.rs:79-83 | corrected, `of_substr("abc", 1, 1)` holds `b` |
| Rope.SubChars | src/libstd/rope.rs:212-224 | fails exactly when more characters are asked for than the rope holds; an empty request gives the empty rope; otherwise the node-level substring of the root |
| Rope.SubBytes | src/libstd/rope.rs:238-250 | fails exactly when more bytes are asked for than the rope holds; an empty request gives the empty rope; otherwise the node-level substring of the root |
| Rope.SubGuardsIgnoreOffset | src/libstd/rope.rs:212-250 | whether `sub_chars`/`sub_bytes` fail does not depend on the offset |
| Rope.CharCmp | src/libstd/rope.rs:965-967 | -1, 0 or 1 as the first character is less than, equal to or greater than the second |
| Rope.NodeCmp | src/libstd/rope.rs:956-977 | 0 exactly when the texts are equal, -1 exactly when the first is lexicographically less, 1 exactly when it is greater |
| Rope.TextCmp | src/libstd/rope.rs:956-977 | the character walk gives 0 exactly for equal strings, -1 exactly when the first is lexicographically less, 1 exactly when it is greater |
| Rope.Cmp | src/libstd/rope.rs:265-276 | empty ropes come first; for valid ropes the sign is that of the lexicographic order of their texts |
| Rope.LexLessStrict | src/libstd/rope.rs:956-977 | the order the comparison uses is irreflexive and asymmetric |
| Rope.Eq | src/libstd/rope.rs:280-282 | valid ropes are equal exactly when their texts are |
| Rope.Le | src/libstd/rope.rs:295-297 | holds exactly when the left text is less than or equal to the right |
| Rope.Lt | src/libstd/rope.rs:310-312 | holds exactly when the left text is less than the right |
| Rope.Ge | src/libstd/rope.rs:325-327 | holds exactly when the left text is greater than or equal to the right |
| Rope.Gt | src/libstd/rope.rs:340-342 | holds exactly when the left text is greater than the right |
| Rope.LeavesText | src/libstd/rope.rs:1001-1017 | the leaves, left to right, spell the node's text |
| Rope.NodeLoopLeaves | src/libstd/rope.rs:1001-1017 | the loop over the leaves succeeds exactly when the callback holds for every leaf in order |
| Rope.LoopLeaves | src/libstd/rope.rs:411-416 | the same for a rope; the empty rope always succeeds |
| Rope.Forest | src/libstd/rope.rs:815-832 | the forest handed to rebalancing is the node's leaves in order |
| Rope.NodeBal | src/libstd/rope.rs:815-832 | a node lower than 16 is left alone; a higher one is rebuilt from its leaves |
| Rope.Bal | src/libstd/rope.rs:189-192 | the empty rope and ropes lower than 16 are returned as they are; higher ones are rebuilt from their leaves |
| Rope.BalOfLowAppend | src/libstd/rope.rs:189-192 | balancing the concatenation of two low ropes changes nothing |
| Rope.StrCharAt | src/libstd/rope.rs:1041-1043 | the character starting at a byte offset, failing off the end or inside a character |
| Rope.NodeCharAt | src/libstd/rope.rs:1036-1051 | corrected: for a valid node, the character at a position is that character of its text, and the call fails past the end |
| Rope.CharAt | src/libstd/rope.rs:500-505 | corrected: for a valid rope, the character at a position is that character of its text, and the call fails past the end |
| Rope.NodeCharAtAsWritten | src/libstd/rope.rs:1041-1043 | as written, a leaf reads its position as a byte offset from the start of the whole string |
| Rope.CharAtAsWritten | src/libstd/rope.rs:500-505 | as written, the empty rope fails and a leaf reads from the start of its string |
| Rope.CharAtIgnoresOffset | src/libstd/rope.rs:1041-1043 | a leaf holding `bc` of `abc` answers `a` at position 0 as written, and `b` corrected |
| Bitv.New | src/libstd/bitv.rs:223-228 | `nbits / 64 + 1` words, all ones or all zeros, so every bit equals the initial value |
| Bitv.Get | src/libstd/bitv.rs:79-86 | bit `i` of the vector |
| Bitv.Set | src/libstd/bitv.rs:135-146 | exactly bit `i` takes the new value; every other bit is kept |
| Bitv.Process | src/libstd/bitv.rs:24-37 | every word becomes the operation applied to the two words; reports a change exactly when the storage changed |
| Bitv.ProcessBits | src/libstd/bitv.rs:243-247 | word-wise or, and, and right act bit by bit |
| Bitv.Union | src/libstd/bitv.rs:47 | every bit becomes the or of the two bits; reports whether anything changed |
| Bitv.Intersect | src/libstd/bitv.rs:55 | every bit becomes the and of the two bits; reports whether anything changed |
| Bitv.Assign | src/libstd/bitv.rs:63 | the result is the argument; reports whether anything changed |
| Bitv.Difference | src/libstd/bitv.rs:122-127 | corrected: every bit becomes the first bit and not the second; the argument is restored; reports whether anything changed |
| Bitv.DifferenceAsWritten | src/libstd/bitv.rs:122-127 | as written, with only word 0 inverted, bits past 63 are intersected with the argument's bits instead of their complement |
| Bitv.EachStorageAsWritten | src/libstd/bitv.rs:185-192 | the storage loop stops after word 0 when the callback returns true and rewrites every word otherwise |
| Bitv.EachStorage | src/libstd/bitv.rs:185-192 | corrected: every word is rewritten |
| Bitv.ClearAsWritten | src/libstd/bitv.rs:104 | as written, only the first 64 bits are cleared |
| Bitv.SetAllAsWritten | src/libstd/bitv.rs:108 | as written, only the first 64 bits are set |
| Bitv.InvertAsWritten | src/libstd/bitv.rs:112 | as written, only the first 64 bits are inverted |
| Bitv.Clear | src/libstd/bitv.rs:104 | corrected: every bit is 0 |
| Bitv.SetAll | src/libstd/bitv.rs:108 | corrected: every bit is 1 |
| Bitv.Invert | src/libstd/bitv.rs:112 | corrected: every bit is flipped |
| Bitv.NotNot | src/libstd/bitv.rs:122-127 | inverting a word twice restores it, which `difference` relies on to restore its argument |
| Bitv.ClearAsWrittenKeepsBit64 | src/libstd/bitv.rs:185-192 | as written, clearing a 65-bit vector of ones leaves bit 64 set |
| Bitv.ClearClearsBit64 | src/libstd/bitv.rs:104 | corrected, clearing a 65-bit vector of ones clears bit 64 |
| Bitv.Equal | src/libstd/bitv.rs:94-100 | true exactly when the sizes and all storage words agree, which implies equal bits |
| Bitv.EqualBits | src/libstd/bitv.rs:94-100 | corrected: true exactly when the sizes and all bits agree |
| Bitv.EqualSeesUnusedBits | src/libstd/bitv.rs:94-100 | ten bits set by `new(10, true)` and ten set one by one with `set` in `new(10, false)` have the same bits; `equal` reports them different, comparing the bits reports them equal |
| Bitv.ToVec | src/libstd/bitv.rs:160-173 | one entry per bit: 1 where the bit is set and 0 where it is not |
| Bitv.ToStr | src/libstd/bitv.rs:200-204 | one character per bit: `1` where the bit is set and `0` where it is not |
| Bitv.EqVec | src/libstd/bitv.rs:212-222 | true exactly when every bit is set where the vector entry is non-zero and clear where it is zero |
| Bitv.Clone | src/libstd/bitv.rs:66-75 | the copy has the same size, storage and bits |

## Left out

- `rope.rs` beyond the operations above is not part of this model. That
  covers iterators, `loop_chars`, `of_str`/`of_string`, `append_char`, the
  flattening and the node-level substring functions. `iter`'s and
  `loop_leaves`' results are modelled as the sequences they walk.
- Rope.SubChars and Rope.SubBytes: the node-level `node::sub_chars` and
  `node::sub_bytes` are a parameter. Only the guards of the rope-level
  functions are modelled, because the node-level substring is not among the
  modelled operations.
- Rope.NodeBal and Rope.Bal: `tree_from_forest_destructive` is a parameter.
  The contract says a high node is rebuilt from its leaves, not that the
  rebuilt tree is balanced or keeps the text, because the rebuilding function
  is not modelled.
- Rope.OfSubstr: callers that pass invalid UTF-8 boundaries are excluded;
  the source documents that it does not check them.
- Rope.OfSubstrAsWritten: for more than 256 characters only failure and
  validity are stated, not the text of a successful result, because every
  leaf as written holds a tail of the string and the nested tails have no
  intended meaning.
- Rope.Cmp and the `eq`/`le`/`lt`/`ge`/`gt` family: the result is stated in
  terms of the ropes' texts only for valid ropes.
- Bitv: only a 64-bit target is modelled, where `uint_bits` is 64; on a
  32-bit target the word is 32 bits. The 64-bit wrap-around of `uint`
  arithmetic is not modelled: integers are unbounded, and a word is 64
  booleans.
- Bitv: `is_true`, `is_false` and `each` (`src/libstd/bitv.rs:149-182`) are
  not modelled, because no modelled operation depends on them except through
  `get`. `set_storage` (`src/libstd/bitv.rs:43`) is a bare assignment.
- Bitv.Equal: the source's `equal` ends with a `for` loop over
  `uint::iterate`, whose value, true when every callback returned true, is
  the function's result. The model returns true when every word agrees.
- `hash` (`src/librustpkg/package_path.rs:45-50`) is not modelled; it is a
  foreign hash function.
- Debug and error logging, `os::getcwd` (a field of `Env`), `os::dll_filename`
  and version parsing and printing (functions of `Env`) are parameters.
- Filesystem effects are modelled by `Fs`. Which directories one
  `make_dir` can create is an input, and `remove_file` cannot fail.
- PkgTypes.MakeDirRecursive: `os::mkdir_recursive` is not part of this
  model's sources. It is modelled as that function is usually written: a
  directory succeeds; a path with no components fails; one component is one
  `make_dir`; otherwise the parent is made first and then the path.
- Relative paths are keys of `Fs` of their own; the filesystem does not
  resolve them against the working directory.
- PathUtil.UninstallWarnsIffNothingInstalled: a relative workspace is
  covered only with plain components (no `.` or `..`), a plain working
  directory, and output names that are not `.` or `..`; otherwise the
  normalised installed paths may meet `bin`, `lib` or a directory above
  them.
- PathUtil.UninstallPackageFrom: the warning is stated only when the
  installed paths lie apart from `bin`, `lib` and the directories above
  them; `PathUtil.InstalledPathsSeparate` gives the cases where they do.
- LibraryMatch.LibraryInWorkspace: the version test is "parses, and equals
  the requested version", with the equality taken from `Env`. Debug output
  inside the loop is dropped.
- The path library's `normalize`, `push` and `push_rel` are modelled for POSIX
  paths only.
- The `bad_path` condition is modelled as untrapped: an error result. A
  handler that lets `target_library_in_workspace` continue is not modelled.

## Findings

| source | as written | input that shows it | evidently intended | confidence | as-written member | corrected member |
|---|---|---|---|---|---|---|
| src/libstd/rope.rs:526-533 | the leaf constructor ignores the byte length `of_substr` asks for: the leaf's byte length is the rest of the string after the offset | `of_substr("abc", 1, 1)` holds `bc` | the leaf holds exactly `byte_len` bytes: `b` | not executed | Rope.OfSubstrTakesTail | Rope.OfSubstrTakesRange |
| src/libstd/rope.rs:1041-1043 | `char_at` on a leaf indexes the whole string, ignoring the leaf's byte offset, and reads the position as a byte index | the leaf with offset 1 and length 2 over `abc` (text `bc`) answers `a` at position 0 | the character at the position within the leaf's own text: `b` | not executed | Rope.CharAtIgnoresOffset | Rope.CharAt |
| src/libstd/rope.rs:693-703 | a collapsing pass concatenates nodes `2j` and `2j + 1` for every `j` below half the count rounded up, so an odd count reads one node past the end of the vector; the carry test compares `j`, not `2j`, with the last index and never fires | `of_substr` of any 513 ASCII characters: three leaves, and the pass reads a fourth | an odd last node is carried to the next pass | not executed | Rope.OfSubstrThreeLeavesFails | Rope.OfSubstr |
| src/libstd/bitv.rs:185-192 | `each_storage` breaks out of its loop after word 0 when the callback returns true, so `clear`, `set_all` and `invert` only touch the first 64 bits | a 65-bit vector of ones, cleared, still has bit 64 set | every word is rewritten | not executed | Bitv.ClearAsWrittenKeepsBit64 | Bitv.ClearClearsBit64 |
| src/libstd/bitv.rs:94-100 | `equal` compares whole storage words, including the bits past `nbits` | two 10-bit vectors of ones, one from `new(10, true)` and one set bit by bit from `new(10, false)`, differ | equality of the `nbits` bits | not executed | Bitv.EqualSeesUnusedBits | Bitv.EqualBits |
