/**
 * `GitMultiRepoDownloader`: packages installed from one repository share a
 * single clone in a `<base>-multi-repo` directory, whose working tree is
 * then replicated into each package's own install path. The only state is
 * `defaultPath`, the install path recorded by the latest resolution that
 * found a shareable package; git, the filesystem and the console are
 * collaborators passed in as values.
 */
module MultiRepoDownloader {
  import opened Wrappers
  import opened Php
  import opened PhpPaths

  const MultiRepoDelimiter: char := '-'
  const MultiRepoSuffix: string := "-multi-repo"
  /** The characters trimmed from the end of a configured parent directory. */
  const ParentDirTrimChars: set<char> := {'/', '\\'}

  /** `defaultPath`, with PHP's unset `null` as "". */
  datatype DownloaderState = DownloaderState(defaultPath: string)

  /** What the downloader reads from Composer's configuration. */
  datatype DownloaderConfig = DownloaderConfig(
    parentDir: Option<string>,   // root extra `multi-repo-parent-dir`
    dirInCache: Option<bool>,    // root extra `multi-repo-dir-in-cache`
    cacheRepoDir: string)        // `cache-repo-dir`

  /** The result of `getMultiRepositoryPath` and the state it leaves behind. */
  datatype PathResolution = PathResolution(state: DownloaderState, multiPath: Option<string>)

  /** The result of `normalizePath` and the state it leaves behind. */
  datatype NormalizedPath = NormalizedPath(state: DownloaderState, path: string)

  /** `isPathOfMultiRepository`: the path already names a shared directory. */
  predicate IsPathOfMultiRepository(path: string) {
    EndsWith(path, MultiRepoSuffix)
  }

  /**
   * `getParentMultiRepoDir`: a non-empty configured parent directory wins,
   * without its trailing slashes and backslashes; otherwise Composer's
   * repository cache, unless `multi-repo-dir-in-cache` is set to false;
   * otherwise none.
   */
  function ParentMultiRepoDir(config: DownloaderConfig): (dir: Option<string>)
    ensures config.parentDir.Some? && Truthy(config.parentDir.value) ==>
              var given := config.parentDir.value;
              && dir.Some? && |dir.value| <= |given| && dir.value == given[..|dir.value|]
              && (dir.value == "" || dir.value[|dir.value| - 1] !in ParentDirTrimChars)
              && forall i :: |dir.value| <= i < |given| ==> given[i] in ParentDirTrimChars
    ensures !(config.parentDir.Some? && Truthy(config.parentDir.value)) ==>
              dir == (if config.dirInCache != Some(false) then Some(config.cacheRepoDir) else None)
  {
    if config.parentDir.Some? && Truthy(config.parentDir.value) then
      Some(RTrim(config.parentDir.value, ParentDirTrimChars))
    else if config.dirInCache.None? || config.dirInCache.value then Some(config.cacheRepoDir)
    else None
  }

  /** The shared directory's name: the package directory's text before its first `-`, then the suffix. */
  function SharedDirName(packageDir: string): (name: string)
    ensures IsPathOfMultiRepository(name)
    ensures MultiRepoDelimiter !in name[..|name| - |MultiRepoSuffix|]
    ensures StartsWith(packageDir, name[..|name| - |MultiRepoSuffix|])
    ensures var stem := name[..|name| - |MultiRepoSuffix|];
            stem == packageDir || (|stem| < |packageDir| && packageDir[|stem|] == MultiRepoDelimiter)
  {
    var parts := Explode(packageDir, MultiRepoDelimiter);
    ExplodeHead(packageDir, MultiRepoDelimiter);
    var name := parts[0] + MultiRepoSuffix;
    assert name[..|name| - |MultiRepoSuffix|] == parts[0];
    assert name[|name| - |MultiRepoSuffix|..] == MultiRepoSuffix;
    name
  }

  /**
   * The text before the first `-` is all that counts: `<base>-<rest>`,
   * with no `-` in `<base>`, shares `<base>-multi-repo`, whatever `<rest>`
   * holds.
   */
  lemma SharedDirNameOfDashed(base: string, rest: string)
    requires MultiRepoDelimiter !in base
    ensures SharedDirName(base + [MultiRepoDelimiter] + rest) == base + MultiRepoSuffix
  {
    var packageDir := base + [MultiRepoDelimiter] + rest;
    var name := SharedDirName(packageDir);
    var stem := name[..|name| - |MultiRepoSuffix|];
    assert packageDir[|base|] == MultiRepoDelimiter;
    assert stem == base;
    assert name == stem + MultiRepoSuffix;
  }

  /**
   * Where a shareable install path is shared: `<base>-multi-repo` under the
   * custom parent directory and the vendor name, or in place of every
   * occurrence of the package directory in the path.
   */
  function SharedPath(config: DownloaderConfig, path: string): string {
    var packageDir := Basename(path);
    var custom := ParentMultiRepoDir(config).GetOr("");
    if Truthy(custom) then
      custom + [DirectorySeparator] + Basename(Dirname(path)) + [DirectorySeparator] + SharedDirName(packageDir)
    else StrReplace(path, packageDir, SharedDirName(packageDir))
  }

  /**
   * `getMultiRepositoryPath`: a shared path is kept; a package directory
   * with a `-` after its first character records the install path and
   * maps to `<base>-multi-repo`, either under the parent directory and
   * the vendor name, or in place of every occurrence of the package
   * directory in the path; anything else has no shared path and leaves the
   * state alone.
   */
  function GetMultiRepositoryPath(state: DownloaderState, config: DownloaderConfig, path: string): (r: PathResolution)
    ensures IsPathOfMultiRepository(path) ==> r == PathResolution(state, Some(path))
    ensures !IsPathOfMultiRepository(path) && !HasInnerChar(Basename(path), MultiRepoDelimiter) ==>
              r == PathResolution(state, None)
    ensures !IsPathOfMultiRepository(path) && HasInnerChar(Basename(path), MultiRepoDelimiter) ==>
              r == PathResolution(DownloaderState(path), Some(SharedPath(config, path)))
  {
    if IsPathOfMultiRepository(path) then PathResolution(state, Some(path))
    else if !HasInnerChar(Basename(path), MultiRepoDelimiter) then PathResolution(state, None)
    else PathResolution(DownloaderState(path), Some(SharedPath(config, path)))
  }

  /**
   * `normalizePath`: the shared path when there is one and it is truthy,
   * the given path otherwise. The generic git downloader's own
   * normalization is the identity on POSIX paths.
   */
  function NormalizePath(state: DownloaderState, config: DownloaderConfig, path: string): (n: NormalizedPath)
    ensures n.path == path || IsPathOfMultiRepository(path) || HasInnerChar(Basename(path), MultiRepoDelimiter)
    ensures n.state == GetMultiRepositoryPath(state, config, path).state
  {
    var r := GetMultiRepositoryPath(state, config, path);
    NormalizedPath(r.state, if r.multiPath.Some? && Truthy(r.multiPath.value) then r.multiPath.value else path)
  }

  /** A package directory that cannot be shared keeps its path, and `defaultPath` keeps whatever an earlier call left. */
  lemma UnsharedPathKeepsState(state: DownloaderState, config: DownloaderConfig, path: string)
    requires !IsPathOfMultiRepository(path) && !HasInnerChar(Basename(path), MultiRepoDelimiter)
    ensures NormalizePath(state, config, path) == NormalizedPath(state, path)
  {
  }

  /** Only the final occurrence of a slash-free segment can be replaced across the last `/`. */
  lemma StrReplaceLastSegment(dir: string, segment: string, replace: string)
    requires |segment| > 0 && DirectorySeparator !in segment
    ensures StrReplace(dir + [DirectorySeparator] + segment, segment, replace)
            == StrReplace(dir + [DirectorySeparator], segment, replace) + replace
  {
    var a := dir + [DirectorySeparator];
    forall i | 0 <= i < |a| && i + |segment| > |a|
      ensures !OccursAt(a + segment, segment, i)
    {
      if i + |segment| <= |a + segment| {
        assert (a + segment)[i..i + |segment|][|a| - 1 - i] == DirectorySeparator;
      }
    }
    StrReplaceConcat(a, segment, segment, replace);
    StrReplaceWhole(segment, replace);
  }

  /** A string that is exactly the search string is replaced whole. */
  lemma StrReplaceWhole(search: string, replace: string)
    requires |search| > 0
    ensures StrReplace(search, search, replace) == replace
  {
    assert OccursAt(search, search, 0);
    assert search[|search|..] == "";
  }

  /** With a custom parent directory the shared path ends with the suffix. */
  lemma CustomSharedPathHasSuffix(config: DownloaderConfig, path: string)
    requires Truthy(ParentMultiRepoDir(config).GetOr(""))
    ensures IsPathOfMultiRepository(SharedPath(config, path))
  {
    var custom := ParentMultiRepoDir(config).GetOr("");
    var packageDir := Basename(path);
    var head := custom + [DirectorySeparator] + Basename(Dirname(path)) + [DirectorySeparator];
    EndsWithAfterPrefix(head, SharedDirName(packageDir), MultiRepoSuffix);
  }

  /** Without one, replacing in `dir/<package>` leaves the shared name at the end. */
  lemma InPlaceSharedPathHasSuffix(config: DownloaderConfig, dir: string, packageDir: string)
    requires !Truthy(ParentMultiRepoDir(config).GetOr(""))
    requires |packageDir| > 0 && DirectorySeparator !in packageDir
    requires Basename(dir + [DirectorySeparator] + packageDir) == packageDir
    ensures IsPathOfMultiRepository(SharedPath(config, dir + [DirectorySeparator] + packageDir))
  {
    var path := dir + [DirectorySeparator] + packageDir;
    var rep := SharedDirName(packageDir);
    assert SharedPath(config, path) == StrReplace(path, packageDir, rep);
    StrReplaceLastSegment(dir, packageDir, rep);
    EndsWithAfterPrefix(StrReplace(dir + [DirectorySeparator], packageDir, rep), rep, MultiRepoSuffix);
  }

  /** A bare package directory is replaced by the shared name itself. */
  lemma BareSharedPathHasSuffix(config: DownloaderConfig, packageDir: string)
    requires !Truthy(ParentMultiRepoDir(config).GetOr(""))
    requires |packageDir| > 0 && Basename(packageDir) == packageDir
    ensures IsPathOfMultiRepository(SharedPath(config, packageDir))
  {
    StrReplaceWhole(packageDir, SharedDirName(packageDir));
  }

  /** A resolved shared path, for an install path without a trailing `/`, ends with the suffix. */
  lemma SharedPathHasSuffix(config: DownloaderConfig, path: string)
    requires |path| == 0 || path[|path| - 1] != DirectorySeparator
    requires HasInnerChar(Basename(path), MultiRepoDelimiter)
    ensures IsPathOfMultiRepository(SharedPath(config, path))
  {
    var packageDir := Basename(path);
    BasenameSplit(path);
    if Truthy(ParentMultiRepoDir(config).GetOr("")) {
      CustomSharedPathHasSuffix(config, path);
    } else if |packageDir| == |path| {
      BareSharedPathHasSuffix(config, path);
    } else {
      InPlaceSharedPathHasSuffix(config, path[..|path| - |packageDir| - 1], packageDir);
    }
  }

  /**
   * Normalizing an install path without a trailing `/` twice is the same as
   * once: the second call finds a shared path and changes nothing.
   */
  lemma NormalizeIdempotent(state: DownloaderState, config: DownloaderConfig, path: string)
    requires |path| == 0 || path[|path| - 1] != DirectorySeparator
    ensures var n := NormalizePath(state, config, path);
            NormalizePath(n.state, config, n.path) == n
  {
    if !IsPathOfMultiRepository(path) && HasInnerChar(Basename(path), MultiRepoDelimiter) {
      SharedPathHasSuffix(config, path);
      var shared := SharedPath(config, path);
      assert Truthy(shared) by { assert |shared| >= |MultiRepoSuffix|; }
    }
  }

  /**
   * What resolution promises its callers: a shared path exactly for a path
   * that is already shared or whose package directory has a `-` after its
   * first character; `defaultPath` changes only to record an install path
   * that is being shared; and for an install path without a trailing `/`
   * the shared path names a shared directory.
   */
  lemma ResolvesToSharedPath(state: DownloaderState, config: DownloaderConfig, path: string)
    ensures var r := GetMultiRepositoryPath(state, config, path);
            && (r.multiPath.Some? <==> IsPathOfMultiRepository(path) || HasInnerChar(Basename(path), MultiRepoDelimiter))
            && (r.state == state || (r.state == DownloaderState(path) && r.multiPath.Some? && !IsPathOfMultiRepository(path)))
            && ((|path| == 0 || path[|path| - 1] != DirectorySeparator) && r.multiPath.Some? ==>
                  IsPathOfMultiRepository(r.multiPath.value))
  {
    if !IsPathOfMultiRepository(path) && HasInnerChar(Basename(path), MultiRepoDelimiter)
       && (|path| == 0 || path[|path| - 1] != DirectorySeparator) {
      SharedPathHasSuffix(config, path);
    }
  }

  /**
   * Without a custom parent directory every occurrence of the package
   * directory's name in the path is replaced, not just the last one:
   * `foo-bar/foo-bar` resolves to `foo-multi-repo/foo-multi-repo`.
   */
  lemma EveryOccurrenceReplaced(state: DownloaderState, config: DownloaderConfig, segment: string)
    requires !Truthy(ParentMultiRepoDir(config).GetOr(""))
    requires DirectorySeparator !in segment && HasInnerChar(segment, MultiRepoDelimiter)
    requires !IsPathOfMultiRepository(segment + [DirectorySeparator] + segment)
    ensures GetMultiRepositoryPath(state, config, segment + [DirectorySeparator] + segment).multiPath
            == Some(SharedDirName(segment) + [DirectorySeparator] + SharedDirName(segment))
  {
    var path := segment + [DirectorySeparator] + segment;
    var rep := SharedDirName(segment);
    assert Basename(path) == segment by {
      assert RTrim(path, {DirectorySeparator}) == path;
      LastSegmentAfterSeparator(segment, segment);
    }
    StrReplaceLastSegment(segment, segment, rep);
    LeadingSegmentReplaced(segment, rep);
  }

  lemma LeadingSegmentReplaced(segment: string, replace: string)
    requires |segment| > 0 && DirectorySeparator !in segment
    ensures StrReplace(segment + [DirectorySeparator], segment, replace) == replace + [DirectorySeparator]
  {
    var a := segment;
    forall i | 0 <= i < |a| && i + |segment| > |a|
      ensures !OccursAt(a + [DirectorySeparator], segment, i)
    {
      if i + |segment| <= |a| + 1 {
        assert (a + [DirectorySeparator])[i..i + |segment|][|segment| - 1] == DirectorySeparator;
      }
    }
    StrReplaceConcat(segment, [DirectorySeparator], segment, replace);
    StrReplaceWhole(segment, replace);
    if |segment| == 1 {
      assert !OccursAt([DirectorySeparator], segment, 0) by { assert segment[0] != DirectorySeparator; }
      assert [DirectorySeparator][1..] == "";
    }
  }

  /**
   * Without a custom parent directory, `<dir>/<base>-<rest>` (a `<dir>`
   * that does not mention the package directory) is recorded and shared
   * as `<dir>/<base>-multi-repo`.
   */
  lemma InPlaceLayout(state: DownloaderState, config: DownloaderConfig, dir: string, base: string, rest: string)
    requires !Truthy(ParentMultiRepoDir(config).GetOr(""))
    requires |dir| > 0 && dir[|dir| - 1] != DirectorySeparator
    requires |base| > 0 && DirectorySeparator !in base && MultiRepoDelimiter !in base
    requires DirectorySeparator !in rest
    requires !Contains(dir + [DirectorySeparator], base + [MultiRepoDelimiter] + rest)
    requires !IsPathOfMultiRepository(base + [MultiRepoDelimiter] + rest)
    ensures var path := dir + [DirectorySeparator] + (base + [MultiRepoDelimiter] + rest);
            GetMultiRepositoryPath(state, config, path)
            == PathResolution(DownloaderState(path), Some(dir + [DirectorySeparator] + (base + MultiRepoSuffix)))
  {
    StrPosAfter(base, MultiRepoDelimiter, rest);
    SharedDirNameOfDashed(base, rest);
    InPlaceResolution(state, config, dir, base + [MultiRepoDelimiter] + rest);
  }

  /**
   * In place, a shareable `<dir>/<package>` resolves to
   * `<dir>/<shared name>` when `<dir>` does not mention the package
   * directory, and the install path is recorded.
   */
  lemma InPlaceResolution(state: DownloaderState, config: DownloaderConfig, dir: string, packageDir: string)
    requires !Truthy(ParentMultiRepoDir(config).GetOr(""))
    requires |dir| > 0 && dir[|dir| - 1] != DirectorySeparator
    requires |packageDir| > 0 && DirectorySeparator !in packageDir
    requires HasInnerChar(packageDir, MultiRepoDelimiter) && !IsPathOfMultiRepository(packageDir)
    requires !Contains(dir + [DirectorySeparator], packageDir)
    ensures var path := dir + [DirectorySeparator] + packageDir;
            GetMultiRepositoryPath(state, config, path)
            == PathResolution(DownloaderState(path), Some(dir + [DirectorySeparator] + SharedDirName(packageDir)))
  {
    JoinedPathParts(dir, packageDir);
    SuffixOfLastSegment(dir, packageDir);
    InPlaceSharedPath(config, dir, packageDir);
  }

  /** In place, `<dir>/<package>` becomes `<dir>/<shared name>` when `<dir>` does not mention the package directory. */
  lemma InPlaceSharedPath(config: DownloaderConfig, dir: string, packageDir: string)
    requires !Truthy(ParentMultiRepoDir(config).GetOr(""))
    requires |dir| > 0 && dir[|dir| - 1] != DirectorySeparator
    requires |packageDir| > 0 && DirectorySeparator !in packageDir
    requires !Contains(dir + [DirectorySeparator], packageDir)
    ensures SharedPath(config, dir + [DirectorySeparator] + packageDir) == dir + [DirectorySeparator] + SharedDirName(packageDir)
  {
    var rep := SharedDirName(packageDir);
    JoinedPathParts(dir, packageDir);
    StrReplaceLastSegment(dir, packageDir, rep);
    StrReplaceAbsent(dir + [DirectorySeparator], packageDir, rep);
  }

  /** `/vendor/pkg-foo` is shared as `/vendor/pkg-multi-repo`. */
  lemma InPlaceExample(state: DownloaderState, config: DownloaderConfig)
    requires !Truthy(ParentMultiRepoDir(config).GetOr(""))
    ensures GetMultiRepositoryPath(state, config, "/vendor/pkg-foo")
            == PathResolution(DownloaderState("/vendor/pkg-foo"), Some("/vendor/pkg-multi-repo"))
  {
    VendorLiterals();
    VendorPieces();
    InPlaceLayout(state, config, "/vendor", "pkg", "foo");
  }

  /** `/vendor/pkg-foo` and `/vendor/pkg-multi-repo` put together from their pieces. */
  lemma VendorLiterals()
    ensures "/vendor" + [DirectorySeparator] + ("pkg" + [MultiRepoDelimiter] + "foo") == "/vendor/pkg-foo"
    ensures "/vendor" + [DirectorySeparator] + ("pkg" + MultiRepoSuffix) == "/vendor/pkg-multi-repo"
  {
  }

  /** The pieces of `/vendor/pkg-foo` meet the in-place layout's conditions. */
  lemma VendorPieces()
    ensures DirectorySeparator !in "pkg" && MultiRepoDelimiter !in "pkg" && DirectorySeparator !in "foo"
    ensures !Contains("/vendor" + [DirectorySeparator], "pkg" + [MultiRepoDelimiter] + "foo")
    ensures !IsPathOfMultiRepository("pkg" + [MultiRepoDelimiter] + "foo")
  {
    assert "/vendor" + [DirectorySeparator] == "/vendor/";
    assert "pkg" + [MultiRepoDelimiter] + "foo" == "pkg-foo";
    VendorNotShared();
  }

  lemma VendorNotShared()
    ensures !Contains("/vendor/", "pkg-foo")
    ensures !IsPathOfMultiRepository("pkg-foo")
  {
    forall i | 0 <= i <= |"/vendor/"| ensures !OccursAt("/vendor/", "pkg-foo", i) {
      if i + 7 <= 8 { assert "/vendor/"[i..i + 7][0] == "/vendor/"[i] != 'p'; }
    }
    assert |"pkg-foo"| < |MultiRepoSuffix|;
  }

  /**
   * A configured parent directory made only of slashes trims to "", which
   * counts as no custom directory: the cache directory is not consulted
   * and the path is rewritten in place.
   */
  lemma SlashOnlyParentDir(state: DownloaderState, config: DownloaderConfig, path: string)
    requires config.parentDir.Some? && Truthy(config.parentDir.value)
    requires forall i :: 0 <= i < |config.parentDir.value| ==> config.parentDir.value[i] in ParentDirTrimChars
    requires !IsPathOfMultiRepository(path) && HasInnerChar(Basename(path), MultiRepoDelimiter)
    ensures ParentMultiRepoDir(config) == Some("")
    ensures GetMultiRepositoryPath(state, config, path).multiPath
            == Some(StrReplace(path, Basename(path), SharedDirName(Basename(path))))
  {
  }

  /**
   * With a custom parent directory, `<root>/<vendor>/<package>` maps to
   * `<parent>/<vendor>/<base>-multi-repo`, wherever the install path is.
   */
  lemma CustomDirLayout(state: DownloaderState, config: DownloaderConfig, root: string, vendor: string, packageDir: string)
    requires Truthy(ParentMultiRepoDir(config).GetOr(""))
    requires |root| > 0 && root[|root| - 1] != DirectorySeparator
    requires |vendor| > 0 && DirectorySeparator !in vendor
    requires DirectorySeparator !in packageDir && HasInnerChar(packageDir, MultiRepoDelimiter)
    requires !IsPathOfMultiRepository(packageDir)
    ensures var path := root + [DirectorySeparator] + vendor + [DirectorySeparator] + packageDir;
            GetMultiRepositoryPath(state, config, path)
            == PathResolution(DownloaderState(path),
                              Some(ParentMultiRepoDir(config).value + [DirectorySeparator] + vendor
                                   + [DirectorySeparator] + SharedDirName(packageDir)))
  {
    var dir := root + [DirectorySeparator] + vendor;
    var path := dir + [DirectorySeparator] + packageDir;
    assert |packageDir| > 0;
    JoinedPathParts(dir, packageDir);
    JoinedPathParts(root, vendor);
    SuffixOfLastSegment(dir, packageDir);
  }

  /** Whether `dir/<package>` names a shared directory depends on the package directory alone. */
  lemma SuffixOfLastSegment(dir: string, packageDir: string)
    requires DirectorySeparator !in packageDir
    ensures IsPathOfMultiRepository(dir + [DirectorySeparator] + packageDir) <==> IsPathOfMultiRepository(packageDir)
  {
    var path := dir + [DirectorySeparator] + packageDir;
    var n := |MultiRepoSuffix|;
    if |packageDir| >= n {
      assert path[|path| - n..] == packageDir[|packageDir| - n..];
    } else if |path| >= n {
      assert path[|path| - n..][n - |packageDir| - 1] == DirectorySeparator;
      assert MultiRepoSuffix[n - |packageDir| - 1] != DirectorySeparator;
    }
  }

  // Replication of the shared working tree into the install path.

  /** One item below the source directory, by its path relative to it. */
  datatype Entry = Entry(subPath: string, isDir: bool)

  /** What the replication source is on disk; a directory lists its items, parents first. */
  datatype SourceKind = RegularFile | Directory(entries: seq<Entry>) | Missing

  /** One filesystem effect of a directory replication. */
  datatype Step = MakeDirectory(to: string) | CopyFile(from: string, to: string)

  /** What `copyFilesToDefaultPath` does. */
  datatype Replication =
    | NothingToDo
    | CopySingleFile(from: string, to: string)
    | Mirror(target: string, steps: seq<Step>)   // after emptying `target`
    | Unreadable(source: string)                 // the directory iterator throws

  /** The `.git` directory and everything below it. */
  predicate IsGitMetadata(subPath: string) {
    subPath == ".git" || StartsWith(subPath, ".git/")
  }

  /** The items a replication copies: all but git metadata, in the iterator's order. */
  function Replicated(entries: seq<Entry>): (kept: seq<Entry>)
    ensures |kept| <= |entries|
    ensures forall e :: e in kept <==> e in entries && !IsGitMetadata(e.subPath)
  {
    if |entries| == 0 then []
    else
      var rest := Replicated(entries[1..]);
      assert entries == [entries[0]] + entries[1..];
      if IsGitMetadata(entries[0].subPath) then rest else [entries[0]] + rest
  }

  /**
   * The replicated items of `a + b` are those of `a`, then those of `b`:
   * the iterator's order is kept and each item is judged by its own path.
   */
  lemma {:induction false} ReplicatedConcat(a: seq<Entry>, b: seq<Entry>)
    ensures Replicated(a + b) == Replicated(a) + Replicated(b)
    ensures |a| == 1 ==> Replicated(a) == (if IsGitMetadata(a[0].subPath) then [] else a)
    decreases |a|
  {
    if |a| == 0 {
      assert a + b == b;
    } else {
      var ab := a + b;
      DropFromConcat(a, b, 1);
      ReplicatedConcat(a[1..], b);
      ReplicatedCons(ab);
      ReplicatedCons(a);
      Regroup(KeptHead(a[0]), Replicated(a[1..]), Replicated(b));
      if |a| == 1 {
        assert Replicated(a[1..]) == [];
      }
    }
  }

  /** What one item contributes: itself, unless it is git metadata. */
  function KeptHead(e: Entry): seq<Entry> {
    if IsGitMetadata(e.subPath) then [] else [e]
  }

  lemma ReplicatedCons(s: seq<Entry>)
    requires |s| > 0
    ensures Replicated(s) == KeptHead(s[0]) + Replicated(s[1..])
  {
  }

  function StepFor(source: string, target: string, e: Entry): Step {
    if e.isDir then MakeDirectory(target + [DirectorySeparator] + e.subPath)
    else CopyFile(source + [DirectorySeparator] + e.subPath, target + [DirectorySeparator] + e.subPath)
  }

  /** The steps mirroring `source` into `target`: one per replicated item. */
  function MirrorSteps(source: string, target: string, entries: seq<Entry>): (steps: seq<Step>)
    ensures |steps| == |Replicated(entries)|
    ensures forall i :: 0 <= i < |steps| ==> steps[i] == StepFor(source, target, Replicated(entries)[i])
  {
    MapSeq((e: Entry) => StepFor(source, target, e), Replicated(entries))
  }

  /** Nothing is ever written to the target's `.git` or below it. */
  lemma GitMetadataNeverWritten(source: string, target: string, entries: seq<Entry>, e: Entry, i: nat)
    requires e in entries && IsGitMetadata(e.subPath)
    requires i < |MirrorSteps(source, target, entries)|
    ensures MirrorSteps(source, target, entries)[i].to != target + [DirectorySeparator] + e.subPath
  {
    var k := Replicated(entries)[i];
    assert k in Replicated(entries);
    var prefix := target + [DirectorySeparator];
    assert (prefix + k.subPath)[|prefix|..] == k.subPath;
    assert (prefix + e.subPath)[|prefix|..] == e.subPath;
  }

  /** Every other item is recreated at the same place under the target: directories made, files copied. */
  lemma OtherEntriesReplicated(source: string, target: string, entries: seq<Entry>, e: Entry)
    requires e in entries && !IsGitMetadata(e.subPath)
    ensures exists i :: 0 <= i < |MirrorSteps(source, target, entries)|
              && MirrorSteps(source, target, entries)[i].to == target + [DirectorySeparator] + e.subPath
              && (MirrorSteps(source, target, entries)[i].MakeDirectory? <==> e.isDir)
  {
    var kept := Replicated(entries);
    assert e in kept;
    var i :| 0 <= i < |kept| && kept[i] == e;
    assert MirrorSteps(source, target, entries)[i] == StepFor(source, target, e);
  }

  /** The steps for the items `a + b` are those for `a`, then those for `b`. */
  lemma MirrorStepsConcat(source: string, target: string, a: seq<Entry>, b: seq<Entry>)
    ensures MirrorSteps(source, target, a + b) == MirrorSteps(source, target, a) + MirrorSteps(source, target, b)
  {
    ReplicatedConcat(a, b);
    MapSeqConcat((e: Entry) => StepFor(source, target, e), Replicated(a), Replicated(b));
  }

  /**
   * Every step writes strictly below the target, and every copied file is
   * read from the same relative place below the source.
   */
  lemma MirrorStepsInTarget(source: string, target: string, entries: seq<Entry>)
    ensures forall i :: 0 <= i < |MirrorSteps(source, target, entries)| ==>
              var step := MirrorSteps(source, target, entries)[i];
              && StartsWith(step.to, target + [DirectorySeparator])
              && (step.CopyFile? ==> step.from == source + [DirectorySeparator] + step.to[|target| + 1..])
  {
    var steps := MirrorSteps(source, target, entries);
    forall i | 0 <= i < |steps|
      ensures StartsWith(steps[i].to, target + [DirectorySeparator])
      ensures steps[i].CopyFile? ==> steps[i].from == source + [DirectorySeparator] + steps[i].to[|target| + 1..]
    {
      var e := Replicated(entries)[i];
      var prefix := target + [DirectorySeparator];
      assert steps[i].to == prefix + e.subPath;
      assert (prefix + e.subPath)[..|prefix|] == prefix;
      assert (prefix + e.subPath)[|target| + 1..] == e.subPath;
    }
  }

  /**
   * The guard of `copyFilesToDefaultPath`: there is nothing to replicate
   * into when `defaultPath` is unset, or when it is the source itself.
   */
  predicate ReplicationSkipped(state: DownloaderState, source: string) {
    !Truthy(state.defaultPath) || state.defaultPath == source
  }

  /**
   * `copyFilesToDefaultPath`: a regular file is copied onto `defaultPath`;
   * a directory is mirrored into it, git metadata excepted.
   */
  function CopyFilesToDefaultPath(state: DownloaderState, source: string, kind: SourceKind): (r: Replication)
    ensures r.NothingToDo? <==> ReplicationSkipped(state, source)
    ensures !ReplicationSkipped(state, source) ==>
              match kind
              case RegularFile => r == CopySingleFile(source, state.defaultPath)
              case Directory(entries) => r == Mirror(state.defaultPath, MirrorSteps(source, state.defaultPath, entries))
              case Missing => r == Unreadable(source)
  {
    if ReplicationSkipped(state, source) then NothingToDo
    else
      match kind
      case RegularFile => CopySingleFile(source, state.defaultPath)
      case Directory(entries) => Mirror(state.defaultPath, MirrorSteps(source, state.defaultPath, entries))
      case Missing => Unreadable(source)
  }

  /**
   * Replication only ever writes at `defaultPath` or below it, never onto
   * its own source, and a source that is `defaultPath` itself is left alone.
   */
  lemma ReplicationWritesOnlyDefaultPath(state: DownloaderState, source: string, kind: SourceKind)
    ensures var r := CopyFilesToDefaultPath(state, source, kind);
            && CopyFilesToDefaultPath(state, state.defaultPath, kind) == NothingToDo
            && (r.CopySingleFile? ==> r.from == source && r.to == state.defaultPath && r.to != source)
            && (r.Mirror? ==>
                  && r.target == state.defaultPath && r.target != source && Truthy(r.target)
                  && forall i :: 0 <= i < |r.steps| ==> StartsWith(r.steps[i].to, state.defaultPath + [DirectorySeparator]))
            && (r.Unreadable? <==> !ReplicationSkipped(state, source) && kind.Missing?)
  {
    if kind.Directory? {
      MirrorStepsInTarget(source, state.defaultPath, kind.entries);
    }
  }

  // The clone and the package's references.

  /**
   * `isRequiredRepository`: an existing clone in use for sharing must have
   * the package's URL as its origin (surrounding whitespace of git's
   * output ignored); anything else is accepted.
   */
  predicate IsRequiredRepository(state: DownloaderState, cloned: bool, url: string, origin: string) {
    !(Truthy(state.defaultPath) && cloned) || url == Trim(origin)
  }

  /** A package's source and dist references ("" for none). */
  datatype References = References(sourceReference: string, distReference: string)

  /**
   * The write-back after checkout: a truthy new ref becomes the source
   * reference, and the dist reference follows only if it was the same as
   * the old source reference.
   */
  function WriteBack(refs: References, newRef: Option<string>): (r: References)
    ensures !(newRef.Some? && Truthy(newRef.value)) ==> r == refs
    ensures newRef.Some? && Truthy(newRef.value) ==>
              && r.sourceReference == newRef.value
              && (refs.distReference == refs.sourceReference ==> r.distReference == newRef.value)
              && (refs.distReference != refs.sourceReference ==> r.distReference == refs.distReference)
  {
    if newRef.Some? && Truthy(newRef.value) then
      References(newRef.value, if refs.distReference == refs.sourceReference then newRef.value else refs.distReference)
    else refs
  }

  /** References that agreed still agree, and writing the same ref back twice changes nothing more. */
  lemma WriteBackStable(refs: References, newRef: Option<string>)
    ensures refs.distReference == refs.sourceReference ==>
              WriteBack(refs, newRef).distReference == WriteBack(refs, newRef).sourceReference
    ensures WriteBack(WriteBack(refs, newRef), newRef) == WriteBack(refs, newRef)
  {
  }

  /** A git operation run on the shared clone. */
  datatype GitStep = Clone(path: string, url: string) | Fetch(path: string, url: string) | Update(path: string, url: string)

  /**
   * The collaborators of a download: configuration, the filesystem's view
   * of a path, git's origin URL of a clone, and the checkout, which may
   * report a new ref.
   */
  datatype Environment = Environment(
    config: DownloaderConfig,
    isCloned: string -> bool,                        // `<path>/.git` is a directory
    originUrl: string -> string,                     // `git config --get remote.origin.url` in the path
    updateToCommit: (string, string) -> Option<string>,
    sourceKind: string -> SourceKind)

  datatype Download = Download(state: DownloaderState, path: string, git: GitStep, refs: References, replication: Replication)

  datatype DownloadError = UnknownRepository(path: string)

  /**
   * `doDownload` once the path is normalized: refuse a clone of another
   * repository, clone or fetch, check out and write the references back,
   * then replicate.
   */
  function DownloadNormalized(env: Environment, n: NormalizedPath, refs: References, url: string,
                              replicate: (DownloaderState, string) -> Replication): (r: Result<Download, DownloadError>)
    ensures r.Err? <==> !IsRequiredRepository(n.state, env.isCloned(n.path), url, env.originUrl(n.path))
    ensures r.Err? ==> r.error == UnknownRepository(n.path)
    ensures r.Ok? ==>
              && r.value.state == n.state && r.value.path == n.path
              && r.value.git == (if env.isCloned(n.path) then Fetch(n.path, url) else Clone(n.path, url))
              && r.value.refs == WriteBack(refs, env.updateToCommit(n.path, refs.sourceReference))
              && r.value.replication == replicate(n.state, n.path)
  {
    if !IsRequiredRepository(n.state, env.isCloned(n.path), url, env.originUrl(n.path)) then
      Err(UnknownRepository(n.path))
    else
      var git := if env.isCloned(n.path) then Fetch(n.path, url) else Clone(n.path, url);
      var newRefs := WriteBack(refs, env.updateToCommit(n.path, refs.sourceReference));
      Ok(Download(n.state, n.path, git, newRefs, replicate(n.state, n.path)))
  }

  /** `doDownload` of this revision. */
  function DoDownload(env: Environment, state: DownloaderState, refs: References, path: string, url: string): (r: Result<Download, DownloadError>)
    ensures var n := NormalizePath(state, env.config, path);
            r == DownloadNormalized(env, n, refs, url,
                                    (s, p) => CopyFilesToDefaultPath(s, p, env.sourceKind(p)))
  {
    var n := NormalizePath(state, env.config, path);
    DownloadNormalized(env, n, refs, url, (s, p) => CopyFilesToDefaultPath(s, p, env.sourceKind(p)))
  }

  /**
   * A package whose directory can be shared, downloaded into a fresh
   * shared clone, is cloned there and its files are replicated back into
   * its own install path.
   */
  lemma FreshSharedDownload(env: Environment, state: DownloaderState, refs: References, path: string, url: string,
                            entries: seq<Entry>)
    requires |path| > 0 && path[|path| - 1] != DirectorySeparator
    requires !IsPathOfMultiRepository(path) && HasInnerChar(Basename(path), MultiRepoDelimiter)
    requires !env.isCloned(SharedPath(env.config, path))
    requires env.sourceKind(SharedPath(env.config, path)) == Directory(entries)
    ensures var r := DoDownload(env, state, refs, path, url);
            var shared := SharedPath(env.config, path);
            && r.Ok?
            && r.value.git == Clone(shared, url)
            && r.value.state.defaultPath == path
            && r.value.replication == Mirror(path, MirrorSteps(shared, path, entries))
  {
    var shared := SharedPath(env.config, path);
    NormalizeShareable(state, env.config, path);
    assert Truthy(path);
    DownloadIntoFreshClone(env, state, refs, path, url, NormalizedPath(DownloaderState(path), shared), entries);
  }

  /** `doDownload` once the path has normalized to a fresh clone elsewhere. */
  lemma DownloadIntoFreshClone(env: Environment, state: DownloaderState, refs: References, path: string, url: string,
                               n: NormalizedPath, entries: seq<Entry>)
    requires NormalizePath(state, env.config, path) == n
    requires n.state == DownloaderState(path) && Truthy(path) && path != n.path
    requires !env.isCloned(n.path) && env.sourceKind(n.path) == Directory(entries)
    ensures var r := DoDownload(env, state, refs, path, url);
            && r.Ok?
            && r.value.git == Clone(n.path, url)
            && r.value.state.defaultPath == path
            && r.value.replication == Mirror(path, MirrorSteps(n.path, path, entries))
  {
    var replicate := (s, p) => CopyFilesToDefaultPath(s, p, env.sourceKind(p));
    assert DoDownload(env, state, refs, path, url) == DownloadNormalized(env, n, refs, url, replicate);
    assert replicate(n.state, n.path) == Mirror(path, MirrorSteps(n.path, path, entries));
  }

  /** A shareable install path without a trailing `/` normalizes to its shared path and is recorded. */
  lemma NormalizeShareable(state: DownloaderState, config: DownloaderConfig, path: string)
    requires |path| == 0 || path[|path| - 1] != DirectorySeparator
    requires !IsPathOfMultiRepository(path) && HasInnerChar(Basename(path), MultiRepoDelimiter)
    ensures NormalizePath(state, config, path) == NormalizedPath(DownloaderState(path), SharedPath(config, path))
    ensures SharedPath(config, path) != path
  {
    SharedPathHasSuffix(config, path);
    SharedPathTruthy(SharedPath(config, path));
  }

  /** Anything ending with the suffix is truthy. */
  lemma SharedPathTruthy(shared: string)
    requires IsPathOfMultiRepository(shared)
    ensures Truthy(shared)
  {
  }

  /** A clone of another repository in use for sharing is refused before anything is fetched or copied. */
  lemma ForeignCloneRefused(env: Environment, state: DownloaderState, refs: References, path: string, url: string)
    requires var n := NormalizePath(state, env.config, path);
             Truthy(n.state.defaultPath) && env.isCloned(n.path) && url != Trim(env.originUrl(n.path))
    ensures DoDownload(env, state, refs, path, url) == Err(UnknownRepository(NormalizePath(state, env.config, path).path))
  {
  }

  /**
   * A shareable package whose shared clone exists and has the package's URL
   * as its origin is fetched there, its references are written back from
   * the checkout, and the clone is replicated into its install path.
   */
  lemma ExistingSharedCloneFetched(env: Environment, state: DownloaderState, refs: References, path: string, url: string)
    requires |path| > 0 && path[|path| - 1] != DirectorySeparator
    requires !IsPathOfMultiRepository(path) && HasInnerChar(Basename(path), MultiRepoDelimiter)
    requires env.isCloned(SharedPath(env.config, path))
    requires Trim(env.originUrl(SharedPath(env.config, path))) == url
    ensures var r := DoDownload(env, state, refs, path, url);
            var shared := SharedPath(env.config, path);
            && r.Ok?
            && r.value.path == shared && r.value.state == DownloaderState(path)
            && r.value.git == Fetch(shared, url)
            && r.value.refs == WriteBack(refs, env.updateToCommit(shared, refs.sourceReference))
            && r.value.replication == CopyFilesToDefaultPath(DownloaderState(path), shared, env.sourceKind(shared))
            && !r.value.replication.NothingToDo?
  {
    var shared := SharedPath(env.config, path);
    NormalizeShareable(state, env.config, path);
    var n := NormalizedPath(DownloaderState(path), shared);
    var replicate := (s, p) => CopyFilesToDefaultPath(s, p, env.sourceKind(p));
    assert DoDownload(env, state, refs, path, url) == DownloadNormalized(env, n, refs, url, replicate);
    assert IsRequiredRepository(n.state, env.isCloned(n.path), url, env.originUrl(n.path));
    assert replicate(n.state, n.path) == CopyFilesToDefaultPath(DownloaderState(path), shared, env.sourceKind(shared));
    assert !ReplicationSkipped(n.state, n.path) by { assert Truthy(path); }
  }

  /**
   * A package directory without a `-` after its first character is cloned
   * or fetched at its own install path; with no install path recorded yet,
   * nothing is replicated.
   */
  lemma UnshareableDownloadedInPlace(env: Environment, state: DownloaderState, refs: References, path: string, url: string)
    requires !IsPathOfMultiRepository(path) && !HasInnerChar(Basename(path), MultiRepoDelimiter)
    requires !Truthy(state.defaultPath)
    ensures var r := DoDownload(env, state, refs, path, url);
            && r.Ok?
            && r.value.path == path && r.value.state == state
            && r.value.git == (if env.isCloned(path) then Fetch(path, url) else Clone(path, url))
            && r.value.replication == NothingToDo
  {
    UnsharedPathKeepsState(state, env.config, path);
    var n := NormalizedPath(state, path);
    var replicate := (s, p) => CopyFilesToDefaultPath(s, p, env.sourceKind(p));
    assert DoDownload(env, state, refs, path, url) == DownloadNormalized(env, n, refs, url, replicate);
    assert ReplicationSkipped(n.state, n.path);
    assert CopyFilesToDefaultPath(n.state, n.path, env.sourceKind(n.path)) == NothingToDo;
    assert replicate(n.state, n.path) == NothingToDo;
  }

  /**
   * `defaultPath` outlives the package that recorded it: an unshareable
   * package downloaded after a shared one is replicated into the earlier
   * package's install path.
   */
  lemma StaleDefaultPathReused(env: Environment, earlier: string, refs: References, path: string, url: string)
    requires Truthy(earlier) && earlier != path
    requires !IsPathOfMultiRepository(path) && !HasInnerChar(Basename(path), MultiRepoDelimiter)
    requires !env.isCloned(path)
    ensures var r := DoDownload(env, DownloaderState(earlier), refs, path, url);
            && r.Ok? && r.value.git == Clone(path, url)
            && r.value.replication == CopyFilesToDefaultPath(DownloaderState(earlier), path, env.sourceKind(path))
            && !r.value.replication.NothingToDo?
  {
    var state := DownloaderState(earlier);
    UnsharedPathKeepsState(state, env.config, path);
    var n := NormalizedPath(state, path);
    var replicate := (s, p) => CopyFilesToDefaultPath(s, p, env.sourceKind(p));
    assert DoDownload(env, state, refs, path, url) == DownloadNormalized(env, n, refs, url, replicate);
    assert replicate(n.state, n.path) == CopyFilesToDefaultPath(state, path, env.sourceKind(path));
  }

  datatype Updated = Updated(state: DownloaderState, path: string, git: seq<GitStep>, replication: Replication)

  /**
   * `doUpdate`: normalize, clone again if the shared clone is gone, let
   * the generic git downloader update it, then replicate from the path
   * normalized once more.
   */
  function DoUpdate(env: Environment, state: DownloaderState, path: string, url: string): (r: Updated)
    ensures var n := NormalizePath(state, env.config, path);
            && r.git == (if env.isCloned(n.path) then [] else [Clone(n.path, url)]) + [Update(n.path, url)]
            && r.state == NormalizePath(n.state, env.config, n.path).state
  {
    var n := NormalizePath(state, env.config, path);
    var clone := if env.isCloned(n.path) then [] else [Clone(n.path, url)];
    var again := NormalizePath(n.state, env.config, n.path);
    Updated(again.state, again.path, clone + [Update(n.path, url)],
            CopyFilesToDefaultPath(again.state, again.path, env.sourceKind(again.path)))
  }

  /**
   * The second normalization in `doUpdate` is harmless for install paths
   * without a trailing `/`: replication runs from the updated clone into
   * the package's install path.
   */
  lemma UpdateReplicatesFromClone(env: Environment, state: DownloaderState, path: string, url: string)
    requires |path| == 0 || path[|path| - 1] != DirectorySeparator
    ensures var n := NormalizePath(state, env.config, path);
            var r := DoUpdate(env, state, path, url);
            && r.state == n.state && r.path == n.path
            && r.replication == CopyFilesToDefaultPath(n.state, n.path, env.sourceKind(n.path))
  {
    NormalizeIdempotent(state, env.config, path);
  }

  /**
   * Updating a shareable package updates its shared clone, cloning it again
   * first when it has gone, and records the install path.
   */
  lemma SharedCloneUpdated(env: Environment, state: DownloaderState, path: string, url: string)
    requires |path| > 0 && path[|path| - 1] != DirectorySeparator
    requires !IsPathOfMultiRepository(path) && HasInnerChar(Basename(path), MultiRepoDelimiter)
    ensures var r := DoUpdate(env, state, path, url);
            var shared := SharedPath(env.config, path);
            && r.path == shared && r.state == DownloaderState(path)
            && (env.isCloned(shared) ==> r.git == [Update(shared, url)])
            && (!env.isCloned(shared) ==> r.git == [Clone(shared, url), Update(shared, url)])
  {
    var shared := SharedPath(env.config, path);
    NormalizeShareable(state, env.config, path);
    SharedPathHasSuffix(env.config, path);
    UpdateOfSharedPath(env, state, path, url, NormalizedPath(DownloaderState(path), shared));
  }

  /** `doUpdate` once the path has normalized to a shared directory. */
  lemma UpdateOfSharedPath(env: Environment, state: DownloaderState, path: string, url: string, n: NormalizedPath)
    requires NormalizePath(state, env.config, path) == n && IsPathOfMultiRepository(n.path)
    ensures var r := DoUpdate(env, state, path, url);
            && r.path == n.path && r.state == n.state
            && (env.isCloned(n.path) ==> r.git == [Update(n.path, url)])
            && (!env.isCloned(n.path) ==> r.git == [Clone(n.path, url), Update(n.path, url)])
  {
    SharedPathStays(n.state, env.config, n.path);
  }

  /** A path that already names a shared directory normalizes to itself, with the state untouched. */
  lemma SharedPathStays(state: DownloaderState, config: DownloaderConfig, path: string)
    requires IsPathOfMultiRepository(path)
    ensures NormalizePath(state, config, path) == NormalizedPath(state, path)
  {
    SharedPathTruthy(path);
  }

  /** After the update the shared clone is replicated into the install path. */
  lemma SharedUpdateReplicated(env: Environment, state: DownloaderState, path: string, url: string)
    requires |path| > 0 && path[|path| - 1] != DirectorySeparator
    requires !IsPathOfMultiRepository(path) && HasInnerChar(Basename(path), MultiRepoDelimiter)
    ensures var r := DoUpdate(env, state, path, url);
            var shared := SharedPath(env.config, path);
            && r.replication == CopyFilesToDefaultPath(DownloaderState(path), shared, env.sourceKind(shared))
            && !r.replication.NothingToDo?
  {
    var shared := SharedPath(env.config, path);
    NormalizeShareable(state, env.config, path);
    UpdateReplicatesFromClone(env, state, path, url);
    assert !ReplicationSkipped(DownloaderState(path), shared) by { assert Truthy(path); }
  }
}
