/**
 * The older `GitMultiRepoDownloader`. Its shared directory is found by
 * cutting the install path at its last `-` and appending `-multi-repo`;
 * the `-` is looked for in the last `PATH_SEPARATOR` piece of the path,
 * which on POSIX is normally the whole path, directories included. The
 * replication filter, the identity check and the reference write-back are
 * the newer revision's.
 */
module LegacyMultiRepoDownloader {
  import opened Wrappers
  import opened Php
  import opened PhpPaths
  import opened MultiRepoDownloader

  /** PHP's `PATH_SEPARATOR` on POSIX: the separator of path lists, not of directories. */
  const PathSeparator: char := ':'

  /** The text after the path's last `PATH_SEPARATOR`. */
  function LastPathPiece(path: string): string {
    var pieces := Explode(path, PathSeparator);
    pieces[|pieces| - 1]
  }

  /** `path[j]` is a `-` with neither a `-` nor a `PATH_SEPARATOR` after it. */
  predicate LastDashAt(path: string, j: int) {
    && 0 <= j < |path| && path[j] == MultiRepoDelimiter
    && MultiRepoDelimiter !in path[j + 1..] && PathSeparator !in path[j + 1..]
  }

  /**
   * `getMultiRepositoryPath`: when the last piece has a `-` after its first
   * character, the install path is recorded and the result is the path
   * cut at its last `-`, with `-multi-repo` appended.
   */
  function LegacyMultiRepositoryPath(state: DownloaderState, path: string): (r: PathResolution)
    ensures !HasInnerChar(LastPathPiece(path), MultiRepoDelimiter) ==> r == PathResolution(state, None)
    ensures HasInnerChar(LastPathPiece(path), MultiRepoDelimiter) ==>
              && MultiRepoDelimiter in LastPathPiece(path)
              && r == PathResolution(DownloaderState(path), Some(SharedPathOf(path)))
  {
    if !HasInnerChar(LastPathPiece(path), MultiRepoDelimiter) then PathResolution(state, None)
    else PathResolution(DownloaderState(path), Some(SharedPathOf(path)))
  }

  /**
   * The path's pieces glued back with the last one cut at its last `-`,
   * and `-multi-repo` appended.
   */
  function SharedPathOf(path: string): (result: string)
    requires MultiRepoDelimiter in LastPathPiece(path)
    ensures |result| >= |MultiRepoSuffix|
    ensures var j := |result| - |MultiRepoSuffix|;
            LastDashAt(path, j) && result == path[..j] + MultiRepoSuffix
  {
    var pieces := Explode(path, PathSeparator);
    var last := pieces[|pieces| - 1];
    var segments := Explode(last, MultiRepoDelimiter);
    var cut := Implode(segments[..|segments| - 1], MultiRepoDelimiter);
    var glued := Implode(pieces[..|pieces| - 1] + [cut], PathSeparator);
    CutOfLastPiece(last, cut);
    CutPathAtLastDash(path, cut);
    var j := |glued + MultiRepoSuffix| - |MultiRepoSuffix|;
    assert j == |glued| && path[..j] == glued;
    glued + MultiRepoSuffix
  }

  /** The path up to its last `-`, expressed through the pieces the code glues back. */
  lemma CutPathAtLastDash(path: string, cut: string)
    requires var last := LastPathPiece(path);
             && |cut| < |last| && last[..|cut|] == cut && last[|cut|] == MultiRepoDelimiter
             && MultiRepoDelimiter !in last[|cut| + 1..]
    ensures var pieces := Explode(path, PathSeparator);
            var glued := Implode(pieces[..|pieces| - 1] + [cut], PathSeparator);
            LastDashAt(path, |glued|) && glued == path[..|glued|]
  {
    var last := LastPathPiece(path);
    ReplaceLastPiece(path, cut, PathSeparator);
    GlueCut(path, path[..|path| - |last|], last, cut);
  }

  /** The piece up to its last `-` is a proper prefix stopping at that `-`. */
  lemma CutOfLastPiece(last: string, cut: string)
    requires MultiRepoDelimiter in last
    requires var segments := Explode(last, MultiRepoDelimiter);
             cut == Implode(segments[..|segments| - 1], MultiRepoDelimiter)
    ensures |cut| < |last| && last[..|cut|] == cut && last[|cut|] == MultiRepoDelimiter
    ensures MultiRepoDelimiter !in last[|cut| + 1..]
  {
    SplitAtLast(last, MultiRepoDelimiter);
  }

  lemma GlueCut(path: string, prefix: string, last: string, cut: string)
    requires path == prefix + last
    requires |cut| < |last| && last[..|cut|] == cut && last[|cut|] == MultiRepoDelimiter
    requires MultiRepoDelimiter !in last[|cut| + 1..] && PathSeparator !in last
    ensures LastDashAt(path, |prefix + cut|) && path[..|prefix + cut|] == prefix + cut
  {
    var glued := prefix + cut;
    assert path[|glued| + 1..] == last[|cut| + 1..];
    assert path[..|glued|] == prefix + last[..|cut|];
  }

  /** `normalizePath`: the cut path when there is one, the given path otherwise. */
  function LegacyNormalizePath(state: DownloaderState, path: string): (n: NormalizedPath)
    ensures n.state == LegacyMultiRepositoryPath(state, path).state
    ensures n.path == LegacyMultiRepositoryPath(state, path).multiPath.GetOr(path)
  {
    var r := LegacyMultiRepositoryPath(state, path);
    NormalizedPath(r.state, if r.multiPath.Some? && Truthy(r.multiPath.value) then r.multiPath.value else path)
  }

  /**
   * A path `<a>-<b>` whose `<b>` has no `-`, and which has no
   * `PATH_SEPARATOR`, is shared as `<a>-multi-repo`, whatever directories
   * `<a>` and `<b>` span: `/home/my-user/vendor/acme/foo` becomes
   * `/home/my-multi-repo`.
   */
  lemma LegacyCutAtLastDash(state: DownloaderState, a: string, b: string)
    requires |a| > 0 && a[0] != MultiRepoDelimiter
    requires PathSeparator !in a && PathSeparator !in b && MultiRepoDelimiter !in b
    ensures var path := a + [MultiRepoDelimiter] + b;
            LegacyNormalizePath(state, path) == NormalizedPath(DownloaderState(path), a + MultiRepoSuffix)
  {
    var path := a + [MultiRepoDelimiter] + b;
    assert LastPathPiece(path) == path by {
      assert PathSeparator !in path;
      ExplodeWhole(path, PathSeparator);
    }
    assert HasInnerChar(path, MultiRepoDelimiter) by {
      assert path[|a|] == MultiRepoDelimiter && path[0] == a[0];
      HasInnerCharMeans(path, MultiRepoDelimiter);
    }
    var shared := SharedPathOf(path);
    assert shared == a + MultiRepoSuffix by {
      var j := |shared| - |MultiRepoSuffix|;
      LastDashUnique(a, b, j);
      assert path[..|a|] == a;
    }
  }

  /** In `<a>-<b>` with no `-` in `<b>`, the last `-` is the one after `<a>`. */
  lemma LastDashUnique(a: string, b: string, j: int)
    requires MultiRepoDelimiter !in b
    requires LastDashAt(a + [MultiRepoDelimiter] + b, j)
    ensures j == |a|
  {
    var path := a + [MultiRepoDelimiter] + b;
    AbsentFromSuffix(path, j + 1, MultiRepoDelimiter);
    AbsentFromSuffix(b, 0, MultiRepoDelimiter);
    assert path[|a|] == MultiRepoDelimiter;
  }

  /** A character missing from `s[k..]` is at no index from `k` on. */
  lemma AbsentFromSuffix(s: string, k: nat, c: char)
    requires k <= |s| && c !in s[k..]
    ensures forall i :: k <= i < |s| ==> s[i] != c
  {
    forall i | k <= i < |s|
      ensures s[i] != c
    {
      assert s[i] == s[k..][i - k];
    }
  }

  /**
   * Unlike the newer revision, normalizing is not idempotent: a shared
   * path normalized again loses its `-repo` and gains another suffix.
   */
  lemma LegacyNotIdempotent(state: DownloaderState, a: string, b: string)
    requires |a| > 0 && a[0] != MultiRepoDelimiter
    requires PathSeparator !in a && PathSeparator !in b && MultiRepoDelimiter !in b
    ensures var n := LegacyNormalizePath(state, a + [MultiRepoDelimiter] + b);
            LegacyNormalizePath(n.state, n.path).path == a + "-multi" + MultiRepoSuffix
  {
    LegacyCutAtLastDash(state, a, b);
    RenormalizeShared(LegacyNormalizePath(state, a + [MultiRepoDelimiter] + b), a);
  }

  /** A shared path `<a>-multi-repo` normalized again is cut at its own last `-`. */
  lemma RenormalizeShared(n: NormalizedPath, a: string)
    requires |a| > 0 && a[0] != MultiRepoDelimiter && PathSeparator !in a
    requires n.path == a + MultiRepoSuffix
    ensures LegacyNormalizePath(n.state, n.path).path == a + "-multi" + MultiRepoSuffix
  {
    var stem := a + "-multi";
    SuffixAtItsDash(a);
    assert PathSeparator !in stem && stem[0] == a[0] by {
      assert stem[|a|..] == "-multi";
    }
    LegacyCutAtLastDash(n.state, stem, "repo");
  }

  /** `-multi-repo` has its own last `-`, before `repo`. */
  lemma SuffixAtItsDash(a: string)
    ensures a + MultiRepoSuffix == (a + "-multi") + [MultiRepoDelimiter] + "repo"
  {
  }

  /** `copyFilesToDefaultPath`: anything that is not a directory is copied as a single file. */
  function LegacyCopyFilesToDefaultPath(state: DownloaderState, source: string, kind: SourceKind): (r: Replication)
    ensures r.NothingToDo? <==> ReplicationSkipped(state, source)
    ensures !ReplicationSkipped(state, source) ==>
              if kind.Directory? then r == Mirror(state.defaultPath, MirrorSteps(source, state.defaultPath, kind.entries))
              else r == CopySingleFile(source, state.defaultPath)
  {
    if ReplicationSkipped(state, source) then NothingToDo
    else if kind.Directory? then Mirror(state.defaultPath, MirrorSteps(source, state.defaultPath, kind.entries))
    else CopySingleFile(source, state.defaultPath)
  }

  /** A missing source is never reported as unreadable: the older revision attempts a file copy. */
  lemma LegacyMissingSourceCopied(state: DownloaderState, source: string)
    requires !ReplicationSkipped(state, source)
    ensures LegacyCopyFilesToDefaultPath(state, source, Missing) == CopySingleFile(source, state.defaultPath)
    ensures CopyFilesToDefaultPath(state, source, Missing) == Unreadable(source)
  {
  }

  /**
   * The two revisions replicate alike except from a missing source, which
   * the newer one reports as unreadable and the older one copies as a file.
   */
  lemma CopyRevisionsAgree(state: DownloaderState, source: string, kind: SourceKind)
    ensures !kind.Missing? ==> LegacyCopyFilesToDefaultPath(state, source, kind) == CopyFilesToDefaultPath(state, source, kind)
    ensures kind.Missing? && !ReplicationSkipped(state, source) ==>
              && LegacyCopyFilesToDefaultPath(state, source, kind) == CopySingleFile(source, state.defaultPath)
              && CopyFilesToDefaultPath(state, source, kind) == Unreadable(source)
    ensures ReplicationSkipped(state, source) ==>
              LegacyCopyFilesToDefaultPath(state, source, kind) == CopyFilesToDefaultPath(state, source, kind) == NothingToDo
  {
  }

  /** `doDownload` of this revision: the newer one's steps on the older path resolution. */
  function LegacyDoDownload(env: Environment, state: DownloaderState, refs: References, path: string, url: string)
    : (r: Result<Download, DownloadError>)
    ensures var n := LegacyNormalizePath(state, path);
            r == DownloadNormalized(env, n, refs, url,
                                    (s, p) => LegacyCopyFilesToDefaultPath(s, p, env.sourceKind(p)))
  {
    var n := LegacyNormalizePath(state, path);
    DownloadNormalized(env, n, refs, url, (s, p) => LegacyCopyFilesToDefaultPath(s, p, env.sourceKind(p)))
  }

  /**
   * `doUpdate`: the install path as given is passed to the generic git
   * downloader's `doUpdate`, then the files are replicated from the path
   * normalized once.
   */
  function LegacyDoUpdate(env: Environment, state: DownloaderState, path: string, url: string): (r: Updated)
    ensures r.git == [Update(path, url)]
    ensures var n := LegacyNormalizePath(state, path);
            r.state == n.state && r.replication == LegacyCopyFilesToDefaultPath(n.state, n.path, env.sourceKind(n.path))
  {
    var n := LegacyNormalizePath(state, path);
    Updated(n.state, n.path, [Update(path, url)], LegacyCopyFilesToDefaultPath(n.state, n.path, env.sourceKind(n.path)))
  }

  /** `<a>-<b>` normalizes to `<a>-multi-repo`, a different path, and is recorded. */
  lemma LegacyDashedNormalization(state: DownloaderState, a: string, b: string)
    requires |a| > 0 && a[0] != MultiRepoDelimiter
    requires PathSeparator !in a && PathSeparator !in b && MultiRepoDelimiter !in b
    ensures var path := a + [MultiRepoDelimiter] + b;
            && LegacyNormalizePath(state, path) == NormalizedPath(DownloaderState(path), a + MultiRepoSuffix)
            && Truthy(path) && path != a + MultiRepoSuffix
  {
    LegacyCutAtLastDash(state, a, b);
    DashedPathDiffers(a, b);
  }

  /** A path whose last `-` is followed by `<b>` is not the `-multi-repo` path built from what precedes it. */
  lemma DashedPathDiffers(a: string, b: string)
    requires MultiRepoDelimiter !in b
    ensures a + [MultiRepoDelimiter] + b != a + MultiRepoSuffix
  {
    var path := a + [MultiRepoDelimiter] + b;
    assert path[|a|..] == [MultiRepoDelimiter] + b;
    if |b| == 10 {
      assert (a + MultiRepoSuffix)[|a| + 6] == MultiRepoDelimiter;
      assert path[|a| + 6] == b[5];
    }
  }

  /**
   * A package at `<a>-<b>` downloaded into a fresh shared clone is cloned
   * at `<a>-multi-repo`, its install path is recorded, and the clone is
   * mirrored back into the install path.
   */
  lemma LegacyFreshSharedDownload(env: Environment, state: DownloaderState, refs: References, url: string,
                                  a: string, b: string, entries: seq<Entry>)
    requires |a| > 0 && a[0] != MultiRepoDelimiter
    requires PathSeparator !in a && PathSeparator !in b && MultiRepoDelimiter !in b
    requires !env.isCloned(a + MultiRepoSuffix)
    requires env.sourceKind(a + MultiRepoSuffix) == Directory(entries)
    ensures var path := a + [MultiRepoDelimiter] + b;
            var r := LegacyDoDownload(env, state, refs, path, url);
            && r.Ok?
            && r.value.git == Clone(a + MultiRepoSuffix, url)
            && r.value.state.defaultPath == path
            && r.value.refs == WriteBack(refs, env.updateToCommit(a + MultiRepoSuffix, refs.sourceReference))
            && r.value.replication == Mirror(path, MirrorSteps(a + MultiRepoSuffix, path, entries))
  {
    var path := a + [MultiRepoDelimiter] + b;
    LegacyDashedNormalization(state, a, b);
    LegacyDownloadIntoFreshClone(env, state, refs, path, url, NormalizedPath(DownloaderState(path), a + MultiRepoSuffix), entries);
  }

  /** `doDownload` of this revision once the path has normalized to a fresh clone elsewhere. */
  lemma LegacyDownloadIntoFreshClone(env: Environment, state: DownloaderState, refs: References, path: string, url: string,
                                     n: NormalizedPath, entries: seq<Entry>)
    requires LegacyNormalizePath(state, path) == n
    requires n.state == DownloaderState(path) && Truthy(path) && path != n.path
    requires !env.isCloned(n.path) && env.sourceKind(n.path) == Directory(entries)
    ensures var r := LegacyDoDownload(env, state, refs, path, url);
            && r.Ok?
            && r.value.git == Clone(n.path, url)
            && r.value.state.defaultPath == path
            && r.value.refs == WriteBack(refs, env.updateToCommit(n.path, refs.sourceReference))
            && r.value.replication == Mirror(path, MirrorSteps(n.path, path, entries))
  {
    var replicate := (s, p) => LegacyCopyFilesToDefaultPath(s, p, env.sourceKind(p));
    assert LegacyDoDownload(env, state, refs, path, url) == DownloadNormalized(env, n, refs, url, replicate);
    assert replicate(n.state, n.path) == Mirror(path, MirrorSteps(n.path, path, entries));
  }

  /**
   * Unlike the newer revision, the generic update is handed the install
   * path `<a>-<b>` as given, not the shared clone `<a>-multi-repo`, while
   * the files are still replicated from the shared clone.
   */
  lemma LegacyUpdateOnInstallPath(env: Environment, state: DownloaderState, url: string, a: string, b: string)
    requires |a| > 0 && a[0] != MultiRepoDelimiter
    requires PathSeparator !in a && PathSeparator !in b && MultiRepoDelimiter !in b
    ensures var path := a + [MultiRepoDelimiter] + b;
            var r := LegacyDoUpdate(env, state, path, url);
            && r.git == [Update(path, url)]
            && r.path == a + MultiRepoSuffix && r.path != path
            && r.state == DownloaderState(path)
            && r.replication == LegacyCopyFilesToDefaultPath(DownloaderState(path), a + MultiRepoSuffix,
                                                             env.sourceKind(a + MultiRepoSuffix))
  {
    LegacyDashedNormalization(state, a, b);
  }

  /**
   * The newer revision, on a path it shares, hands the shared clone to
   * the generic update instead: the two revisions pass different
   * directories to the same call.
   */
  lemma UpdateTargetsDiffer(env: Environment, state: DownloaderState, path: string, url: string)
    requires |path| > 0 && path[|path| - 1] != DirectorySeparator
    requires !IsPathOfMultiRepository(path) && HasInnerChar(Basename(path), MultiRepoDelimiter)
    ensures LegacyDoUpdate(env, state, path, url).git == [Update(path, url)]
    ensures var git := DoUpdate(env, state, path, url).git;
            git[|git| - 1] == Update(SharedPath(env.config, path), url) && SharedPath(env.config, path) != path
  {
    NormalizeShareable(state, env.config, path);
    SharedCloneUpdated(env, state, path, url);
  }
}
