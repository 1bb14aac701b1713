# multi-repo-composer in Dafny

A model of the Composer plugin `andkirby/multi-repo-composer`. The plugin
lets one git repository serve many packages.

- **Namespaced refs.** Tags and branches are named `namespace/version`
  (`v1/release-2.3.0`, `v1/master`, `v1/2.1`). `VcsNamespaceRepository`
  turns each ref into a package named `<root package>-<namespace suffix>`
  and versions it from the text after the first `/`.
- **Shared clone.** `GitMultiRepoDownloader` clones such a repository
  once, into a `<base>-multi-repo` directory. It then replicates the
  working tree, minus `.git`, into each package's own install path.
- **Plugin activation.** `MultiRepoPlugin` rewrites every repository entry
  that declares a `multi-repo-type`. It binds the five namespaced
  repository types to that downloader and that repository class.
- **Archive URLs.** `GitLabDriver` builds GitLab archive URLs from the ref
  that names a commit.

Two revisions of the downloader and of the GitLab driver are modelled.
The older ones live under `src/AndKirby/Composer/MultiRepo/`. The older
driver's `_getBaseArchiveUrl` and `_getBranchNameByHash` do the same as the
newer `getBaseArchiveUrl` and `getBranchNameByHash`, so both drivers use one
model of them (`GitLabDriver.BaseArchiveUrl`,
`GitLabDriver.BranchNameByHash`). The older downloader reuses the newer
one's replication filter, identity check and reference write-back, which are
the same code.

Modules (one file each):

| module | file | models |
|---|---|---|
| `Wrappers` | wrappers.dfy | `Option` and `Result` |
| `Php` | php.dfy | the PHP built-ins the code relies on: truthiness, `strpos`, `explode`/`implode`, one-pass `str_replace`, `rtrim`/`trim`, ASCII `strtolower`, `array_search` |
| `PhpPaths` | php_paths.dfy | `basename` and `dirname` on POSIX paths |
| `RefNames` | ref_names.dfy | splitting `namespace/version` refs, tag and branch validation, the `preg_replace` rewrites of versions and namespaces |
| `NamespaceRepository` | namespace_repository.dfy | `VcsNamespaceRepository`: driver table, `preProcess`, the tag and branch loops, `initialize` |
| `NamespaceExamples` | namespace_examples.dfy | the resolver on concrete refs: `v1/release-2.3.0`, `<ns>/master`, `<ns>/2.1` |
| `GitLabDriver` | gitlab_driver.dfy | the newer GitLab driver |
| `LegacyGitLabDriver` | legacy_gitlab_driver.dfy | the older GitLab driver |
| `MultiRepoDownloader` | multi_repo_downloader.dfy | the newer downloader |
| `LegacyMultiRepoDownloader` | legacy_multi_repo_downloader.dfy | the older downloader |
| `MultiRepoPlugin` | multi_repo_plugin.dfy | `initConfig` and `initMultiVcsRepositories` |

Collaborators appear as function-valued fields of datatypes:

- Composer's version parser (`normalize`, `normalizeBranch`);
- the VCS driver's manifest lookup, tag and branch lists, dist and source;
- the package loader;
- the filesystem's view of a path and git's origin URL;
- the checkout that may report a new ref.

A PHP `null` string is modelled as "" wherever the code only concatenates,
compares or tests it for truthiness (`packageName`, `defaultPath`).

## Model

| member | source | states |
|---|---|---|
| Php.StrPos | src/Repository/VcsNamespaceRepository.php:315 | `strpos` of one character gives its first index; it gives nothing exactly when the character is absent |
| Php.StrPosAfter | src/Repository/VcsNamespaceRepository.php:315 | the first `c` of `base`, `c`, `rest` stands right after `base` when `base` holds no `c` |
| Php.HasInnerCharMeans | src/Repository/VcsNamespaceRepository.php:315-317 | `!strpos($ref, '/')` lets a ref through exactly when it holds the character after position 0 and does not start with it, so `/x/y` is rejected |
| Php.Explode | src/Repository/VcsNamespaceRepository.php:356 | `explode` gives at least one piece, no piece holds the delimiter, and imploding the pieces gives the input back |
| Php.ExplodeWhole | src/Repository/VcsNamespaceRepository.php:369-370 | `explode` returns a single piece exactly when the delimiter is absent |
| Php.ExplodeImplode | src/Repository/VcsNamespaceRepository.php:356-358 | exploding what was imploded from delimiter-free pieces gives the pieces back |
| Php.ExplodeHead | src/Repository/VcsNamespaceRepository.php:369-370 | the first piece is the text before the first delimiter, or the whole string when there is none |
| Php.ExplodeTail | src/Repository/VcsNamespaceRepository.php:356-358 | dropping the first piece and imploding the rest gives the text after the first delimiter |
| Php.SplitAtLast | src/AndKirby/Composer/MultiRepo/Downloader/GitMultiRepoDownloader.php:73-75 | all pieces but the last, imploded, are the string up to its last delimiter; the last piece is everything after it |
| Php.ReplaceLastPiece | src/AndKirby/Composer/MultiRepo/Downloader/GitMultiRepoDownloader.php:69-77 | gluing the pieces back with the last one swapped for `x` replaces exactly that suffix of the path |
| Php.StrReplaceAbsent | src/Repository/VcsNamespaceRepository.php:142 | `str_replace` leaves a subject without occurrences unchanged |
| Php.StrReplaceOnce | src/Repository/VcsNamespaceRepository.php:142 | a single occurrence, with no other possible start around it, is the only text replaced |
| Php.StrReplaceAroundSplit | src/Repository/VcsNamespaceRepository.php:142 | removing an occurrence can glue its neighbours into a new occurrence, and one pass leaves that one in place |
| Php.StrReplaceConcat | src/Downloader/GitMultiRepoDownloader.php:113-117 | when no occurrence straddles the join, replacing in `a + b` is replacing in `a` and in `b` |
| Php.StrReplaceSuffixOnly | src/Downloader/GitMultiRepoDownloader.php:113-117 | when the search string first occurs at the very end, only that occurrence is replaced |
| Php.RTrim | src/Downloader/GitMultiRepoDownloader.php:135 | `rtrim` returns a prefix of its input that does not end in a trimmed character; everything it drops is a trimmed character |
| Php.LTrim | src/Downloader/GitMultiRepoDownloader.php:365 | `ltrim` returns a suffix of its input that does not start with a trimmed character; everything it drops is a trimmed character |
| Php.ToLowerIdempotent | src/Repository/VcsNamespaceRepository.php:289 | lowering twice is lowering once |
| Php.ToLowerConcat | src/Repository/VcsNamespaceRepository.php:289 | lowering `a + b` is lowering `a` followed by lowering `b`: each character is lowered on its own |
| Php.ArraySearch | src/Repository/Vcs/GitLabDriver.php:48 | `array_search` gives nothing exactly when no entry has the value; a key it gives belongs to an entry with the value and no earlier entry has it |
| Php.ArraySearchFirst | src/Repository/Vcs/GitLabDriver.php:48 | `array_search` finds a key exactly when some entry is the first with the value, and then gives that first entry's key |
| Php.Contains | src/Repository/Vcs/GitLabDriver.php:14 | `strpos($type, 'gitlab') !== false` holds exactly when `gitlab` occurs somewhere in the type |
| PhpPaths.LastSegment | src/Downloader/GitMultiRepoDownloader.php:90 | the text after the last `/`: slash-free, a suffix of the input, preceded by a `/` when shorter than it |
| PhpPaths.LastSegmentAfterSeparator | src/Downloader/GitMultiRepoDownloader.php:90 | the last segment of `t/segment` is `segment`, whatever `t` holds |
| PhpPaths.BasenameSplit | src/Downloader/GitMultiRepoDownloader.php:90 | a path without a trailing slash is its basename, or some text, a `/` and its basename |
| PhpPaths.JoinedPathParts | src/Downloader/GitMultiRepoDownloader.php:104 | for `dir/segment`, `basename` gives `segment` and `dirname` gives `dir` |
| PhpPaths.TrailingSlashIgnored | src/Downloader/GitMultiRepoDownloader.php:90 | a trailing `/` changes neither `basename` nor `dirname` |
| PhpPaths.DirnameEdgeCases | src/Downloader/GitMultiRepoDownloader.php:104 | `dirname` gives "" for "", `/` for `/` and for `/segment`, `.` for a lone segment; `basename` of `segment` and of `/segment` is `segment` |
| PhpPaths.LastSegmentWhole | src/Downloader/GitMultiRepoDownloader.php:90 | a slash-free string is its own last segment |
| RefNames.Namespace | src/Repository/VcsNamespaceRepository.php:367-371 | the namespace of a ref holds no `/` |
| RefNames.NamespaceSplit | src/Repository/VcsNamespaceRepository.php:354-371 | a ref with a `/` is its namespace (the text before the first `/`), the `/`, and its bare name (all the rest) |
| RefNames.NoSeparatorRef | src/Repository/VcsNamespaceRepository.php:354-371 | a ref without `/` is all namespace, and its bare name is empty |
| RefNames.NamespaceJoin | src/Repository/VcsNamespaceRepository.php:354-371 | splitting `ns/bare` gives back `ns` and `bare` when `ns` holds no `/` |
| RefNames.ValidateTag | src/Repository/VcsNamespaceRepository.php:312-324 | a tag validates only if it has a `/` after its first character, and then to `normalize` of its bare name |
| RefNames.ValidateBranch | src/Repository/VcsNamespaceRepository.php:334-346 | a branch validates only if it has a `/` after its first character, and then to `normalizeBranch` of its bare name |
| RefNames.ValidateJoined | src/Repository/VcsNamespaceRepository.php:312-346 | `ns/bare` with a non-empty, slash-free `ns` validates to what the parser makes of exactly `bare` |
| RefNames.RejectedRefs | src/Repository/VcsNamespaceRepository.php:312-346 | a ref without a `/`, or one starting with `/`, is never valid, whatever the parser does |
| RefNames.StripReleaseEverywhere | src/Repository/VcsNamespaceRepository.php:141-142 | `release-` is removed wherever it occurs, not only as a prefix: both `v1/release-2.3.0` and `release-v1/2.3.0` become `v1/2.3.0` |
| RefNames.StripReleaseSinglePass | src/Repository/VcsNamespaceRepository.php:142 | one pass: `relrelease-ease-` becomes `release-`, which is not removed again |
| RefNames.StripDevSuffix | src/Repository/VcsNamespaceRepository.php:174 | the result is a prefix of the input; it differs from the input exactly when the input ends in `dev` (any case); what is removed is `dev` with at most one `.` or `-` before it, and the separator is always taken when present |
| RefNames.StripDevMarkers | src/Repository/VcsNamespaceRepository.php:175 | the result is unchanged exactly when there is neither a leading `dev-` (any case) nor a trailing `dev`; otherwise the leading `dev-` is dropped and what is cut from the end is a dev marker, so the result is a slice of the input |
| RefNames.SkipNineGroups | src/Repository/VcsNamespaceRepository.php:237 | a suffix of the input that does not start with `.9999999` |
| RefNames.ReplaceNineGroups | src/Repository/VcsNamespaceRepository.php:237 | the output has no `.9999999` group, is unchanged on inputs without one, and is non-empty on non-empty inputs |
| RefNames.ReplaceNineGroupsRun | src/Repository/VcsNamespaceRepository.php:237 | a maximal run of groups becomes a single `.x` |
| RefNames.ReplaceNineGroupsKeepsPrefix | src/Repository/VcsNamespaceRepository.php:237 | a prefix in which no group can start is copied unchanged |
| RefNames.WildcardVersion | src/Repository/VcsNamespaceRepository.php:237 | `stem` followed by k ≥ 1 groups and a group-free tail reads back as `stem.x` and the tail |
| RefNames.NineGroupsCollapse | src/Repository/VcsNamespaceRepository.php:237 | k ≥ 1 groups before a group-free tail become `.x` |
| RefNames.BranchVersion | src/Repository/VcsNamespaceRepository.php:233-238 | dev and trunk (`9999999-dev`) branches get `dev-` and the bare name; every other branch gets its normalized version with no `.9999999` group left, unchanged when it had none |
| RefNames.DevBranchVersion | src/Repository/VcsNamespaceRepository.php:234-235 | a branch normalized to `dev-x` is versioned `dev-` plus its bare name |
| RefNames.WildcardBranchVersion | src/Repository/VcsNamespaceRepository.php:233-238 | a branch that the normalizer pads to `<stem>.9999999…-dev` is versioned `<stem>.x-dev` |
| RefNames.SnakeBoundariesIdentity | src/Repository/VcsNamespaceRepository.php:288 | a namespace without such a pair is unchanged |
| RefNames.SnakeBoundariesConcat | src/Repository/VcsNamespaceRepository.php:288 | rewriting `a + b` is rewriting `a`, then `_` exactly when the last character of `a` is a lower-case letter or digit and the first of `b` a capital, then rewriting `b`; a single character is kept; together these fix the rewrite on every input |
| RefNames.SnakeCopiesNonLower | src/Repository/VcsNamespaceRepository.php:288 | a character that is neither a lower-case letter nor a digit is copied with whatever follows rewritten on its own |
| RefNames.SnakeSingleBoundary | src/Repository/VcsNamespaceRepository.php:288 | two boundary-free runs that meet at one boundary get exactly one `_` at the join |
| RefNames.NamespaceSuffix | src/Repository/VcsNamespaceRepository.php:288-289 | the suffix holds no ASCII capital, is at least as long as the namespace, and with its underscores erased is the namespace (underscores erased) in lower case |
| RefNames.NamespaceSuffixConcat | src/Repository/VcsNamespaceRepository.php:288-289 | the suffix of `a + b` is that of `a`, `_` exactly at a lower-or-digit/capital join, and that of `b` |
| RefNames.EraseUnderscoresToLower | src/Repository/VcsNamespaceRepository.php:288-289 | erasing underscores and lowering commute |
| RefNames.NamespaceSuffixCollides | src/Repository/VcsNamespaceRepository.php:287-290 | the distinct namespaces `fooBar` and `foo_bar` give the same suffix `foo_bar`, and so the same package name |
| NamespaceRepository.DriverTable | src/Repository/VcsNamespaceRepository.php:58-78 | the five namespaced types are pinned to their drivers whatever the caller passes; the caller's entries override Composer's own for all other types |
| NamespaceRepository.NamespacedTypesPinned | src/Repository/VcsNamespaceRepository.php:74-97 | every type `getTypes` reports has a pinned driver in the table |
| NamespaceRepository.RootNameFromManifest | src/Repository/VcsNamespaceRepository.php:122-131 | the base name is the root manifest's `name` exactly when that manifest is read and its name is non-empty and not `0`; otherwise there is none |
| NamespaceRepository.PreProcess | src/Repository/VcsNamespaceRepository.php:284-302 | a name is set only when the base name differs from the URL; dist and source come from the driver only when missing, a missing dist being exactly what the driver returns (none, for the git driver the namespace types use), and a driver-made source carries the configured type; version, namespace and other fields are untouched |
| NamespaceRepository.TagOutcome | src/Repository/VcsNamespaceRepository.php:141-195 | a skipped tag is reported by its name with every `release-` removed |
| NamespaceRepository.BranchOutcome | src/Repository/VcsNamespaceRepository.php:210-263 | a skipped branch is reported by its own name |
| NamespaceRepository.AnyBranchError | src/Repository/VcsNamespaceRepository.php:255-259 | `branchErrorOccurred` is raised exactly when some branch failed with an error other than a transport error |
| NamespaceRepository.AcceptedPackagesConcat | src/Repository/VcsNamespaceRepository.php:189 | one accepted outcome adds its package and a skipped one nothing, and the packages of `a + b` are those of `a` followed by those of `b`: every accepted ref adds one package, in loop order |
| NamespaceRepository.TagOutcomes | src/Repository/VcsNamespaceRepository.php:133-196 | the tag loop yields exactly one outcome per driver tag, in the driver's order, each that tag's own outcome (partner: TagOutcomesSplit) |
| NamespaceRepository.TagOutcomesSplit | src/Repository/VcsNamespaceRepository.php:133-196 | no state crosses tag iterations: the outcomes of the tags `a + b` are those of `a` followed by those of `b`, and one tag yields exactly its own outcome |
| NamespaceRepository.BranchOutcomes | src/Repository/VcsNamespaceRepository.php:202-264 | the branch loop yields exactly one outcome per driver branch, in order, each that branch's own outcome (partner: BranchOutcomesSplit) |
| NamespaceRepository.BranchOutcomesSplit | src/Repository/VcsNamespaceRepository.php:202-264 | likewise for branches: the outcomes of `a + b` are those of `a`, then of `b`, and one branch yields its own outcome |
| NamespaceRepository.Initialize | src/Repository/VcsNamespaceRepository.php:105-274 | no driver is an error; otherwise the repository is invalid exactly when every tag and every branch was skipped; a valid one holds the accepted packages, those of the tags before those of the branches, each in loop order, and its error flag says whether a branch failed |
| NamespaceRepository.EmptyRepositoryInvalid | src/Repository/VcsNamespaceRepository.php:271-273 | a repository without tags or branches is invalid |
| NamespaceRepository.AcceptedTagVersion | src/Repository/VcsNamespaceRepository.php:159-183 | an accepted tag's normalized version is `normalize` of the text after its first `/`; a declared version, normalized and without dev markers, equals it; `version` is the declared version, or else that text, without a trailing dev marker |
| NamespaceRepository.AcceptedTagName | src/Repository/VcsNamespaceRepository.php:169-171 | an accepted tag's namespace is the manifest's, or else the text before the first `/`; its name is the base name, `-`, and the namespace's suffix |
| NamespaceRepository.AcceptedTagManifestKept | src/Repository/VcsNamespaceRepository.php:293-299 | the manifest's own dist, source and other fields reach the tag's package unchanged, and a missing dist is exactly the driver's (possibly none) |
| NamespaceRepository.MismatchedTagSkipped | src/Repository/VcsNamespaceRepository.php:177-183 | a tag whose declared version disagrees with the tag is skipped as a mismatch that names both versions |
| NamespaceRepository.AcceptedBranch | src/Repository/VcsNamespaceRepository.php:225-238 | an accepted branch's normalized version is `normalizeBranch` of its bare name, its version follows the branch rule, and its namespace, dist, source, name and other fields are as preprocessing promises |
| NamespaceRepository.BranchIgnoresManifestVersion | src/Repository/VcsNamespaceRepository.php:225-227 | changing the manifest's declared version never changes a branch's outcome |
| NamespaceRepository.TagAcceptedWhen | src/Repository/VcsNamespaceRepository.php:141-189 | conversely, a tag `ns/bare` whose versions agree, and whose prepared package the loader does not fail on, is accepted with exactly that package |
| NamespaceRepository.BranchAcceptedWhen | src/Repository/VcsNamespaceRepository.php:210-249 | conversely, a branch `ns/bare` that the normalizer accepts, and whose prepared package the loader takes without errors or warnings, is accepted with exactly that package |
| NamespaceExamples.NoDevMarkers | src/Repository/VcsNamespaceRepository.php:175 | `2.3.0.0` and `9.9.9.0` carry no dev markers |
| NamespaceExamples.SuffixV1 | src/Repository/VcsNamespaceRepository.php:288-289 | namespace `v1` has suffix `v1` |
| NamespaceExamples.SuffixV1Name | src/Repository/VcsNamespaceRepository.php:290 | packages of namespace `v1` are named `<root>-v1` |
| NamespaceExamples.MatchingTagAccepted | src/Repository/VcsNamespaceRepository.php:141-189 | tag `v1/release-2.3.0`, whose manifest declares 2.3.0, is accepted at `2.3.0.0` in namespace `v1` |
| NamespaceExamples.MismatchedTagRejected | src/Repository/VcsNamespaceRepository.php:159-183 | the same tag with a manifest declaring 9.9.9 is skipped as `v1/2.3.0` with a mismatch between `2.3.0.0` and `9.9.9.0` |
| NamespaceExamples.MasterBranch | src/Repository/VcsNamespaceRepository.php:225-238 | branch `<ns>/master` is accepted as `dev-master` in namespace `<ns>` |
| NamespaceExamples.MaintenanceBranch | src/Repository/VcsNamespaceRepository.php:233-238 | branch `<ns>/<stem>` (such as `v1/2.1`) is accepted as `<stem>.x-dev` in namespace `<ns>` |
| NamespaceExamples.BranchPackageName | src/Repository/VcsNamespaceRepository.php:287-290 | every accepted branch of namespace `<ns>` is named `<root>-<suffix of ns>` |
| NamespaceExamples.MasterAndMaintenanceBranches | src/Repository/VcsNamespaceRepository.php:202-249 | `<ns>/master` and `<ns>/<stem>` give two versions of one package name; for `v1` that name is `<root>-v1` |
| GitLabDriver.BaseArchiveUrl | src/Repository/Vcs/GitLabDriver.php:60-67 | one trailing `.git` is removed, and a URL without it is kept |
| GitLabDriver.ArchiveUrlType | src/Repository/Vcs/GitLabDriver.php:85-89 | the extension starts with `.`; `tar` is served as `.tar.gz`, and any other type as itself |
| GitLabDriver.BranchNameByHash | src/Repository/Vcs/GitLabDriver.php:46-53 | when the first tag at the hash has a truthy name, that name; otherwise the first branch at the hash, and nothing exactly when no branch points at it |
| GitLabDriver.LookupNamesCommit | src/Repository/Vcs/GitLabDriver.php:46-53 | the name found, or "" when none, is the first truthy-named tag at the hash, else the first branch at it, else "" |
| GitLabDriver.FalsyTagFallsThrough | src/Repository/Vcs/GitLabDriver.php:48-51 | a first tag at the hash named "" or `0` is ignored: the lookup is the branch lookup alone |
| GitLabDriver.FirstBranchWins | src/Repository/Vcs/GitLabDriver.php:50-51 | without a truthy first tag, the first branch at the hash names it |
| GitLabDriver.ZeroTagIgnored | src/Repository/Vcs/GitLabDriver.php:48-51 | a tag named `0` alone gives nothing, and a branch beside it gives the branch |
| GitLabDriver.GetDist | src/Repository/Vcs/GitLabDriver.php:12-26 | a type without `gitlab` returns the parent driver's answer unchanged, possibly no dist; a GitLab type always returns a dist referenced by the commit, without checksum, of the configured archive type, fetched from the archive URL of the ref naming the commit (partners: DistNamesCommit, TagPrecedence, DefaultZipArchive, TarArchive) |
| GitLabDriver.DistNamesCommit | src/Repository/Vcs/GitLabDriver.php:12-78 | a type without `gitlab` gets exactly the parent's result, which may be no dist; otherwise some dist of the configured archive type (`zip` by default), referenced by the commit, without checksum, whose URL is the base URL, the archive endpoint and the ref that names the commit |
| GitLabDriver.TagPrecedence | src/Repository/Vcs/GitLabDriver.php:46-53 | the first tag at the hash wins over any branch when its name is truthy |
| GitLabDriver.ArchiveUrlInjective | src/Repository/Vcs/GitLabDriver.php:34-38 | two refs with the same archive URL are the same ref |
| GitLabDriver.DefaultZipArchive | src/Repository/Vcs/GitLabDriver.php:74-89 | with no archive type configured, the dist is a `zip` from `/repository/archive.zip?ref=` |
| GitLabDriver.TarArchive | src/Repository/Vcs/GitLabDriver.php:85-89 | a configured `tar` is fetched from `/repository/archive.tar.gz?ref=` |
| LegacyGitLabDriver.LegacyArchiveUrl | src/AndKirby/Composer/MultiRepo/Repository/Vcs/GitLabDriver.php:32-35 | the URL starts with the base URL and ends with `/repository/archive?ref=` and the ref, nothing else between |
| LegacyGitLabDriver.LegacyGetDist | src/AndKirby/Composer/MultiRepo/Repository/Vcs/GitLabDriver.php:14-24 | the older driver always returns a `tar` dist referenced by the commit and without checksum (partners: LegacyDistNamesCommit, DriversDiffer) |
| LegacyGitLabDriver.LegacyDistNamesCommit | src/AndKirby/Composer/MultiRepo/Repository/Vcs/GitLabDriver.php:14-24 | always a `tar` dist referenced by the commit, without checksum, whose URL is the base URL, `/repository/archive?ref=` and the ref that names the commit |
| LegacyGitLabDriver.DriversDiffer | src/AndKirby/Composer/MultiRepo/Repository/Vcs/GitLabDriver.php:14-35 | on a GitLab repository with no archive type configured, the two drivers differ only in the `.zip` of the endpoint |
| MultiRepoDownloader.ParentMultiRepoDir | src/Downloader/GitMultiRepoDownloader.php:131-148 | a truthy configured parent directory wins, without its trailing slashes and backslashes; otherwise the repository cache, unless `multi-repo-dir-in-cache` is false |
| MultiRepoDownloader.SharedDirName | src/Downloader/GitMultiRepoDownloader.php:97-98 | the shared directory's name ends with `-multi-repo`; before it stands a `-`-free prefix of the package directory that is all of it or stops at its first `-` |
| MultiRepoDownloader.SharedDirNameOfDashed | src/Downloader/GitMultiRepoDownloader.php:97-98 | `<base>-<rest>` with no `-` in `<base>` shares `<base>-multi-repo`, whatever `<rest>` is |
| MultiRepoDownloader.NormalizePath | src/Downloader/GitMultiRepoDownloader.php:73-77 | the path changes only when it is shared or shareable, and the state is what the resolution leaves |
| MultiRepoDownloader.UnsharedPathKeepsState | src/Downloader/GitMultiRepoDownloader.php:90-94 | a package directory that cannot be shared keeps its path and the earlier `defaultPath` |
| MultiRepoDownloader.StrReplaceLastSegment | src/Downloader/GitMultiRepoDownloader.php:113-117 | the final segment of `dir/segment` is replaced whatever happens in `dir` |
| MultiRepoDownloader.CustomSharedPathHasSuffix | src/Downloader/GitMultiRepoDownloader.php:102-107 | with a custom parent directory, the shared path ends with `-multi-repo` |
| MultiRepoDownloader.InPlaceSharedPathHasSuffix | src/Downloader/GitMultiRepoDownloader.php:111-117 | without one, replacing in `dir/<package>` leaves the shared name at the end |
| MultiRepoDownloader.SharedPathHasSuffix | src/Downloader/GitMultiRepoDownloader.php:85-124 | for an install path without a trailing `/`, every shared path ends with `-multi-repo` |
| MultiRepoDownloader.NormalizeIdempotent | src/Downloader/GitMultiRepoDownloader.php:73-89 | normalizing twice is normalizing once, state included, for install paths without a trailing `/` |
| MultiRepoDownloader.ResolvesToSharedPath | src/Downloader/GitMultiRepoDownloader.php:85-124 | there is a shared path exactly for a shared path or a package directory with a `-` after its first character; `defaultPath` changes only to record an install path being shared; without a trailing `/` the shared path ends with `-multi-repo` |
| MultiRepoDownloader.EveryOccurrenceReplaced | src/Downloader/GitMultiRepoDownloader.php:113-117 | without a custom parent directory, `foo-bar/foo-bar` maps to `foo-multi-repo/foo-multi-repo`: every occurrence is replaced |
| MultiRepoDownloader.LeadingSegmentReplaced | src/Downloader/GitMultiRepoDownloader.php:113-117 | a leading `segment/` is replaced too |
| MultiRepoDownloader.InPlaceLayout | src/Downloader/GitMultiRepoDownloader.php:85-124 | without a custom parent, `<dir>/<base>-<rest>` is recorded and shared as `<dir>/<base>-multi-repo` |
| MultiRepoDownloader.InPlaceResolution | src/Downloader/GitMultiRepoDownloader.php:111-117 | without a custom parent, a shareable `<dir>/<package>` resolves to `<dir>/<shared name>` when `<dir>` does not mention the package directory |
| MultiRepoDownloader.InPlaceSharedPath | src/Downloader/GitMultiRepoDownloader.php:111-117 | in place, only the final `<package>` of `<dir>/<package>` is rewritten when `<dir>` does not mention it |
| MultiRepoDownloader.InPlaceExample | src/Downloader/GitMultiRepoDownloader.php:85-124 | `/vendor/pkg-foo` is shared as `/vendor/pkg-multi-repo` |
| MultiRepoDownloader.SlashOnlyParentDir | src/Downloader/GitMultiRepoDownloader.php:133-140 | a parent directory made only of slashes trims to "", which skips the cache and rewrites the path in place |
| MultiRepoDownloader.CustomDirLayout | src/Downloader/GitMultiRepoDownloader.php:102-107 | with a custom parent, `<root>/<vendor>/<package>` maps to `<parent>/<vendor>/<base>-multi-repo` and is recorded |
| MultiRepoDownloader.SuffixOfLastSegment | src/Downloader/GitMultiRepoDownloader.php:399-404 | whether `dir/<package>` is a shared path depends on the package directory alone |
| MultiRepoDownloader.GitMetadataNeverWritten | src/Downloader/GitMultiRepoDownloader.php:176-181 | no step writes the target's `.git` or anything below it |
| MultiRepoDownloader.OtherEntriesReplicated | src/Downloader/GitMultiRepoDownloader.php:182-187 | every other item is recreated at the same relative place: directories are made, files are copied |
| MultiRepoDownloader.ReplicatedConcat | src/Downloader/GitMultiRepoDownloader.php:175-181 | the items kept from `a + b` are those kept from `a`, then from `b`: order is kept and each item is judged by its own path |
| MultiRepoDownloader.MirrorStepsConcat | src/Downloader/GitMultiRepoDownloader.php:175-188 | the steps for `a + b` are those for `a`, then those for `b` |
| MultiRepoDownloader.MirrorStepsInTarget | src/Downloader/GitMultiRepoDownloader.php:182-187 | every step writes strictly below the target, and every copied file is read from the same relative place below the source |
| MultiRepoDownloader.ReplicationWritesOnlyDefaultPath | src/Downloader/GitMultiRepoDownloader.php:156-190 | replication writes only at `defaultPath` or below it, never onto its source; from `defaultPath` itself it does nothing; a missing source is reported unreadable exactly when the guard lets it through |
| MultiRepoDownloader.WriteBack | src/Downloader/GitMultiRepoDownloader.php:223-228 | a truthy new ref becomes the source reference; the dist reference follows it only if it equalled the old source reference |
| MultiRepoDownloader.WriteBackStable | src/Downloader/GitMultiRepoDownloader.php:223-228 | references that agreed still agree, and writing back twice is writing back once |
| MultiRepoDownloader.DownloadNormalized | src/Downloader/GitMultiRepoDownloader.php:202-232 | on a normalized path the download is refused, with the path in the error, exactly when the path is not the required repository; otherwise the path is fetched when already cloned and cloned when not, the references are written back from the commit checked out, and the files are replicated from that path |
| MultiRepoDownloader.DoDownload | src/Downloader/GitMultiRepoDownloader.php:202-232 | `doDownload` runs those steps on the path as this revision normalizes it and replicates with this revision's copy (partners: FreshSharedDownload, ExistingSharedCloneFetched, ForeignCloneRefused, UnshareableDownloadedInPlace, StaleDefaultPathReused) |
| MultiRepoDownloader.FreshSharedDownload | src/Downloader/GitMultiRepoDownloader.php:202-232 | a shareable package is cloned into its shared path, and its files are mirrored back into its install path |
| MultiRepoDownloader.NormalizeShareable | src/Downloader/GitMultiRepoDownloader.php:73-124 | a shareable install path normalizes to its shared path, which differs from it, and is recorded |
| MultiRepoDownloader.ForeignCloneRefused | src/Downloader/GitMultiRepoDownloader.php:361-368 | a clone in use for sharing whose trimmed origin differs from the URL is refused |
| MultiRepoDownloader.ExistingSharedCloneFetched | src/Downloader/GitMultiRepoDownloader.php:202-232 | a shared clone whose trimmed origin is the URL is fetched, the references are written back from its checkout, and it is replicated into the install path |
| MultiRepoDownloader.UnshareableDownloadedInPlace | src/Downloader/GitMultiRepoDownloader.php:202-232 | a package directory without an inner `-` is cloned or fetched at its own path, and with no `defaultPath` nothing is replicated |
| MultiRepoDownloader.StaleDefaultPathReused | src/Downloader/GitMultiRepoDownloader.php:85-96 | `defaultPath` outlives the package that set it: an unshareable package downloaded later is replicated into the earlier install path |
| MultiRepoDownloader.UpdateReplicatesFromClone | src/Downloader/GitMultiRepoDownloader.php:246-249 | the second normalization is harmless: replication runs from the updated clone into the install path |
| MultiRepoDownloader.DoUpdate | src/Downloader/GitMultiRepoDownloader.php:234-249 | `doUpdate` clones the normalized path again only when it is not cloned, then passes that path to the generic downloader's `doUpdate`, and keeps the state of the second normalization (partners: SharedCloneUpdated, SharedUpdateReplicated, UpdateReplicatesFromClone) |
| MultiRepoDownloader.SharedCloneUpdated | src/Downloader/GitMultiRepoDownloader.php:234-246 | a shareable package updates its shared clone, cloned again first only when it is gone, and records the install path |
| MultiRepoDownloader.UpdateOfSharedPath | src/Downloader/GitMultiRepoDownloader.php:234-249 | once the path has normalized to a shared directory, the second normalization keeps it, and the update runs there |
| MultiRepoDownloader.SharedUpdateReplicated | src/Downloader/GitMultiRepoDownloader.php:246-249 | after the update the shared clone is replicated into the install path |
| LegacyMultiRepoDownloader.SharedPathOf | src/AndKirby/Composer/MultiRepo/Downloader/GitMultiRepoDownloader.php:69-77 | the shared path is the install path up to its last `-` (with no `PATH_SEPARATOR` after it), followed by `-multi-repo` |
| LegacyMultiRepoDownloader.LegacyCutAtLastDash | src/AndKirby/Composer/MultiRepo/Downloader/GitMultiRepoDownloader.php:67-80 | `<a>-<b>` with no `-` in `<b>` is shared as `<a>-multi-repo`, across directory boundaries |
| LegacyMultiRepoDownloader.LastDashUnique | src/AndKirby/Composer/MultiRepo/Downloader/GitMultiRepoDownloader.php:73-75 | in `<a>-<b>` with no `-` in `<b>`, the last `-` is the one after `<a>` |
| LegacyMultiRepoDownloader.LegacyNotIdempotent | src/AndKirby/Composer/MultiRepo/Downloader/GitMultiRepoDownloader.php:55-80 | normalizing a shared path again cuts off its `-repo` and appends another suffix |
| LegacyMultiRepoDownloader.LegacyDashedNormalization | src/AndKirby/Composer/MultiRepo/Downloader/GitMultiRepoDownloader.php:55-80 | `<a>-<b>` normalizes to `<a>-multi-repo`, which differs from it, and is recorded |
| LegacyMultiRepoDownloader.LegacyMissingSourceCopied | src/AndKirby/Composer/MultiRepo/Downloader/GitMultiRepoDownloader.php:95-98 | a missing source becomes a file copy here, and an unreadable source in the newer revision |
| LegacyMultiRepoDownloader.CopyRevisionsAgree | src/AndKirby/Composer/MultiRepo/Downloader/GitMultiRepoDownloader.php:88-121 | the two revisions replicate alike except from a missing source, which the older one copies as a file and the newer one reports unreadable |
| LegacyMultiRepoDownloader.LegacyDoDownload | src/AndKirby/Composer/MultiRepo/Downloader/GitMultiRepoDownloader.php:133-159 | the older `doDownload` runs the same download steps on the path as the older revision normalizes it, replicating with the older copy (partners: LegacyFreshSharedDownload, LegacyDownloadIntoFreshClone) |
| LegacyMultiRepoDownloader.LegacyFreshSharedDownload | src/AndKirby/Composer/MultiRepo/Downloader/GitMultiRepoDownloader.php:133-159 | `<a>-<b>` is cloned at `<a>-multi-repo`, recorded, its references written back, and mirrored into its install path |
| LegacyMultiRepoDownloader.LegacyDownloadIntoFreshClone | src/AndKirby/Composer/MultiRepo/Downloader/GitMultiRepoDownloader.php:133-159 | once the path has normalized to a fresh clone elsewhere, that clone is made there and mirrored back |
| LegacyMultiRepoDownloader.LegacyDoUpdate | src/AndKirby/Composer/MultiRepo/Downloader/GitMultiRepoDownloader.php:161-167 | the older `doUpdate` passes the install path as given to the generic downloader's `doUpdate`, with no clone step, and replicates from the path normalized once (partners: LegacyUpdateOnInstallPath, UpdateTargetsDiffer) |
| LegacyMultiRepoDownloader.LegacyUpdateOnInstallPath | src/AndKirby/Composer/MultiRepo/Downloader/GitMultiRepoDownloader.php:161-167 | the generic downloader's `doUpdate` is handed `<a>-<b>` itself, not `<a>-multi-repo`, and replication then runs from `<a>-multi-repo` |
| LegacyMultiRepoDownloader.UpdateTargetsDiffer | src/AndKirby/Composer/MultiRepo/Downloader/GitMultiRepoDownloader.php:161-167 | on a path the newer revision shares, the older revision passes the install path to the generic downloader's `doUpdate` and the newer one passes the shared clone |
| MultiRepoPlugin.Retyped | src/MultiRepoPlugin.php:73 | the copy's `type` is the `multi-repo-type`, and every other field is kept |
| MultiRepoPlugin.Rewrite | src/MultiRepoPlugin.php:69-78 | the `updated` flag is raised exactly when some entry declares a `multi-repo-type` |
| MultiRepoPlugin.InitConfig | src/MultiRepoPlugin.php:65-85 | no merge happens exactly when no entry declares a `multi-repo-type` |
| MultiRepoPlugin.ExpectedStep | src/MultiRepoPlugin.php:69-78 | one loop iteration moves the entry-by-entry description by the body's two writes, or not at all |
| MultiRepoPlugin.RewriteMatches | src/MultiRepoPlugin.php:69-78 | the loop over the remaining names ends at the description with every name processed |
| MultiRepoPlugin.ExpectedComplete | src/MultiRepoPlugin.php:69-78 | when all entries are processed, each typed entry is disabled and its retyped copy sits under `<name>-multi-repo`; untyped entries are kept |
| MultiRepoPlugin.InitConfigRewrites | src/MultiRepoPlugin.php:65-85 | without name collisions, the merged configuration is exactly that description |
| MultiRepoPlugin.CollidingNamesOverwrite | src/MultiRepoPlugin.php:69-78 | entries are read from the original configuration, so when `a` and `a-multi-repo` both declare a type, both end disabled and only `a-multi-repo-multi-repo` survives |
| MultiRepoPlugin.RegisterTypes | src/MultiRepoPlugin.php:46-57 | every namespaced type is bound to the one downloader and to the namespace-aware class; every other binding is kept |

## Left out

- PHP's loose `==` between numeric strings (`"1e1" == "10"`): string comparisons are modelled as plain equality.
- PCRE's `$`, which also matches before a final newline: `StripDevSuffix` and `StripDevMarkers` match only at the true end of the string.
- Windows paths. Backslash directory separators, drive letters and the parent downloader's `normalizePath` (taken as the identity on POSIX paths) are out of scope.
- Filesystem, git and console I/O:
  - clone and fetch command strings (`getCloneCommand`, `getCloneCommandCallback`, `getFetchCommand`, `fetchRepositoryUpdates`, `cloneRepository`, `setPushUrl`);
  - `GitUtil::cleanEnv`, `initGitUtil`, `cleanUpDir`, `ensureDirectoryExists`;
  - the console messages.
  These are effects, not logic. Git operations appear as `GitStep` values, and replication appears as a list of `Step`s.
- The generic git downloader's `doUpdate` and `updateToCommit`. They are collaborators: the update is recorded as a step, and the checkout is a function that may return a new ref. The pretty version and release date passed to `updateToCommit` are not modelled.
- Where an update finally lands. Both revisions' `doUpdate` hand a path to the generic git downloader's `doUpdate`, and the model records that path. The generic `doUpdate` may normalize the path again, and PHP would dispatch that call to this class's `normalizePath`. So the older revision's update could also end up on `<a>-multi-repo`; the model does not decide this.
- Composer's driver detection order and the driver classes themselves. `__construct` is modelled as the driver table it builds, and `initialize` takes the chosen driver (or none) as input.
- Exceptions thrown by `getDist` and `getSource` inside `preProcess`. Manifest reading and loading have their error outcomes, but the driver's dist and source are total functions (a dist function may answer "no dist", as Composer's git driver does).
- How `Config::merge` combines configurations, and `activate`'s merge of the root package's `extra` into `root_extra_config`. The model yields the repositories array handed to `merge`, and the downloader reads its configuration as a value.
- `VcsNamespaceDriver`. Its one override, `getSource`, sets the source's type to the configured repository type. `preProcess` does the same to a driver-made source, and `NamespaceRepository.PreProcess` states that, so the class adds nothing to the model.
- The files under `AndKirby/` that only forward to `src/`, `GitLabNamespaceRepository` and `GitLabRepository`. They are class glue without logic of their own.
- `MultiRepoPlugin.getMultiRepositoryClassName` and `getVcsTypes`. They are constants, used through `NamespaceRepositoryClass` and `NamespacedTypes`.
- NamespaceExamples.MaintenanceBranch: stated for any stem the normalizer pads with wildcard groups and `-dev`. The version parser is not part of this model, so the concrete `2.1` → `2.1.9999999.9999999-dev` padding is a precondition, not a fact.
- MultiRepoPlugin.InitConfigRewrites: stated for configurations where no `<name>-multi-repo` is already a configured name. The colliding case is shown by `CollidingNamesOverwrite` on two entries, not in general.
- MultiRepoDownloader.NormalizeIdempotent: stated for install paths without a trailing `/`. With one, `basename` ignores the slash but `str_replace` still rewrites the path.
- GitLabDriver.BranchNameByHash: PHP's `array_search` uses loose `==`, so a hash can match a numeric-looking value; the model compares exactly.
