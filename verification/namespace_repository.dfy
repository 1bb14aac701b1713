/**
 * `VcsNamespaceRepository`: one repository whose tags and branches are named
 * `namespace/version` is turned into one package per namespace and version.
 * The VCS driver, Composer's version parser and the package loader are
 * collaborators passed in as values.
 */
module NamespaceRepository {
  import opened Wrappers
  import opened Php
  import opened RefNames

  /** The repository types this repository class serves. */
  const TypeVcs: string := "vcs-namespace"
  const TypeGit: string := "git-namespace"
  const TypeGitLab: string := "gitlab-namespace"
  const TypeGitHub: string := "github-namespace"
  const TypeGitBitbucket: string := "git-bitbucket-namespace"

  /** `getTypes`, in the order the plugin registers them. */
  const NamespacedTypes: seq<string> := [TypeVcs, TypeGit, TypeGitBitbucket, TypeGitHub, TypeGitLab]

  const GitHubDriver: string := "Composer\\Repository\\Vcs\\GitHubDriver"
  const GitLabDriver: string := "Composer\\Repository\\Vcs\\GitLabDriver"
  const GitBitbucketDriver: string := "Composer\\Repository\\Vcs\\GitBitbucketDriver"
  const GitDriver: string := "Composer\\Repository\\Vcs\\GitDriver"

  /** Composer's own driver list, which callers may extend or override. */
  const DefaultDrivers: map<string, string> := map[
    "github" := GitHubDriver,
    "gitlab" := GitLabDriver,
    "git-bitbucket" := GitBitbucketDriver,
    "git" := GitDriver,
    "hg-bitbucket" := "Composer\\Repository\\Vcs\\HgBitbucketDriver",
    "hg" := "Composer\\Repository\\Vcs\\HgDriver",
    "perforce" := "Composer\\Repository\\Vcs\\PerforceDriver",
    "fossil" := "Composer\\Repository\\Vcs\\FossilDriver",
    "svn" := "Composer\\Repository\\Vcs\\SvnDriver"]

  /** The driver each namespaced type is pinned to. */
  const NamespacedDrivers: map<string, string> := map[
    TypeVcs := GitDriver,
    TypeGit := GitDriver,
    TypeGitLab := GitLabDriver,
    TypeGitHub := GitHubDriver,
    TypeGitBitbucket := GitBitbucketDriver]

  /**
   * The driver table `__construct` hands to the parent class: Composer's
   * list, then the caller's entries, then the pinned namespaced types.
   */
  function DriverTable(callerDrivers: map<string, string>): (table: map<string, string>)
    ensures table.Keys == DefaultDrivers.Keys + callerDrivers.Keys + NamespacedDrivers.Keys
    ensures forall t :: t in NamespacedDrivers ==> table[t] == NamespacedDrivers[t]
    ensures forall t :: t in callerDrivers && t !in NamespacedDrivers ==> table[t] == callerDrivers[t]
    ensures forall t :: t in DefaultDrivers && t !in callerDrivers && t !in NamespacedDrivers ==>
              table[t] == DefaultDrivers[t]
  {
    DefaultDrivers + callerDrivers + NamespacedDrivers
  }

  /** Every type `getTypes` reports has a pinned driver, so none is left to the caller. */
  lemma NamespacedTypesPinned(callerDrivers: map<string, string>)
    ensures forall i :: 0 <= i < |NamespacedTypes| ==>
              NamespacedTypes[i] in NamespacedDrivers &&
              DriverTable(callerDrivers)[NamespacedTypes[i]] == NamespacedDrivers[NamespacedTypes[i]]
  {
  }

  /** Archive location of one package version. */
  datatype Dist = Dist(distType: string, url: string, reference: string, shasum: string)

  /** VCS location of one package version. */
  datatype Source = Source(sourceType: string, url: string, reference: string)

  /**
   * The package data this class reads or writes; every other manifest field
   * travels untouched in `other`. `None` is an unset key.
   */
  datatype PackageData = PackageData(
    name: Option<string>,
    version: Option<string>,
    versionNormalized: Option<string>,
    namespace: Option<string>,
    dist: Option<Dist>,
    source: Option<Source>,
    other: map<string, string>)

  /** Reading `composer.json` at a revision. */
  datatype Fetch =
    | Manifest(data: PackageData)
    | NoManifest              // null or an empty array
    | TransportFailure        // TransportException
    | Failure(message: string) // any other exception

  /** The VCS driver of the repository, reduced to what `initialize` calls. */
  datatype Driver = Driver(
    rootIdentifier: string,
    hasComposerFile: string -> Option<bool>,   // None: it threw
    composerInformation: string -> Fetch,
    tags: seq<(string, string)>,               // name => commit, in driver order
    branches: seq<(string, string)>,
    dist: string -> Option<Dist>,              // None: the driver has no dist (Composer's git driver)
    source: string -> Source)

  /** What the package loader makes of preprocessed data. */
  datatype LoadResult = Loaded | LoadedWithWarnings | LoadFailed(message: string)

  /** The configured repository and the library collaborators it uses. */
  datatype Repository = Repository(
    url: string,
    repoType: string,
    parser: VersionParser,
    load: PackageData -> LoadResult)

  datatype SkipReason =
    | InvalidName
    | NoComposerFile
    | VersionMismatch(tagVersion: string, manifestVersion: string)
    | TransportError
    | Error(message: string)

  /** What becomes of one tag or branch. */
  datatype RefOutcome = Accepted(package: PackageData) | Skipped(ref: string, reason: SkipReason)

  datatype RepositoryError = NoDriverFound(url: string) | NoValidComposerJson(url: string)

  /** Everything `initialize` leaves behind. */
  datatype Resolution = Resolution(
    packageName: string,
    tagOutcomes: seq<RefOutcome>,
    branchOutcomes: seq<RefOutcome>,
    packages: seq<PackageData>,
    branchErrorOccurred: bool)

  /**
   * The base package name: the root manifest's non-empty `name`, otherwise
   * PHP's `null`, which behaves as "" in every later use.
   */
  function RootPackageName(driver: Driver): string
  {
    match driver.hasComposerFile(driver.rootIdentifier)
    case Some(true) =>
      (match driver.composerInformation(driver.rootIdentifier)
       case Manifest(data) => if data.name.Some? && Truthy(data.name.value) then data.name.value else ""
       case NoManifest => ""
       case _ => "")
    case _ => ""
  }

  /**
   * The base name is the root manifest's `name` exactly when that manifest
   * is read and its name is non-empty and not "0"; a missing manifest, a
   * read that throws, a missing or falsy name all leave no base name.
   */
  lemma RootNameFromManifest(driver: Driver)
    ensures var root := driver.rootIdentifier;
            var named := driver.hasComposerFile(root) == Some(true)
                         && driver.composerInformation(root).Manifest?
                         && driver.composerInformation(root).data.name.Some?
                         && Truthy(driver.composerInformation(root).data.name.value);
            && (named ==> RootPackageName(driver) == driver.composerInformation(root).data.name.value)
            && (!named ==> RootPackageName(driver) == "")
            && (RootPackageName(driver) != "" <==> named)
  {
  }

  /**
   * `preProcess`: the package is named after the base name and its
   * namespace; `dist` and `source` come from the driver only when the
   * manifest has none, and a driver-made `source` carries the configured
   * repository type.
   */
  function PreProcess(repo: Repository, packageName: string, driver: Driver, data: PackageData, id: string): (r: PackageData)
    ensures packageName != repo.url ==>
              r.name == Some(packageName + "-" + NamespaceSuffix(data.namespace.GetOr("")))
    ensures packageName == repo.url ==> r.name == data.name
    ensures data.dist.Some? ==> r.dist == data.dist
    ensures data.dist.None? ==> r.dist == driver.dist(id)
    ensures data.source.Some? ==> r.source == data.source
    ensures data.source.None? ==>
              (r.source.Some? && r.source.value.sourceType == repo.repoType
               && r.source.value.url == driver.source(id).url
               && r.source.value.reference == driver.source(id).reference)
    ensures r.version == data.version && r.versionNormalized == data.versionNormalized
    ensures r.namespace == data.namespace && r.other == data.other
  {
    var named :=
      if packageName != repo.url
      then data.(name := Some(packageName + "-" + NamespaceSuffix(data.namespace.GetOr(""))))
      else data;
    var withDist := if named.dist.None? then named.(dist := driver.dist(id)) else named;
    if withDist.source.None?
    then withDist.(source := Some(driver.source(id).(sourceType := repo.repoType)))
    else withDist
  }

  /** One iteration of the tag loop of `initialize`. */
  function TagOutcome(repo: Repository, packageName: string, driver: Driver, rawTag: string, id: string): (r: RefOutcome)
    ensures r.Skipped? ==> r.ref == StripRelease(rawTag)
  {
    var tag := StripRelease(rawTag);
    match ValidateTag(repo.parser, tag)
    case None => Skipped(tag, InvalidName)
    case Some(parsed) =>
      if !Truthy(parsed) then Skipped(tag, InvalidName)
      else
        match driver.composerInformation(id)
        case NoManifest => Skipped(tag, NoComposerFile)
        case TransportFailure => Skipped(tag, TransportError)
        case Failure(message) => Skipped(tag, Error(message))
        case Manifest(data) =>
          var normalized :=
            if data.version.Some? then repo.parser.normalize(data.version.value) else Some(parsed);
          if normalized.None? then Skipped(tag, Error("invalid version"))
          else
            var version := if data.version.Some? then data.version.value else WithoutNamespace(tag);
            var ns := if data.namespace.Some? then data.namespace.value else Namespace(tag);
            var cleanVersion := StripDevSuffix(version);
            var cleanNormalized := StripDevMarkers(normalized.value);
            if cleanNormalized != parsed then Skipped(tag, VersionMismatch(parsed, cleanNormalized))
            else
              var prepared := PreProcess(repo, packageName, driver,
                data.(version := Some(cleanVersion), versionNormalized := Some(cleanNormalized), namespace := Some(ns)), id);
              match repo.load(prepared)
              case LoadFailed(message) => Skipped(tag, Error(message))
              case _ => Accepted(prepared)
  }

  /** One iteration of the branch loop of `initialize`. */
  function BranchOutcome(repo: Repository, packageName: string, driver: Driver, branch: string, id: string): (r: RefOutcome)
    ensures r.Skipped? ==> r.ref == branch
  {
    match ValidateBranch(repo.parser, branch)
    case None => Skipped(branch, InvalidName)
    case Some(parsed) =>
      if !Truthy(parsed) then Skipped(branch, InvalidName)
      else
        match driver.composerInformation(id)
        case NoManifest => Skipped(branch, NoComposerFile)
        case TransportFailure => Skipped(branch, TransportError)
        case Failure(message) => Skipped(branch, Error(message))
        case Manifest(data) =>
          var ns := if data.namespace.Some? then data.namespace.value else Namespace(branch);
          var version := BranchVersion(parsed, WithoutNamespace(branch));
          var prepared := PreProcess(repo, packageName, driver,
            data.(version := Some(version), namespace := Some(ns), versionNormalized := Some(parsed)), id);
          match repo.load(prepared)
          case Loaded => Accepted(prepared)
          case LoadedWithWarnings => Skipped(branch, Error("package has warnings"))
          case LoadFailed(message) => Skipped(branch, Error(message))
  }

  /** A skipped branch that raises the `branchErrorOccurred` flag. */
  predicate IsBranchError(o: RefOutcome) {
    o.Skipped? && o.reason.Error?
  }

  /** The packages of the accepted outcomes, in order. */
  function AcceptedPackages(outcomes: seq<RefOutcome>): (packages: seq<PackageData>)
    ensures |packages| <= |outcomes|
    ensures forall p :: p in packages <==> Accepted(p) in outcomes
    ensures |packages| == 0 <==> forall i :: 0 <= i < |outcomes| ==> outcomes[i].Skipped?
  {
    if |outcomes| == 0 then []
    else
      var rest := AcceptedPackages(outcomes[1..]);
      assert outcomes == [outcomes[0]] + outcomes[1..];
      if outcomes[0].Accepted? then [outcomes[0].package] + rest else rest
  }

  /**
   * `addPackage` appends: one accepted outcome contributes its package, a
   * skipped one nothing, and the packages of `a + b` are those of `a`
   * followed by those of `b`, so every accepted outcome gives one package,
   * duplicates included, in loop order.
   */
  lemma {:induction false} AcceptedPackagesConcat(a: seq<RefOutcome>, b: seq<RefOutcome>)
    ensures AcceptedPackages(a + b) == AcceptedPackages(a) + AcceptedPackages(b)
    ensures |a| == 1 ==> AcceptedPackages(a) == (if a[0].Accepted? then [a[0].package] else [])
    decreases |a|
  {
    if |a| == 0 {
      assert a + b == b;
    } else {
      var tail, ab := a[1..], a + b;
      assert ab[1..] == tail + b;
      AcceptedPackagesConcat(tail, b);
      var head, front, back := AcceptedHead(a[0]), AcceptedPackages(tail), AcceptedPackages(b);
      AcceptedPackagesStep(a);
      AcceptedPackagesStep(ab);
      Regroup(head, front, back);
      if |a| == 1 {
        assert front == [];
      }
    }
  }

  /** The package one outcome contributes: its own when accepted, none when skipped. */
  function AcceptedHead(o: RefOutcome): seq<PackageData> {
    if o.Accepted? then [o.package] else []
  }

  /** One unfolding of AcceptedPackages, stated apart so that the concat proof stays small. */
  lemma AcceptedPackagesStep(s: seq<RefOutcome>)
    requires |s| > 0
    ensures AcceptedPackages(s) == AcceptedHead(s[0]) + AcceptedPackages(s[1..])
  {
  }

  /** Whether any outcome raised the branch error flag. */
  function AnyBranchError(outcomes: seq<RefOutcome>): (b: bool)
    ensures b <==> exists i :: 0 <= i < |outcomes| && IsBranchError(outcomes[i])
  {
    if |outcomes| == 0 then false
    else
      var rest := AnyBranchError(outcomes[1..]);
      assert rest ==> exists i :: 0 <= i < |outcomes| && IsBranchError(outcomes[i]) by {
        if rest {
          var i :| 0 <= i < |outcomes[1..]| && IsBranchError(outcomes[1..][i]);
          assert IsBranchError(outcomes[i + 1]);
        }
      }
      assert (exists i :: 0 <= i < |outcomes| && IsBranchError(outcomes[i])) ==> IsBranchError(outcomes[0]) || rest by {
        if exists i :: 0 <= i < |outcomes| && IsBranchError(outcomes[i]) {
          var i :| 0 <= i < |outcomes| && IsBranchError(outcomes[i]);
          if i > 0 { assert IsBranchError(outcomes[1..][i - 1]); }
        }
      }
      IsBranchError(outcomes[0]) || rest
  }

  /**
   * The tag loop over the refs `tags` (the driver's tags, in its order): one
   * outcome per tag.
   */
  function TagOutcomes(repo: Repository, packageName: string, driver: Driver, tags: seq<(string, string)>): (r: seq<RefOutcome>)
    ensures |r| == |tags|
    ensures forall i :: 0 <= i < |r| ==> r[i] == TagOutcome(repo, packageName, driver, tags[i].0, tags[i].1)
  {
    MapSeq(TagStep(repo, packageName, driver), tags)
  }

  /** One iteration of the tag loop, as a function of the `(name, hash)` ref. */
  function TagStep(repo: Repository, packageName: string, driver: Driver): ((string, string)) -> RefOutcome {
    (t: (string, string)) => TagOutcome(repo, packageName, driver, t.0, t.1)
  }

  /** The branch loop over the refs `branches`: one outcome per branch. */
  function BranchOutcomes(repo: Repository, packageName: string, driver: Driver, branches: seq<(string, string)>): (r: seq<RefOutcome>)
    ensures |r| == |branches|
    ensures forall i :: 0 <= i < |r| ==> r[i] == BranchOutcome(repo, packageName, driver, branches[i].0, branches[i].1)
  {
    MapSeq(BranchStep(repo, packageName, driver), branches)
  }

  /** One iteration of the branch loop, as a function of the `(name, hash)` ref. */
  function BranchStep(repo: Repository, packageName: string, driver: Driver): ((string, string)) -> RefOutcome {
    (t: (string, string)) => BranchOutcome(repo, packageName, driver, t.0, t.1)
  }

  /**
   * Each tag is decided on its own, with no state carried between
   * iterations: the outcomes of the tags `a + b` are those of `a` followed
   * by those of `b`, and one tag's outcome is the same wherever it stands.
   */
  lemma TagOutcomesSplit(repo: Repository, packageName: string, driver: Driver, a: seq<(string, string)>, b: seq<(string, string)>)
    ensures TagOutcomes(repo, packageName, driver, a + b)
            == TagOutcomes(repo, packageName, driver, a) + TagOutcomes(repo, packageName, driver, b)
    ensures |a| == 1 ==> TagOutcomes(repo, packageName, driver, a) == [TagOutcome(repo, packageName, driver, a[0].0, a[0].1)]
  {
    MapSeqConcat(TagStep(repo, packageName, driver), a, b);
  }

  /** The same for branches: the outcomes of `a + b` are those of `a`, then those of `b`. */
  lemma BranchOutcomesSplit(repo: Repository, packageName: string, driver: Driver, a: seq<(string, string)>, b: seq<(string, string)>)
    ensures BranchOutcomes(repo, packageName, driver, a + b)
            == BranchOutcomes(repo, packageName, driver, a) + BranchOutcomes(repo, packageName, driver, b)
    ensures |a| == 1 ==> BranchOutcomes(repo, packageName, driver, a) == [BranchOutcome(repo, packageName, driver, a[0].0, a[0].1)]
  {
    MapSeqConcat(BranchStep(repo, packageName, driver), a, b);
  }

  /**
   * `initialize`: every tag, then every branch, each on its own; an error in
   * one never stops the others. A repository that yields no package at all
   * is invalid.
   */
  function Initialize(repo: Repository, driver: Option<Driver>): (r: Result<Resolution, RepositoryError>)
    ensures driver.None? ==> r == Err(NoDriverFound(repo.url))
    ensures driver.Some? ==>
              var tags := TagOutcomes(repo, RootPackageName(driver.value), driver.value, driver.value.tags);
              var branches := BranchOutcomes(repo, RootPackageName(driver.value), driver.value, driver.value.branches);
              && (r.Err? <==> (forall i :: 0 <= i < |tags| ==> tags[i].Skipped?)
                              && (forall i :: 0 <= i < |branches| ==> branches[i].Skipped?))
              && (r.Err? ==> r.error == NoValidComposerJson(repo.url))
              && (r.Ok? ==> r.value.tagOutcomes == tags && r.value.branchOutcomes == branches)
    ensures r.Ok? ==> r.value.packages == AcceptedPackages(r.value.tagOutcomes + r.value.branchOutcomes)
    ensures r.Ok? ==>
              && |r.value.packages| > 0
              && (forall p :: p in r.value.packages <==>
                    Accepted(p) in r.value.tagOutcomes || Accepted(p) in r.value.branchOutcomes)
              && (r.value.branchErrorOccurred <==>
                    exists i :: 0 <= i < |r.value.branchOutcomes| && IsBranchError(r.value.branchOutcomes[i]))
  {
    if driver.None? then Err(NoDriverFound(repo.url))
    else
      var d := driver.value;
      var packageName := RootPackageName(d);
      var tagOutcomes := TagOutcomes(repo, packageName, d, d.tags);
      var branchOutcomes := BranchOutcomes(repo, packageName, d, d.branches);
      var packages := AcceptedPackages(tagOutcomes) + AcceptedPackages(branchOutcomes);
      AcceptedPackagesConcat(tagOutcomes, branchOutcomes);
      if |packages| == 0 then Err(NoValidComposerJson(repo.url))
      else Ok(Resolution(packageName, tagOutcomes, branchOutcomes, packages, AnyBranchError(branchOutcomes)))
  }

  /** A repository with neither tags nor branches is invalid. */
  lemma EmptyRepositoryInvalid(repo: Repository, driver: Driver)
    requires |driver.tags| == 0 && |driver.branches| == 0
    ensures Initialize(repo, Some(driver)) == Err(NoValidComposerJson(repo.url))
  {
  }

  /**
   * The version of an accepted tag package: normalized from the text after
   * the first `/` of the tag (once every "release-" is removed); the
   * manifest's declared version, normalized and without dev markers, is that
   * same version, and without a declared version the tag's version has no dev
   * markers itself. `version` is the manifest's, or else that text, without
   * a trailing dev marker.
   */
  lemma AcceptedTagVersion(repo: Repository, packageName: string, driver: Driver, rawTag: string, id: string, data: PackageData)
    requires driver.composerInformation(id) == Manifest(data)
    requires TagOutcome(repo, packageName, driver, rawTag, id).Accepted?
    ensures var tag := StripRelease(rawTag);
            var p := TagOutcome(repo, packageName, driver, rawTag, id).package;
            var slash := StrPos(tag, NamespaceSeparator);
            && slash.Some? && slash.value > 0
            && p.versionNormalized == repo.parser.normalize(tag[slash.value + 1..])
            && p.versionNormalized.Some?
            && (data.version.None? ==>
                  StripDevMarkers(p.versionNormalized.value) == p.versionNormalized.value
                  && p.version == Some(StripDevSuffix(tag[slash.value + 1..])))
            && (data.version.Some? ==>
                  repo.parser.normalize(data.version.value).Some?
                  && StripDevMarkers(repo.parser.normalize(data.version.value).value) == p.versionNormalized.value
                  && p.version == Some(StripDevSuffix(data.version.value)))
  {
    NamespaceSplit(StripRelease(rawTag));
  }

  /**
   * The namespace and name of an accepted tag package: the manifest's
   * `namespace`, else the text before the first `/` of the tag; the name is
   * the base name, `-` and the lower snake-cased namespace.
   */
  lemma AcceptedTagName(repo: Repository, packageName: string, driver: Driver, rawTag: string, id: string, data: PackageData)
    requires driver.composerInformation(id) == Manifest(data)
    requires TagOutcome(repo, packageName, driver, rawTag, id).Accepted?
    ensures var tag := StripRelease(rawTag);
            var p := TagOutcome(repo, packageName, driver, rawTag, id).package;
            && p.namespace == Some(if data.namespace.Some? then data.namespace.value
                                   else tag[..StrPos(tag, NamespaceSeparator).value])
            && (packageName != repo.url ==>
                  p.name == Some(packageName + "-" + NamespaceSuffix(p.namespace.value)))
            && (packageName == repo.url ==> p.name == data.name)
  {
    NamespaceSplit(StripRelease(rawTag));
  }

  /**
   * The manifest's own `dist`, `source` and other fields reach an accepted
   * tag package unchanged; a missing dist is whatever the driver gives (none,
   * for a git driver), and a driver-made source carries the repository type.
   */
  lemma AcceptedTagManifestKept(repo: Repository, packageName: string, driver: Driver, rawTag: string, id: string, data: PackageData)
    requires driver.composerInformation(id) == Manifest(data)
    requires TagOutcome(repo, packageName, driver, rawTag, id).Accepted?
    ensures var p := TagOutcome(repo, packageName, driver, rawTag, id).package;
            && (data.dist.Some? ==> p.dist == data.dist)
            && (data.dist.None? ==> p.dist == driver.dist(id))
            && (data.source.Some? ==> p.source == data.source)
            && (data.source.None? ==> p.source.Some? && p.source.value.sourceType == repo.repoType)
            && p.other == data.other
  {
  }

  /**
   * A tag whose manifest declares a version that, normalized and without dev
   * markers, differs from the tag's own is skipped, and the loop goes on.
   */
  lemma MismatchedTagSkipped(repo: Repository, packageName: string, driver: Driver, rawTag: string, id: string,
                             data: PackageData, parsed: string, declared: string)
    requires ValidateTag(repo.parser, StripRelease(rawTag)) == Some(parsed) && Truthy(parsed)
    requires driver.composerInformation(id) == Manifest(data)
    requires data.version.Some? && repo.parser.normalize(data.version.value) == Some(declared)
    requires StripDevMarkers(declared) != parsed
    ensures TagOutcome(repo, packageName, driver, rawTag, id)
            == Skipped(StripRelease(rawTag), VersionMismatch(parsed, StripDevMarkers(declared)))
  {
  }

  /**
   * What an accepted branch package holds: the branch-normalized bare name as
   * `version_normalized` and the branch version rule's `version`, whatever
   * version the manifest declares.
   */
  lemma AcceptedBranch(repo: Repository, packageName: string, driver: Driver, branch: string, id: string, data: PackageData)
    requires driver.composerInformation(id) == Manifest(data)
    requires BranchOutcome(repo, packageName, driver, branch, id).Accepted?
    ensures var p := BranchOutcome(repo, packageName, driver, branch, id).package;
            var slash := StrPos(branch, NamespaceSeparator);
            && slash.Some? && slash.value > 0
            && p.versionNormalized == repo.parser.normalizeBranch(branch[slash.value + 1..])
            && p.version == Some(BranchVersion(p.versionNormalized.value, branch[slash.value + 1..]))
            && p.namespace == Some(if data.namespace.Some? then data.namespace.value else branch[..slash.value])
            && (data.dist.Some? ==> p.dist == data.dist)
            && (data.dist.None? ==> p.dist == driver.dist(id))
            && (data.source.Some? ==> p.source == data.source)
            && (data.source.None? ==> p.source.Some? && p.source.value.sourceType == repo.repoType)
            && (packageName != repo.url ==>
                  p.name == Some(packageName + "-" + NamespaceSuffix(p.namespace.value)))
            && p.other == data.other
  {
    NamespaceSplit(branch);
  }

  /** Branches are always versioned from their name: the manifest's `version` plays no part. */
  lemma BranchIgnoresManifestVersion(repo: Repository, packageName: string, driver: Driver, branch: string, id: string,
                                     data: PackageData, declared: Option<string>)
    requires driver.composerInformation(id) == Manifest(data)
    ensures var other := driver.(composerInformation := (i: string) =>
                           if i == id then Manifest(data.(version := declared)) else driver.composerInformation(i));
            BranchOutcome(repo, packageName, driver, branch, id) == BranchOutcome(repo, packageName, other, branch, id)
  {
  }

  /**
   * The package the tag loop hands to the loader for a tag `ns/bare` whose
   * bare name normalizes to `parsed`: the manifest's data with the cleaned
   * version, the tag's normalized version and the namespace filled in.
   */
  function PreparedTag(repo: Repository, packageName: string, driver: Driver, data: PackageData,
                       ns: string, bare: string, parsed: string, id: string): PackageData
  {
    PreProcess(repo, packageName, driver,
      data.(version := Some(StripDevSuffix(data.version.GetOr(bare))), versionNormalized := Some(parsed),
            namespace := Some(data.namespace.GetOr(ns))), id)
  }

  /** The package the branch loop hands to the loader for a branch `ns/bare`. */
  function PreparedBranch(repo: Repository, packageName: string, driver: Driver, data: PackageData,
                          ns: string, bare: string, parsed: string, id: string): PackageData
  {
    PreProcess(repo, packageName, driver,
      data.(version := Some(BranchVersion(parsed, bare)), namespace := Some(data.namespace.GetOr(ns)),
            versionNormalized := Some(parsed)), id)
  }

  /**
   * The converse of the accepted-tag lemmas: a tag `ns/bare` (after every
   * "release-" is removed) with a manifest whose version agrees with the
   * tag's, and a loader that does not fail on the package the loop
   * prepares, is accepted with that package.
   */
  lemma TagAcceptedWhen(repo: Repository, packageName: string, driver: Driver, rawTag: string, id: string,
                        data: PackageData, ns: string, bare: string, parsed: string)
    requires |ns| > 0 && NamespaceSeparator !in ns
    requires StripRelease(rawTag) == ns + [NamespaceSeparator] + bare
    requires repo.parser.normalize(bare) == Some(parsed) && Truthy(parsed)
    requires driver.composerInformation(id) == Manifest(data)
    requires data.version.None? ==> StripDevMarkers(parsed) == parsed
    requires data.version.Some? ==>
               repo.parser.normalize(data.version.value).Some?
               && StripDevMarkers(repo.parser.normalize(data.version.value).value) == parsed
    requires !repo.load(PreparedTag(repo, packageName, driver, data, ns, bare, parsed, id)).LoadFailed?
    ensures var o := TagOutcome(repo, packageName, driver, rawTag, id);
            && o == Accepted(PreparedTag(repo, packageName, driver, data, ns, bare, parsed, id))
            && o.package.versionNormalized == Some(parsed)
            && o.package.namespace == Some(data.namespace.GetOr(ns))
  {
    NamespaceJoin(ns, bare);
    ValidateJoined(repo.parser, ns, bare);
  }

  /**
   * The converse of `AcceptedBranch`: a branch `ns/bare` whose bare name the
   * branch normalizer accepts, with a manifest, and whose prepared package
   * the loader takes with neither errors nor warnings, is accepted with it.
   */
  lemma BranchAcceptedWhen(repo: Repository, packageName: string, driver: Driver, branch: string, id: string,
                           data: PackageData, ns: string, bare: string, parsed: string)
    requires |ns| > 0 && NamespaceSeparator !in ns
    requires branch == ns + [NamespaceSeparator] + bare
    requires repo.parser.normalizeBranch(bare) == Some(parsed) && Truthy(parsed)
    requires driver.composerInformation(id) == Manifest(data)
    requires repo.load(PreparedBranch(repo, packageName, driver, data, ns, bare, parsed, id)) == Loaded
    ensures var o := BranchOutcome(repo, packageName, driver, branch, id);
            && o == Accepted(PreparedBranch(repo, packageName, driver, data, ns, bare, parsed, id))
            && o.package.versionNormalized == Some(parsed)
            && o.package.version == Some(BranchVersion(parsed, bare))
            && o.package.namespace == Some(data.namespace.GetOr(ns))
  {
    NamespaceJoin(ns, bare);
    ValidateJoined(repo.parser, ns, bare);
  }
}
