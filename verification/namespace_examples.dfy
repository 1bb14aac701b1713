/**
 * The resolver on concrete refs (`v1/release-2.3.0`, `<ns>/master`,
 * `<ns>/2.1`), with the version parser fixed only on the inputs involved.
 */
module NamespaceExamples {
  import opened Wrappers
  import opened Php
  import opened RefNames
  import opened NamespaceRepository

  lemma NoDevMarkers()
    ensures StripDevMarkers("2.3.0.0") == "2.3.0.0"
    ensures StripDevMarkers("9.9.9.0") == "9.9.9.0"
  {
    assert ToLower("2.3.0.0"[..4])[0] == '2';
    assert ToLower("2.3.0.0"[4..])[0] == '0';
    assert ToLower("9.9.9.0"[..4])[0] == '9';
    assert ToLower("9.9.9.0"[4..])[0] == '9';
  }

  lemma SuffixV1()
    ensures NamespaceSuffix("v1") == "v1"
  {
    SnakeBoundariesIdentity("v1");
    assert ToLower("v1")[0] == 'v' && ToLower("v1")[1] == '1';
  }

  /** Namespace `v1` names its packages `<root>-v1`. */
  lemma SuffixV1Name(root: string)
    ensures root + "-" + NamespaceSuffix("v1") == root + "-v1"
  {
    SuffixV1();
    assert root + "-" + "v1" == root + "-v1";
  }

  /**
   * Tag `v1/release-2.3.0` whose manifest declares version 2.3.0 becomes a
   * package of namespace `v1` normalized to the tag's version.
   */
  lemma MatchingTagAccepted(repo: Repository, packageName: string, driver: Driver, id: string, data: PackageData)
    requires repo.parser.normalize("2.3.0") == Some("2.3.0.0")
    requires driver.composerInformation(id) == Manifest(data)
    requires data.version == Some("2.3.0") && data.namespace.None?
    requires !repo.load(PreparedTag(repo, packageName, driver, data, "v1", "2.3.0", "2.3.0.0", id)).LoadFailed?
    ensures var o := TagOutcome(repo, packageName, driver, "v1/release-2.3.0", id);
            && o.Accepted?
            && o.package.versionNormalized == Some("2.3.0.0")
            && o.package.namespace == Some("v1")
  {
    ReleaseTagParts();
    TagAcceptedWhen(repo, packageName, driver, "v1/release-2.3.0", id, data, "v1", "2.3.0", "2.3.0.0");
  }

  /** `v1/release-2.3.0` is the tag `2.3.0` of namespace `v1`, with no dev marker in its normalized version. */
  lemma ReleaseTagParts()
    ensures StripRelease("v1/release-2.3.0") == "v1" + [NamespaceSeparator] + "2.3.0"
    ensures |"v1"| > 0 && NamespaceSeparator !in "v1"
    ensures StripDevMarkers("2.3.0.0") == "2.3.0.0" && Truthy("2.3.0.0")
  {
    StripReleaseInside();
    NoDevMarkers();
    assert "v1/2.3.0" == "v1" + [NamespaceSeparator] + "2.3.0";
  }

  /** The same tag with a manifest declaring 9.9.9 is skipped as a mismatch. */
  lemma MismatchedTagRejected(repo: Repository, packageName: string, driver: Driver, id: string, data: PackageData)
    requires repo.parser.normalize("2.3.0") == Some("2.3.0.0")
    requires repo.parser.normalize("9.9.9") == Some("9.9.9.0")
    requires driver.composerInformation(id) == Manifest(data)
    requires data.version == Some("9.9.9")
    ensures TagOutcome(repo, packageName, driver, "v1/release-2.3.0", id)
            == Skipped("v1/2.3.0", VersionMismatch("2.3.0.0", "9.9.9.0"))
  {
    StripReleaseInside();
    NoDevMarkers();
    assert "v1/2.3.0" == "v1" + [NamespaceSeparator] + "2.3.0";
    ValidateJoined(repo.parser, "v1", "2.3.0");
    MismatchedTagSkipped(repo, packageName, driver, "v1/release-2.3.0", id, data, "2.3.0.0", "9.9.9.0");
  }

  /** Branch `<ns>/master` gives the dev version `dev-master` in namespace `<ns>`. */
  lemma MasterBranch(repo: Repository, packageName: string, driver: Driver, id: string, data: PackageData, ns: string)
    requires |ns| > 0 && NamespaceSeparator !in ns
    requires repo.parser.normalizeBranch("master") == Some("dev-master")
    requires driver.composerInformation(id) == Manifest(data) && data.namespace.None?
    requires repo.load(PreparedBranch(repo, packageName, driver, data, ns, "master", "dev-master", id)) == Loaded
    ensures var o := BranchOutcome(repo, packageName, driver, ns + [NamespaceSeparator] + "master", id);
            && o.Accepted?
            && o.package.version == Some("dev-master")
            && o.package.namespace == Some(ns)
  {
    assert Truthy("dev-master") && BranchVersion("dev-master", "master") == "dev-master" by {
      DevBranchVersion("master", "master");
      assert "dev-" + "master" == "dev-master";
    }
    BranchAcceptedWhen(repo, packageName, driver, ns + [NamespaceSeparator] + "master", id, data, ns, "master", "dev-master");
  }

  /**
   * Branch `<ns>/<stem>`, which the normalizer pads to
   * `<stem>.9999999...-dev` (for 2.1: `2.1.9999999.9999999-dev`), gets the
   * wildcard version `<stem>.x-dev` in namespace `<ns>`.
   */
  lemma MaintenanceBranch(repo: Repository, packageName: string, driver: Driver, id: string, data: PackageData,
                          ns: string, stem: string, k: nat)
    requires |ns| > 0 && NamespaceSeparator !in ns
    requires NoGroupStart(stem) && |stem| > 0 && stem[0] != 'd' && stem[0] != '9' && k > 0
    requires repo.parser.normalizeBranch(stem) == Some(stem + NineGroups(k) + "-dev")
    requires driver.composerInformation(id) == Manifest(data) && data.namespace.None?
    requires repo.load(PreparedBranch(repo, packageName, driver, data, ns, stem, stem + NineGroups(k) + "-dev", id)) == Loaded
    ensures var o := BranchOutcome(repo, packageName, driver, ns + [NamespaceSeparator] + stem, id);
            && o.Accepted?
            && o.package.version == Some(stem + ".x-dev")
            && o.package.namespace == Some(ns)
  {
    WildcardBranchVersion(stem, k);
    BranchAcceptedWhen(repo, packageName, driver, ns + [NamespaceSeparator] + stem, id, data,
                       ns, stem, stem + NineGroups(k) + "-dev");
  }

  /** Any accepted branch of namespace `<ns>` is named `<root>-<suffix of ns>`. */
  lemma BranchPackageName(repo: Repository, driver: Driver, branch: string, id: string, data: PackageData, ns: string)
    requires RootPackageName(driver) != repo.url
    requires driver.composerInformation(id) == Manifest(data)
    requires BranchOutcome(repo, RootPackageName(driver), driver, branch, id).Accepted?
    requires BranchOutcome(repo, RootPackageName(driver), driver, branch, id).package.namespace == Some(ns)
    ensures BranchOutcome(repo, RootPackageName(driver), driver, branch, id).package.name
            == Some(RootPackageName(driver) + "-" + NamespaceSuffix(ns))
  {
    AcceptedBranch(repo, RootPackageName(driver), driver, branch, id, data);
  }

  /**
   * Branches `<ns>/master` and `<ns>/<stem>` (such as `v1/2.1`) give two
   * packages of namespace `<ns>`: a dev version and a wildcard
   * release-style version, under one name; for `v1` that name is
   * `<root>-v1`.
   */
  lemma MasterAndMaintenanceBranches(repo: Repository, driver: Driver, idMaster: string, idMaint: string,
                                     master: PackageData, maint: PackageData, ns: string, stem: string, k: nat)
    requires |ns| > 0 && NamespaceSeparator !in ns
    requires NoGroupStart(stem) && |stem| > 0 && stem[0] != 'd' && stem[0] != '9' && k > 0
    requires repo.parser.normalizeBranch("master") == Some("dev-master")
    requires repo.parser.normalizeBranch(stem) == Some(stem + NineGroups(k) + "-dev")
    requires driver.composerInformation(idMaster) == Manifest(master) && master.namespace.None?
    requires driver.composerInformation(idMaint) == Manifest(maint) && maint.namespace.None?
    requires repo.load(PreparedBranch(repo, RootPackageName(driver), driver, master, ns, "master", "dev-master", idMaster)) == Loaded
    requires repo.load(PreparedBranch(repo, RootPackageName(driver), driver, maint, ns, stem, stem + NineGroups(k) + "-dev", idMaint)) == Loaded
    requires RootPackageName(driver) != repo.url
    ensures var a := BranchOutcome(repo, RootPackageName(driver), driver, ns + [NamespaceSeparator] + "master", idMaster);
            var b := BranchOutcome(repo, RootPackageName(driver), driver, ns + [NamespaceSeparator] + stem, idMaint);
            && a.Accepted? && b.Accepted?
            && a.package.version == Some("dev-master")
            && b.package.version == Some(stem + ".x-dev")
            && a.package.name == b.package.name == Some(RootPackageName(driver) + "-" + NamespaceSuffix(ns))
            && (ns == "v1" ==> a.package.name == Some(RootPackageName(driver) + "-v1"))
  {
    var root := RootPackageName(driver);
    MasterBranch(repo, root, driver, idMaster, master, ns);
    MaintenanceBranch(repo, root, driver, idMaint, maint, ns, stem, k);
    BranchPackageName(repo, driver, ns + [NamespaceSeparator] + "master", idMaster, master, ns);
    BranchPackageName(repo, driver, ns + [NamespaceSeparator] + stem, idMaint, maint, ns);
    if ns == "v1" {
      SuffixV1Name(root);
    }
  }
}
