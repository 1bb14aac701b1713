/**
 * The older `GitLabDriver`, a plain git driver: every ref is downloaded as a
 * tar archive of GitLab's `/repository/archive` endpoint, whatever the
 * repository's type. Its URL and ref lookup helpers match the newer
 * driver's and are shared with it.
 */
module LegacyGitLabDriver {
  import opened Wrappers
  import opened Php
  import opened NamespaceRepository
  import GitLabDriver

  const LegacyArchiveType: string := "tar"

  /** `_getBranchTarArchiveUrl`: no extension in the endpoint. */
  function LegacyArchiveUrl(url: string, ref: string): (u: string)
    ensures StartsWith(u, GitLabDriver.BaseArchiveUrl(url))
    ensures EndsWith(u, "/repository/archive?ref=" + ref)
    ensures |u| == |GitLabDriver.BaseArchiveUrl(url)| + |"/repository/archive?ref=" + ref|
  {
    var base := GitLabDriver.BaseArchiveUrl(url);
    var u := base + "/repository/archive?ref=" + ref;
    assert u[..|base|] == base;
    assert u[|u| - |"/repository/archive?ref=" + ref|..] == "/repository/archive?ref=" + ref;
    u
  }

  /** `getDist`: a tar archive of the ref naming the commit, without checksum. */
  function LegacyGetDist(url: string, tags: seq<(string, string)>, branches: seq<(string, string)>, id: string): (d: Dist)
    ensures d.distType == LegacyArchiveType && d.reference == id && d.shasum == ""
    ensures d.url == LegacyArchiveUrl(url, GitLabDriver.BranchNameByHash(tags, branches, id).GetOr(""))
  {
    Dist(LegacyArchiveType, LegacyArchiveUrl(url, GitLabDriver.BranchNameByHash(tags, branches, id).GetOr("")), id, "")
  }

  /**
   * The older `getDist` names the commit as the newer one does, whatever
   * the repository's type: a `tar` archive from the endpoint without an
   * extension, with the ref that names the commit (nothing when none does).
   */
  lemma LegacyDistNamesCommit(url: string, tags: seq<(string, string)>, branches: seq<(string, string)>, id: string)
    ensures var d := LegacyGetDist(url, tags, branches, id);
            var prefix := GitLabDriver.BaseArchiveUrl(url) + "/repository/archive?ref=";
            && d.distType == "tar" && d.reference == id && d.shasum == ""
            && StartsWith(d.url, prefix)
            && GitLabDriver.NamesCommit(tags, branches, id, d.url[|prefix|..])
  {
    var name := GitLabDriver.BranchNameByHash(tags, branches, id).GetOr("");
    var d := LegacyGetDist(url, tags, branches, id);
    var prefix := GitLabDriver.BaseArchiveUrl(url) + "/repository/archive?ref=";
    assert d.url == prefix + name;
    assert d.url[|prefix|..] == name;
    GitLabDriver.LookupNamesCommit(tags, branches, id);
  }

  /**
   * For a repository of a GitLab type with no archive type configured,
   * the two drivers differ only in the endpoint: `.zip` for the newer
   * one, nothing for the older one, and the archive types `zip` and `tar`.
   */
  lemma DriversDiffer(repo: GitLabDriver.GitLabRepo, id: string)
    requires Contains(repo.repoType, "gitlab") && repo.archiveType.None?
    ensures var name := GitLabDriver.BranchNameByHash(repo.tags, repo.branches, id).GetOr("");
            var base := GitLabDriver.BaseArchiveUrl(repo.url);
            && GitLabDriver.GetDist(repo, id).Some?
            && GitLabDriver.GetDist(repo, id).value.url == base + "/repository/archive.zip?ref=" + name
            && LegacyGetDist(repo.url, repo.tags, repo.branches, id).url == base + "/repository/archive?ref=" + name
            && GitLabDriver.GetDist(repo, id).value.reference == LegacyGetDist(repo.url, repo.tags, repo.branches, id).reference
  {
    var name := GitLabDriver.BranchNameByHash(repo.tags, repo.branches, id).GetOr("");
    GitLabDriver.EndpointLiterals();
    GitLabDriver.ArchiveUrlParts(repo, name);
  }
}
