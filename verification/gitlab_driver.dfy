/**
 * `GitLabDriver` (namespace-aware variant): a repository of a GitLab type
 * offers each tag or branch as an archive download from GitLab's
 * `/repository/archive` endpoint, named by the ref that points at the
 * commit.
 */
module GitLabDriver {
  import opened Wrappers
  import opened Php
  import opened NamespaceRepository

  const GitSuffix: string := ".git"
  const ArchivePath: string := "/repository/archive"
  const RefQuery: string := "?ref="
  const DefaultArchiveType: string := "zip"

  /**
   * What the driver reads from its repository configuration and the remote,
   * plus the generic VCS driver's `getDist` it falls back to.
   */
  datatype GitLabRepo = GitLabRepo(
    url: string,
    repoType: string,
    archiveType: Option<string>,   // `multi-repo.archive-type`, when set
    tags: seq<(string, string)>,   // tag name to commit hash, in the remote's order
    branches: seq<(string, string)>,
    parentDist: string -> Option<Dist>)   // None: the generic driver has no dist

  /** `getBaseArchiveUrl`: the repository URL without one trailing `.git`. */
  function BaseArchiveUrl(url: string): (base: string)
    ensures EndsWith(url, GitSuffix) ==> base + GitSuffix == url
    ensures !EndsWith(url, GitSuffix) ==> base == url
  {
    if EndsWith(url, GitSuffix) then url[..|url| - 4] else url
  }

  /** `getArchiveType`: the configured archive type, `zip` when none is set. */
  function ArchiveType(repo: GitLabRepo): string {
    repo.archiveType.GetOr(DefaultArchiveType)
  }

  /** `getArchiveUrlType`: the endpoint's file extension; `tar` is served as `.tar.gz`. */
  function ArchiveUrlType(archiveType: string): (ext: string)
    ensures |ext| > 0 && ext[0] == '.'
    ensures archiveType == "tar" ==> ext == ".tar.gz"
    ensures archiveType != "tar" ==> ext[1..] == archiveType
  {
    "." + (if archiveType == "tar" then "tar.gz" else archiveType)
  }

  /** `getBranchTarArchiveUrl`. */
  function ArchiveUrl(repo: GitLabRepo, ref: string): string {
    BaseArchiveUrl(repo.url) + ArchivePath + ArchiveUrlType(ArchiveType(repo)) + RefQuery + ref
  }

  /** The first tag pointing at `hash` exists and has a truthy name. */
  ghost predicate TruthyTagFirst(tags: seq<(string, string)>, hash: string) {
    exists i :: FirstMatchAt(tags, hash, i) && Truthy(tags[i].0)
  }

  /**
   * `getBranchNameByHash`: the first tag pointing at `hash`; when there is
   * none, or its name is falsy (`0`), the first branch pointing at it.
   */
  function BranchNameByHash(tags: seq<(string, string)>, branches: seq<(string, string)>, hash: string): (name: Option<string>)
    ensures name.Some? ==>
              (exists i :: 0 <= i < |tags| && tags[i] == (name.value, hash))
              || (exists i :: 0 <= i < |branches| && branches[i] == (name.value, hash))
    ensures (exists i :: 0 <= i < |branches| && branches[i].1 == hash) ==> name.Some?
    ensures name.None? ==> forall i :: 0 <= i < |branches| ==> branches[i].1 != hash
    ensures TruthyTagFirst(tags, hash) ==> exists i :: FirstMatchAt(tags, hash, i) && name == Some(tags[i].0)
    ensures !TruthyTagFirst(tags, hash) ==>
              && (name.None? <==> forall i :: 0 <= i < |branches| ==> branches[i].1 != hash)
              && (name.Some? ==> exists i :: FirstMatchAt(branches, hash, i) && name.value == branches[i].0)
  {
    var tag := ArraySearch(tags, hash);
    ArraySearchFirst(tags, hash);
    ArraySearchFirst(branches, hash);
    if tag.Some? && Truthy(tag.value) then tag else ArraySearch(branches, hash)
  }

  /**
   * `name` is what `getBranchNameByHash` reports for `hash`, with "" for
   * `false`: the first tag at the hash if its name is truthy, else the
   * first branch at it, else nothing.
   */
  ghost predicate NamesCommit(tags: seq<(string, string)>, branches: seq<(string, string)>, hash: string, name: string) {
    if TruthyTagFirst(tags, hash) then exists i :: FirstMatchAt(tags, hash, i) && name == tags[i].0
    else if exists i :: FirstMatchAt(branches, hash, i) then exists i :: FirstMatchAt(branches, hash, i) && name == branches[i].0
    else name == ""
  }

  /** The lookup, with `false` read as "", names the commit. */
  lemma LookupNamesCommit(tags: seq<(string, string)>, branches: seq<(string, string)>, hash: string)
    ensures NamesCommit(tags, branches, hash, BranchNameByHash(tags, branches, hash).GetOr(""))
  {
    var name := BranchNameByHash(tags, branches, hash);
    if !TruthyTagFirst(tags, hash) && name.None? {
      assert !exists i :: FirstMatchAt(branches, hash, i);
    }
  }

  /** A falsy first tag (such as `0`) is passed over: the tags then play no part. */
  lemma FalsyTagFallsThrough(tags: seq<(string, string)>, branches: seq<(string, string)>, hash: string, i: int)
    requires FirstMatchAt(tags, hash, i) && !Truthy(tags[i].0)
    ensures BranchNameByHash(tags, branches, hash) == BranchNameByHash([], branches, hash)
  {
    assert !TruthyTagFirst(tags, hash) by {
      forall k | FirstMatchAt(tags, hash, k) ensures k == i {
        FirstMatchUnique(tags, hash, i, k);
      }
    }
    ArraySearchFirst(tags, hash);
  }

  /** Without a truthy first tag, the first branch at the hash is reported, not a later one. */
  lemma FirstBranchWins(tags: seq<(string, string)>, branches: seq<(string, string)>, hash: string, i: int)
    requires !TruthyTagFirst(tags, hash) && FirstMatchAt(branches, hash, i)
    ensures BranchNameByHash(tags, branches, hash) == Some(branches[i].0)
  {
    ArraySearchFirst(tags, hash);
    ArraySearchFirst(branches, hash);
  }

  /** A tag `0` alone at the hash yields `false`; a branch at the same hash is reported instead. */
  lemma ZeroTagIgnored(hash: string)
    ensures BranchNameByHash([("0", hash)], [], hash).None?
    ensures BranchNameByHash([("0", hash)], [("b", hash)], hash) == Some("b")
  {
    assert FirstMatchAt([("0", hash)], hash, 0);
    FalsyTagFallsThrough([("0", hash)], [], hash, 0);
    FalsyTagFallsThrough([("0", hash)], [("b", hash)], hash, 0);
  }

  /**
   * `getDist`: whatever the generic driver gives (possibly no dist at all)
   * for a repository whose type does not mention `gitlab`; otherwise an
   * archive of the ref naming the commit, referenced by the commit and
   * without a checksum. An unknown commit leaves the ref empty.
   */
  function GetDist(repo: GitLabRepo, id: string): (d: Option<Dist>)
    ensures !Contains(repo.repoType, "gitlab") ==> d == repo.parentDist(id)
    ensures Contains(repo.repoType, "gitlab") ==>
              && d.Some? && d.value.reference == id && d.value.shasum == ""
              && d.value.distType == repo.archiveType.GetOr(DefaultArchiveType)
              && d.value.url == ArchiveUrl(repo, BranchNameByHash(repo.tags, repo.branches, id).GetOr(""))
  {
    if !Contains(repo.repoType, "gitlab") then repo.parentDist(id)
    else Some(Dist(ArchiveType(repo), ArchiveUrl(repo, BranchNameByHash(repo.tags, repo.branches, id).GetOr("")), id, ""))
  }

  /**
   * What `getDist` gives a repository of a GitLab type: an archive of the
   * configured type (`zip` by default) referenced by the commit, without a
   * checksum, fetched from the archive endpoint with the ref that names the
   * commit (nothing when none does). Other types get the parent's result,
   * which may be no dist.
   */
  lemma DistNamesCommit(repo: GitLabRepo, id: string)
    ensures !Contains(repo.repoType, "gitlab") ==> GetDist(repo, id) == repo.parentDist(id)
    ensures Contains(repo.repoType, "gitlab") ==>
              && GetDist(repo, id).Some?
              && var d := GetDist(repo, id).value;
              var prefix := BaseArchiveUrl(repo.url) + ArchivePath + ArchiveUrlType(d.distType) + RefQuery;
              && d.reference == id && d.shasum == ""
              && d.distType == repo.archiveType.GetOr(DefaultArchiveType)
              && StartsWith(d.url, prefix)
              && NamesCommit(repo.tags, repo.branches, id, d.url[|prefix|..])
  {
    if Contains(repo.repoType, "gitlab") {
      var name := BranchNameByHash(repo.tags, repo.branches, id).GetOr("");
      var d := GetDist(repo, id).value;
      var prefix := BaseArchiveUrl(repo.url) + ArchivePath + ArchiveUrlType(d.distType) + RefQuery;
      assert d.url == prefix + name;
      assert d.url[|prefix|..] == name;
      LookupNamesCommit(repo.tags, repo.branches, id);
    }
  }

  /** A tag with a truthy name wins over any branch at the same commit. */
  lemma TagPrecedence(tags: seq<(string, string)>, branches: seq<(string, string)>, hash: string, i: nat)
    requires i < |tags| && tags[i].1 == hash && Truthy(tags[i].0)
    requires forall j :: 0 <= j < i ==> tags[j].1 != hash
    ensures BranchNameByHash(tags, branches, hash) == Some(tags[i].0)
  {
    var tag := ArraySearch(tags, hash);
    var k :| 0 <= k < |tags| && tags[k] == (tag.value, hash) && forall j :: 0 <= j < k ==> tags[j].1 != hash;
    assert k == i;
  }

  /**
   * The archive URL is the base URL, the endpoint, the extension and the
   * ref, so the ref can be read back from it: two refs with the same URL
   * are the same ref.
   */
  lemma ArchiveUrlInjective(repo: GitLabRepo, a: string, b: string)
    requires ArchiveUrl(repo, a) == ArchiveUrl(repo, b)
    ensures a == b
  {
    var prefix := BaseArchiveUrl(repo.url) + ArchivePath + ArchiveUrlType(ArchiveType(repo)) + RefQuery;
    assert ArchiveUrl(repo, a) == prefix + a;
    assert ArchiveUrl(repo, b) == prefix + b;
    assert a == (prefix + a)[|prefix|..];
    assert b == (prefix + b)[|prefix|..];
  }

  /** The archive URL, grouped as base, endpoint and ref. */
  lemma ArchiveUrlParts(repo: GitLabRepo, ref: string)
    ensures ArchiveUrl(repo, ref)
            == BaseArchiveUrl(repo.url) + (ArchivePath + ArchiveUrlType(ArchiveType(repo)) + RefQuery) + ref
  {
  }

  /** The two endpoints spelled out. */
  lemma EndpointLiterals()
    ensures ArchiveUrlType("zip") == ".zip" && ArchiveUrlType("tar") == ".tar.gz"
    ensures ArchivePath + ".zip" + RefQuery == "/repository/archive.zip?ref="
    ensures ArchivePath + ".tar.gz" + RefQuery == "/repository/archive.tar.gz?ref="
  {
  }

  /** With no archive type configured, a GitLab repository serves `.zip` archives of type `zip`. */
  lemma DefaultZipArchive(repo: GitLabRepo, id: string, name: string)
    requires Contains(repo.repoType, "gitlab") && repo.archiveType.None?
    requires BranchNameByHash(repo.tags, repo.branches, id) == Some(name)
    ensures GetDist(repo, id).Some? && GetDist(repo, id).value.distType == "zip"
    ensures GetDist(repo, id).value.url == BaseArchiveUrl(repo.url) + "/repository/archive.zip?ref=" + name
  {
    EndpointLiterals();
    ArchiveUrlParts(repo, name);
  }

  /** Configured `tar` archives are fetched from the `.tar.gz` endpoint. */
  lemma TarArchive(repo: GitLabRepo, id: string, name: string)
    requires Contains(repo.repoType, "gitlab") && repo.archiveType == Some("tar")
    requires BranchNameByHash(repo.tags, repo.branches, id) == Some(name)
    ensures GetDist(repo, id).Some? && GetDist(repo, id).value.distType == "tar"
    ensures GetDist(repo, id).value.url == BaseArchiveUrl(repo.url) + "/repository/archive.tar.gz?ref=" + name
  {
    EndpointLiterals();
    ArchiveUrlParts(repo, name);
  }
}
