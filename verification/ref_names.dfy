/**
 * How a namespaced tag or branch name `namespace/version` is taken apart,
 * validated and turned into version strings and a package-name suffix
 * (the helpers of `VcsNamespaceRepository`).
 */
module RefNames {
  import opened Wrappers
  import opened Php

  const NamespaceSeparator: char := '/'

  /** The text the tag loop removes from every tag name before anything else. */
  const ReleaseMarker: string := "release-"

  /**
   * Composer's version parser, which is not part of this model: each
   * operation either yields a normalized version or throws (`None`).
   */
  datatype VersionParser = VersionParser(
    normalize: string -> Option<string>,
    normalizeBranch: string -> Option<string>)

  /** `_getBranchNamespace`: the first `/`-separated piece of the ref. */
  function Namespace(ref: string): (ns: string)
    ensures NamespaceSeparator !in ns
  {
    Explode(ref, NamespaceSeparator)[0]
  }

  /** `_getBranchWithoutNamespace`: the ref with its first piece dropped. */
  function WithoutNamespace(ref: string): string
  {
    Implode(Explode(ref, NamespaceSeparator)[1..], NamespaceSeparator)
  }

  /**
   * A ref with a `/` is its namespace (the text before the first `/`), the
   * `/` and its bare name (everything after it).
   */
  lemma NamespaceSplit(ref: string)
    requires NamespaceSeparator in ref
    ensures Namespace(ref) + [NamespaceSeparator] + WithoutNamespace(ref) == ref
    ensures Namespace(ref) == ref[..StrPos(ref, NamespaceSeparator).value]
    ensures WithoutNamespace(ref) == ref[StrPos(ref, NamespaceSeparator).value + 1..]
  {
    ExplodeHead(ref, NamespaceSeparator);
    ExplodeTail(ref, NamespaceSeparator);
    var i := StrPos(ref, NamespaceSeparator).value;
    assert ref == ref[..i] + [NamespaceSeparator] + ref[i + 1..];
  }

  /** A ref without `/` is all namespace and has an empty bare name. */
  lemma NoSeparatorRef(ref: string)
    requires NamespaceSeparator !in ref
    ensures Namespace(ref) == ref && WithoutNamespace(ref) == ""
  {
  }

  /** Splitting `ns/bare` gives back `ns` and `bare` when `ns` has no `/`. */
  lemma NamespaceJoin(ns: string, bare: string)
    requires NamespaceSeparator !in ns
    ensures Namespace(ns + [NamespaceSeparator] + bare) == ns
    ensures WithoutNamespace(ns + [NamespaceSeparator] + bare) == bare
  {
    var ref := ns + [NamespaceSeparator] + bare;
    assert ref[..|ns|] == ns;
    assert ref[|ns|] == NamespaceSeparator;
    assert StrPos(ref, NamespaceSeparator) == Some(|ns|);
    NamespaceSplit(ref);
    assert ref[|ns| + 1..] == bare;
  }

  /**
   * `validateTag`: a normalized version for the bare name, or nothing when
   * the ref has no `/` after its first character or the parser throws.
   */
  function ValidateTag(parser: VersionParser, ref: string): (r: Option<string>)
    ensures !HasInnerChar(ref, NamespaceSeparator) ==> r.None?
    ensures HasInnerChar(ref, NamespaceSeparator) ==>
              r == parser.normalize(ref[StrPos(ref, NamespaceSeparator).value + 1..])
  {
    if !HasInnerChar(ref, NamespaceSeparator) then None
    else
      NamespaceSplit(ref);
      parser.normalize(WithoutNamespace(ref))
  }

  /** `validateBranch`: as `ValidateTag`, with the branch normalizer. */
  function ValidateBranch(parser: VersionParser, ref: string): (r: Option<string>)
    ensures !HasInnerChar(ref, NamespaceSeparator) ==> r.None?
    ensures HasInnerChar(ref, NamespaceSeparator) ==>
              r == parser.normalizeBranch(ref[StrPos(ref, NamespaceSeparator).value + 1..])
  {
    if !HasInnerChar(ref, NamespaceSeparator) then None
    else
      NamespaceSplit(ref);
      parser.normalizeBranch(WithoutNamespace(ref))
  }

  /**
   * A ref built as `namespace/bare` from a non-empty namespace without `/`
   * is validated by normalizing exactly `bare`.
   */
  lemma ValidateJoined(parser: VersionParser, ns: string, bare: string)
    requires |ns| > 0 && NamespaceSeparator !in ns
    ensures ValidateTag(parser, ns + [NamespaceSeparator] + bare) == parser.normalize(bare)
    ensures ValidateBranch(parser, ns + [NamespaceSeparator] + bare) == parser.normalizeBranch(bare)
  {
    var ref := ns + [NamespaceSeparator] + bare;
    NamespaceJoin(ns, bare);
    assert ref[..|ns|] == ns;
    assert StrPos(ref, NamespaceSeparator) == Some(|ns|);
    assert ref[|ns| + 1..] == bare;
  }

  /** Refs without a `/`, or whose first character is `/`, are never valid. */
  lemma RejectedRefs(parser: VersionParser, ref: string)
    requires NamespaceSeparator !in ref || (|ref| > 0 && ref[0] == NamespaceSeparator)
    ensures ValidateTag(parser, ref).None? && ValidateBranch(parser, ref).None?
  {
  }

  /** `str_replace('release-', '', $tag)`: every occurrence, in one pass. */
  function StripRelease(tag: string): string
  {
    StrReplace(tag, ReleaseMarker, "")
  }

  /** The marker is removed in the middle of a name too, not only as a prefix. */
  lemma StripReleaseEverywhere()
    ensures StripRelease("v1/release-2.3.0") == "v1/2.3.0"
    ensures StripRelease("release-v1/2.3.0") == "v1/2.3.0"
  {
    StripReleaseInside();
    StripReleaseLeading();
  }

  lemma StripReleaseInside()
    ensures StripRelease("v1/release-2.3.0") == "v1/2.3.0"
  {
    assert "v1/release-2.3.0" == "v1/" + ReleaseMarker + "2.3.0";
    StrReplaceOnce("v1/", ReleaseMarker, "2.3.0", "");
    assert "v1/" + "" + "2.3.0" == "v1/2.3.0";
  }

  lemma StripReleaseLeading()
    ensures StripRelease("release-v1/2.3.0") == "v1/2.3.0"
  {
    assert "release-v1/2.3.0" == "" + ReleaseMarker + "v1/2.3.0";
    StrReplaceOnce("", ReleaseMarker, "v1/2.3.0", "");
    assert "" + "" + "v1/2.3.0" == "v1/2.3.0";
  }

  /** One pass: a marker formed by the removal itself stays. */
  lemma StripReleaseSinglePass()
    ensures StripRelease("relrelease-ease-") == "release-"
  {
    assert "rel" + "ease-" == ReleaseMarker;
    assert "relrelease-ease-" == "rel" + ReleaseMarker + "ease-";
    StrReplaceAroundSplit("rel", "ease-", ReleaseMarker);
  }

  /** True for "dev" in any letter case. */
  predicate IsDevWord(w: string) {
    ToLower(w) == "dev"
  }

  predicate IsDevSeparator(c: char) {
    c == '.' || c == '-'
  }

  /** A text the pattern `[.-]?dev` (case-insensitive) matches exactly. */
  predicate IsDevMarker(m: string) {
    (|m| == 3 && IsDevWord(m)) || (|m| == 4 && IsDevSeparator(m[0]) && IsDevWord(m[1..]))
  }

  /**
   * `preg_replace('{[.-]?dev$}i', '', $s)`: removes a trailing "dev" in any
   * case together with one `.` or `-` right before it.
   */
  function StripDevSuffix(s: string): (r: string)
    ensures |r| <= |s| && r == s[..|r|]
    ensures r == s <==> !(|s| >= 3 && IsDevWord(s[|s| - 3..]))
    ensures r != s ==> IsDevMarker(s[|r|..])
    ensures r != s && |s| - |r| == 3 ==> r == "" || !IsDevSeparator(r[|r| - 1])
  {
    if |s| >= 3 && IsDevWord(s[|s| - 3..]) then
      if |s| >= 4 && IsDevSeparator(s[|s| - 4]) then
        assert s[|s| - 4..][1..] == s[|s| - 3..];
        s[..|s| - 4]
      else s[..|s| - 3]
    else s
  }

  /** `s` starts with "dev-" in any letter case. */
  predicate LeadingDev(s: string) {
    |s| >= 4 && ToLower(s[..4]) == "dev-"
  }

  /** `s` ends with "dev" in any letter case. */
  predicate TrailingDev(s: string) {
    |s| >= 3 && IsDevWord(s[|s| - 3..])
  }

  /**
   * `preg_replace('{(^dev-|[.-]?dev$)}i', '', $s)`: a leading "dev-" and a
   * trailing dev marker, both case-insensitive, are removed.
   */
  function StripDevMarkers(s: string): (r: string)
    ensures LeadingDev(s) ==> r == StripDevSuffix(s[4..])
    ensures !LeadingDev(s) ==> r == StripDevSuffix(s)
    ensures r == s <==> !LeadingDev(s) && !TrailingDev(s)
    ensures LeadingDev(s) ==>
              && 4 + |r| <= |s| && r == s[4..4 + |r|]
              && (4 + |r| == |s| || IsDevMarker(s[4 + |r|..]))
    ensures !LeadingDev(s) ==>
              && |r| <= |s| && r == s[..|r|]
              && (|r| == |s| || IsDevMarker(s[|r|..]))
  {
    if LeadingDev(s) then
      var r := StripDevSuffix(s[4..]);
      assert s[4..][|r|..] == s[4 + |r|..];
      r
    else StripDevSuffix(s)
  }

  /** One group the branch normalizer uses for a wildcard component. */
  const NineGroup: string := ".9999999"

  /** No `.9999999` group occurs anywhere in `s`. */
  predicate FreeOfNineGroups(s: string) {
    forall i :: 0 <= i <= |s| ==> !OccursAt(s, NineGroup, i)
  }

  /** Drops a run of consecutive leading `.9999999` groups. */
  function SkipNineGroups(s: string): (r: string)
    ensures |r| <= |s| && r == s[|s| - |r|..]
    ensures !StartsWith(r, NineGroup)
  {
    if StartsWith(s, NineGroup) then SkipNineGroups(s[8..]) else s
  }

  /** A character that does not start a group is copied. */
  lemma ReplaceNineGroupsCopy(c: char, rest: string)
    requires c != '.' || (|rest| > 0 && rest[0] != '9')
    ensures ReplaceNineGroups([c] + rest) == [c] + ReplaceNineGroups(rest)
  {
    var s := [c] + rest;
    assert s[1..] == rest;
    if |s| >= 8 {
      assert s[..8][0] == c;
      if c == '.' {
        assert s[..8][1] == rest[0];
      }
    }
    assert !StartsWith(s, NineGroup);
  }

  /** A run of groups becomes `.x`. */
  lemma ReplaceNineGroupsRun(rest: string)
    ensures ReplaceNineGroups(NineGroup + rest) == ".x" + ReplaceNineGroups(SkipNineGroups(rest))
  {
    assert StartsWith(NineGroup + rest, NineGroup);
    assert (NineGroup + rest)[8..] == rest;
  }

  /** `s` starts with `k` nines. */
  predicate NinesPrefix(s: string, k: nat) {
    |s| >= k && forall j :: 0 <= j < k ==> s[j] == '9'
  }

  /**
   * `preg_replace('{(\.9{7})+}', '.x', $s)`: every maximal run of `.9999999`
   * groups becomes `.x`.
   */
  function ReplaceNineGroups(s: string): (r: string)
    ensures FreeOfNineGroups(r)
    ensures |s| > 0 ==> |r| > 0
    ensures FreeOfNineGroups(s) ==> r == s
    ensures forall k :: 0 < k <= 7 && NinesPrefix(r, k) ==> NinesPrefix(s, k)
    decreases |s|
  {
    if |s| == 0 then ""
    else if StartsWith(s, NineGroup) then
      var rest := ReplaceNineGroups(SkipNineGroups(s[8..]));
      FreeAfterMarker(rest);
      assert !FreeOfNineGroups(s) by { assert OccursAt(s, NineGroup, 0); }
      ".x" + rest
    else
      var rest := ReplaceNineGroups(s[1..]);
      FreeAfterCopied(s, rest);
      NinesPrefixCons(s, rest);
      assert FreeOfNineGroups(s) ==> FreeOfNineGroups(s[1..]) by {
        if FreeOfNineGroups(s) { FreeOfNineGroupsTail(s); }
      }
      [s[0]] + rest
  }

  lemma FreeAfterMarker(rest: string)
    requires FreeOfNineGroups(rest)
    ensures FreeOfNineGroups(".x" + rest)
    ensures forall k :: 0 < k <= 7 ==> !NinesPrefix(".x" + rest, k)
  {
    var r := ".x" + rest;
    forall i | 0 <= i <= |r| ensures !OccursAt(r, NineGroup, i) {
      if i >= 2 {
        OccursAtShift(".x", rest, NineGroup, i);
      } else if i + 8 <= |r| {
        assert r[i..i + 8][1 - i] == r[1] == 'x';
      }
    }
    assert r[0] == '.';
  }

  lemma FreeOfNineGroupsTail(s: string)
    requires |s| > 0 && FreeOfNineGroups(s)
    ensures FreeOfNineGroups(s[1..])
  {
    forall i | 0 <= i <= |s[1..]| ensures !OccursAt(s[1..], NineGroup, i) {
      assert s == [s[0]] + s[1..];
      OccursAtShift([s[0]], s[1..], NineGroup, i + 1);
    }
  }

  lemma NinesPrefixCons(s: string, rest: string)
    requires |s| > 0
    requires forall k :: 0 < k <= 7 && NinesPrefix(rest, k) ==> NinesPrefix(s[1..], k)
    ensures forall k :: 0 < k <= 7 && NinesPrefix([s[0]] + rest, k) ==> NinesPrefix(s, k)
  {
    var r := [s[0]] + rest;
    forall k | 0 < k <= 7 && NinesPrefix(r, k) ensures NinesPrefix(s, k) {
      assert NinesPrefix(rest, k - 1) by {
        forall j | 0 <= j < k - 1 ensures rest[j] == '9' { assert rest[j] == r[j + 1]; }
      }
      if k > 1 {
        assert NinesPrefix(s[1..], k - 1);
      }
      forall j | 0 <= j < k ensures s[j] == '9' {
        if j > 0 { assert s[j] == s[1..][j - 1]; } else { assert s[0] == r[0]; }
      }
    }
  }

  lemma FreeAfterCopied(s: string, rest: string)
    requires |s| > 0 && !StartsWith(s, NineGroup)
    requires FreeOfNineGroups(rest)
    requires forall k :: 0 < k <= 7 && NinesPrefix(rest, k) ==> NinesPrefix(s[1..], k)
    ensures FreeOfNineGroups([s[0]] + rest)
  {
    var r := [s[0]] + rest;
    forall i | 0 <= i <= |r| ensures !OccursAt(r, NineGroup, i) {
      if i >= 1 {
        OccursAtShift([s[0]], rest, NineGroup, i);
      } else if OccursAt(r, NineGroup, 0) {
        assert NinesPrefix(rest, 7) by {
          forall j | 0 <= j < 7 ensures rest[j] == '9' {
            assert rest[j] == r[j + 1] == r[..8][j + 1];
          }
        }
        assert false;
      }
    }
  }

  /** `k` consecutive `.9999999` groups, as the branch normalizer pads missing components. */
  function NineGroups(k: nat): string {
    if k == 0 then "" else NineGroup + NineGroups(k - 1)
  }

  /** No `.` of `p` can start a group: each is followed by a character other than `9`. */
  predicate NoGroupStart(p: string) {
    |p| == 0 || ((p[0] != '.' || (|p| > 1 && p[1] != '9')) && NoGroupStart(p[1..]))
  }

  /** A prefix in which no group can start is copied unchanged. */
  lemma {:induction false} ReplaceNineGroupsKeepsPrefix(p: string, rest: string)
    requires NoGroupStart(p)
    ensures ReplaceNineGroups(p + rest) == p + ReplaceNineGroups(rest)
    decreases |p|
  {
    if |p| == 0 {
      assert p + rest == rest;
      assert p + ReplaceNineGroups(rest) == ReplaceNineGroups(rest);
    } else {
      CopyLeading(p, rest);
      ReplaceNineGroupsKeepsPrefix(p[1..], rest);
      ConsSlice(p, ReplaceNineGroups(rest));
    }
  }

  /** The first character of a prefix in which no group can start is copied. */
  lemma CopyLeading(p: string, rest: string)
    requires |p| > 0 && NoGroupStart(p)
    ensures ReplaceNineGroups(p + rest) == [p[0]] + ReplaceNineGroups(p[1..] + rest)
  {
    var tail := p[1..] + rest;
    assert p + rest == [p[0]] + tail;
    if p[0] == '.' {
      assert tail[0] == p[1];
    }
    ReplaceNineGroupsCopy(p[0], tail);
  }

  /** A run of groups is skipped up to a tail that does not start another. */
  lemma {:induction false} SkipAllNineGroups(k: nat, tail: string)
    requires !StartsWith(tail, NineGroup)
    ensures SkipNineGroups(NineGroups(k) + tail) == tail
    decreases k
  {
    if k == 0 {
      assert NineGroups(0) + tail == tail;
    } else {
      var rest := NineGroups(k - 1) + tail;
      assert NineGroups(k) + tail == NineGroup + rest;
      assert StartsWith(NineGroup + rest, NineGroup);
      assert (NineGroup + rest)[8..] == rest;
      SkipAllNineGroups(k - 1, tail);
    }
  }

  /**
   * A version stem padded with `k >= 1` wildcard groups and followed by a
   * tail without groups reads back as the stem, `.x` and the tail.
   */
  lemma WildcardVersion(stem: string, k: nat, tail: string)
    requires NoGroupStart(stem) && k > 0 && FreeOfNineGroups(tail)
    ensures ReplaceNineGroups(stem + NineGroups(k) + tail) == stem + ".x" + tail
  {
    var groups := NineGroups(k) + tail;
    NineGroupsCollapse(k, tail);
    ReplaceNineGroupsKeepsPrefix(stem, groups);
    Regroup(stem, NineGroups(k), tail);
    Regroup(stem, ".x", tail);
  }

  /** One run of groups before a tail without groups becomes `.x`. */
  lemma NineGroupsCollapse(k: nat, tail: string)
    requires k > 0 && FreeOfNineGroups(tail)
    ensures ReplaceNineGroups(NineGroups(k) + tail) == ".x" + tail
  {
    var rest := NineGroups(k - 1) + tail;
    NineGroupsUnfold(k, tail);
    FreeTailNotGroup(tail);
    SkipAllNineGroups(k - 1, tail);
    ReplaceNineGroupsRun(rest);
  }

  /** The first group of a non-empty run, split off. */
  lemma NineGroupsUnfold(k: nat, tail: string)
    requires k > 0
    ensures NineGroups(k) + tail == NineGroup + (NineGroups(k - 1) + tail)
  {
  }

  /** A tail without groups neither starts one nor changes under the replacement. */
  lemma FreeTailNotGroup(tail: string)
    requires FreeOfNineGroups(tail)
    ensures !StartsWith(tail, NineGroup) && ReplaceNineGroups(tail) == tail
  {
    assert !OccursAt(tail, NineGroup, 0);
  }

  /** The default-branch sentinel version of Composer's branch normalizer. */
  const TrunkVersion: string := "9999999-dev"

  /**
   * The `version` a branch package gets: "dev-" + bare name for dev and
   * trunk branches, the normalized version with its wildcard groups written
   * as `.x` otherwise.
   */
  function BranchVersion(normalized: string, bare: string): (v: string)
    ensures StartsWith(normalized, "dev-") || normalized == TrunkVersion ==> v == "dev-" + bare
    ensures !(StartsWith(normalized, "dev-") || normalized == TrunkVersion) ==>
              FreeOfNineGroups(v) && (FreeOfNineGroups(normalized) ==> v == normalized)
  {
    if StartsWith(normalized, "dev-") || normalized == TrunkVersion then "dev-" + bare
    else ReplaceNineGroups(normalized)
  }

  /** A branch normalized to `dev-<x>` is versioned `dev-<bare>`. */
  lemma DevBranchVersion(x: string, bare: string)
    ensures BranchVersion("dev-" + x, bare) == "dev-" + bare
  {
    assert ("dev-" + x)[..4] == "dev-";
  }

  /**
   * A maintenance branch `<stem>` that the normalizer pads with wildcard
   * groups and `-dev` (`2.1` becomes `2.1.9999999.9999999-dev`) is
   * versioned `<stem>.x-dev`.
   */
  lemma WildcardBranchVersion(stem: string, k: nat)
    requires NoGroupStart(stem) && |stem| > 0 && stem[0] != 'd' && stem[0] != '9' && k > 0
    ensures Truthy(stem + NineGroups(k) + "-dev")
    ensures BranchVersion(stem + NineGroups(k) + "-dev", stem) == stem + ".x-dev"
  {
    var normalized := stem + NineGroups(k) + "-dev";
    assert FreeOfNineGroups("-dev");
    WildcardVersion(stem, k, "-dev");
    assert stem + ".x" + "-dev" == stem + ".x-dev";
    assert normalized[0] == stem[0];
    assert !StartsWith(normalized, "dev-") by { assert |normalized| < 4 || normalized[..4][0] != 'd'; }
    assert normalized != TrunkVersion by { assert normalized[0] != TrunkVersion[0]; }
  }

  /** `[a-z0-9]` followed by `[A-Z]`: where the snake-case rewrite inserts `_`. */
  predicate CamelBoundary(a: char, b: char) {
    (IsLowerAscii(a) || IsDigitAscii(a)) && IsUpperAscii(b)
  }

  /** No two neighbouring characters of `s` form a boundary. */
  predicate NoCamelBoundary(s: string)
    decreases |s|
  {
    |s| < 2 || (!CamelBoundary(s[0], s[1]) && NoCamelBoundary(s[1..]))
  }

  /** `NoCamelBoundary` read position by position. */
  lemma {:induction false} NoCamelBoundaryAt(s: string, i: int)
    requires NoCamelBoundary(s) && 0 <= i < |s| - 1
    ensures !CamelBoundary(s[i], s[i + 1])
    decreases i
  {
    if i > 0 {
      NoCamelBoundaryAt(s[1..], i - 1);
    }
  }

  /** `s` without its underscores. */
  function EraseUnderscores(s: string): (r: string)
    ensures '_' !in r
  {
    if |s| == 0 then ""
    else if s[0] == '_' then EraseUnderscores(s[1..])
    else [s[0]] + EraseUnderscores(s[1..])
  }

  lemma {:induction false} EraseUnderscoresConcat(a: string, b: string)
    ensures EraseUnderscores(a + b) == EraseUnderscores(a) + EraseUnderscores(b)
    decreases |a|
  {
    if |a| > 0 {
      assert (a + b)[1..] == a[1..] + b;
      assert (a + b)[0] == a[0];
      EraseUnderscoresConcat(a[1..], b);
    } else {
      assert a + b == b;
    }
  }

  /**
   * `preg_replace('/([a-z0-9])([A-Z])/', '$1_$2', $s)`: an underscore goes
   * between every lower-case letter or digit and a following capital.
   */
  function SnakeBoundaries(s: string): (r: string)
    ensures |r| >= |s|
    ensures |s| > 0 ==> |r| > 0 && r[0] == s[0]
    ensures EraseUnderscores(r) == EraseUnderscores(s)
    ensures NoCamelBoundary(r)
    decreases |s|
  {
    if |s| >= 2 && CamelBoundary(s[0], s[1]) then
      var rest := SnakeBoundaries(s[2..]);
      EraseUnderscoresConcat([s[0], '_', s[1]], rest);
      EraseUnderscoresConcat([s[0], s[1]], s[2..]);
      assert s == [s[0], s[1]] + s[2..];
      [s[0], '_', s[1]] + rest
    else if |s| == 0 then ""
    else
      var rest := SnakeBoundaries(s[1..]);
      assert s == [s[0]] + s[1..];
      [s[0]] + rest
  }

  /** What the rewrite puts where `a` meets `b`: `_` exactly at a boundary. */
  function JoinSeparator(a: string, b: string): string {
    if |a| > 0 && |b| > 0 && CamelBoundary(a[|a| - 1], b[0]) then "_" else ""
  }

  /** A first character that is no lower-case letter or digit starts no boundary and is copied. */
  lemma SnakeCopiesNonLower(s: string)
    requires |s| > 0 && !IsLowerAscii(s[0]) && !IsDigitAscii(s[0])
    ensures SnakeBoundaries(s) == [s[0]] + SnakeBoundaries(s[1..])
  {
  }

  /**
   * The rewrite works piece by piece: rewriting `a + b` is rewriting `a`,
   * then `_` if `a` ends and `b` starts a boundary, then rewriting `b`.
   * With `SnakeBoundaries([c]) == [c]`, this pins an `_` at every boundary
   * and nowhere else.
   */
  lemma {:induction false} SnakeBoundariesConcat(a: string, b: string)
    ensures SnakeBoundaries(a + b) == SnakeBoundaries(a) + JoinSeparator(a, b) + SnakeBoundaries(b)
    ensures |a| == 1 ==> SnakeBoundaries(a) == a
    decreases |a|
  {
    if |a| == 0 {
      assert a + b == b;
    } else if |b| == 0 {
      assert a + b == a;
    } else if |a| == 1 {
      SnakeConcatSingle(a[0], b);
      assert a == [a[0]];
    } else if CamelBoundary(a[0], a[1]) {
      var t := a[2..];
      SnakeBoundariesConcat(t, b);
      SnakeConcatPair(a, b);
    } else {
      var t := a[1..];
      SnakeBoundariesConcat(t, b);
      SnakeConcatCopy(a, b);
    }
  }

  lemma SnakeConcatSingle(c: char, b: string)
    requires |b| > 0
    ensures SnakeBoundaries([c] + b) == [c] + JoinSeparator([c], b) + SnakeBoundaries(b)
    ensures SnakeBoundaries([c]) == [c]
  {
    if CamelBoundary(c, b[0]) {
      SnakeSingleAtBoundary(c, b);
    } else {
      DropFromConcat([c], b, 1);
    }
  }

  lemma SnakeSingleAtBoundary(c: char, b: string)
    requires |b| > 0 && CamelBoundary(c, b[0])
    ensures SnakeBoundaries([c] + b) == [c] + "_" + SnakeBoundaries(b)
  {
    assert SnakeBoundaries([c] + b) == [c, '_', b[0]] + SnakeBoundaries(b[1..]) by {
      DropFromConcat([c], b, 1);
      DropFromConcat([c, b[0]], b[1..], 2);
      assert [c] + b == [c, b[0]] + b[1..] by { ConsSlice(b, []); }
    }
    assert SnakeBoundaries(b) == [b[0]] + SnakeBoundaries(b[1..]) by {
      SnakeCopiesNonLower(b);
    }
    ThreeInFront(c, '_', b[0], SnakeBoundaries(b[1..]));
  }

  lemma SnakeConcatPair(a: string, b: string)
    requires |a| >= 2 && |b| > 0 && CamelBoundary(a[0], a[1])
    requires SnakeBoundaries(a[2..] + b) == SnakeBoundaries(a[2..]) + JoinSeparator(a[2..], b) + SnakeBoundaries(b)
    ensures SnakeBoundaries(a + b) == SnakeBoundaries(a) + JoinSeparator(a, b) + SnakeBoundaries(b)
  {
    var t := a[2..];
    DropFromConcat(a, b, 2);
    JoinAfterPair(a, b);
    RegroupFront([a[0], '_', a[1]], SnakeBoundaries(t), JoinSeparator(a, b), SnakeBoundaries(b));
  }

  /** Dropping a leading boundary pair leaves the separator before `b` unchanged. */
  lemma JoinAfterPair(a: string, b: string)
    requires |a| >= 2 && CamelBoundary(a[0], a[1])
    ensures JoinSeparator(a[2..], b) == JoinSeparator(a, b)
  {
    if |a| > 2 {
      assert a[2..][|a| - 3] == a[|a| - 1];
    }
  }

  lemma SnakeConcatCopy(a: string, b: string)
    requires |a| >= 2 && |b| > 0 && !CamelBoundary(a[0], a[1])
    requires SnakeBoundaries(a[1..] + b) == SnakeBoundaries(a[1..]) + JoinSeparator(a[1..], b) + SnakeBoundaries(b)
    ensures SnakeBoundaries(a + b) == SnakeBoundaries(a) + JoinSeparator(a, b) + SnakeBoundaries(b)
  {
    var t := a[1..];
    DropFromConcat(a, b, 1);
    assert (a + b)[0] == a[0] && (a + b)[1] == a[1];
    SnakeCopyStep(a + b);
    SnakeCopyStep(a);
    JoinAfterCopy(a, b);
    RegroupFront([a[0]], SnakeBoundaries(t), JoinSeparator(a, b), SnakeBoundaries(b));
  }

  /** A first character that starts no boundary is copied, and the rest rewritten. */
  lemma SnakeCopyStep(s: string)
    requires |s| >= 2 && !CamelBoundary(s[0], s[1])
    ensures SnakeBoundaries(s) == [s[0]] + SnakeBoundaries(s[1..])
  {
  }

  /** Dropping a copied first character leaves the separator before `b` unchanged. */
  lemma JoinAfterCopy(a: string, b: string)
    requires |a| >= 2
    ensures JoinSeparator(a[1..], b) == JoinSeparator(a, b)
  {
    assert a[1..][|a| - 2] == a[|a| - 1];
  }

  /** Where the input has no boundary the rewrite changes nothing. */
  lemma {:induction false} SnakeBoundariesIdentity(s: string)
    requires NoCamelBoundary(s)
    ensures SnakeBoundaries(s) == s
    decreases |s|
  {
    if |s| > 0 {
      SnakeBoundariesIdentity(s[1..]);
    }
  }

  /** The suffix `preProcess` appends to the base package name. */
  function NamespaceSuffix(ns: string): (r: string)
    ensures |r| >= |ns|
    ensures forall i :: 0 <= i < |r| ==> !IsUpperAscii(r[i])
    ensures EraseUnderscores(r) == ToLower(EraseUnderscores(ns))
  {
    var snake := SnakeBoundaries(ns);
    EraseUnderscoresToLower(snake);
    ToLower(snake)
  }

  /** Lowering neither makes nor removes an underscore, so it commutes with erasing them. */
  lemma {:induction false} EraseUnderscoresToLower(s: string)
    ensures EraseUnderscores(ToLower(s)) == ToLower(EraseUnderscores(s))
    decreases |s|
  {
    if |s| > 0 {
      var l := ToLower(s);
      assert s == [s[0]] + s[1..];
      ToLowerConcat([s[0]], s[1..]);
      assert l[0] == LowerChar(s[0]) && l[1..] == ToLower(s[1..]);
      EraseUnderscoresToLower(s[1..]);
      if s[0] != '_' {
        ToLowerConcat([s[0]], EraseUnderscores(s[1..]));
        assert ToLower([s[0]]) == [LowerChar(s[0])];
      }
    }
  }

  /**
   * The suffix is built piece by piece like the rewrite: that of `a + b`
   * is that of `a`, `_` exactly at a boundary between them, and that of
   * `b`.
   */
  lemma NamespaceSuffixConcat(a: string, b: string)
    ensures NamespaceSuffix(a + b) == NamespaceSuffix(a) + JoinSeparator(a, b) + NamespaceSuffix(b)
  {
    SnakeBoundariesConcat(a, b);
    var j := JoinSeparator(a, b);
    ToLowerConcat(SnakeBoundaries(a) + j, SnakeBoundaries(b));
    ToLowerConcat(SnakeBoundaries(a), j);
    assert ToLower(j) == j by {
      if j == "_" { assert ToLower(j)[0] == '_'; }
    }
  }

  /**
   * Two runs without a boundary inside, joined at a boundary, get exactly
   * one underscore at the join.
   */
  lemma {:induction false} SnakeSingleBoundary(a: string, b: string)
    requires |a| > 0 && |b| > 0 && CamelBoundary(a[|a| - 1], b[0])
    requires NoCamelBoundary(a) && NoCamelBoundary(b)
    ensures SnakeBoundaries(a + b) == a + ['_'] + b
    decreases |a|
  {
    if |a| == 1 {
      assert SnakeBoundaries(b[1..]) == b[1..] by {
        SnakeBoundariesIdentity(b[1..]);
      }
      assert SnakeBoundaries(a + b) == [a[0], '_', b[0]] + SnakeBoundaries(b[1..]) by {
        assert (a + b)[0] == a[0] && (a + b)[1] == b[0] && (a + b)[2..] == b[1..];
      }
      assert [a[0], '_', b[0]] + b[1..] == a + ['_'] + b by {
        assert a == [a[0]];
        ConsSlice(b, []);
      }
    } else {
      var tail := a[1..];
      assert SnakeBoundaries(a + b) == [a[0]] + SnakeBoundaries(tail + b) by {
        assert (a + b)[0] == a[0] && (a + b)[1..] == tail + b;
        SnakeCopiesFirst(a + b);
      }
      assert SnakeBoundaries(tail + b) == tail + ['_'] + b by {
        SnakeSingleBoundary(tail, b);
      }
      assert [a[0]] + (tail + ['_'] + b) == a + ['_'] + b by {
        ConsSlice(a, ['_'] + b);
        Regroup(tail, ['_'], b);
        Regroup(a, ['_'], b);
      }
    }
  }

  /** Where the first two characters are no boundary, the first is copied. */
  lemma SnakeCopiesFirst(s: string)
    requires |s| >= 2 && !CamelBoundary(s[0], s[1])
    ensures SnakeBoundaries(s) == [s[0]] + SnakeBoundaries(s[1..])
  {
  }

  lemma SnakeFooBar()
    ensures SnakeBoundaries("fooBar") == "foo_Bar"
  {
    assert "fooBar" == "foo" + "Bar";
    SnakeSingleBoundary("foo", "Bar");
    assert "foo" + ['_'] + "Bar" == "foo_Bar";
  }

  lemma LowerFooBar()
    ensures ToLower("foo_Bar") == "foo_bar"
  {
    var r := ToLower("foo_Bar");
    assert r[3] == '_' && r[4] == 'b';
    assert r[0] == 'f' && r[1] == 'o' && r[2] == 'o' && r[5] == 'a' && r[6] == 'r';
  }

  /** Distinct namespaces can share one package-name suffix. */
  lemma NamespaceSuffixCollides()
    ensures NamespaceSuffix("fooBar") == NamespaceSuffix("foo_bar") == "foo_bar"
  {
    assert NamespaceSuffix("foo_bar") == "foo_bar" by {
      SnakeBoundariesIdentity("foo_bar");
      LowerFooBar();
      ToLowerIdempotent("foo_Bar");
    }
    assert NamespaceSuffix("fooBar") == "foo_bar" by {
      SnakeFooBar();
      LowerFooBar();
    }
  }
}
