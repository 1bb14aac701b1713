/**
 * PHP's `basename` and `dirname` on POSIX paths (directory separator `/`),
 * including their treatment of trailing and repeated slashes.
 */
module PhpPaths {
  import opened Php

  const DirectorySeparator: char := '/'

  /** The characters after the last `/` of `t` (all of `t` when it has none). */
  function LastSegment(t: string): (r: string)
    ensures DirectorySeparator !in r
    ensures |r| <= |t| && r == t[|t| - |r|..]
    ensures |r| < |t| ==> t[|t| - |r| - 1] == DirectorySeparator
  {
    if |t| == 0 || t[|t| - 1] == DirectorySeparator then ""
    else
      var r := LastSegment(t[..|t| - 1]);
      assert t[..|t| - 1][|t| - 1 - |r|..] + [t[|t| - 1]] == t[|t| - |r| - 1..];
      r + [t[|t| - 1]]
  }

  /** The last segment of `t/segment` is `segment`, whatever `t` holds. */
  lemma {:induction false} LastSegmentAfterSeparator(t: string, segment: string)
    requires DirectorySeparator !in segment
    ensures LastSegment(t + [DirectorySeparator] + segment) == segment
    decreases |segment|
  {
    var p := t + [DirectorySeparator] + segment;
    if |segment| > 0 {
      var init := segment[..|segment| - 1];
      assert p[..|p| - 1] == t + [DirectorySeparator] + init;
      LastSegmentAfterSeparator(t, init);
      assert init + [segment[|segment| - 1]] == segment;
    }
  }

  /** `basename($p)`: trailing slashes are ignored, then the last component. */
  function Basename(p: string): string
  {
    LastSegment(RTrim(p, {DirectorySeparator}))
  }

  /**
   * A path without a trailing slash is its basename, or the text before
   * the basename's `/` followed by it.
   */
  lemma BasenameSplit(p: string)
    requires |p| == 0 || p[|p| - 1] != DirectorySeparator
    ensures var b := Basename(p);
            && DirectorySeparator !in b
            && |b| <= |p|
            && (|b| == |p| ==> b == p)
            && (|b| < |p| ==> p == p[..|p| - |b| - 1] + [DirectorySeparator] + b)
  {
    assert RTrim(p, {DirectorySeparator}) == p;
    var b := Basename(p);
    if |b| < |p| {
      assert p[|p| - |b|..] == b;
    }
  }

  /**
   * `dirname($p)`: drop trailing slashes, the last component and the slashes
   * before it; "." when nothing but one component is left, "/" when only
   * slashes are left, "" for the empty path.
   */
  function Dirname(p: string): string
  {
    if |p| == 0 then ""
    else
      var t := RTrim(p, {DirectorySeparator});
      if |t| == 0 then "/"
      else
        var head := t[..|t| - |LastSegment(t)|];
        if |head| == 0 then "."
        else
          var h := RTrim(head, {DirectorySeparator});
          if |h| == 0 then "/" else h
  }

  /**
   * For a path written as `dir/segment` (a non-empty `segment` without
   * slashes, a `dir` that does not end with one) `basename` is the segment
   * and `dirname` is `dir`.
   */
  lemma JoinedPathParts(dir: string, segment: string)
    requires |segment| > 0 && DirectorySeparator !in segment
    requires |dir| > 0 && dir[|dir| - 1] != DirectorySeparator
    ensures Basename(dir + [DirectorySeparator] + segment) == segment
    ensures Dirname(dir + [DirectorySeparator] + segment) == dir
  {
    var p := dir + [DirectorySeparator] + segment;
    assert RTrim(p, {DirectorySeparator}) == p;
    LastSegmentAfterSeparator(dir, segment);
    var head := p[..|p| - |segment|];
    assert head == dir + [DirectorySeparator];
    assert RTrim(head, {DirectorySeparator}) == dir by {
      var h := RTrim(head, {DirectorySeparator});
      assert RTrim(dir + [DirectorySeparator], {DirectorySeparator}) == RTrim(dir, {DirectorySeparator});
      assert RTrim(dir, {DirectorySeparator}) == dir;
    }
  }

  /** Trailing slashes change neither `basename` nor `dirname`. */
  lemma TrailingSlashIgnored(p: string)
    requires |p| > 0 && p[|p| - 1] != DirectorySeparator
    ensures Basename(p + [DirectorySeparator]) == Basename(p)
    ensures Dirname(p + [DirectorySeparator]) == Dirname(p)
  {
    var q := p + [DirectorySeparator];
    assert q[..|q| - 1] == p;
    assert RTrim(p, {DirectorySeparator}) == p;
    assert RTrim(q, {DirectorySeparator}) == p;
  }

  /**
   * The edge cases of `dirname`: "" for the empty path, "/" for a path of
   * slashes and for a component right under the root, "." for a lone
   * component.
   */
  lemma DirnameEdgeCases(segment: string)
    requires |segment| > 0 && DirectorySeparator !in segment
    ensures Dirname("") == ""
    ensures Dirname([DirectorySeparator]) == "/"
    ensures Dirname(segment) == "."
    ensures Dirname([DirectorySeparator] + segment) == "/"
    ensures Basename(segment) == segment && Basename([DirectorySeparator] + segment) == segment
  {
    assert RTrim(segment, {DirectorySeparator}) == segment;
    LastSegmentAfterSeparator("", segment);
    assert LastSegment(segment) == segment by {
      LastSegmentWhole(segment);
    }
    var p := [DirectorySeparator] + segment;
    assert RTrim(p, {DirectorySeparator}) == p;
    assert "" + [DirectorySeparator] + segment == p;
    assert p[..|p| - |segment|] == [DirectorySeparator];
    assert RTrim([DirectorySeparator], {DirectorySeparator}) == "";
  }

  /** A slash-free string is its own last segment. */
  lemma {:induction false} LastSegmentWhole(t: string)
    requires DirectorySeparator !in t
    ensures LastSegment(t) == t
    decreases |t|
  {
    if |t| > 0 {
      assert DirectorySeparator !in t[..|t| - 1];
      LastSegmentWhole(t[..|t| - 1]);
      assert t[..|t| - 1] + [t[|t| - 1]] == t;
    }
  }
}
