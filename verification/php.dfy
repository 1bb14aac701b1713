/**
 * The PHP runtime behaviour the plugin leans on, stated over `seq<char>`:
 * string truthiness, `strpos`, `explode`/`implode`, `str_replace`,
 * `substr`-based prefix and suffix tests, `rtrim`/`trim`, ASCII
 * `strtolower` and `array_search` over an ordered string-keyed array.
 */
module Php {
  import opened Wrappers

  /** PHP converts a string to boolean `false` exactly when it is "" or "0". */
  predicate Truthy(s: string) {
    s != "" && s != "0"
  }

  /** `strpos($s, c)` for a one-character needle: the first index of `c`. */
  function StrPos(s: string, c: char): (r: Option<nat>)
    ensures r.None? <==> c !in s
    ensures r.Some? ==> r.value < |s| && s[r.value] == c && c !in s[..r.value]
  {
    if |s| == 0 then None
    else if s[0] == c then Some(0)
    else
      match StrPos(s[1..], c)
      case None => None
      case Some(i) => Some(i + 1)
  }

  /** The first `c` of `base + [c] + rest` is the one after `base` when `base` has none. */
  lemma StrPosAfter(base: string, c: char, rest: string)
    requires c !in base
    ensures StrPos(base + [c] + rest, c) == Some(|base|)
  {
    var s := base + [c] + rest;
    assert s[|base|] == c;
    assert s[..|base|] == base;
  }

  /**
   * `strpos($s, c)` used as a condition: PHP reads both `false` (absent) and
   * `0` (found at the very start) as false.
   */
  predicate HasInnerChar(s: string, c: char) {
    StrPos(s, c).Some? && StrPos(s, c).value > 0
  }

  lemma HasInnerCharMeans(s: string, c: char)
    ensures HasInnerChar(s, c) <==> (exists i :: 0 < i < |s| && s[i] == c) && (|s| > 0 ==> s[0] != c)
  {
    if HasInnerChar(s, c) {
      var i := StrPos(s, c).value;
      assert s[i] == c;
      assert s[0] != c by { assert s[0] == s[..i][0]; }
    }
    if (exists i :: 0 < i < |s| && s[i] == c) && (|s| > 0 ==> s[0] != c) {
      assert c in s;
    }
  }

  predicate OccursAt(s: string, sub: string, i: nat) {
    i + |sub| <= |s| && s[i..i + |sub|] == sub
  }

  predicate StartsWith(s: string, prefix: string) {
    OccursAt(s, prefix, 0)
  }

  /** `substr($s, -strlen($suffix)) == $suffix`, for a non-empty suffix. */
  predicate EndsWith(s: string, suffix: string) {
    |suffix| <= |s| && s[|s| - |suffix|..] == suffix
  }

  /** Putting the first character back in front of the rest. */
  lemma ConsSlice<T>(p: seq<T>, x: seq<T>)
    requires |p| > 0
    ensures [p[0]] + (p[1..] + x) == p + x
  {
    assert [p[0]] + p[1..] == p;
  }

  /** Concatenation regroups freely. */
  lemma Regroup<T>(a: seq<T>, b: seq<T>, c: seq<T>)
    ensures a + b + c == a + (b + c)
  {
  }

  /** The first `k` elements of `a + b` come from `a`, and the rest is `a[k..] + b`. */
  lemma DropFromConcat<T>(a: seq<T>, b: seq<T>, k: nat)
    requires k <= |a|
    ensures (a + b)[k..] == a[k..] + b
    ensures forall i :: 0 <= i < k ==> (a + b)[i] == a[i]
  {
  }

  /** A prefix put in front of three parts regroups with the first. */
  lemma RegroupFront<T>(x: seq<T>, p: seq<T>, j: seq<T>, q: seq<T>)
    ensures x + (p + j + q) == (x + p) + j + q
  {
  }

  /** Three elements in front of `r`, the last two regrouped with it. */
  lemma ThreeInFront<T>(x: T, y: T, z: T, r: seq<T>)
    ensures [x, y, z] + r == [x] + [y] + ([z] + r)
  {
  }

  /** A sequence that agrees with `u` and then with `v`, position by position, is `u + v`. */
  lemma SeqFromParts<T>(t: seq<T>, u: seq<T>, v: seq<T>)
    requires |t| == |u| + |v|
    requires forall i :: 0 <= i < |u| ==> t[i] == u[i]
    requires forall k :: 0 <= k < |v| ==> t[|u| + k] == v[k]
    ensures t == u + v
  {
    forall i | 0 <= i < |t| ensures t[i] == (u + v)[i] {
      if i >= |u| { assert t[|u| + (i - |u|)] == v[i - |u|]; }
    }
  }

  /** `f` applied to each element, in order: PHP's `foreach` collecting one result per element. */
  function MapSeq<A, B>(f: A -> B, s: seq<A>): (r: seq<B>)
    ensures |r| == |s|
    ensures forall i :: 0 <= i < |s| ==> r[i] == f(s[i])
  {
    seq(|s|, i requires 0 <= i < |s| => f(s[i]))
  }

  /** Mapping distributes over concatenation: no element's result depends on its neighbours. */
  lemma MapSeqConcat<A, B>(f: A -> B, a: seq<A>, b: seq<A>)
    ensures MapSeq(f, a + b) == MapSeq(f, a) + MapSeq(f, b)
  {
    var t, u, v := MapSeq(f, a + b), MapSeq(f, a), MapSeq(f, b);
    forall i | 0 <= i < |a| ensures t[i] == u[i] {
      assert (a + b)[i] == a[i];
    }
    forall k | 0 <= k < |b| ensures t[|a| + k] == v[k] {
      assert (a + b)[|a| + k] == b[k];
    }
    SeqFromParts(t, u, v);
  }

  /** Whatever is put in front of a string, its suffixes stay suffixes. */
  lemma EndsWithAfterPrefix(prefix: string, s: string, suffix: string)
    requires EndsWith(s, suffix)
    ensures EndsWith(prefix + s, suffix)
  {
    assert (prefix + s)[|prefix + s| - |suffix|..] == s[|s| - |suffix|..];
  }

  /** `strpos($s, $sub) !== false` for a multi-character needle. */
  function Contains(s: string, sub: string): (b: bool)
    ensures b <==> exists i :: 0 <= i <= |s| && OccursAt(s, sub, i)
    decreases |s|
  {
    if OccursAt(s, sub, 0) then true
    else if |s| == 0 then false
    else
      var b := Contains(s[1..], sub);
      assert forall i :: 0 <= i < |s| ==> (OccursAt(s[1..], sub, i) <==> OccursAt(s, sub, i + 1)) by {
        forall i | 0 <= i < |s|
          ensures OccursAt(s[1..], sub, i) <==> OccursAt(s, sub, i + 1)
        {
          if i + |sub| <= |s[1..]| {
            assert s[1..][i..i + |sub|] == s[i + 1..i + 1 + |sub|];
          }
        }
      }
      assert b ==> exists i :: 0 <= i <= |s| && OccursAt(s, sub, i) by {
        if b {
          var i :| 0 <= i <= |s[1..]| && OccursAt(s[1..], sub, i);
          assert OccursAt(s, sub, i + 1);
        }
      }
      assert (exists i :: 0 <= i <= |s| && OccursAt(s, sub, i)) ==> b by {
        if exists i :: 0 <= i <= |s| && OccursAt(s, sub, i) {
          var i :| 0 <= i <= |s| && OccursAt(s, sub, i);
          assert i != 0;
          assert OccursAt(s[1..], sub, i - 1);
        }
      }
      b
  }

  /** `implode(d, parts)`: the parts glued together with `d` between them. */
  function Implode(parts: seq<string>, d: char): string
  {
    if |parts| == 0 then ""
    else if |parts| == 1 then parts[0]
    else parts[0] + [d] + Implode(parts[1..], d)
  }

  /** `explode(d, s)`: the maximal `d`-free pieces of `s`, at least one. */
  function Explode(s: string, d: char): (parts: seq<string>)
    ensures |parts| >= 1
    ensures forall i :: 0 <= i < |parts| ==> d !in parts[i]
    ensures Implode(parts, d) == s
    decreases |s|
  {
    match StrPos(s, d)
    case None => [s]
    case Some(i) =>
      var rest := Explode(s[i + 1..], d);
      assert s == s[..i] + [d] + s[i + 1..];
      [s[..i]] + rest
  }

  /** `explode` gives the string back whole exactly when it holds no `d`. */
  lemma ExplodeWhole(s: string, d: char)
    ensures |Explode(s, d)| == 1 <==> d !in s
  {
  }

  /** Appending a part appends `d` and the part. */
  lemma {:induction false} ImplodeSnoc(parts: seq<string>, x: string, d: char)
    requires |parts| >= 1
    ensures Implode(parts + [x], d) == Implode(parts, d) + [d] + x
    decreases |parts|
  {
    if |parts| > 1 {
      assert (parts + [x])[1..] == parts[1..] + [x];
      ImplodeSnoc(parts[1..], x, d);
    } else {
      assert parts + [x] == [parts[0], x];
      assert [parts[0], x][1..] == [x];
    }
  }

  /**
   * The pieces of `s` but the last, glued back, are `s` up to its last
   * `d`; the last piece is what follows it.
   */
  lemma SplitAtLast(s: string, d: char)
    requires d in s
    ensures var parts := Explode(s, d);
            var head := Implode(parts[..|parts| - 1], d);
            && |head| < |s| && s[|head|] == d && s[..|head|] == head
            && s[|head| + 1..] == parts[|parts| - 1]
            && d !in s[|head| + 1..]
  {
    var parts := Explode(s, d);
    var n := |parts|;
    var init, last := parts[..n - 1], parts[n - 1];
    assert parts == init + [last];
    ImplodeSnoc(init, last, d);
    GluedAround(Implode(init, d), d, last);
  }

  /** The parts of `head + [d] + last` are found where they were put. */
  lemma GluedAround(head: string, d: char, last: string)
    ensures var s := head + [d] + last;
            && s[..|head|] == head && s[|head|] == d && s[|head| + 1..] == last
  {
  }

  /** Gluing the pieces back with the last one swapped for `x` swaps the corresponding suffix of `s`. */
  lemma ReplaceLastPiece(s: string, x: string, d: char)
    ensures var parts := Explode(s, d);
            var last := parts[|parts| - 1];
            && |last| <= |s| && s[|s| - |last|..] == last
            && Implode(parts[..|parts| - 1] + [x], d) == s[..|s| - |last|] + x
  {
    var parts := Explode(s, d);
    var n := |parts|;
    var last := parts[n - 1];
    if n == 1 {
      assert s == last;
      assert parts[..0] + [x] == [x];
    } else {
      var init := parts[..n - 1];
      assert parts == init + [last];
      ImplodeSnoc(init, last, d);
      ImplodeSnoc(init, x, d);
      var head := Implode(init, d) + [d];
      assert s == head + last;
      assert s[..|s| - |last|] == head;
      assert s[|s| - |last|..] == last;
    }
  }

  /** Exploding what was imploded gives back the parts, when none holds `d`. */
  lemma {:induction false} ExplodeImplode(parts: seq<string>, d: char)
    requires |parts| >= 1
    requires forall i :: 0 <= i < |parts| ==> d !in parts[i]
    ensures Explode(Implode(parts, d), d) == parts
    decreases |parts|
  {
    if |parts| > 1 {
      var s := Implode(parts, d);
      var rest := Implode(parts[1..], d);
      assert s == parts[0] + [d] + rest;
      assert s[..|parts[0]|] == parts[0];
      assert d !in s[..|parts[0]|];
      assert s[|parts[0]|] == d;
      assert StrPos(s, d) == Some(|parts[0]|);
      assert s[|parts[0]| + 1..] == rest;
      ExplodeImplode(parts[1..], d);
    }
  }

  /** The text before the first `d` of `s` (all of `s` when there is none). */
  lemma ExplodeHead(s: string, d: char)
    ensures StrPos(s, d).None? ==> Explode(s, d)[0] == s
    ensures StrPos(s, d).Some? ==> Explode(s, d)[0] == s[..StrPos(s, d).value]
  {
  }

  /** Dropping the first piece keeps everything after the first `d`. */
  lemma ExplodeTail(s: string, d: char)
    requires d in s
    ensures Implode(Explode(s, d)[1..], d) == s[StrPos(s, d).value + 1..]
  {
    var i := StrPos(s, d).value;
    assert Explode(s, d)[1..] == Explode(s[i + 1..], d);
  }

  /**
   * `str_replace($search, $replace, $s)`: one left-to-right scan replacing
   * every non-overlapping occurrence; the output is not scanned again.
   */
  function StrReplace(s: string, search: string, replace: string): string
    decreases |s|
  {
    if |search| == 0 || |s| < |search| then s
    else if OccursAt(s, search, 0) then replace + StrReplace(s[|search|..], search, replace)
    else [s[0]] + StrReplace(s[1..], search, replace)
  }

  /** An occurrence in `prefix + rest` past `prefix` is one in `rest`. */
  lemma OccursAtShift(prefix: string, rest: string, sub: string, i: nat)
    requires i >= |prefix|
    ensures OccursAt(prefix + rest, sub, i) <==> OccursAt(rest, sub, i - |prefix|)
  {
    if i + |sub| <= |prefix + rest| {
      assert (prefix + rest)[i..i + |sub|] == rest[i - |prefix|..i - |prefix| + |sub|];
    }
  }

  /** Nothing to replace leaves the subject as it was. */
  lemma {:induction false} StrReplaceAbsent(s: string, search: string, replace: string)
    requires forall i :: 0 <= i <= |s| ==> !OccursAt(s, search, i)
    ensures StrReplace(s, search, replace) == s
    decreases |s|
  {
    if |search| > 0 && |s| >= |search| {
      assert !OccursAt(s, search, 0);
      forall i | 0 <= i <= |s[1..]| ensures !OccursAt(s[1..], search, i) {
        assert s == [s[0]] + s[1..];
        OccursAtShift([s[0]], s[1..], search, i + 1);
      }
      StrReplaceAbsent(s[1..], search, replace);
      assert s == [s[0]] + s[1..];
    }
  }

  lemma StrReplaceMatch(s: string, search: string, replace: string)
    requires |search| > 0 && OccursAt(s, search, 0)
    ensures StrReplace(s, search, replace) == replace + StrReplace(s[|search|..], search, replace)
  {
  }

  /** Where no occurrence starts, the first character is copied (short subjects included). */
  lemma StrReplaceSkip(s: string, search: string, replace: string)
    requires |search| > 0 && |s| > 0 && !OccursAt(s, search, 0)
    ensures StrReplace(s, search, replace) == [s[0]] + StrReplace(s[1..], search, replace)
  {
  }

  /** A prefix without the first character of `search` is copied as it is. */
  lemma {:induction false} StrReplaceKeepsLeading(prefix: string, rest: string, search: string, replace: string)
    requires |search| > 0 && search[0] !in prefix
    ensures StrReplace(prefix + rest, search, replace) == prefix + StrReplace(rest, search, replace)
    decreases |prefix|
  {
    if |prefix| == 0 {
      assert prefix + rest == rest;
    } else if |prefix + rest| < |search| {
      assert |rest| < |search|;
    } else {
      var s := prefix + rest;
      var tail := StrReplace(rest, search, replace);
      assert StrReplace(s, search, replace) == [s[0]] + StrReplace(s[1..], search, replace) by {
        assert s[..|search|][0] != search[0];
        StrReplaceSkip(s, search, replace);
      }
      assert StrReplace(s[1..], search, replace) == prefix[1..] + tail by {
        assert s[1..] == prefix[1..] + rest;
        StrReplaceKeepsLeading(prefix[1..], rest, search, replace);
      }
      assert [s[0]] + (prefix[1..] + tail) == prefix + tail by {
        assert [s[0]] + prefix[1..] == prefix;
      }
    }
  }

  /** One occurrence between two pieces free of its first character is the only one replaced. */
  lemma StrReplaceOnce(before: string, search: string, after: string, replace: string)
    requires |search| > 0 && search[0] !in before && search[0] !in after
    ensures StrReplace(before + search + after, search, replace) == before + replace + after
  {
    StrReplaceKeepsLeading(before, search + after, search, replace);
    StrReplaceMatch(search + after, search, replace);
    assert (search + after)[|search|..] == after;
    StrReplaceKeepsLeading(after, "", search, replace);
    assert after + "" == after;
    assert before + search + after == before + (search + after);
  }

  /**
   * An occurrence split in two around another one: replacing the inner
   * one by nothing glues the halves into a new occurrence, which the
   * single pass does not revisit.
   */
  lemma StrReplaceAroundSplit(x: string, y: string, search: string)
    requires x + y == search && 0 < |x| < |search|
    requires search[|x|] != search[0]
    requires search[0] !in x[1..] && search[0] !in y
    ensures StrReplace(x + search + y, search, "") == search
  {
    var s := x + search + y;
    AroundSplitHead(x, y, search);
    AroundSplitTail(x, y, search);
    assert [s[0]] + (x[1..] + y) == x + y;
  }

  /** The text `x + search + y` does not start with `search`: its first character is copied. */
  lemma AroundSplitHead(x: string, y: string, search: string)
    requires x + y == search && 0 < |x| < |search|
    requires search[|x|] != search[0]
    ensures var s := x + search + y;
            StrReplace(s, search, "") == [s[0]] + StrReplace(s[1..], search, "")
  {
    var s := x + search + y;
    assert s[|x|] == search[0];
    assert s[..|search|][|x|] != search[|x|];
    StrReplaceSkip(s, search, "");
  }

  /** After that character, the one occurrence of `search` is removed. */
  lemma AroundSplitTail(x: string, y: string, search: string)
    requires 0 < |x| && |search| > 0
    requires search[0] !in x[1..] && search[0] !in y
    ensures StrReplace((x + search + y)[1..], search, "") == x[1..] + y
  {
    var before := x[1..];
    var t := before + search + y;
    assert (x + search + y)[1..] == t;
    StrReplaceOnce(before, search, y, "");
    assert before + "" == before;
  }

  /**
   * When `search` first occurs at the very end of `prefix + search`, only
   * that final occurrence is replaced.
   */
  lemma {:induction false} StrReplaceSuffixOnly(prefix: string, search: string, replace: string)
    requires |search| > 0
    requires forall i :: 0 <= i < |prefix| ==> !OccursAt(prefix + search, search, i)
    ensures StrReplace(prefix + search, search, replace) == prefix + replace
    decreases |prefix|
  {
    var s := prefix + search;
    if |prefix| == 0 {
      assert s == search;
      assert OccursAt(s, search, 0);
      assert s[|search|..] == "";
    } else {
      assert !OccursAt(s, search, 0);
      assert s[1..] == prefix[1..] + search;
      forall i | 0 <= i < |prefix[1..]|
        ensures !OccursAt(prefix[1..] + search, search, i)
      {
        assert !OccursAt(s, search, i + 1);
        assert s[i + 1..i + 1 + |search|] == (prefix[1..] + search)[i..i + |search|];
      }
      StrReplaceSuffixOnly(prefix[1..], search, replace);
      assert [s[0]] + (prefix[1..] + replace) == prefix + replace;
    }
  }

  /**
   * Replacing in `a + b` works piece by piece when no occurrence of
   * `search` straddles the join.
   */
  lemma {:induction false} StrReplaceConcat(a: string, b: string, search: string, replace: string)
    requires forall i :: 0 <= i < |a| && i + |search| > |a| ==> !OccursAt(a + b, search, i)
    ensures StrReplace(a + b, search, replace) == StrReplace(a, search, replace) + StrReplace(b, search, replace)
    decreases |a|, 1
  {
    var s := a + b;
    if |a| == 0 {
      assert s == b;
    } else if |search| == 0 || |s| < |search| {
    } else if OccursAt(s, search, 0) {
      StrReplaceConcatAtMatch(a, b, search, replace);
    } else {
      StrReplaceConcatPastChar(a, b, search, replace);
    }
  }

  /** `StrReplaceConcat` when `a + b` starts with an occurrence, which then lies in `a`. */
  lemma StrReplaceConcatAtMatch(a: string, b: string, search: string, replace: string)
    requires forall i :: 0 <= i < |a| && i + |search| > |a| ==> !OccursAt(a + b, search, i)
    requires |a| > 0 && |search| > 0 && OccursAt(a + b, search, 0)
    ensures StrReplace(a + b, search, replace) == StrReplace(a, search, replace) + StrReplace(b, search, replace)
    decreases |a|, 0
  {
    var s := a + b;
    var a' := a[|search|..];
    assert OccursAt(a, search, 0) && s[|search|..] == a' + b by {
      assert |search| <= |a|;
      assert a[..|search|] == s[..|search|];
    }
    forall i | 0 <= i < |a'| && i + |search| > |a'|
      ensures !OccursAt(a' + b, search, i)
    {
      assert s == a[..|search|] + (a' + b);
      OccursAtShift(a[..|search|], a' + b, search, i + |search|);
    }
    StrReplaceConcat(a', b, search, replace);
  }

  /** `StrReplaceConcat` when `a + b` does not start with an occurrence: its first character is copied. */
  lemma StrReplaceConcatPastChar(a: string, b: string, search: string, replace: string)
    requires forall i :: 0 <= i < |a| && i + |search| > |a| ==> !OccursAt(a + b, search, i)
    requires |a| > 0 && |search| > 0 && |a + b| >= |search| && !OccursAt(a + b, search, 0)
    ensures StrReplace(a + b, search, replace) == StrReplace(a, search, replace) + StrReplace(b, search, replace)
    decreases |a|, 0
  {
    var a' := a[1..];
    var ra, rb := StrReplace(a', search, replace), StrReplace(b, search, replace);
    assert StrReplace(a + b, search, replace) == [a[0]] + StrReplace(a' + b, search, replace) by {
      StrReplaceSkip(a + b, search, replace);
      assert (a + b)[1..] == a' + b && (a + b)[0] == a[0];
    }
    assert StrReplace(a' + b, search, replace) == ra + rb by {
      NoStraddleAfterFirst(a, b, search);
      StrReplaceConcat(a', b, search, replace);
    }
    assert StrReplace(a, search, replace) == [a[0]] + ra by {
      OccursAtExtend(a, b, search, 0);
      StrReplaceSkip(a, search, replace);
    }
    Regroup([a[0]], ra, rb);
  }

  /** An occurrence in `a` is one in `a + b`. */
  lemma OccursAtExtend(a: string, b: string, sub: string, i: nat)
    ensures OccursAt(a, sub, i) ==> OccursAt(a + b, sub, i)
  {
    if OccursAt(a, sub, i) {
      assert (a + b)[i..i + |sub|] == a[i..i + |sub|];
    }
  }

  /** Dropping the first character of `a` keeps the join of `a + b` free of straddling occurrences. */
  lemma NoStraddleAfterFirst(a: string, b: string, search: string)
    requires |a| > 0
    requires forall i :: 0 <= i < |a| && i + |search| > |a| ==> !OccursAt(a + b, search, i)
    ensures forall i :: 0 <= i < |a| - 1 && i + |search| > |a| - 1 ==> !OccursAt(a[1..] + b, search, i)
  {
    forall i | 0 <= i < |a| - 1 && i + |search| > |a| - 1
      ensures !OccursAt(a[1..] + b, search, i)
    {
      assert a + b == [a[0]] + (a[1..] + b);
      OccursAtShift([a[0]], a[1..] + b, search, i + 1);
    }
  }

  /** `rtrim($s, $chars)`: drops trailing characters that are in `chars`. */
  function RTrim(s: string, chars: set<char>): (r: string)
    ensures |r| <= |s| && r == s[..|r|]
    ensures r == "" || r[|r| - 1] !in chars
    ensures forall i :: |r| <= i < |s| ==> s[i] in chars
  {
    if |s| == 0 || s[|s| - 1] !in chars then s
    else RTrim(s[..|s| - 1], chars)
  }

  /** `ltrim($s, $chars)`: drops leading characters that are in `chars`. */
  function LTrim(s: string, chars: set<char>): (r: string)
    ensures |r| <= |s| && r == s[|s| - |r|..]
    ensures r == "" || r[0] !in chars
    ensures forall i :: 0 <= i < |s| - |r| ==> s[i] in chars
  {
    if |s| == 0 || s[0] !in chars then s
    else LTrim(s[1..], chars)
  }

  /** The characters PHP's `trim` strips by default. */
  const TrimChars: set<char> := {' ', '\t', '\n', '\r', '\0', 11 as char}

  /** `trim($s)` with the default character list. */
  function Trim(s: string): string {
    RTrim(LTrim(s, TrimChars), TrimChars)
  }

  predicate IsUpperAscii(c: char) {
    'A' <= c <= 'Z'
  }

  predicate IsLowerAscii(c: char) {
    'a' <= c <= 'z'
  }

  predicate IsDigitAscii(c: char) {
    '0' <= c <= '9'
  }

  function LowerChar(c: char): char {
    if IsUpperAscii(c) then (c as int + 32) as char else c
  }

  /** `strtolower`, ASCII letters only. */
  function ToLower(s: string): (r: string)
    ensures |r| == |s|
    ensures forall i :: 0 <= i < |s| ==> r[i] == LowerChar(s[i])
  {
    seq(|s|, i requires 0 <= i < |s| => LowerChar(s[i]))
  }

  /** Lowering works character by character, so it distributes over concatenation. */
  lemma ToLowerConcat(a: string, b: string)
    ensures ToLower(a + b) == ToLower(a) + ToLower(b)
  {
    var l := ToLower(a + b);
    var r := ToLower(a) + ToLower(b);
    forall i | 0 <= i < |l| ensures l[i] == r[i] {
      if i >= |a| { assert (a + b)[i] == b[i - |a|]; }
    }
  }

  /** Without capitals there is nothing to lower. */
  lemma ToLowerNoUpper(s: string)
    requires forall i :: 0 <= i < |s| ==> !IsUpperAscii(s[i])
    ensures ToLower(s) == s
  {
  }

  /** Lowering twice is lowering once. */
  lemma ToLowerIdempotent(s: string)
    ensures ToLower(ToLower(s)) == ToLower(s)
  {
    var r := ToLower(s);
    forall i | 0 <= i < |r|
      ensures !IsUpperAscii(r[i])
    {
      assert r[i] == LowerChar(s[i]);
    }
    ToLowerNoUpper(r);
  }

  /** `table[i]` is the first entry, in the array's order, whose value is `value`. */
  ghost predicate FirstMatchAt(table: seq<(string, string)>, value: string, i: int) {
    0 <= i < |table| && table[i].1 == value && forall j :: 0 <= j < i ==> table[j].1 != value
  }

  /** There is at most one first match. */
  lemma FirstMatchUnique(table: seq<(string, string)>, value: string, i: int, k: int)
    requires FirstMatchAt(table, value, i) && FirstMatchAt(table, value, k)
    ensures i == k
  {
  }

  /** `array_search` finds something exactly when there is a first match, and reports its key. */
  lemma ArraySearchFirst(table: seq<(string, string)>, value: string)
    ensures ArraySearch(table, value).Some? <==> exists i :: FirstMatchAt(table, value, i)
    ensures forall i :: FirstMatchAt(table, value, i) ==> ArraySearch(table, value) == Some(table[i].0)
  {
    var r := ArraySearch(table, value);
    forall i | FirstMatchAt(table, value, i) ensures r == Some(table[i].0) {
      assert r.Some?;
      var k :| 0 <= k < |table| && table[k] == (r.value, value) && forall j :: 0 <= j < k ==> table[j].1 != value;
      FirstMatchUnique(table, value, i, k);
    }
    if r.Some? {
      var k :| 0 <= k < |table| && table[k] == (r.value, value) && forall j :: 0 <= j < k ==> table[j].1 != value;
      assert FirstMatchAt(table, value, k);
    }
  }

  /**
   * `array_search($value, $table)` with string keys and values: the key of
   * the first entry (in the array's order) whose value is `value`.
   */
  function ArraySearch(table: seq<(string, string)>, value: string): (r: Option<string>)
    ensures r.None? <==> forall i :: 0 <= i < |table| ==> table[i].1 != value
    ensures r.Some? ==> exists i :: 0 <= i < |table| && table[i] == (r.value, value)
                                    && forall j :: 0 <= j < i ==> table[j].1 != value
  {
    if |table| == 0 then None
    else if table[0].1 == value then Some(table[0].0)
    else
      var r := ArraySearch(table[1..], value);
      assert r.Some? ==> exists i :: 0 <= i < |table| && table[i] == (r.value, value)
                                     && forall j :: 0 <= j < i ==> table[j].1 != value by {
        if r.Some? {
          var k :| 0 <= k < |table[1..]| && table[1..][k] == (r.value, value)
                   && forall j :: 0 <= j < k ==> table[1..][j].1 != value;
          assert table[k + 1] == (r.value, value);
          forall j | 0 <= j < k + 1 ensures table[j].1 != value {
            if j > 0 { assert table[1..][j - 1] == table[j]; }
          }
        }
      }
      r
  }
}
