/**
 * `MultiRepoPlugin`: on activation, every configured repository that
 * declares a `multi-repo-type` is re-registered as `<name>-multi-repo` with
 * that type and its original entry is disabled; then every namespaced
 * repository type is bound to the multi-repository downloader and to the
 * namespace-aware repository class.
 */
module MultiRepoPlugin {
  import opened Wrappers
  import opened Php
  import opened NamespaceRepository

  const MultiRepoTypeKey: string := "multi-repo-type"
  const TypeKey: string := "type"
  const MultiRepoKeySuffix: string := "-multi-repo"
  const NamespaceRepositoryClass: string := "AndKirby\\Composer\\MultiRepo\\Repository\\VcsNamespaceRepository"

  /** A repository entry of the configuration: its fields, or `false` for one switched off. */
  datatype RepoEntry = Disabled | Repo(fields: map<string, string>)

  /** `!empty($repo['multi-repo-type'])`. */
  predicate HasMultiRepoType(e: RepoEntry) {
    e.Repo? && MultiRepoTypeKey in e.fields && Truthy(e.fields[MultiRepoTypeKey])
  }

  /** The copy registered under the new name: `type` replaced by `multi-repo-type`, all else kept. */
  function Retyped(e: RepoEntry): (r: RepoEntry)
    requires HasMultiRepoType(e)
    ensures r.Repo? && r.fields.Keys == e.fields.Keys + {TypeKey}
    ensures r.fields[TypeKey] == e.fields[MultiRepoTypeKey]
    ensures forall k :: k in e.fields && k != TypeKey ==> r.fields[k] == e.fields[k]
  {
    Repo(e.fields[TypeKey := e.fields[MultiRepoTypeKey]])
  }

  /** The configuration in its iteration order: every key once. */
  predicate WellOrdered(repos: map<string, RepoEntry>, order: seq<string>) {
    && (forall i :: 0 <= i < |order| ==> order[i] in repos)
    && (forall k :: k in repos ==> k in order)
    && (forall i, j :: 0 <= i < j < |order| ==> order[i] != order[j])
  }

  /**
   * The loop of `initConfig` over `names`, reading each entry from the
   * original configuration (PHP iterates over a copy), writing into `acc`.
   */
  function Rewrite(repos: map<string, RepoEntry>, names: seq<string>, acc: map<string, RepoEntry>, updated: bool)
    : (r: (map<string, RepoEntry>, bool))
    requires forall i :: 0 <= i < |names| ==> names[i] in repos
    ensures r.1 <==> updated || exists i :: 0 <= i < |names| && HasMultiRepoType(repos[names[i]])
    decreases |names|
  {
    if |names| == 0 then (acc, updated)
    else
      var name := names[0];
      var e := repos[name];
      var r := if !HasMultiRepoType(e) then Rewrite(repos, names[1..], acc, updated)
               else Rewrite(repos, names[1..], acc[name + MultiRepoKeySuffix := Retyped(e)][name := Disabled], true);
      assert forall i :: 0 <= i < |names| - 1 ==> names[1..][i] == names[i + 1];
      r
  }

  /**
   * `initConfig`: the rewritten configuration to merge, or nothing when no
   * entry declares a `multi-repo-type` (no merge happens).
   */
  function InitConfig(repos: map<string, RepoEntry>, order: seq<string>): (r: Option<map<string, RepoEntry>>)
    requires WellOrdered(repos, order)
    ensures r.None? <==> forall k :: k in repos ==> !HasMultiRepoType(repos[k])
  {
    var (m, updated) := Rewrite(repos, order, repos, false);
    if updated then Some(m) else None
  }

  /** No rewritten entry's new name is already a name of the configuration. */
  predicate NoSuffixCollision(repos: map<string, RepoEntry>) {
    forall n :: n in repos && HasMultiRepoType(repos[n]) ==> n + MultiRepoKeySuffix !in repos
  }

  /** The name a `-multi-repo` key was made from. */
  function Stem(k: string): string
    requires EndsWith(k, MultiRepoKeySuffix)
  {
    k[..|k| - |MultiRepoKeySuffix|]
  }

  /** Whether `k` is the new name of an entry of `done` that declares a `multi-repo-type`. */
  predicate IsNewName(repos: map<string, RepoEntry>, done: set<string>, k: string) {
    EndsWith(k, MultiRepoKeySuffix) && Stem(k) in done && Stem(k) in repos && HasMultiRepoType(repos[Stem(k)])
  }

  /** The new names of the entries of `done` that declare a `multi-repo-type`. */
  function NewNames(repos: map<string, RepoEntry>, done: set<string>): set<string> {
    set n | n in done && n in repos && HasMultiRepoType(repos[n]) :: n + MultiRepoKeySuffix
  }

  /**
   * The configuration once the entries of `done` are processed, stated
   * entry by entry: processed entries with a type are disabled and copied
   * under their new name, everything else is as configured.
   */
  function Expected(repos: map<string, RepoEntry>, done: set<string>): map<string, RepoEntry> {
    map k | k in repos.Keys + NewNames(repos, done) :: NewNameFromStem(repos, done, k); ExpectedAt(repos, done, k)
  }

  /** The entry `Expected` holds under the name `k`. */
  function ExpectedAt(repos: map<string, RepoEntry>, done: set<string>, k: string): RepoEntry
    requires k in repos || IsNewName(repos, done, k)
  {
    if k in done && k in repos && HasMultiRepoType(repos[k]) then Disabled
    else if IsNewName(repos, done, k) then Retyped(repos[Stem(k)])
    else repos[k]
  }

  lemma StemOfNewName(n: string)
    ensures EndsWith(n + MultiRepoKeySuffix, MultiRepoKeySuffix) && Stem(n + MultiRepoKeySuffix) == n
  {
    assert (n + MultiRepoKeySuffix)[..|n|] == n;
  }

  lemma NewNameFromStem(repos: map<string, RepoEntry>, done: set<string>, k: string)
    ensures k in NewNames(repos, done) <==> IsNewName(repos, done, k)
  {
    if IsNewName(repos, done, k) {
      var n := Stem(k);
      assert n + MultiRepoKeySuffix == k;
    }
    if k in NewNames(repos, done) {
      var n :| n in done && n in repos && HasMultiRepoType(repos[n]) && k == n + MultiRepoKeySuffix;
      StemOfNewName(n);
    }
  }

  /** Processing one more name moves `Expected` by the loop body's two writes, or not at all. */
  lemma {:induction false} ExpectedStep(repos: map<string, RepoEntry>, done: set<string>, name: string)
    requires NoSuffixCollision(repos)
    requires name in repos && name !in done
    ensures !HasMultiRepoType(repos[name]) ==> Expected(repos, done + {name}) == Expected(repos, done)
    ensures HasMultiRepoType(repos[name]) ==>
              Expected(repos, done + {name})
              == Expected(repos, done)[name + MultiRepoKeySuffix := Retyped(repos[name])][name := Disabled]
  {
    if HasMultiRepoType(repos[name]) {
      ExpectedStepTyped(repos, done, name);
    } else {
      ExpectedStepUntyped(repos, done, name);
    }
  }

  /** Both sets of new names, read through `IsNewName`. */
  lemma NewNamesBothWays(repos: map<string, RepoEntry>, done: set<string>, name: string)
    ensures forall k :: k in NewNames(repos, done + {name}) <==> IsNewName(repos, done + {name}, k)
    ensures forall k :: k in NewNames(repos, done) <==> IsNewName(repos, done, k)
  {
    forall k
      ensures k in NewNames(repos, done + {name}) <==> IsNewName(repos, done + {name}, k)
      ensures k in NewNames(repos, done) <==> IsNewName(repos, done, k)
    {
      NewNameFromStem(repos, done + {name}, k);
      NewNameFromStem(repos, done, k);
    }
  }

  /** An entry without a multi-repo type leaves `Expected` as it is. */
  lemma ExpectedStepUntyped(repos: map<string, RepoEntry>, done: set<string>, name: string)
    requires NoSuffixCollision(repos)
    requires name in repos && name !in done && !HasMultiRepoType(repos[name])
    ensures Expected(repos, done + {name}) == Expected(repos, done)
  {
    var before := Expected(repos, done);
    var after := Expected(repos, done + {name});
    UntypedNewNames(repos, done, name);
    assert after.Keys == before.Keys;
    forall k | k in after.Keys ensures after[k] == before[k] {
      NewNameFromStem(repos, done, k);
      assert after[k] == ExpectedAt(repos, done + {name}, k);
    }
  }

  /** An entry without a multi-repo type adds no new name. */
  lemma UntypedNewNames(repos: map<string, RepoEntry>, done: set<string>, name: string)
    requires name in repos && !HasMultiRepoType(repos[name])
    ensures NewNames(repos, done + {name}) == NewNames(repos, done)
    ensures forall k :: IsNewName(repos, done + {name}, k) == IsNewName(repos, done, k)
  {
    assert NewNames(repos, done + {name}) == NewNames(repos, done);
  }

  /** An entry with a multi-repo type is disabled and copied under its new name. */
  lemma ExpectedStepTyped(repos: map<string, RepoEntry>, done: set<string>, name: string)
    requires NoSuffixCollision(repos)
    requires name in repos && name !in done && HasMultiRepoType(repos[name])
    ensures Expected(repos, done + {name})
            == Expected(repos, done)[name + MultiRepoKeySuffix := Retyped(repos[name])][name := Disabled]
  {
    var before := Expected(repos, done);
    var after := Expected(repos, done + {name});
    StemOfNewName(name);
    NewNamesBothWays(repos, done, name);
    var moved := before[name + MultiRepoKeySuffix := Retyped(repos[name])][name := Disabled];
    assert name + MultiRepoKeySuffix in NewNames(repos, done + {name});
    assert after.Keys == moved.Keys;
    forall k | k in after.Keys ensures after[k] == moved[k] {
      if k == name + MultiRepoKeySuffix {
        assert k !in repos;
        assert k != name by { assert |k| > |name|; }
      }
    }
  }

  /** The names among the first `i` of `order`. */
  function Done(order: seq<string>, i: nat): set<string>
    requires i <= |order|
  {
    set x | x in order[..i]
  }

  /** The loop, started from the configuration with `done` processed, ends at `Expected` of all names. */
  lemma {:induction false} RewriteMatches(repos: map<string, RepoEntry>, order: seq<string>, i: nat, updated: bool)
    requires WellOrdered(repos, order) && NoSuffixCollision(repos)
    requires i <= |order|
    ensures Rewrite(repos, order[i..], Expected(repos, Done(order, i)), updated).0
            == Expected(repos, Done(order, |order|))
    decreases |order| - i
  {
    var done := Done(order, i);
    if i < |order| {
      var name := order[i];
      assert order[i..][0] == name && order[i..][1..] == order[i + 1..];
      assert name !in done;
      assert Done(order, i + 1) == done + {name};
      ExpectedStep(repos, done, name);
      RewriteMatches(repos, order, i + 1, updated || HasMultiRepoType(repos[name]));
    } else {
      assert order[i..] == [];
    }
  }

  /** The names of `order`, as a set, are the configuration's names. */
  lemma OrderCoversKeys(repos: map<string, RepoEntry>, order: seq<string>)
    requires WellOrdered(repos, order)
    ensures (Done(order, |order|)) == repos.Keys
  {
    var all := Done(order, |order|);
    forall k | k in repos ensures k in all {
      var j :| 0 <= j < |order| && order[j] == k;
    }
  }

  /** With every entry processed, `Expected` is the rewritten configuration the loop promises. */
  lemma ExpectedComplete(repos: map<string, RepoEntry>)
    requires NoSuffixCollision(repos)
    ensures var m := Expected(repos, repos.Keys);
            && m.Keys == repos.Keys + NewNames(repos, repos.Keys)
            && (forall n :: n in repos && HasMultiRepoType(repos[n]) ==>
                  m[n] == Disabled && m[n + MultiRepoKeySuffix] == Retyped(repos[n]))
            && (forall n :: n in repos && !HasMultiRepoType(repos[n]) ==> m[n] == repos[n])
  {
    var m := Expected(repos, repos.Keys);
    forall n | n in repos && HasMultiRepoType(repos[n])
      ensures m[n + MultiRepoKeySuffix] == Retyped(repos[n])
    {
      StemOfNewName(n);
      assert n + MultiRepoKeySuffix in NewNames(repos, repos.Keys);
    }
    forall n | n in repos && !HasMultiRepoType(repos[n])
      ensures m[n] == repos[n]
    {
      NewNameFromStem(repos, repos.Keys, n);
    }
  }

  /** Before any entry is processed, `Expected` is the configuration itself. */
  lemma ExpectedInitial(repos: map<string, RepoEntry>)
    ensures Expected(repos, {}) == repos
  {
    assert NewNames(repos, {}) == {};
  }

  /**
   * When no new name collides with a configured one, the merged
   * configuration disables every entry that declares a `multi-repo-type`,
   * adds its retyped copy under `<name>-multi-repo`, and leaves every other
   * entry as it was.
   */
  lemma InitConfigRewrites(repos: map<string, RepoEntry>, order: seq<string>)
    requires WellOrdered(repos, order) && NoSuffixCollision(repos)
    requires exists k :: k in repos && HasMultiRepoType(repos[k])
    ensures InitConfig(repos, order) == Some(Expected(repos, repos.Keys))
  {
    assert Done(order, 0) == {};
    ExpectedInitial(repos);
    RewriteMatches(repos, order, 0, false);
    assert order[0..] == order;
    OrderCoversKeys(repos, order);
  }

  /**
   * Entries are read from the configuration as it was: when `a` and
   * `a-multi-repo` both declare a type, the second overwrites the copy
   * the first produced, then is itself disabled.
   */
  lemma CollidingNamesOverwrite(a: RepoEntry, b: RepoEntry, name: string)
    requires HasMultiRepoType(a) && HasMultiRepoType(b)
    ensures var other := name + MultiRepoKeySuffix;
            var repos := map[name := a, other := b];
            && WellOrdered(repos, [name, other])
            && InitConfig(repos, [name, other])
               == Some(map[name := Disabled, other := Disabled, other + MultiRepoKeySuffix := Retyped(b)])
  {
    var other := name + MultiRepoKeySuffix;
    assert other != name by { assert |other| > |name|; }
    assert other + MultiRepoKeySuffix != other && other + MultiRepoKeySuffix != name by {
      assert |other + MultiRepoKeySuffix| > |other| > |name|;
    }
    var repos := map[name := a, other := b];
    var order := [name, other];
    assert order[1..] == [other] && [other][1..] == [];
    var acc := repos[other := Retyped(a)][name := Disabled];
    assert Rewrite(repos, order, repos, false) == Rewrite(repos, [other], acc, true);
    var fin := acc[other + MultiRepoKeySuffix := Retyped(b)][other := Disabled];
    assert Rewrite(repos, [other], acc, true) == (fin, true);
    assert fin == map[name := Disabled, other := Disabled, other + MultiRepoKeySuffix := Retyped(b)];
  }

  /** Where a repository type's downloader and repository class are looked up. */
  datatype Registry<D> = Registry(downloaders: map<string, D>, repositoryClasses: map<string, string>)

  /**
   * The loop of `initMultiVcsRepositories`: every namespaced type is bound
   * to the one downloader and to the namespace-aware repository class;
   * other types keep their bindings.
   */
  method RegisterTypes<D>(registry: Registry<D>, downloader: D) returns (r: Registry<D>)
    ensures forall i :: 0 <= i < |NamespacedTypes| ==>
              && NamespacedTypes[i] in r.downloaders && r.downloaders[NamespacedTypes[i]] == downloader
              && NamespacedTypes[i] in r.repositoryClasses
              && r.repositoryClasses[NamespacedTypes[i]] == NamespaceRepositoryClass
    ensures forall t :: t !in NamespacedTypes ==>
              && (t in r.downloaders <==> t in registry.downloaders)
              && (t in registry.downloaders ==> r.downloaders[t] == registry.downloaders[t])
              && (t in r.repositoryClasses <==> t in registry.repositoryClasses)
              && (t in registry.repositoryClasses ==> r.repositoryClasses[t] == registry.repositoryClasses[t])
  {
    r := registry;
    var types := NamespacedTypes;
    for i := 0 to |types|
      invariant forall j :: 0 <= j < i ==>
                  && types[j] in r.downloaders && r.downloaders[types[j]] == downloader
                  && types[j] in r.repositoryClasses && r.repositoryClasses[types[j]] == NamespaceRepositoryClass
      invariant forall t :: t !in types ==>
                  && (t in r.downloaders <==> t in registry.downloaders)
                  && (t in registry.downloaders ==> r.downloaders[t] == registry.downloaders[t])
                  && (t in r.repositoryClasses <==> t in registry.repositoryClasses)
                  && (t in registry.repositoryClasses ==> r.repositoryClasses[t] == registry.repositoryClasses[t])
    {
      r := Registry(r.downloaders[types[i] := downloader], r.repositoryClasses[types[i] := NamespaceRepositoryClass]);
    }
  }
}
