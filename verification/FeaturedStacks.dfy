/** Featured stacks: the stacks of the Kabanero's repositories are written into Stack resources. A version with
    a desired state is pinned: it is kept and left alone, whatever the repositories say. */
module FeaturedStacks {
  import opened Component
  import StackController

  type Versions = seq<StackVersion>

  /** The versions of every stack, by stack name: what is stored, and what the repositories feature. */
  type Store = map<string, Versions>

  predicate Pinned(v: StackVersion) {
    v.desiredState != ""
  }

  predicate HasVersion(versions: Versions, version: string) {
    exists i :: 0 <= i < |versions| && versions[i].version == version
  }

  function Entries(stacks: Store, name: string): Versions {
    if name in stacks then stacks[name] else []
  }

  // ---------------------------------------------------------------- the governance policy

  const POLICIES := ["strictDigest", "activeDigest", "ignoreDigest", "none"]

  /** No policy at all, or one of the supported ones. */
  predicate IsPolicy(policy: string) {
    policy == "" || policy in POLICIES
  }

  method ValidateGovernanceStackPolicy(policy: string) returns (valid: bool)
    ensures valid <==> IsPolicy(policy)
    ensures valid <==> policy in {"", "strictDigest", "activeDigest", "ignoreDigest", "none"}
  {
    valid := !(|policy| != 0 &&
      !(policy == POLICIES[1] || policy == POLICIES[2] || policy == POLICIES[3] || policy == POLICIES[0]));
  }

  // ---------------------------------------------------------------- reading the repositories

  datatype Repository = Repository(url: string, pipelines: seq<PipelineSpec>)

  datatype IndexStack = IndexStack(id: string, version: string, pipelines: seq<PipelineSpec>, images: seq<Image>)

  type Resolver = (Repository, seq<PipelineSpec>) -> Option<seq<IndexStack>>

  function VersionOf(s: IndexStack, skipRegistry: bool): StackVersion {
    StackVersion(s.version, "", s.pipelines, s.images, false, skipRegistry, "", "")
  }

  /** The versions a list of index stacks has for one stack, in list order. */
  function Featuring(stacks: seq<IndexStack>, id: string, skipRegistry: bool): (r: Versions)
    ensures forall i :: 0 <= i < |r| ==> !Pinned(r[i])
    ensures r != [] <==> exists i :: 0 <= i < |stacks| && stacks[i].id == id
  {
    if stacks == [] then []
    else
      var before := Featuring(stacks[..|stacks| - 1], id, skipRegistry);
      var last := stacks[|stacks| - 1];
      if last.id == id then before + [VersionOf(last, skipRegistry)] else before
  }

  function PipelinesFor(r: Repository, defaults: seq<PipelineSpec>): seq<PipelineSpec> {
    if r.pipelines == [] then defaults else r.pipelines
  }

  /** The stacks of all repositories one after the other, if every index can be read. */
  function AllStacks(repositories: seq<Repository>, defaults: seq<PipelineSpec>, resolve: Resolver):
    Option<seq<IndexStack>>
  {
    if repositories == [] then Some([])
    else
      var n := |repositories| - 1;
      match AllStacks(repositories[..n], defaults, resolve)
      case None => None
      case Some(before) =>
        match resolve(repositories[n], PipelinesFor(repositories[n], defaults))
        case None => None
        case Some(stacks) => Some(before + stacks)
  }

  ghost predicate Groups(index: Store, stacks: seq<IndexStack>, skipRegistry: bool) {
    && (forall id :: Entries(index, id) == Featuring(stacks, id, skipRegistry))
    && (forall id :: id in index ==> index[id] != [])
  }

  lemma GroupsNext(index: Store, stacks: seq<IndexStack>, s: IndexStack, skipRegistry: bool)
    requires Groups(index, stacks, skipRegistry)
    ensures Groups(index[s.id := Entries(index, s.id) + [VersionOf(s, skipRegistry)]], stacks + [s], skipRegistry)
  {
    assert (stacks + [s])[..|stacks|] == stacks;
    var index' := index[s.id := Entries(index, s.id) + [VersionOf(s, skipRegistry)]];
    forall id ensures Entries(index', id) == Featuring(stacks + [s], id, skipRegistry) {
      assert Entries(index, id) == Featuring(stacks, id, skipRegistry);
    }
  }

  lemma {:induction false} UnreadableLater(repositories: seq<Repository>, n: nat, defaults: seq<PipelineSpec>,
                                           resolve: Resolver)
    requires n <= |repositories| && AllStacks(repositories[..n], defaults, resolve).None?
    ensures AllStacks(repositories, defaults, resolve).None?
  {
    if n < |repositories| {
      var m := |repositories| - 1;
      assert repositories[..m][..n] == repositories[..n];
      UnreadableLater(repositories[..m], n, defaults, resolve);
    } else {
      assert repositories[..n] == repositories;
    }
  }

  /** Appends the stacks of one repository. */
  method AddStacks(index: Store, stacks: seq<IndexStack>, skipRegistry: bool, ghost seen: seq<IndexStack>)
    returns (stackMap: Store)
    requires Groups(index, seen, skipRegistry)
    ensures Groups(stackMap, seen + stacks, skipRegistry)
  {
    stackMap := index;
    assert seen + stacks[..0] == seen;
    for j := 0 to |stacks|
      invariant Groups(stackMap, seen + stacks[..j], skipRegistry)
    {
      GroupsNext(stackMap, seen + stacks[..j], stacks[j], skipRegistry);
      assert seen + stacks[..j] + [stacks[j]] == seen + stacks[..j + 1];
      var known := if stacks[j].id in stackMap then stackMap[stacks[j].id] else [];
      stackMap := stackMap[stacks[j].id := known + [VersionOf(stacks[j], skipRegistry)]];
    }
    assert stacks[..|stacks|] == stacks;
  }

  lemma GroupsAreIndex(index: Store, stacks: seq<IndexStack>, skipRegistry: bool)
    requires Groups(index, stacks, skipRegistry)
    ensures IsIndex(index)
  {
    forall id, i | id in index && 0 <= i < |index[id]| ensures !Pinned(index[id][i]) {
      assert Entries(index, id) == Featuring(stacks, id, skipRegistry);
    }
  }

  lemma NextRepository(repositories: seq<Repository>, i: nat, defaults: seq<PipelineSpec>, resolve: Resolver,
                       seen: seq<IndexStack>)
    requires i < |repositories| && AllStacks(repositories[..i], defaults, resolve) == Some(seen)
    ensures var r := resolve(repositories[i], PipelinesFor(repositories[i], defaults));
      && (r.None? ==> AllStacks(repositories, defaults, resolve).None?)
      && (r.Some? ==> AllStacks(repositories[..i + 1], defaults, resolve) == Some(seen + r.value))
  {
    assert repositories[..i + 1][..i] == repositories[..i];
    if resolve(repositories[i], PipelinesFor(repositories[i], defaults)).None? {
      UnreadableLater(repositories, i + 1, defaults, resolve);
    }
  }

  /** Groups the stacks of all repositories by name. Every featured version is unpinned. */
  method ReadIndexes(repositories: seq<Repository>, defaults: seq<PipelineSpec>, skipRegistry: bool, resolve: Resolver)
    returns (index: Option<Store>)
    ensures index.Some? <==> AllStacks(repositories, defaults, resolve).Some?
    ensures index.Some? ==> Groups(index.value, AllStacks(repositories, defaults, resolve).value, skipRegistry)
    ensures index.Some? ==> IsIndex(index.value)
  {
    var stackMap: Store := map[];
    ghost var seen: seq<IndexStack> := [];
    for i := 0 to |repositories|
      invariant AllStacks(repositories[..i], defaults, resolve) == Some(seen)
      invariant Groups(stackMap, seen, skipRegistry)
    {
      var pipelines := repositories[i].pipelines;
      if |pipelines| == 0 {
        pipelines := defaults;
      }
      NextRepository(repositories, i, defaults, resolve, seen);
      var resolved := resolve(repositories[i], pipelines);
      if resolved.None? {
        return None;
      }
      stackMap := AddStacks(stackMap, resolved.value, skipRegistry, seen);
      seen := seen + resolved.value;
    }
    assert repositories[..|repositories|] == repositories;
    GroupsAreIndex(stackMap, seen, skipRegistry);
    return Some(stackMap);
  }

  /** What every grouped index satisfies. */
  predicate IsIndex(index: Store) {
    forall name :: name in index ==> index[name] != [] && forall i :: 0 <= i < |index[name]| ==> !Pinned(index[name][i])
  }

  // ---------------------------------------------------------------- cleaning the stored stacks

  /** The deployed versions that stay: featured again, or pinned. */
  function Kept(versions: Versions, featured: Versions): (r: Versions)
    ensures |r| <= |versions|
    ensures |r| == |versions| ==> r == versions
  {
    if versions == [] then []
    else
      var n := |versions| - 1;
      var before := Kept(versions[..n], featured);
      if HasVersion(featured, versions[n].version) || Pinned(versions[n]) then before + [versions[n]] else before
  }

  /** The deployed version is looked for among the featured ones. */
  method IsFeatured(version: string, featured: Versions) returns (matches: bool)
    ensures matches == HasVersion(featured, version)
  {
    for j := 0 to |featured|
      invariant forall k :: 0 <= k < j ==> featured[k].version != version
    {
      if version == featured[j].version {
        return true;
      }
    }
    return false;
  }

  lemma KeptStep(versions: Versions, n: nat, featured: Versions)
    requires n < |versions|
    ensures Kept(versions[..n + 1], featured) ==
      if HasVersion(featured, versions[n].version) || Pinned(versions[n]) then
        Kept(versions[..n], featured) + [versions[n]]
      else Kept(versions[..n], featured)
  {
    assert versions[..n + 1][..n] == versions[..n];
  }

  method KeepVersions(versions: Versions, featured: Versions) returns (kept: Versions)
    ensures kept == Kept(versions, featured)
  {
    kept := [];
    for i := 0 to |versions|
      invariant kept == Kept(versions[..i], featured)
    {
      KeptStep(versions, i, featured);
      var matches := IsFeatured(versions[i].version, featured);
      if matches {
        kept := kept + [versions[i]];
      }
      if !matches && |versions[i].desiredState| > 0 {
        kept := kept + [versions[i]];
      }
    }
    assert versions[..|versions|] == versions;
  }

  ghost predicate IsListing(listed: seq<string>, names: set<string>) {
    && (forall name :: name in listed <==> name in names)
    && (forall i, j :: 0 <= i < j < |listed| ==> listed[i] != listed[j])
  }

  /** The stored stacks are cleaned in the order listed, until one has nothing to keep: that one is deleted and
      the others are left for a later pass. */
  function Clean(stacks: Store, listed: seq<string>, index: Store): Store {
    if listed == [] then stacks
    else
      var name := listed[0];
      var kept := Kept(Entries(stacks, name), Entries(index, name));
      if kept == [] then stacks - {name} else Clean(stacks[name := kept], listed[1..], index)
  }

  lemma CleanStops(stacks: Store, listed: seq<string>, i: nat, index: Store)
    requires i < |listed| && Kept(Entries(stacks, listed[i]), Entries(index, listed[i])) == []
    ensures Clean(stacks, listed[i..], index) == stacks - {listed[i]}
  {
  }

  lemma CleanGoesOn(stacks: Store, listed: seq<string>, i: nat, index: Store, kept: Versions)
    requires i < |listed| && kept == Kept(Entries(stacks, listed[i]), Entries(index, listed[i])) != []
    ensures Clean(stacks, listed[i..], index) == Clean(stacks[listed[i] := kept], listed[i + 1..], index)
    ensures listed[i] in stacks && |stacks[listed[i]]| == |kept| ==> stacks == stacks[listed[i] := kept]
  {
    assert listed[i..][1..] == listed[i + 1..];
  }

  // ---------------------------------------------------------------- merging the featured versions

  function Overwrite(v: StackVersion, featured: StackVersion): StackVersion {
    v.(pipelines := featured.pipelines, skipCertVerification := featured.skipCertVerification,
       skipRegistryCertVerification := featured.skipRegistryCertVerification, images := featured.images)
  }

  function MergeOne(v: StackVersion, featured: StackVersion, deployed: bool): StackVersion {
    if v.version == featured.version && !(deployed && Pinned(v)) then Overwrite(v, featured) else v
  }

  function MergeEntry(versions: Versions, featured: StackVersion, deployed: bool): Versions {
    var merged := seq(|versions|, i requires 0 <= i < |versions| => MergeOne(versions[i], featured, deployed));
    if HasVersion(versions, featured.version) then merged else merged + [featured]
  }

  type Repositories = string -> Option<string>

  /** One featured version after the other; nothing if one of their images does not parse. */
  function Merge(versions: Versions, featured: Versions, deployed: bool, repository: Repositories): Option<Versions>
    decreases |featured|
  {
    if featured == [] then Some(versions)
    else
      var s := StackController.StripTags(featured[0].images, repository);
      if !s.ok then None
      else Merge(MergeEntry(versions, featured[0].(images := s.images), deployed), featured[1..], deployed, repository)
  }

  /** Every deployed version of that name is rewritten, unless it is pinned. */
  method UpdateVersions(versions: Versions, stack: StackVersion, deployed: bool)
    returns (result: Versions, foundVersion: bool)
    ensures foundVersion == HasVersion(versions, stack.version)
    ensures |result| == |versions|
    ensures forall k :: 0 <= k < |versions| ==> result[k] == MergeOne(versions[k], stack, deployed)
  {
    result, foundVersion := versions, false;
    for j := 0 to |result|
      invariant |result| == |versions|
      invariant foundVersion ==> HasVersion(versions, stack.version)
      invariant !foundVersion ==> forall k :: 0 <= k < j ==> versions[k].version != stack.version
      invariant forall k :: 0 <= k < j ==> result[k] == MergeOne(versions[k], stack, deployed)
      invariant forall k :: j <= k < |versions| ==> result[k] == versions[k]
    {
      var stackVersion := result[j];
      if stackVersion.version == stack.version {
        foundVersion := true;
        if !(deployed && |stackVersion.desiredState| > 0) {
          stackVersion := stackVersion.(pipelines := stack.pipelines);
          stackVersion := stackVersion.(skipCertVerification := stack.skipCertVerification);
          stackVersion := stackVersion.(skipRegistryCertVerification := stack.skipRegistryCertVerification);
          stackVersion := stackVersion.(images := stack.images);
          result := result[j := stackVersion];
        }
      }
    }
  }

  method MergeVersions(versions: Versions, featured: Versions, deployed: bool, repository: Repositories)
    returns (merged: Option<Versions>)
    ensures merged == Merge(versions, featured, deployed, repository)
  {
    var result := versions;
    for i := 0 to |featured|
      invariant Merge(versions, featured, deployed, repository) == Merge(result, featured[i..], deployed, repository)
    {
      assert featured[i..][1..] == featured[i + 1..];
      var s := StackController.RemoveTagFromStackImages(featured[i].images, repository);
      if !s.ok {
        return None;
      }
      var stack := featured[i].(images := s.images);
      ghost var before := result;
      var foundVersion: bool;
      result, foundVersion := UpdateVersions(result, stack, deployed);
      if !foundVersion {
        result := result + [stack];
      }
      assert result == MergeEntry(before, stack, deployed);
    }
    return Some(result);
  }

  datatype Pass = Pass(stacks: Store, ok: bool)

  /** Every featured stack in the order the index is ranged over, up to the first that does not parse. */
  function MergeAll(stacks: Store, names: seq<string>, index: Store, repository: Repositories): Pass
    decreases |names|
  {
    if names == [] then Pass(stacks, true)
    else
      var name := names[0];
      match Merge(Entries(stacks, name), Entries(index, name), name in stacks, repository)
      case None => Pass(stacks, false)
      case Some(versions) => MergeAll(stacks[name := versions], names[1..], index, repository)
  }

  function Reconciled(stacks: Store, listed: seq<string>, names: seq<string>, index: Store, repository: Repositories):
    Pass
  {
    MergeAll(Clean(stacks, listed, index), names, index, repository)
  }

  /** The Stack resources of the Kabanero's namespace. */
  class StackStore {
    var stacks: Store

    constructor (stacks: Store)
      ensures this.stacks == stacks
    {
      this.stacks := stacks;
    }

    method PreProcessCurrentStacks(listed: seq<string>, index: Store)
      requires IsListing(listed, stacks.Keys)
      modifies this
      ensures stacks == Clean(old(stacks), listed, index)
    {
      ghost var cleaned := Clean(stacks, listed, index);
      assert listed[0..] == listed;
      for i := 0 to |listed|
        invariant cleaned == Clean(stacks, listed[i..], index)
        invariant forall k :: 0 <= k < |listed| ==> listed[k] in stacks
      {
        var name := listed[i];
        var kept := KeepVersions(stacks[name], Entries(index, name));
        if |kept| == 0 {
          CleanStops(stacks, listed, i, index);
          stacks := stacks - {name};
          return;
        }
        CleanGoesOn(stacks, listed, i, index, kept);
        if |stacks[name]| != |kept| {
          stacks := stacks[name := kept];
        }
      }
    }

    method MergeFeatured(names: seq<string>, index: Store, repository: Repositories) returns (ok: bool)
      modifies this
      ensures Pass(stacks, ok) == MergeAll(old(stacks), names, index, repository)
    {
      for i := 0 to |names|
        invariant MergeAll(old(stacks), names, index, repository) == MergeAll(stacks, names[i..], index, repository)
      {
        var name := names[i];
        assert names[i..][1..] == names[i + 1..];
        var deployed := name in stacks;
        var versions := if deployed then stacks[name] else [];
        var merged := MergeVersions(versions, Entries(index, name), deployed, repository);
        if merged.None? {
          return false;
        }
        stacks := stacks[name := merged.value];
      }
      return true;
    }

    /** Nothing is done for a policy that is not supported, nor if an index cannot be read. */
    method ReconcileFeaturedStacks(policy: string, repositories: seq<Repository>, defaults: seq<PipelineSpec>,
                                   skipRegistry: bool, resolve: Resolver, repository: Repositories, listed: seq<string>)
      returns (ok: bool, names: seq<string>, index: Option<Store>)
      requires IsListing(listed, stacks.Keys)
      modifies this
      ensures index.Some? <==> IsPolicy(policy) && AllStacks(repositories, defaults, resolve).Some?
      ensures index.Some? ==> Groups(index.value, AllStacks(repositories, defaults, resolve).value, skipRegistry)
      ensures index.None? ==> !ok && stacks == old(stacks)
      ensures index.Some? ==>
        IsListing(names, index.value.Keys) &&
        Pass(stacks, ok) == Reconciled(old(stacks), listed, names, index.value, repository)
    {
      var valid := ValidateGovernanceStackPolicy(policy);
      if !valid {
        return false, [], None;
      }
      index := ReadIndexes(repositories, defaults, skipRegistry, resolve);
      if index.None? {
        return false, [], index;
      }
      PreProcessCurrentStacks(listed, index.value);
      names := RangeOver(index.value);
      ok := MergeFeatured(names, index.value, repository);
    }
  }

  /** The keys of a map in some order. */
  method RangeOver(index: Store) returns (names: seq<string>)
    ensures IsListing(names, index.Keys)
  {
    names := [];
    var todo := index.Keys;
    while todo != {}
      invariant todo <= index.Keys
      invariant forall name :: name in names <==> name in index.Keys - todo
      invariant forall i, j :: 0 <= i < j < |names| ==> names[i] != names[j]
    {
      var name :| name in todo;
      assert name !in names;
      names := names + [name];
      todo := todo - {name};
    }
  }
}
