/** What passes over the featured stacks guarantee: the merge agrees with a reference definition, pinned versions
    survive every run, and repeated passes with a fixed index converge. */
module FeaturedGuarantees {
  import opened Component
  import StackController
  import opened FeaturedStacks
  import opened UseCounts

  // ---------------------------------------------------------------- reading and cleaning, piece by piece

  lemma FeaturedNext(before: seq<IndexStack>, s: IndexStack, id: string, skipRegistry: bool)
    ensures Featuring(before + [s], id, skipRegistry) == Featuring(before, id, skipRegistry) +
      if s.id != id then [] else [StackVersion(s.version, "", s.pipelines, s.images, false, skipRegistry, "", "")]
  {
    assert (before + [s])[..|before|] == before;
  }

  /** What an index stack becomes: a version without a desired state, with the pipelines and images of the index. */
  lemma {:induction false} FeaturedInOrder(before: seq<IndexStack>, s: IndexStack, after: seq<IndexStack>, id: string,
                                           skipRegistry: bool)
    ensures Featuring(before + [s] + after, id, skipRegistry) == Featuring(before, id, skipRegistry) +
      (if s.id != id then [] else [StackVersion(s.version, "", s.pipelines, s.images, false, skipRegistry, "", "")]) +
      Featuring(after, id, skipRegistry)
    decreases |after|
  {
    if after == [] {
      FeaturedNext(before, s, id, skipRegistry);
      assert before + [s] + after == before + [s];
    } else {
      var init, last := after[..|after| - 1], after[|after| - 1];
      assert after == init + [last] && before + [s] + after == before + [s] + init + [last];
      FeaturedInOrder(before, s, init, id, skipRegistry);
      FeaturedNext(before + [s] + init, last, id, skipRegistry);
      FeaturedNext(init, last, id, skipRegistry);
    }
  }

  /** A repository without pipelines of its own is read with the default ones; one that cannot be read spoils all. */
  lemma {:induction false} RepositoriesInOrder(before: seq<Repository>, after: seq<Repository>,
                                               defaults: seq<PipelineSpec>, resolve: Resolver)
    ensures AllStacks(before + after, defaults, resolve) ==
      Both(AllStacks(before, defaults, resolve), AllStacks(after, defaults, resolve))
    ensures |after| == 1 ==>
      AllStacks(after, defaults, resolve) ==
        resolve(after[0], if |after[0].pipelines| > 0 then after[0].pipelines else defaults)
    decreases |after|
  {
    if after == [] {
      assert before + after == before;
      OneMore(AllStacks(before, defaults, resolve), Some([]), None);
    } else {
      var n := |after| - 1;
      RepositoriesInOrder(before, after[..n], defaults, resolve);
      assert (before + after)[..|before + after| - 1] == before + after[..n];
      OneMore(AllStacks(before, defaults, resolve), AllStacks(after[..n], defaults, resolve),
              resolve(after[n], PipelinesFor(after[n], defaults)));
    }
  }

  function Both(a: Option<seq<IndexStack>>, b: Option<seq<IndexStack>>): Option<seq<IndexStack>> {
    if a.Some? && b.Some? then Some(a.value + b.value) else None
  }

  lemma OneMore(a: Option<seq<IndexStack>>, b: Option<seq<IndexStack>>, c: Option<seq<IndexStack>>)
    ensures Both(Both(a, b), c) == Both(a, Both(b, c))
    ensures b == Some([]) ==> Both(b, c) == c && Both(a, b) == a
  {
    if a.Some? && b.Some? && c.Some? {
      assert a.value + b.value + c.value == a.value + (b.value + c.value);
    }
    if b == Some([]) {
      assert a.Some? ==> a.value + b.value == a.value;
      assert c.Some? ==> b.value + c.value == c.value;
    }
  }

  predicate Stays(v: StackVersion, featured: Versions) {
    v.desiredState != "" || exists i :: 0 <= i < |featured| && featured[i].version == v.version
  }

  lemma KeptNext(before: Versions, v: StackVersion, featured: Versions)
    ensures Kept(before + [v], featured) == Kept(before, featured) + if Stays(v, featured) then [v] else []
  {
    assert (before + [v])[..|before|] == before;
  }

  /** A deployed version stays, in its place, exactly if its name is featured or it has a desired state. */
  lemma {:induction false} KeptInOrder(before: Versions, v: StackVersion, after: Versions, featured: Versions)
    ensures Kept(before + [v] + after, featured) ==
      Kept(before, featured) + (if Stays(v, featured) then [v] else []) + Kept(after, featured)
    decreases |after|
  {
    if after == [] {
      KeptNext(before, v, featured);
      assert before + [v] + after == before + [v];
    } else {
      var init, last := after[..|after| - 1], after[|after| - 1];
      assert after == init + [last] && before + [v] + after == before + [v] + init + [last];
      KeptInOrder(before, v, init, featured);
      KeptNext(before + [v] + init, last, featured);
      KeptNext(init, last, featured);
    }
  }

  // ---------------------------------------------------------------- the merge as a reference definition

  function Last(featured: Versions, version: string): (r: Option<StackVersion>)
    ensures r.Some? <==> HasVersion(featured, version)
    ensures r.Some? ==> r.value.version == version
  {
    if featured == [] then None
    else if featured[|featured| - 1].version == version then Some(featured[|featured| - 1])
    else Last(featured[..|featured| - 1], version)
  }

  /** An unpinned version takes the pipelines, skip flags and images of the last featured one of its name. */
  function Refreshed(v: StackVersion, featured: Versions): (r: StackVersion)
    ensures r.version == v.version && r.desiredState == v.desiredState
    ensures Pinned(v) ==> r == v
  {
    if Pinned(v) || Last(featured, v.version).None? then v else Overwrite(v, Last(featured, v.version).value)
  }

  function Refresh(versions: Versions, featured: Versions): Versions {
    seq(|versions|, i requires 0 <= i < |versions| => Refreshed(versions[i], featured))
  }

  /** The first featured version of each name that is not deployed. */
  function NewVersions(versions: Versions, featured: Versions): Versions {
    if featured == [] then []
    else
      var before := NewVersions(versions, featured[..|featured| - 1]);
      var last := featured[|featured| - 1];
      if HasVersion(versions + before, last.version) then before else before + [last]
  }

  /** The deployed versions in their order, then the new ones, each brought up to date. */
  function Expected(versions: Versions, featured: Versions): Versions {
    Refresh(versions + NewVersions(versions, featured), featured)
  }

  predicate AllParse(featured: Versions, repository: Repositories) {
    forall i :: 0 <= i < |featured| ==> StackController.StripTags(featured[i].images, repository).ok
  }

  function Prepare(v: StackVersion, repository: Repositories): StackVersion {
    v.(images := StackController.StripTags(v.images, repository).images)
  }

  function Prepared(featured: Versions, repository: Repositories): Versions {
    seq(|featured|, i requires 0 <= i < |featured| => Prepare(featured[i], repository))
  }

  predicate Unpinned(versions: Versions) {
    forall i :: 0 <= i < |versions| ==> !Pinned(versions[i])
  }

  lemma {:induction false} NewVersionsAreFeatured(versions: Versions, featured: Versions)
    ensures forall v :: v in NewVersions(versions, featured) ==> v in featured
    ensures forall i :: 0 <= i < |featured| ==>
      HasVersion(versions + NewVersions(versions, featured), featured[i].version)
  {
    if featured != [] {
      var n := |featured| - 1;
      NewVersionsAreFeatured(versions, featured[..n]);
      var before, all := versions + NewVersions(versions, featured[..n]), versions + NewVersions(versions, featured);
      assert before == all || all == before + [featured[n]];
      forall i | 0 <= i < |featured| ensures HasVersion(all, featured[i].version) {
        if i < n {
          assert featured[..n][i] == featured[i];
          var k :| 0 <= k < |before| && before[k].version == featured[i].version;
          assert all[k].version == featured[i].version;
        } else if before != all {
          assert all[|before|] == featured[n];
        }
      }
    }
  }

  lemma RefreshNames(versions: Versions, featured: Versions)
    ensures forall version :: HasVersion(Refresh(versions, featured), version) <==> HasVersion(versions, version)
  {
    var r := Refresh(versions, featured);
    forall version ensures HasVersion(r, version) <==> HasVersion(versions, version) {
      assert forall i :: 0 <= i < |versions| ==> r[i].version == versions[i].version;
    }
  }

  lemma RefreshedTwice(v: StackVersion, done: Versions, e: StackVersion, deployed: bool)
    requires deployed || !Pinned(v)
    ensures MergeOne(Refreshed(v, done), e, deployed) == Refreshed(v, done + [e])
  {
    assert (done + [e])[..|done|] == done;
  }

  lemma MergeEntryExtends(versions: Versions, done: Versions, e: StackVersion, deployed: bool)
    requires deployed || Unpinned(versions)
    requires Unpinned(done) && !Pinned(e)
    ensures MergeEntry(Expected(versions, done), e, deployed) == Expected(versions, done + [e])
  {
    assert (done + [e])[..|done|] == done;
    var all := versions + NewVersions(versions, done);
    NewVersionsAreFeatured(versions, done);
    RefreshNames(all, done);
    forall i | 0 <= i < |all|
      ensures MergeOne(Expected(versions, done)[i], e, deployed) == Refreshed(all[i], done + [e])
    {
      assert i < |versions| || all[i] in NewVersions(versions, done);
      RefreshedTwice(all[i], done, e, deployed);
    }
    assert Refreshed(e, done + [e]) == e;
    if !HasVersion(all, e.version) {
      assert versions + NewVersions(versions, done + [e]) == all + [e];
    }
  }

  lemma PrepareStep(done: Versions, rest: Versions, repository: Repositories)
    requires rest != [] && StackController.StripTags(rest[0].images, repository).ok
    ensures AllParse(rest, repository) == AllParse(rest[1..], repository)
    ensures done + [Prepare(rest[0], repository)] + Prepared(rest[1..], repository) == done + Prepared(rest, repository)
  {
    assert forall i :: 0 < i < |rest| ==> rest[i] == rest[1..][i - 1];
  }

  lemma {:induction false} MergeFrom(versions: Versions, done: Versions, rest: Versions, deployed: bool,
                                     repository: Repositories)
    requires deployed || Unpinned(versions)
    requires Unpinned(done) && Unpinned(rest)
    ensures Merge(Expected(versions, done), rest, deployed, repository) ==
      if AllParse(rest, repository) then Some(Expected(versions, done + Prepared(rest, repository))) else None
    decreases |rest|
  {
    if rest == [] {
      assert done + Prepared(rest, repository) == done;
    } else {
      var s := StackController.StripTags(rest[0].images, repository);
      if s.ok {
        var e := Prepare(rest[0], repository);
        MergeEntryExtends(versions, done, e, deployed);
        MergeFrom(versions, done + [e], rest[1..], deployed, repository);
        PrepareStep(done, rest, repository);
      }
    }
  }

  /** The merge loop is the reference, or fails exactly when an image does not parse. */
  lemma MergeIsExpected(versions: Versions, featured: Versions, deployed: bool, repository: Repositories)
    requires deployed || versions == []
    requires Unpinned(featured)
    ensures Merge(versions, featured, deployed, repository) ==
      if AllParse(featured, repository) then Some(Expected(versions, Prepared(featured, repository))) else None
  {
    assert Expected(versions, []) == versions;
    assert [] + Prepared(featured, repository) == Prepared(featured, repository);
    MergeFrom(versions, [], featured, deployed, repository);
  }

  lemma {:induction false} NothingNew(versions: Versions, featured: Versions)
    requires forall i :: 0 <= i < |featured| ==> HasVersion(versions, featured[i].version)
    ensures NewVersions(versions, featured) == []
  {
    if featured != [] {
      var n := |featured| - 1;
      assert forall i :: 0 <= i < n ==> featured[..n][i] == featured[i];
      NothingNew(versions, featured[..n]);
      assert versions + [] == versions;
    }
  }

  /** Merging the same featured versions a second time changes nothing. */
  lemma MergeTwice(versions: Versions, featured: Versions)
    ensures Expected(Expected(versions, featured), featured) == Expected(versions, featured)
  {
    var all := versions + NewVersions(versions, featured);
    var once := Expected(versions, featured);
    NewVersionsAreFeatured(versions, featured);
    RefreshNames(all, featured);
    NothingNew(once, featured);
    assert once + [] == once;
    forall i | 0 <= i < |once| ensures Refreshed(once[i], featured) == once[i] {
      assert once[i] == Refreshed(all[i], featured);
    }
  }

  // ---------------------------------------------------------------- the merge, field by field

  /** The last entry of that name. */
  predicate LastNamed(featured: Versions, version: string, k: nat) {
    && k < |featured| && featured[k].version == version
    && forall l :: k < l < |featured| ==> featured[l].version != version
  }

  predicate FirstNamed(featured: Versions, version: string, k: nat) {
    && k < |featured| && featured[k].version == version
    && forall l :: 0 <= l < k ==> featured[l].version != version
  }

  /** The version has what the featured one says, its images without their tags. */
  predicate Shows(v: StackVersion, f: StackVersion, repository: Repositories) {
    && v.pipelines == f.pipelines && v.skipCertVerification == f.skipCertVerification
    && v.skipRegistryCertVerification == f.skipRegistryCertVerification && |v.images| == |f.images|
    && forall l :: 0 <= l < |f.images| ==>
      v.images[l].id == f.images[l].id && repository(f.images[l].image) == Some(v.images[l].image)
  }

  /** What a merge never changes of a version. */
  predicate SameVersion(v: StackVersion, old_: StackVersion) {
    && v.version == old_.version && v.desiredState == old_.desiredState && v.devfile == old_.devfile
    && v.metafile == old_.metafile
  }

  lemma {:induction false} LastIs(featured: Versions, version: string, k: nat)
    requires LastNamed(featured, version, k)
    ensures Last(featured, version) == Some(featured[k])
  {
    if k < |featured| - 1 {
      LastIs(featured[..|featured| - 1], version, k);
    }
  }

  lemma {:induction false} LastExists(featured: Versions, version: string) returns (k: nat)
    requires HasVersion(featured, version)
    ensures LastNamed(featured, version, k)
  {
    var n := |featured| - 1;
    if featured[n].version == version {
      k := n;
    } else {
      var i :| 0 <= i < |featured| && featured[i].version == version;
      assert featured[..n][i].version == version;
      k := LastExists(featured[..n], version);
    }
  }

  lemma RefreshedShows(v: StackVersion, featured: Versions, repository: Repositories, k: nat)
    requires v.desiredState == "" && LastNamed(featured, v.version, k) && AllParse(featured, repository)
    ensures Shows(Refreshed(v, Prepared(featured, repository)), featured[k], repository)
    ensures SameVersion(Refreshed(v, Prepared(featured, repository)), v)
  {
    var p := Prepared(featured, repository);
    assert LastNamed(p, v.version, k);
    LastIs(p, v.version, k);
    StackController.StrippedAt(featured[k].images, repository);
  }

  /** Which featured entries are new: the first of each name that is not deployed, in their order. */
  function NewPlaces(versions: Versions, featured: Versions): (r: seq<nat>)
    ensures forall i :: 0 <= i < |r| ==> r[i] < |featured|
  {
    if featured == [] then []
    else
      var n := |featured| - 1;
      var before := NewPlaces(versions, featured[..n]);
      if HasVersion(versions, featured[n].version) || HasVersion(featured[..n], featured[n].version) then before
      else before + [n]
  }

  predicate IsNew(versions: Versions, featured: Versions, k: nat) {
    k < |featured| && FirstNamed(featured, featured[k].version, k) && !HasVersion(versions, featured[k].version)
  }

  lemma {:induction false} NewPlacesExactly(versions: Versions, featured: Versions)
    ensures var r := NewPlaces(versions, featured);
      && (forall i, j :: 0 <= i < j < |r| ==> r[i] < r[j])
      && (forall k: nat :: k in r <==> IsNew(versions, featured, k))
  {
    if featured != [] {
      var n := |featured| - 1;
      var before, r := NewPlaces(versions, featured[..n]), NewPlaces(versions, featured);
      NewPlacesExactly(versions, featured[..n]);
      FirstIffNew(featured, n);
      forall k: nat ensures k in r <==> IsNew(versions, featured, k) {
        EarlierIsNew(versions, featured, n, k);
        assert k in r <==> k in before || (k == n && IsNew(versions, featured, n));
      }
    }
  }

  lemma EarlierIsNew(versions: Versions, featured: Versions, n: nat, k: nat)
    requires |featured| == n + 1
    ensures IsNew(versions, featured[..n], k) <==> k < n && IsNew(versions, featured, k)
  {
    if k < n {
      assert forall l :: 0 <= l < n ==> featured[..n][l] == featured[l];
    }
  }

  lemma FirstIffNew(featured: Versions, n: nat)
    requires |featured| == n + 1
    ensures FirstNamed(featured, featured[n].version, n) <==> !HasVersion(featured[..n], featured[n].version)
  {
    if i :| 0 <= i < n && featured[..n][i].version == featured[n].version {
      assert featured[i].version == featured[n].version;
    }
    if !FirstNamed(featured, featured[n].version, n) {
      var l :| 0 <= l < n && featured[l].version == featured[n].version;
      assert featured[..n][l].version == featured[n].version;
    }
  }

  lemma {:induction false} NewVersionsAt(versions: Versions, featured: Versions)
    ensures |NewVersions(versions, featured)| == |NewPlaces(versions, featured)|
    ensures forall i :: 0 <= i < |NewPlaces(versions, featured)| ==>
      NewVersions(versions, featured)[i] == featured[NewPlaces(versions, featured)[i]]
  {
    if featured != [] {
      var n := |featured| - 1;
      var init := featured[..n];
      NewVersionsAt(versions, init);
      NewVersionsAreFeatured(versions, init);
      NewNames(versions, init, featured[n].version);
    }
  }

  lemma NewNames(versions: Versions, featured: Versions, version: string)
    ensures HasVersion(versions + NewVersions(versions, featured), version) <==>
      HasVersion(versions, version) || HasVersion(featured, version)
  {
    var added := NewVersions(versions, featured);
    var all := versions + added;
    NewVersionsAreFeatured(versions, featured);
    if i :| 0 <= i < |all| && all[i].version == version {
      if i < |versions| {
        assert versions[i].version == version;
      } else {
        assert added[i - |versions|] in featured;
        var k :| 0 <= k < |featured| && featured[k] == added[i - |versions|];
        assert featured[k].version == version;
      }
    }
    if i :| 0 <= i < |versions| && versions[i].version == version {
      assert all[i].version == version;
    }
  }

  /** A deployed version after the merge: untouched if it is pinned or not featured; else with the content of the last
      featured entry of its name, and its own name, desired state, devfile and metafile. */
  ghost predicate MergedDeployed(v: StackVersion, was: StackVersion, featured: Versions, repository: Repositories) {
    && (was.desiredState != "" || (forall k :: 0 <= k < |featured| ==> featured[k].version != was.version) ==> v == was)
    && (was.desiredState == "" ==> forall k: nat :: LastNamed(featured, was.version, k) ==>
          Shows(v, featured[k], repository) && SameVersion(v, was))
  }

  /** A new version: the first featured entry of its name, with the content of the last one. */
  ghost predicate MergedNew(v: StackVersion, first: StackVersion, featured: Versions, repository: Repositories) {
    SameVersion(v, first) && forall k: nat :: LastNamed(featured, first.version, k) ==>
      Shows(v, featured[k], repository)
  }

  /** What a merge makes of every deployed version, and which versions it adds after them in which order. */
  lemma MergedContents(versions: Versions, featured: Versions, deployed: bool, repository: Repositories)
    requires (deployed || versions == []) && Merge(versions, featured, deployed, repository).Some?
    requires forall k :: 0 <= k < |featured| ==> featured[k].desiredState == ""
    ensures var r, places := Merge(versions, featured, deployed, repository).value, NewPlaces(versions, featured);
      && |r| == |versions| + |places|
      && (forall i :: 0 <= i < |versions| ==> MergedDeployed(r[i], versions[i], featured, repository))
      && (forall i :: 0 <= i < |places| ==>
            MergedNew(r[|versions| + i], featured[places[i]], featured, repository))
  {
    var p := Prepared(featured, repository);
    var all := versions + NewVersions(versions, p);
    MergeIsExpected(versions, featured, deployed, repository);
    NewVersionsAt(versions, p);
    PreparedPlaces(versions, featured, repository);
    forall i | 0 <= i < |versions|
      ensures MergedDeployed(Expected(versions, p)[i], versions[i], featured, repository)
    {
      assert all[i] == versions[i] && Expected(versions, p)[i] == Refreshed(versions[i], p);
      DeployedMerged(versions[i], featured, repository);
    }
    forall i | 0 <= i < |NewPlaces(versions, featured)|
      ensures MergedNew(Expected(versions, p)[|versions| + i], featured[NewPlaces(versions, featured)[i]], featured,
                        repository)
    {
      var f := NewPlaces(versions, featured)[i];
      assert all[|versions| + i] == p[f] && Expected(versions, p)[|versions| + i] == Refreshed(p[f], p);
      NewMerged(featured, repository, f);
    }
  }

  lemma DeployedMerged(v: StackVersion, featured: Versions, repository: Repositories)
    requires AllParse(featured, repository)
    ensures MergedDeployed(Refreshed(v, Prepared(featured, repository)), v, featured, repository)
  {
    var p := Prepared(featured, repository);
    if HasVersion(p, v.version) {
      var l := LastExists(p, v.version);
      assert featured[l].version == v.version;
    }
    forall k: nat | v.desiredState == "" && LastNamed(featured, v.version, k)
      ensures Shows(Refreshed(v, p), featured[k], repository) && SameVersion(Refreshed(v, p), v)
    {
      RefreshedShows(v, featured, repository, k);
    }
  }

  lemma NewMerged(featured: Versions, repository: Repositories, f: nat)
    requires AllParse(featured, repository) && f < |featured| && featured[f].desiredState == ""
    ensures var p := Prepared(featured, repository);
      MergedNew(Refreshed(p[f], p), featured[f], featured, repository)
  {
    var p := Prepared(featured, repository);
    assert HasVersion(featured, featured[f].version);
    var l := LastExists(featured, featured[f].version);
    forall k: nat | LastNamed(featured, featured[f].version, k) ensures Shows(Refreshed(p[f], p), featured[k],
                                                                              repository) {
      RefreshedShows(p[f], featured, repository, k);
    }
    RefreshedShows(p[f], featured, repository, l);
  }

  lemma PreparedNames(featured: Versions, repository: Repositories)
    ensures forall version :: HasVersion(Prepared(featured, repository), version) <==> HasVersion(featured, version)
  {
    var p := Prepared(featured, repository);
    forall version ensures HasVersion(p, version) <==> HasVersion(featured, version) {
      assert forall i :: 0 <= i < |featured| ==> p[i].version == featured[i].version;
    }
  }

  lemma {:induction false} PreparedPlaces(versions: Versions, featured: Versions, repository: Repositories)
    ensures NewPlaces(versions, Prepared(featured, repository)) == NewPlaces(versions, featured)
  {
    if featured != [] {
      var n := |featured| - 1;
      var p := Prepared(featured, repository);
      PreparedPlaces(versions, featured[..n], repository);
      assert p[..n] == Prepared(featured[..n], repository);
      PreparedNames(featured[..n], repository);
    }
  }

  // ---------------------------------------------------------------- pinned versions

  function PinnedOf(versions: Versions): Versions {
    if versions == [] then []
    else
      var n := |versions| - 1;
      PinnedOf(versions[..n]) + if Pinned(versions[n]) then [versions[n]] else []
  }

  lemma {:induction false} PinnedMembers(versions: Versions)
    ensures forall v :: v in PinnedOf(versions) <==> v in versions && Pinned(v)
  {
    if versions != [] {
      PinnedMembers(versions[..|versions| - 1]);
    }
  }

  lemma {:induction false} KeptMembers(versions: Versions, featured: Versions)
    ensures forall v :: v in Kept(versions, featured) <==>
      v in versions && (HasVersion(featured, v.version) || Pinned(v))
  {
    if versions != [] {
      KeptMembers(versions[..|versions| - 1], featured);
    }
  }

  lemma {:induction false} KeptPinned(versions: Versions, featured: Versions)
    ensures PinnedOf(Kept(versions, featured)) == PinnedOf(versions)
  {
    if versions != [] {
      var n := |versions| - 1;
      KeptPinned(versions[..n], featured);
      var before := Kept(versions[..n], featured);
      assert (before + [versions[n]])[..|before|] == before;
    }
  }

  lemma {:induction false} SamePinned(a: Versions, b: Versions)
    requires |b| <= |a| && Unpinned(a[|b|..])
    requires forall i :: 0 <= i < |b| ==> a[i].desiredState == b[i].desiredState && (Pinned(b[i]) ==> a[i] == b[i])
    ensures PinnedOf(a) == PinnedOf(b)
  {
    if a != [] {
      var n := |a| - 1;
      if |b| == |a| {
        SamePinned(a[..n], b[..n]);
      } else {
        assert a[n] == a[|b|..][n - |b|];
        assert a[..n][|b|..] == a[|b|..][..n - |b|];
        SamePinned(a[..n], b);
      }
    }
  }

  lemma ExpectedPinned(versions: Versions, featured: Versions)
    requires Unpinned(featured)
    ensures PinnedOf(Expected(versions, featured)) == PinnedOf(versions)
  {
    var added := NewVersions(versions, featured);
    var r := Expected(versions, featured);
    NewVersionsAreFeatured(versions, featured);
    forall i | 0 <= i < |added| ensures !Pinned(r[|versions|..][i]) {
      assert (versions + added)[|versions| + i] == added[i];
      assert added[i] in featured;
    }
    SamePinned(r, versions);
  }

  // ---------------------------------------------------------------- what each phase does to every stack

  predicate Doomed(stacks: Store, index: Store, name: string) {
    name in stacks && Kept(stacks[name], Entries(index, name)) == []
  }

  predicate AllDifferent(names: seq<string>) {
    forall i, j :: 0 <= i < j < |names| ==> names[i] != names[j]
  }

  /** Cleaning one stack at most deletes it, and then only with nothing to keep. */
  predicate CleanedOne(stacks: Store, after: Store, index: Store, name: string) {
    if name in after then
      name in stacks && (after[name] == stacks[name] || after[name] == Kept(stacks[name], Entries(index, name)))
    else
      name in stacks ==> Doomed(stacks, index, name)
  }

  lemma {:induction false} CleanEffect(stacks: Store, listed: seq<string>, index: Store)
    requires AllDifferent(listed) && forall name :: name in listed ==> name in stacks
    ensures forall name :: CleanedOne(stacks, Clean(stacks, listed, index), index, name)
    decreases |listed|
  {
    if listed != [] {
      var name := listed[0];
      var kept := Kept(stacks[name], Entries(index, name));
      if kept != [] {
        var stacks' := stacks[name := kept];
        CleanEffect(stacks', listed[1..], index);
        KeptOnce(stacks[name], Entries(index, name));
        forall other ensures CleanedOne(stacks, Clean(stacks, listed, index), index, other) {
          assert CleanedOne(stacks', Clean(stacks', listed[1..], index), index, other);
        }
      }
    }
  }

  lemma {:induction false} KeptOnce(versions: Versions, featured: Versions)
    ensures Kept(Kept(versions, featured), featured) == Kept(versions, featured)
  {
    if versions != [] {
      var n := |versions| - 1;
      KeptOnce(versions[..n], featured);
      var before := Kept(versions[..n], featured);
      assert (before + [versions[n]])[..|before|] == before;
    }
  }

  lemma {:induction false} CleanCompletes(stacks: Store, listed: seq<string>, index: Store)
    requires AllDifferent(listed) && forall name :: name in listed ==> name in stacks && !Doomed(stacks, index, name)
    ensures var after := Clean(stacks, listed, index);
      && after.Keys == stacks.Keys
      && forall name :: name in stacks ==>
        after[name] == if name in listed then Kept(stacks[name], Entries(index, name)) else stacks[name]
    decreases |listed|
  {
    if listed != [] {
      var name := listed[0];
      var stacks' := stacks[name := Kept(stacks[name], Entries(index, name))];
      forall other | other in listed[1..] ensures other in stacks' && !Doomed(stacks', index, other) {
        var i :| 0 <= i < |listed[1..]| && listed[1..][i] == other;
        assert listed[i + 1] == other && listed[0] != listed[i + 1];
      }
      CleanCompletes(stacks', listed[1..], index);
      assert name !in listed[1..];
    }
  }

  /** With something to delete, exactly one stack is deleted. */
  lemma {:induction false} CleanDeletesOne(stacks: Store, listed: seq<string>, index: Store) returns (gone: string)
    requires AllDifferent(listed) && (forall name :: name in listed ==> name in stacks)
    requires exists name :: name in listed && Doomed(stacks, index, name)
    ensures gone in listed && Doomed(stacks, index, gone)
    ensures Clean(stacks, listed, index).Keys == stacks.Keys - {gone}
    decreases |listed|
  {
    var name := listed[0];
    var kept := Kept(stacks[name], Entries(index, name));
    if kept == [] {
      gone := name;
    } else {
      var stacks' := stacks[name := kept];
      var doomed :| doomed in listed && Doomed(stacks, index, doomed);
      assert doomed in listed[1..] && Doomed(stacks', index, doomed);
      gone := CleanDeletesOne(stacks', listed[1..], index);
      var i :| 0 <= i < |listed[1..]| && listed[1..][i] == gone;
      assert listed[0] != listed[i + 1];
    }
  }

  /** Merging one stack leaves it alone or brings it up to date. */
  predicate MergedOne(stacks: Store, after: Store, index: Store, repository: Repositories, name: string) {
    || ((name in after <==> name in stacks) && Entries(after, name) == Entries(stacks, name))
    || (name in after && after[name] == Expected(Entries(stacks, name), Prepared(Entries(index, name), repository)))
  }

  lemma {:induction false} MergeAllEffect(stacks: Store, names: seq<string>, index: Store, repository: Repositories)
    requires AllDifferent(names) && IsIndex(index)
    requires forall name :: name in names ==> name in index
    ensures var r := MergeAll(stacks, names, index, repository);
      && (forall name :: MergedOne(stacks, r.stacks, index, repository, name))
      && (forall name :: name !in names ==> (name in r.stacks <==> name in stacks) &&
                                            Entries(r.stacks, name) == Entries(stacks, name))
      && (r.ok <==> forall name :: name in names ==> AllParse(index[name], repository))
      && (r.ok ==> forall name :: name in names ==>
            name in r.stacks && r.stacks[name] == Expected(Entries(stacks, name), Prepared(index[name], repository)))
    decreases |names|
  {
    if names != [] {
      var name := names[0];
      MergeIsExpected(Entries(stacks, name), index[name], name in stacks, repository);
      if AllParse(index[name], repository) {
        var stacks' := stacks[name := Expected(Entries(stacks, name), Prepared(index[name], repository))];
        assert name !in names[1..];
        MergeAllEffect(stacks', names[1..], index, repository);
        var r := MergeAll(stacks', names[1..], index, repository);
        forall other ensures MergedOne(stacks, r.stacks, index, repository, other) {
          if other != name {
            assert MergedOne(stacks', r.stacks, index, repository, other);
          }
        }
        assert forall other :: other in names <==> other == name || other in names[1..];
      }
    }
  }

  // ---------------------------------------------------------------- runs

  datatype Input = Input(listed: seq<string>, names: seq<string>, index: Store, repository: Repositories)

  ghost predicate IsInput(stacks: Store, x: Input) {
    IsListing(x.listed, stacks.Keys) && IsIndex(x.index) && IsListing(x.names, x.index.Keys)
  }

  function After(stacks: Store, x: Input): Store {
    Reconciled(stacks, x.listed, x.names, x.index, x.repository).stacks
  }

  ghost predicate IsRun(states: seq<Store>, inputs: seq<Input>) {
    && |states| == |inputs| + 1
    && forall i :: 0 <= i < |inputs| ==> IsInput(states[i], inputs[i]) && states[i + 1] == After(states[i], inputs[i])
  }

  lemma PassKeepsPinned(stacks: Store, x: Input, name: string)
    requires IsInput(stacks, x)
    ensures PinnedOf(Entries(After(stacks, x), name)) == PinnedOf(Entries(stacks, name))
    ensures PinnedOf(Entries(stacks, name)) != [] ==> name in After(stacks, x)
  {
    var cleaned := Clean(stacks, x.listed, x.index);
    var after := After(stacks, x);
    CleanEffect(stacks, x.listed, x.index);
    assert CleanedOne(stacks, cleaned, x.index, name);
    KeptPinned(Entries(stacks, name), Entries(x.index, name));
    MergeAllEffect(cleaned, x.names, x.index, x.repository);
    assert MergedOne(cleaned, after, x.index, x.repository, name);
    var featured := Prepared(Entries(x.index, name), x.repository);
    assert Unpinned(featured);
    ExpectedPinned(Entries(cleaned, name), featured);
  }

  predicate SamePins(stacks: Store, after: Store, name: string) {
    && PinnedOf(Entries(after, name)) == PinnedOf(Entries(stacks, name))
    && (PinnedOf(Entries(stacks, name)) != [] ==> name in after)
  }

  lemma {:induction false} RunKeepsPinned(states: seq<Store>, n: nat, name: string)
    requires n < |states|
    requires forall i :: 0 < i <= n ==> SamePins(states[i - 1], states[i], name)
    ensures PinnedOf(Entries(states[n], name)) == PinnedOf(Entries(states[0], name))
    ensures n > 0 && PinnedOf(Entries(states[0], name)) != [] ==> name in states[n]
  {
    if n != 0 {
      RunKeepsPinned(states, n - 1, name);
      assert SamePins(states[n - 1], states[n], name);
    }
  }

  /** Over any run, whatever the repositories feature and even where passes fail half way: the pinned versions of
      a stack stay as they are, in order, and a stack that has one is never deleted. */
  lemma PinnedSurvives(states: seq<Store>, inputs: seq<Input>, n: nat, name: string)
    requires IsRun(states, inputs) && n < |states|
    ensures PinnedOf(Entries(states[n], name)) == PinnedOf(Entries(states[0], name))
    ensures forall v :: v in Entries(states[0], name) && Pinned(v) ==> name in states[n] && v in states[n][name]
  {
    forall i | 0 < i <= n ensures SamePins(states[i - 1], states[i], name) {
      assert states[i] == After(states[i - 1], inputs[i - 1]);
      PassKeepsPinned(states[i - 1], inputs[i - 1], name);
    }
    RunKeepsPinned(states, n, name);
    PinnedMembers(Entries(states[0], name));
    PinnedMembers(Entries(states[n], name));
  }

  // ---------------------------------------------------------------- convergence

  ghost function DoomedSet(stacks: Store, index: Store): set<string> {
    set name | name in stacks && Doomed(stacks, index, name)
  }

  /** Every stack holds only pinned and featured versions, all the featured ones, and these up to date. */
  ghost predicate Converged(stacks: Store, index: Store, repository: Repositories) {
    && (forall name :: name in index ==> name in stacks)
    && (forall name :: name in stacks ==> UpToDate(stacks[name], Entries(index, name), repository))
  }

  predicate UpToDate(versions: Versions, featured: Versions, repository: Repositories) {
    && versions != []
    && (forall v :: v in versions ==> Pinned(v) || HasVersion(featured, v.version))
    && (forall i :: 0 <= i < |featured| ==> HasVersion(versions, featured[i].version))
    && (forall v :: v in versions ==> Refreshed(v, Prepared(featured, repository)) == v)
  }

  ghost predicate Fixed(inputs: seq<Input>, index: Store, repository: Repositories) {
    && (forall i :: 0 <= i < |inputs| ==> inputs[i].index == index && inputs[i].repository == repository)
    && (forall name :: name in index ==> AllParse(index[name], repository))
  }

  /** Every version that is not pinned shows what the last featured entry of its name says. */
  ghost predicate AllShow(versions: Versions, featured: Versions, repository: Repositories) {
    forall v :: v in versions && v.desiredState == "" ==>
      exists k: nat :: LastNamed(featured, v.version, k) && Shows(v, featured[k], repository)
  }

  lemma UpToDateShows(versions: Versions, featured: Versions, repository: Repositories)
    requires UpToDate(versions, featured, repository) && AllParse(featured, repository)
    ensures AllShow(versions, featured, repository)
  {
    forall v | v in versions && v.desiredState == ""
      ensures exists k: nat :: LastNamed(featured, v.version, k) && Shows(v, featured[k], repository)
    {
      assert Refreshed(v, Prepared(featured, repository)) == v;
      var k := LastExists(featured, v.version);
      RefreshedShows(v, featured, repository, k);
    }
  }

  lemma ConvergedShows(stacks: Store, index: Store, repository: Repositories)
    requires Converged(stacks, index, repository)
    requires forall name :: name in index ==> AllParse(index[name], repository)
    ensures forall name :: name in stacks ==> AllShow(stacks[name], Entries(index, name), repository)
  {
    forall name | name in stacks ensures AllShow(stacks[name], Entries(index, name), repository) {
      UpToDateShows(stacks[name], Entries(index, name), repository);
    }
  }

  /** A merged stack has a featured version to keep. */
  lemma MergedIsKept(versions: Versions, featured: Versions, repository: Repositories)
    requires featured != []
    ensures Kept(Expected(versions, Prepared(featured, repository)), featured) != []
  {
    var p := Prepared(featured, repository);
    var r := Expected(versions, p);
    NewVersionsAreFeatured(versions, p);
    RefreshNames(versions + NewVersions(versions, p), p);
    assert HasVersion(r, p[0].version);
    var i :| 0 <= i < |r| && r[i].version == p[0].version;
    assert HasVersion(featured, featured[0].version);
    KeptMembers(r, featured);
    assert r[i] in Kept(r, featured);
  }

  lemma KeptIsUpToDate(versions: Versions, featured: Versions, repository: Repositories)
    requires Kept(versions, featured) != []
    ensures UpToDate(Expected(Kept(versions, featured), Prepared(featured, repository)), featured, repository)
  {
    var p := Prepared(featured, repository);
    var kept := Kept(versions, featured);
    var all := kept + NewVersions(kept, p);
    var r := Expected(kept, p);
    NewVersionsAreFeatured(kept, p);
    RefreshNames(all, p);
    PreparedNames(featured, repository);
    KeptMembers(versions, featured);
    MergeTwice(kept, p);
    NothingNew(r, p);
    assert r + [] == r;
    forall v | v in r
      ensures Pinned(v) || HasVersion(featured, v.version)
      ensures Refreshed(v, p) == v
    {
      var i :| 0 <= i < |r| && r[i] == v;
      assert Expected(r, p)[i] == Refreshed(r[i], p);
      if i < |kept| {
        assert all[i] in kept;
      } else {
        assert all[i] in NewVersions(kept, p);
        var j :| 0 <= j < |p| && p[j] == all[i];
        assert HasVersion(p, all[i].version);
      }
    }
    forall i | 0 <= i < |featured| ensures HasVersion(r, featured[i].version) {
      assert HasVersion(all, p[i].version);
    }
  }

  lemma UnfeaturedKeeps(versions: Versions, repository: Repositories)
    ensures Expected(versions, Prepared([], repository)) == versions
  {
    assert versions + [] == versions;
  }

  lemma EarlyExit(stacks: Store, x: Input) returns (gone: string)
    requires IsInput(stacks, x) && DoomedSet(stacks, x.index) != {}
    ensures gone in DoomedSet(stacks, x.index)
    ensures Clean(stacks, x.listed, x.index).Keys == stacks.Keys - {gone}
  {
    var some :| some in DoomedSet(stacks, x.index);
    assert some in x.listed && Doomed(stacks, x.index, some);
    gone := CleanDeletesOne(stacks, x.listed, x.index);
  }

  lemma StillDoomed(stacks: Store, x: Input, cleaned: Store, gone: string, name: string)
    requires IsInput(stacks, x) && CleanedOne(stacks, cleaned, x.index, name) && cleaned.Keys == stacks.Keys - {gone}
    requires forall name :: name in x.index ==> AllParse(x.index[name], x.repository)
    ensures Doomed(MergeAll(cleaned, x.names, x.index, x.repository).stacks, x.index, name) <==>
      Doomed(stacks, x.index, name) && name != gone && name !in x.index
  {
    MergeAllEffect(cleaned, x.names, x.index, x.repository);
    if name in x.index {
      assert name in x.names;
      MergedIsKept(Entries(cleaned, name), x.index[name], x.repository);
    } else if name in cleaned {
      assert name !in x.names;
      KeptOnce(stacks[name], Entries(x.index, name));
    }
  }

  /** The early exit deletes one of the doomed stacks; the others are doomed still unless they are featured. */
  lemma PassDropsOne(stacks: Store, x: Input)
    requires IsInput(stacks, x) && DoomedSet(stacks, x.index) != {}
    requires forall name :: name in x.index ==> AllParse(x.index[name], x.repository)
    ensures |DoomedSet(After(stacks, x), x.index)| < |DoomedSet(stacks, x.index)|
    ensures DoomedSet(stacks, x.index) !! x.index.Keys ==>
      |DoomedSet(After(stacks, x), x.index)| == |DoomedSet(stacks, x.index)| - 1
  {
    var before, after := DoomedSet(stacks, x.index), DoomedSet(After(stacks, x), x.index);
    var gone := EarlyExit(stacks, x);
    var cleaned := Clean(stacks, x.listed, x.index);
    CleanEffect(stacks, x.listed, x.index);
    forall name ensures name in after <==> name in before - {gone} - x.index.Keys {
      StillDoomed(stacks, x, cleaned, gone, name);
    }
    CountDrops(before, after, gone, x.index.Keys);
  }

  lemma CountDrops(before: set<string>, after: set<string>, gone: string, featured: set<string>)
    requires after == before - {gone} - featured && gone in before
    ensures |after| < |before|
    ensures before !! featured ==> |after| == |before| - 1
  {
    SubsetSize(after, before - {gone});
    if before !! featured {
      assert after == before - {gone};
    }
  }

  lemma FullPassConverges(stacks: Store, x: Input)
    requires IsInput(stacks, x) && DoomedSet(stacks, x.index) == {}
    requires forall name :: name in x.index ==> AllParse(x.index[name], x.repository)
    ensures Converged(After(stacks, x), x.index, x.repository)
    ensures forall name :: name in After(stacks, x) ==>
      AllShow(After(stacks, x)[name], Entries(x.index, name), x.repository)
  {
    forall name | name in x.listed ensures !Doomed(stacks, x.index, name) {
      assert name !in DoomedSet(stacks, x.index);
    }
    CleanCompletes(stacks, x.listed, x.index);
    var cleaned := Clean(stacks, x.listed, x.index);
    MergeAllEffect(cleaned, x.names, x.index, x.repository);
    var after := After(stacks, x);
    forall name | name in after ensures UpToDate(after[name], Entries(x.index, name), x.repository) {
      var featured := Entries(x.index, name);
      if name in stacks {
        KeptIsUpToDate(stacks[name], featured, x.repository);
        assert !Doomed(stacks, x.index, name);
        assert cleaned[name] == Kept(stacks[name], featured);
      } else {
        NewIsUpToDate(featured, x.repository);
      }
      UnfeaturedKeeps(Entries(cleaned, name), x.repository);
    }
    ConvergedShows(after, x.index, x.repository);
  }

  lemma NewIsUpToDate(featured: Versions, repository: Repositories)
    requires featured != []
    ensures UpToDate(Expected([], Prepared(featured, repository)), featured, repository)
  {
    var p := Prepared(featured, repository);
    var all := [] + NewVersions([], p);
    var r := Expected([], p);
    NewVersionsAreFeatured([], p);
    RefreshNames(all, p);
    PreparedNames(featured, repository);
    MergeTwice([], p);
    NothingNew(r, p);
    assert r + [] == r;
    forall v | v in r
      ensures HasVersion(featured, v.version)
      ensures Refreshed(v, p) == v
    {
      var i :| 0 <= i < |r| && r[i] == v;
      assert Expected(r, p)[i] == Refreshed(r[i], p);
      assert all[i] in NewVersions([], p);
      assert HasVersion(p, all[i].version);
    }
    forall i | 0 <= i < |featured| ensures HasVersion(r, featured[i].version) {
      assert HasVersion(all, p[i].version);
    }
  }

  // ---------------------------------------------------------------- a pass with a deletion

  /** A stack that cleaning would leave as it is. */
  predicate InOrder(versions: Versions, featured: Versions) {
    Kept(versions, featured) == versions && (versions != [] || featured != [])
  }

  ghost predicate FirstDoomed(stacks: Store, listed: seq<string>, index: Store, i: nat) {
    && i < |listed| && Doomed(stacks, index, listed[i])
    && forall j :: 0 <= j < i ==> !Doomed(stacks, index, listed[j])
  }

  lemma FirstDoomedNext(stacks: Store, listed: seq<string>, index: Store, i: nat, kept: Versions)
    requires AllDifferent(listed) && 0 < i && FirstDoomed(stacks, listed, index, i)
    ensures FirstDoomed(stacks[listed[0] := kept], listed[1..], index, i - 1)
  {
    var stacks' := stacks[listed[0] := kept];
    forall j | 0 < j < |listed| ensures Doomed(stacks', index, listed[j]) == Doomed(stacks, index, listed[j]) {
      assert listed[0] != listed[j];
    }
    forall j | 0 <= j < i - 1 ensures !Doomed(stacks', index, listed[1..][j]) {
      assert !Doomed(stacks, index, listed[j + 1]);
    }
  }

  /** The stacks listed before the first doomed one are cleaned, that one goes, the later ones are not looked at. */
  lemma {:induction false} CleanUpTo(stacks: Store, listed: seq<string>, index: Store, i: nat)
    requires AllDifferent(listed) && forall name :: name in listed ==> name in stacks
    requires FirstDoomed(stacks, listed, index, i)
    ensures Clean(stacks, listed, index) == Clean(stacks, listed[..i], index) - {listed[i]}
    decreases i
  {
    if i == 0 {
      assert Clean(stacks, listed[..i], index) == stacks;
    } else {
      assert !Doomed(stacks, index, listed[0]);
      var kept := Kept(stacks[listed[0]], Entries(index, listed[0]));
      FirstDoomedNext(stacks, listed, index, i, kept);
      CleanUpTo(stacks[listed[0] := kept], listed[1..], index, i - 1);
      assert listed[..i][1..] == listed[1..][..i - 1];
    }
  }

  /** The stacks listed before position i are cleaned, the one there goes, and the others stay as they are. */
  predicate CleanedBefore(stacks: Store, after: Store, listed: seq<string>, index: Store, i: nat, j: nat)
    requires i < |listed| && j < |listed| && listed[j] in stacks
  {
    var name := listed[j];
    if j == i then name !in after
    else name in after && after[name] == if j < i then Kept(stacks[name], Entries(index, name)) else stacks[name]
  }

  lemma CleanStopsAt(stacks: Store, listed: seq<string>, index: Store, i: nat)
    requires IsListing(listed, stacks.Keys) && FirstDoomed(stacks, listed, index, i)
    ensures var after := Clean(stacks, listed, index);
      && (forall name :: name in after ==> name in stacks)
      && forall j :: 0 <= j < |listed| ==> listed[j] in stacks && CleanedBefore(stacks, after, listed, index, i, j)
  {
    CleanUpTo(stacks, listed, index, i);
    CleanCompletes(stacks, listed[..i], index);
    forall j | 0 <= j < |listed|
      ensures listed[j] in stacks && CleanedBefore(stacks, Clean(stacks, listed, index), listed, index, i, j)
    {
      assert listed[j] in listed;
      if j < i {
        assert listed[..i][j] == listed[j];
      } else {
        assert listed[j] !in listed[..i];
      }
    }
  }

  /** A merge without cleaning brings a stack up to date exactly when there was nothing to clean. */
  lemma UncleanedIsUpToDate(versions: Versions, featured: Versions, repository: Repositories)
    ensures UpToDate(Expected(versions, Prepared(featured, repository)), featured, repository) <==>
      InOrder(versions, featured)
  {
    var r := Expected(versions, Prepared(featured, repository));
    if InOrder(versions, featured) {
      if versions == [] {
        NewIsUpToDate(featured, repository);
      } else {
        KeptIsUpToDate(versions, featured, repository);
      }
    }
    if UpToDate(r, featured, repository) {
      if featured == [] {
        UnfeaturedKeeps(versions, repository);
      }
      forall v | v in versions ensures Pinned(v) || HasVersion(featured, v.version) {
        var i :| 0 <= i < |versions| && versions[i] == v;
        assert r[i] in r && r[i].version == v.version && r[i].desiredState == v.desiredState;
      }
      KeptAll(versions, featured);
    }
  }

  lemma MergedUpToDate(stacks: Store, cleaned: Store, x: Input, name: string)
    requires IsInput(stacks, x) && IsIndex(x.index) && name in After(stacks, x)
    requires cleaned == Clean(stacks, x.listed, x.index)
    requires forall name :: name in x.index ==> AllParse(x.index[name], x.repository)
    ensures UpToDate(After(stacks, x)[name], Entries(x.index, name), x.repository) <==>
      InOrder(Entries(cleaned, name), Entries(x.index, name))
  {
    MergeAllEffect(cleaned, x.names, x.index, x.repository);
    UncleanedIsUpToDate(Entries(cleaned, name), Entries(x.index, name), x.repository);
    if name !in x.index {
      assert name !in x.names;
      UnfeaturedKeeps(Entries(cleaned, name), x.repository);
    }
  }

  lemma LaterUpToDate(stacks: Store, x: Input, i: nat, j: nat)
    requires IsInput(stacks, x) && FirstDoomed(stacks, x.listed, x.index, i) && j < |x.listed|
    requires forall name :: name in x.index ==> AllParse(x.index[name], x.repository)
    ensures x.listed[j] in stacks && (x.listed[j] in After(stacks, x) || j == i)
    ensures x.listed[j] in After(stacks, x) ==>
      (UpToDate(After(stacks, x)[x.listed[j]], Entries(x.index, x.listed[j]), x.repository) <==>
       j <= i || InOrder(stacks[x.listed[j]], Entries(x.index, x.listed[j])))
  {
    var name, cleaned := x.listed[j], Clean(stacks, x.listed, x.index);
    CleanStopsAt(stacks, x.listed, x.index, i);
    assert CleanedBefore(stacks, cleaned, x.listed, x.index, i, j);
    MergeAllEffect(cleaned, x.names, x.index, x.repository);
    assert MergedOne(cleaned, After(stacks, x), x.index, x.repository, name);
    if name in After(stacks, x) {
      MergedUpToDate(stacks, cleaned, x, name);
      if j < i {
        assert !Doomed(stacks, x.index, name);
        KeptOnce(stacks[name], Entries(x.index, name));
      }
    }
  }

  lemma NewUpToDate(stacks: Store, x: Input, i: nat, name: string)
    requires IsInput(stacks, x) && FirstDoomed(stacks, x.listed, x.index, i)
    requires name in After(stacks, x) && name !in stacks
    requires forall name :: name in x.index ==> AllParse(x.index[name], x.repository)
    ensures UpToDate(After(stacks, x)[name], Entries(x.index, name), x.repository)
  {
    var cleaned := Clean(stacks, x.listed, x.index);
    CleanStopsAt(stacks, x.listed, x.index, i);
    MergeAllEffect(cleaned, x.names, x.index, x.repository);
    MergedUpToDate(stacks, cleaned, x, name);
    assert name !in cleaned && name in x.names;
  }

  /** A pass that deletes a stack leaves all stacks up to date exactly when those listed after it had nothing to
      be cleaned. */
  lemma EarlyExitConverges(stacks: Store, x: Input, i: nat)
    requires IsInput(stacks, x) && FirstDoomed(stacks, x.listed, x.index, i)
    requires forall name :: name in x.index ==> AllParse(x.index[name], x.repository)
    ensures forall j :: i < j < |x.listed| ==> x.listed[j] in stacks
    ensures Converged(After(stacks, x), x.index, x.repository) <==>
      forall j :: i < j < |x.listed| ==> InOrder(stacks[x.listed[j]], Entries(x.index, x.listed[j]))
  {
    var after := After(stacks, x);
    forall j | 0 <= j < |x.listed|
      ensures x.listed[j] in stacks && (x.listed[j] in after || j == i)
      ensures x.listed[j] in after ==>
        (UpToDate(after[x.listed[j]], Entries(x.index, x.listed[j]), x.repository) <==>
         j <= i || InOrder(stacks[x.listed[j]], Entries(x.index, x.listed[j])))
    {
      LaterUpToDate(stacks, x, i, j);
    }
    forall name | name in after && name !in stacks ensures UpToDate(after[name], Entries(x.index, name), x.repository) {
      NewUpToDate(stacks, x, i, name);
    }
    AllIndexed(stacks, x);
    forall name | name in after && name in stacks
      ensures exists j :: 0 <= j < |x.listed| && x.listed[j] == name
    {
      assert name in x.listed;
    }
  }

  lemma AllIndexed(stacks: Store, x: Input)
    requires IsInput(stacks, x)
    requires forall name :: name in x.index ==> AllParse(x.index[name], x.repository)
    ensures forall name :: name in x.index ==> name in After(stacks, x)
  {
    MergeAllEffect(Clean(stacks, x.listed, x.index), x.names, x.index, x.repository);
  }

  lemma ConvergedStays(stacks: Store, x: Input)
    requires IsInput(stacks, x) && Converged(stacks, x.index, x.repository)
    requires forall name :: name in x.index ==> AllParse(x.index[name], x.repository)
    ensures After(stacks, x) == stacks
  {
    CleanKeeps(stacks, x);
    forall name | name in x.index
      ensures name in stacks && Expected(stacks[name], Prepared(x.index[name], x.repository)) == stacks[name]
    {
      StaysUpToDate(stacks[name], x.index[name], x.repository);
    }
    MergeKeeps(stacks, x);
  }

  lemma CleanKeeps(stacks: Store, x: Input)
    requires IsListing(x.listed, stacks.Keys) && Converged(stacks, x.index, x.repository)
    ensures Clean(stacks, x.listed, x.index) == stacks
  {
    forall name | name in stacks ensures Kept(stacks[name], Entries(x.index, name)) == stacks[name] {
      StaysUpToDate(stacks[name], Entries(x.index, name), x.repository);
    }
    CleanCompletes(stacks, x.listed, x.index);
  }

  lemma MergeKeeps(stacks: Store, x: Input)
    requires IsIndex(x.index) && IsListing(x.names, x.index.Keys)
    requires forall name :: name in x.index ==>
      name in stacks && Expected(stacks[name], Prepared(x.index[name], x.repository)) == stacks[name]
    ensures MergeAll(stacks, x.names, x.index, x.repository).stacks == stacks
  {
    MergeAllEffect(stacks, x.names, x.index, x.repository);
    var after := MergeAll(stacks, x.names, x.index, x.repository).stacks;
    forall name ensures (name in after <==> name in stacks) && Entries(after, name) == Entries(stacks, name) {
      assert MergedOne(stacks, after, x.index, x.repository, name);
    }
  }

  lemma StaysUpToDate(versions: Versions, featured: Versions, repository: Repositories)
    requires UpToDate(versions, featured, repository)
    ensures Kept(versions, featured) == versions
    ensures Expected(versions, Prepared(featured, repository)) == versions
  {
    KeptAll(versions, featured);
    PreparedNames(featured, repository);
    var p := Prepared(featured, repository);
    forall i | 0 <= i < |p| ensures HasVersion(versions, p[i].version) {
      assert HasVersion(versions, featured[i].version);
    }
    NothingNew(versions, p);
    assert versions + [] == versions;
    assert forall i :: 0 <= i < |versions| ==> versions[i] in versions;
  }

  lemma {:induction false} KeptAll(versions: Versions, featured: Versions)
    requires forall v :: v in versions ==> Pinned(v) || HasVersion(featured, v.version)
    ensures Kept(versions, featured) == versions
  {
    if versions != [] {
      KeptAll(versions[..|versions| - 1], featured);
      assert versions[|versions| - 1] in versions;
    }
  }

  lemma ConvergedIsNotDoomed(stacks: Store, index: Store, repository: Repositories)
    requires Converged(stacks, index, repository)
    ensures DoomedSet(stacks, index) == {}
  {
    forall name | name in stacks ensures !Doomed(stacks, index, name) {
      StaysUpToDate(stacks[name], Entries(index, name), repository);
    }
  }

  /** One pass of a run with a fixed index. */
  ghost predicate Progress(stacks: Store, after: Store, index: Store, repository: Repositories) {
    && (DoomedSet(stacks, index) != {} ==> |DoomedSet(after, index)| < |DoomedSet(stacks, index)|)
    && (DoomedSet(stacks, index) == {} ==> Converged(after, index, repository) && DoomedSet(after, index) == {})
    && (Converged(stacks, index, repository) ==> after == stacks)
  }

  lemma PassProgresses(stacks: Store, x: Input)
    requires IsInput(stacks, x)
    requires forall name :: name in x.index ==> AllParse(x.index[name], x.repository)
    ensures Progress(stacks, After(stacks, x), x.index, x.repository)
  {
    if Converged(stacks, x.index, x.repository) {
      ConvergedStays(stacks, x);
    }
    if DoomedSet(stacks, x.index) == {} {
      FullPassConverges(stacks, x);
      ConvergedIsNotDoomed(After(stacks, x), x.index, x.repository);
    } else {
      PassDropsOne(stacks, x);
    }
  }

  ghost predicate Progresses(states: seq<Store>, index: Store, repository: Repositories) {
    forall i :: 0 < i < |states| ==> Progress(states[i - 1], states[i], index, repository)
  }

  lemma RunProgresses(states: seq<Store>, inputs: seq<Input>, index: Store, repository: Repositories)
    requires IsRun(states, inputs) && Fixed(inputs, index, repository)
    ensures Progresses(states, index, repository)
  {
    forall i | 0 < i < |states| ensures Progress(states[i - 1], states[i], index, repository) {
      assert states[i] == After(states[i - 1], inputs[i - 1]);
      PassProgresses(states[i - 1], inputs[i - 1]);
    }
  }

  lemma {:induction false} Countdown(left: seq<nat>, done: seq<bool>, n: nat)
    requires |left| == |done| && n < |left|
    requires forall i :: 0 < i < |left| ==>
      if left[i - 1] > 0 then left[i] < left[i - 1] else left[i] == 0 && done[i]
    ensures if n <= left[0] then left[n] <= left[0] - n else left[n] == 0 && done[n]
  {
    if n != 0 {
      Countdown(left, done, n - 1);
    }
  }

  lemma RunConverges(states: seq<Store>, index: Store, repository: Repositories, n: nat)
    requires Progresses(states, index, repository) && n < |states|
    ensures n <= |DoomedSet(states[0], index)| ==> |DoomedSet(states[n], index)| <= |DoomedSet(states[0], index)| - n
    ensures n > |DoomedSet(states[0], index)| ==> Converged(states[n], index, repository)
  {
    ghost var left: seq<nat> := seq(|states|, i requires 0 <= i < |states| => |DoomedSet(states[i], index)|);
    ghost var done: seq<bool> := seq(|states|, i requires 0 <= i < |states| => Converged(states[i], index, repository));
    forall i | 0 < i < |states|
      ensures if left[i - 1] > 0 then left[i] < left[i - 1] else left[i] == 0 && done[i]
    {
      ProgressCounts(states[i - 1], states[i], index, repository);
    }
    Countdown(left, done, n);
  }

  lemma ProgressCounts(stacks: Store, after: Store, index: Store, repository: Repositories)
    requires Progress(stacks, after, index, repository)
    ensures |DoomedSet(stacks, index)| > 0 ==> |DoomedSet(after, index)| < |DoomedSet(stacks, index)|
    ensures |DoomedSet(stacks, index)| == 0 ==>
      |DoomedSet(after, index)| == 0 && Converged(after, index, repository)
  {
  }

  /** With a fixed index whose images parse: after one pass more than there are stacks with nothing to keep, a
      version is stored exactly when it was pinned at the start or is featured. */
  lemma PassesConverge(states: seq<Store>, inputs: seq<Input>, index: Store, repository: Repositories, n: nat)
    requires IsRun(states, inputs) && Fixed(inputs, index, repository)
    requires |DoomedSet(states[0], index)| < n < |states| && IsIndex(index)
    ensures Converged(states[n], index, repository)
    ensures forall name :: name in states[n] ==> AllShow(states[n][name], Entries(index, name), repository)
    ensures forall m :: n <= m < |states| ==> states[m] == states[n]
    ensures forall name, version :: HasVersion(Entries(states[n], name), version) <==>
      HasVersion(PinnedOf(Entries(states[0], name)), version) || HasVersion(Entries(index, name), version)
  {
    RunProgresses(states, inputs, index, repository);
    RunConverges(states, index, repository, n);
    ConvergedShows(states[n], index, repository);
    forall m | n <= m < |states| ensures states[m] == states[n] {
      StaysSame(states, index, repository, n, m);
    }
    forall name, version
      ensures HasVersion(Entries(states[n], name), version) <==>
        HasVersion(PinnedOf(Entries(states[0], name)), version) || HasVersion(Entries(index, name), version)
    {
      PinnedSurvives(states, inputs, n, name);
      ExactlyPinnedAndFeatured(states[n], index, repository, name, version);
    }
  }

  lemma {:induction false} StaysSame(states: seq<Store>, index: Store, repository: Repositories, n: nat, m: nat)
    requires Progresses(states, index, repository)
    requires 0 < n <= m < |states| && |DoomedSet(states[0], index)| < n
    ensures states[m] == states[n]
  {
    if n < m {
      RunConverges(states, index, repository, m - 1);
      assert Progress(states[m - 1], states[m], index, repository);
      StaysSame(states, index, repository, n, m - 1);
    }
  }

  lemma ExactlyPinnedAndFeatured(stacks: Store, index: Store, repository: Repositories, name: string, version: string)
    requires Converged(stacks, index, repository)
    ensures HasVersion(Entries(stacks, name), version) <==>
      HasVersion(PinnedOf(Entries(stacks, name)), version) || HasVersion(Entries(index, name), version)
  {
    var versions := Entries(stacks, name);
    PinnedMembers(versions);
    var pinned := PinnedOf(versions);
    if HasVersion(versions, version) {
      var i :| 0 <= i < |versions| && versions[i].version == version;
      assert versions[i] in versions;
      if Pinned(versions[i]) {
        assert versions[i] in pinned;
      }
    }
    if HasVersion(pinned, version) {
      var i :| 0 <= i < |pinned| && pinned[i].version == version;
      assert pinned[i] in versions;
    }
  }
}
