/** Which archive an entry of the status stands for, field by field: the digest and the release or the URL that the spec
    names. A pipeline whose checksum, release or URL changes is another archive, which is fetched anew while the old
    one is let go. */
module Sources {
  import opened Component
  import opened UseCounts
  import opened Cluster
  import opened Activation
  import opened Ownership
  import opened Accuracy

  // ---------------------------------------------------------------- when two pipelines are one archive

  /** A release is used if nothing is missing in it; otherwise the URL is. */
  predicate Complete(g: GitRelease) {
    |g.hostname| > 0 && |g.organization| > 0 && |g.project| > 0 && |g.release| > 0 && |g.assetName| > 0
  }

  predicate SameFile(p: PipelineSpec, q: PipelineSpec) {
    && p.sha256 == q.sha256
    && if Complete(p.gitRelease.info) || Complete(q.gitRelease.info) then p.gitRelease.info == q.gitRelease.info
       else p.url == q.url
  }

  /** The status entry stands for the archive that the spec names. */
  predicate StandsFor(e: PipelineStatus, p: PipelineSpec) {
    && e.digest == p.sha256
    && if Complete(p.gitRelease.info) || Complete(e.gitRelease) then e.gitRelease == p.gitRelease.info
       else e.url == p.url
  }

  /** Two pipelines of a spec share a use map entry exactly if they have the same digest and the same release, or
      else the same URL. */
  lemma SharedExactly(p: PipelineSpec, q: PipelineSpec)
    ensures KeyOfSpec(p) == KeyOfSpec(q) <==> SameFile(p, q)
  {}

  lemma ListedExactly(e: PipelineStatus, p: PipelineSpec)
    ensures KeyOfStatus(e) == KeyOfSpec(p) <==> StandsFor(e, p)
  {}

  // ---------------------------------------------------------------- what an activation leaves alone

  lemma {:induction false} AssetsKeepSource(a: Adoption, key: UseKey, n: nat, namespace: string, uid: Uid, world: World)
    requires n <= |a.value.pipeline.activeAssets|
    ensures SameArchive(a.value, EnsureAssets(a, key, n, namespace, uid, world).value)
  {
    if n != 0 {
      AssetsKeepSource(a, key, n - 1, namespace, uid, world);
    }
  }

  lemma {:induction false} AllKeepSource(p: Pass, order: seq<UseKey>, namespace: string, uid: Uid, world: World)
    requires forall k :: k in order ==> k in p.useMap
    ensures var r := EnsureAll(p, order, namespace, uid, world);
      forall k :: k in p.useMap ==> SameArchive(p.useMap[k], r.useMap[k])
  {
    if order != [] {
      var n := |order| - 1;
      AllKeepSource(p, order[..n], namespace, uid, world);
      var mid := EnsureAll(p, order[..n], namespace, uid, world);
      var value := Listing(mid.useMap[order[n]], order[n], namespace, world);
      AssetsKeepSource(Adoption(mid.objects, value), order[n], |value.pipeline.activeAssets|, namespace, uid, world);
    }
  }

  lemma ActivationCovers(objects: Objects, spec: seq<SpecVersion>, status: seq<StatusVersion>, order: seq<UseKey>,
                         namespace: string, uid: Uid, world: World)
    requires IsOrder(order, Count(spec, status).Keys)
    ensures Covers(Activate(objects, spec, status, order, namespace, uid, world).useMap, spec)
  {
    var start := AfterRelease(objects, Count(spec, status), namespace, uid);
    OrderMembers(order, start.useMap.Keys);
    AllKeepSource(start, order, namespace, uid, world);
    forall u | u in SpecUses(spec) ensures u.key in start.useMap {
      CountsConserved(spec, status, u.key);
    }
    forall k | k in start.useMap ensures KeyOfStatus(start.useMap[k].pipeline) == k {
      CountPipelines(spec, status, k);
    }
  }

  // ---------------------------------------------------------------- the entries of the new status

  lemma {:induction false} RebuiltAt(ps: seq<PipelineSpec>, m: UseMap, j: nat)
    requires (forall i :: 0 <= i < |ps| ==> KeyOfSpec(ps[i]) in m) && j <= |ps|
    ensures |RebuildPipelines(ps, m)| == |ps|
    ensures j < |ps| ==> RebuildPipelines(ps, m)[j] == m[KeyOfSpec(ps[j])].pipeline.(name := ps[j].id)
  {
    if ps != [] {
      var n := |ps| - 1;
      assert forall i :: 0 <= i < n ==> ps[..n][i] == ps[i];
      RebuiltAt(ps[..n], m, if j < n then j else n);
    }
  }

  lemma WantedKeys(spec: seq<SpecVersion>, m: UseMap, i: nat)
    requires Covers(m, spec) && i < |spec|
    ensures forall j :: 0 <= j < |spec[i].pipelines| ==> KeyOfSpec(spec[i].pipelines[j]) in m
  {
    forall j | 0 <= j < |spec[i].pipelines| ensures KeyOfSpec(spec[i].pipelines[j]) in m {
      UsesOfSpec(spec, i, j);
    }
  }

  lemma {:induction false} UsesOfSpec(spec: seq<SpecVersion>, i: nat, j: nat)
    requires i < |spec| && j < |spec[i].pipelines|
    ensures Use(KeyOfSpec(spec[i].pipelines[j]), spec[i].version) in SpecUses(spec)
  {
    var n := |spec| - 1;
    if i == n {
      assert SpecVersionUses(spec[n])[j] == Use(KeyOfSpec(spec[i].pipelines[j]), spec[i].version);
    } else {
      UsesOfSpec(spec[..n], i, j);
    }
  }

  /** The entry for one pipeline of the spec, in full: it has its place, its name, its digest, and its release or
      its URL. */
  predicate Follows(e: PipelineStatus, p: PipelineSpec) {
    && e.name == p.id && e.digest == p.sha256
    && if Complete(p.gitRelease.info) then e.gitRelease == p.gitRelease.info
       else e.url == p.url && !Complete(e.gitRelease)
  }

  /** The status after an activation, whatever the old status lists and whatever fails: one entry for every pipeline of
      the spec, which has the digest the spec has now. */
  lemma StatusFollowsSpec(objects: Objects, spec: seq<SpecVersion>, status: seq<StatusVersion>, order: seq<UseKey>,
                          namespace: string, uid: Uid, world: World, i: nat)
    requires IsOrder(order, Count(spec, status).Keys) && i < |spec|
    ensures var now := RebuildStatus(spec, Activate(objects, spec, status, order, namespace, uid, world).useMap);
      && |now| == |spec| && now[i].version == spec[i].version && |now[i].pipelines| == |spec[i].pipelines|
      && forall j :: 0 <= j < |spec[i].pipelines| ==> Follows(now[i].pipelines[j], spec[i].pipelines[j])
  {
    var m := Activate(objects, spec, status, order, namespace, uid, world).useMap;
    ActivationCovers(objects, spec, status, order, namespace, uid, world);
    RebuiltFollows(spec, m, i);
  }

  lemma RebuiltFollows(spec: seq<SpecVersion>, m: UseMap, i: nat)
    requires Covers(m, spec) && i < |spec|
    ensures var now := RebuildStatus(spec, m);
      && |now| == |spec| && now[i].version == spec[i].version && |now[i].pipelines| == |spec[i].pipelines|
      && forall j :: 0 <= j < |spec[i].pipelines| ==> Follows(now[i].pipelines[j], spec[i].pipelines[j])
  {
    var now, ps := RebuildStatus(spec, m), spec[i].pipelines;
    WantedKeys(spec, m, i);
    RebuiltAt(ps, m, |ps|);
    forall j | 0 <= j < |ps| ensures Follows(now[i].pipelines[j], ps[j]) {
      RebuiltAt(ps, m, j);
      ListedExactly(now[i].pipelines[j], ps[j]);
    }
  }

  // ---------------------------------------------------------------- an archive that the spec gave up

  /** The object that an asset stands for; assets of older releases have no namespace. */
  function ObjectOf(a: AssetStatus, namespace: string): ObjectId {
    ObjectId(a.group, a.version, a.kind, if |a.namespace| == 0 then namespace else a.namespace, a.name)
  }

  lemma {:induction false} ListingOf(status: seq<StatusVersion>, i: nat, j: nat)
    requires i < |status| && j < |status[i].pipelines|
    ensures Listed(Use(KeyOfStatus(status[i].pipelines[j]), status[i].version), status[i].pipelines[j]) in
            StatusListing(status)
  {
    var n := |status| - 1;
    if i == n {
      assert VersionListing(status[n])[j] ==
             Listed(Use(KeyOfStatus(status[i].pipelines[j]), status[i].version), status[i].pipelines[j]);
    } else {
      ListingOf(status[..n], i, j);
    }
  }

  /** No pipeline of the spec is this archive. */
  predicate GivenUp(spec: seq<SpecVersion>, e: PipelineStatus) {
    forall i, j :: 0 <= i < |spec| && 0 <= j < |spec[i].pipelines| ==> !StandsFor(e, spec[i].pipelines[j])
  }

  lemma {:induction false} UseIsPipeline(spec: seq<SpecVersion>, u: Use) returns (i: nat, j: nat)
    requires u in SpecUses(spec)
    ensures i < |spec| && j < |spec[i].pipelines| && u == Use(KeyOfSpec(spec[i].pipelines[j]), spec[i].version)
  {
    var n := |spec| - 1;
    if u in SpecUses(spec[..n]) {
      i, j := UseIsPipeline(spec[..n], u);
    } else {
      i := n;
      j :| 0 <= j < |spec[n].pipelines| && SpecVersionUses(spec[n])[j] == u;
    }
  }

  lemma GivenUpIsUnwanted(spec: seq<SpecVersion>, e: PipelineStatus)
    ensures GivenUp(spec, e) <==> !WantedBySpec(spec, KeyOfStatus(e))
  {
    if u :| u in SpecUses(spec) && u.key == KeyOfStatus(e) {
      var i, j := UseIsPipeline(spec, u);
      ListedExactly(e, spec[i].pipelines[j]);
    }
    if !GivenUp(spec, e) {
      var i, j :| 0 <= i < |spec| && 0 <= j < |spec[i].pipelines| && StandsFor(e, spec[i].pipelines[j]);
      ListedExactly(e, spec[i].pipelines[j]);
      UsesOfSpec(spec, i, j);
    }
  }

  /** Every applied asset of an archive that the spec gave up, as by changing its checksum, is let go in the release
      phase: the component no longer owns its object, and the object is gone if nobody else does. */
  lemma GivenUpIsReleased(objects: Objects, spec: seq<SpecVersion>, status: seq<StatusVersion>, namespace: string,
                          uid: Uid, archive: Archive, i: nat, j: nat, a: AssetStatus)
    requires StatusOk(status, archive, namespace) && i < |status| && j < |status[i].pipelines|
    requires GivenUp(spec, status[i].pipelines[j]) && a in status[i].pipelines[j].activeAssets
    requires a.status != "unknown" && a.status != "failed"
    ensures var after, id := AfterRelease(objects, Count(spec, status), namespace, uid).objects, ObjectOf(a, namespace);
      && !Owns(after, uid, id)
      && (id in after <==> id in objects && exists o :: o in objects[id] && o != uid)
  {
    var e := status[i].pipelines[j];
    var m := Count(spec, status);
    var dead := DeadTargets(m, m.Keys, namespace);
    ListingOf(status, i, j);
    GivenUpIsUnwanted(spec, e);
    CountsFitStatus(spec, status, archive, namespace);
    InUseIsWanted(spec, status, KeyOfStatus(e));
    assert IsReleasable(a) && IdOf(Namespaced(a, namespace)) == ObjectOf(a, namespace);
    assert ObjectOf(a, namespace) in dead;
    ReleasedOwnership(objects, dead, uid);
    if ObjectOf(a, namespace) in objects {
      WithoutOwner(objects[ObjectOf(a, namespace)], uid);
      SomebodyElse(objects[ObjectOf(a, namespace)], uid);
    }
  }

  lemma SomebodyElse(owners: seq<Uid>, uid: Uid)
    ensures Without(owners, uid) != [] <==> exists o :: o in owners && o != uid
  {
    WithoutOwner(owners, uid);
    if Without(owners, uid) != [] {
      assert Without(owners, uid)[0] in Without(owners, uid);
    }
  }
}
