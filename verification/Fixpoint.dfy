/** Reconciliation is a fixpoint: once everything a spec asks for is in place, another activation writes
    nothing (but for the adoption of unowned trigger objects) and the status stays as it is. */
module Fixpoint {
  import opened Component
  import opened UseCounts
  import opened Cluster
  import opened Activation
  import opened Ownership
  import opened Accuracy
  import opened IterationOrder

  /** Everything the status lists is applied: there, and owned if the kind takes owners. */
  ghost predicate InPlace(objects: Objects, status: seq<StatusVersion>, uid: Uid, archive: Archive, namespace: string) {
    forall l :: l in StatusListing(status) ==>
      Conforms(l.pipeline.activeAssets, archive(l.use.key), namespace) &&
      AllApplied(objects, l.pipeline.activeAssets, uid)
  }

  predicate AllApplied(objects: Objects, assets: seq<AssetStatus>, uid: Uid) {
    forall a :: a in assets ==>
      MarkActive(a) == a && IdOf(a) in objects && (TakesOwner(a.kind) ==> uid in objects[IdOf(a)])
  }

  /** An activation that leaves every listed asset active leaves everything in place. */
  lemma AllActiveIsInPlace(objects: Objects, spec: seq<SpecVersion>, status: seq<StatusVersion>, order: seq<UseKey>,
                           namespace: string, uid: Uid, world: World, archive: Archive)
    requires namespace != "" && Faithful(world, archive) && WellNamed(archive)
    requires IsOrder(order, Count(spec, status).Keys) && StatusOk(status, archive, namespace)
    requires var status' := RebuildStatus(spec, Activate(objects, spec, status, order, namespace, uid, world).useMap);
      forall l :: l in StatusListing(status') ==>
        Conforms(l.pipeline.activeAssets, archive(l.use.key), namespace) &&
        forall a :: a in l.pipeline.activeAssets ==> Active(a)
    ensures var p := Activate(objects, spec, status, order, namespace, uid, world);
      InPlace(p.objects, RebuildStatus(spec, p.useMap), uid, archive, namespace)
  {
    var start := AfterRelease(objects, Count(spec, status), namespace, uid);
    var p := Activate(objects, spec, status, order, namespace, uid, world);
    var status' := RebuildStatus(spec, p.useMap);
    ActivateEffect(objects, spec, status, order, namespace, uid, world, archive);
    RebuiltUses(spec, p.useMap);
    forall l | l in StatusListing(status')
      ensures AllApplied(p.objects, l.pipeline.activeAssets, uid)
    {
      assert EntryOf(p.useMap, l);
      ListedUse(status', l);
      PositiveExactlyWhenWanted(spec, status, l.use.key);
      assert SameEntry(start.useMap[l.use.key], p.useMap[l.use.key], archive(l.use.key), namespace);
      assert AllSettled(start.objects, p.objects, p.useMap[l.use.key].pipeline.activeAssets, uid);
    }
  }

  /** What a repeated activation may change: an unowned trigger object gains its owner. */
  predicate OnlyAdopts(before: Objects, after: Objects, uid: Uid) {
    && before.Keys == after.Keys
    && forall id :: id in before ==>
      after[id] == before[id] || (!TakesOwner(id.kind) && after[id] == before[id] + [uid] && uid !in before[id])
  }

  predicate AllExist(objects: Objects, assets: seq<AssetStatus>, uid: Uid, namespace: string) {
    AllApplied(objects, assets, uid) && forall a :: a in assets ==> Namespaced(a, namespace) == a
  }

  lemma AllExistAfter(before: Objects, after: Objects, assets: seq<AssetStatus>, uid: Uid, namespace: string)
    requires AllExist(before, assets, uid, namespace) && OnlyAdopts(before, after, uid)
    ensures AllExist(after, assets, uid, namespace)
  {}

  lemma {:induction false} RepeatedAssets(a: Adoption, key: UseKey, n: nat, namespace: string, uid: Uid, world: World)
    requires n <= |a.value.pipeline.activeAssets| && AllExist(a.objects, a.value.pipeline.activeAssets, uid, namespace)
    ensures var r := EnsureAssets(a, key, n, namespace, uid, world);
      r.value == a.value && OnlyAdopts(a.objects, r.objects, uid)
  {
    if n != 0 {
      RepeatedAssets(a, key, n - 1, namespace, uid, world);
      var mid := EnsureAssets(a, key, n - 1, namespace, uid, world);
      AllExistAfter(a.objects, mid.objects, a.value.pipeline.activeAssets, uid, namespace);
      RepeatedAsset(mid, key, n - 1, namespace, uid, world);
    }
  }

  lemma RepeatedAsset(a: Adoption, key: UseKey, i: nat, namespace: string, uid: Uid, world: World)
    requires i < |a.value.pipeline.activeAssets| && AllExist(a.objects, a.value.pipeline.activeAssets, uid, namespace)
    ensures var r := EnsureAsset(a, key, i, namespace, uid, world);
      r.value == a.value && OnlyAdopts(a.objects, r.objects, uid)
  {
    var assets := a.value.pipeline.activeAssets;
    assert assets[i] in assets;
    assert SetAsset(a.value, i, assets[i]).pipeline.activeAssets == assets;
  }

  /** An entry that needs no work: all its assets exist, or its archive is empty. */
  ghost predicate NothingToDo(objects: Objects, v: UseValue, key: UseKey, uid: Uid, archive: Archive,
                              namespace: string) {
    && AllExist(objects, v.pipeline.activeAssets, uid, namespace)
    && (v.pipeline.activeAssets == [] ==> archive(key) == [])
  }

  lemma RepeatedArchive(a: Adoption, key: UseKey, namespace: string, uid: Uid, world: World, archive: Archive)
    requires Faithful(world, archive) && NothingToDo(a.objects, a.value, key, uid, archive, namespace)
    ensures var r := EnsureArchive(a, key, namespace, uid, world);
      r.value.pipeline == a.value.pipeline && OnlyAdopts(a.objects, r.objects, uid)
  {
    var value := Listing(a.value, key, namespace, world);
    assert value.pipeline == a.value.pipeline;
    RepeatedAssets(a.(value := value), key, |value.pipeline.activeAssets|, namespace, uid, world);
  }

  ghost predicate MapDone(objects: Objects, m: UseMap, uid: Uid, archive: Archive, namespace: string) {
    forall k :: k in m ==> NothingToDo(objects, m[k], k, uid, archive, namespace)
  }

  lemma {:induction false} RepeatedAll(p: Pass, order: seq<UseKey>, namespace: string, uid: Uid, world: World,
                                       archive: Archive)
    requires Faithful(world, archive) && MapDone(p.objects, p.useMap, uid, archive, namespace)
    requires forall k :: k in order ==> k in p.useMap
    ensures var r := EnsureAll(p, order, namespace, uid, world);
      OnlyAdopts(p.objects, r.objects, uid) && SamePipelines(p.useMap, r.useMap)
  {
    if order != [] {
      var n := |order| - 1;
      var init, key := order[..n], order[n];
      assert order == init + [key];
      RepeatedAll(p, init, namespace, uid, world, archive);
      var mid := EnsureAll(p, init, namespace, uid, world);
      assert NothingToDo(p.objects, p.useMap[key], key, uid, archive, namespace);
      AllExistAfter(p.objects, mid.objects, p.useMap[key].pipeline.activeAssets, uid, namespace);
      RepeatedArchive(Adoption(mid.objects, mid.useMap[key]), key, namespace, uid, world, archive);
    }
  }

  /** An entry counted from a status that was just rebuilt from m: in use, with a pipeline the status lists. */
  ghost predicate CountedAgain(m: UseMap, m': UseMap, status: seq<StatusVersion>, k: UseKey)
    requires k in m'
  {
    && m'[k].useCount > 0 && k in m && m'[k].pipeline == m[k].pipeline.(name := m'[k].pipeline.name)
    && exists l :: l in StatusListing(status) && l.use.key == k && m'[k].pipeline == l.pipeline
  }

  lemma CountsOfRebuilt(spec: seq<SpecVersion>, m: UseMap)
    requires Covers(m, spec)
    ensures var status := RebuildStatus(spec, m);
      var m' := Count(spec, status);
      && (forall k :: k in m' <==> WantedBySpec(spec, k))
      && (forall k :: k in m' ==> CountedAgain(m, m', status, k))
  {
    var status := RebuildStatus(spec, m);
    var m' := Count(spec, status);
    RebuiltUses(spec, m);
    forall k
      ensures k in m' <==> WantedBySpec(spec, k)
      ensures k in m' ==> CountedAgain(m, m', status, k)
    {
      CountsConserved(spec, status, k);
      if k in m' {
        PositiveExactlyWhenWanted(spec, status, k);
        CountPipelines(spec, status, k);
        var u :| u in SpecUses(spec) && u.key == k;
        var l' := UseListed(status, u);
        var l :| l in StatusListing(status) && l.use.key == k && l.pipeline == m'[k].pipeline;
        assert EntryOf(m, l);
      }
    }
  }

  lemma RebuiltMapDone(objects: Objects, spec: seq<SpecVersion>, m: UseMap, namespace: string, uid: Uid,
                       archive: Archive)
    requires namespace != "" && Covers(m, spec)
    requires InPlace(objects, RebuildStatus(spec, m), uid, archive, namespace)
    ensures var m' := Count(spec, RebuildStatus(spec, m));
      MapDone(objects, m', uid, archive, namespace) && DeadTargets(m', m'.Keys, namespace) == {}
  {
    var status := RebuildStatus(spec, m);
    var m' := Count(spec, status);
    CountsOfRebuilt(spec, m);
    forall k | k in m'
      ensures NothingToDo(objects, m'[k], k, uid, archive, namespace) && m'[k].useCount > 0
    {
      assert CountedAgain(m, m', status, k);
      var l :| l in StatusListing(status) && l.use.key == k && m'[k].pipeline == l.pipeline;
      var assets := l.pipeline.activeAssets;
      assert Conforms(assets, archive(k), namespace) && AllApplied(objects, assets, uid);
      forall a | a in assets ensures Namespaced(a, namespace) == a {
        var i :| 0 <= i < |assets| && assets[i] == a;
        assert Describes(a, archive(k)[i], namespace);
      }
    }
  }

  /** After a pass that put everything in place, a second pass with the same spec deletes nothing, creates
      nothing, leaves every owner list of a kind that takes owners alone and rebuilds the same status,
      whatever the downloads and creations would do this time and in whatever order. */
  lemma SecondPassIsIdle(objects: Objects, spec: seq<SpecVersion>, m: UseMap, order: seq<UseKey>, namespace: string,
                         uid: Uid, world: World, archive: Archive)
    requires namespace != "" && Faithful(world, archive) && Covers(m, spec)
    requires InPlace(objects, RebuildStatus(spec, m), uid, archive, namespace)
    requires IsOrder(order, Count(spec, RebuildStatus(spec, m)).Keys)
    ensures var status := RebuildStatus(spec, m);
      var p := Activate(objects, spec, status, order, namespace, uid, world);
      OnlyAdopts(objects, p.objects, uid) && RebuildStatus(spec, p.useMap) == status
  {
    var status := RebuildStatus(spec, m);
    var m' := Count(spec, status);
    RebuiltMapDone(objects, spec, m, namespace, uid, archive);
    ReleasedNothing(objects, uid);
    OrderMembers(order, m'.Keys);
    RepeatedAll(Pass(objects, m'), order, namespace, uid, world, archive);
    SecondStatus(spec, m, Activate(objects, spec, status, order, namespace, uid, world).useMap);
  }

  /** Entries of different versions that stand for the same archive list the same assets. */
  lemma SharedKeysShareAssets(spec: seq<SpecVersion>, m: UseMap, a: Listed, b: Listed)
    requires Covers(m, spec) && a.use.key == b.use.key
    requires a in StatusListing(RebuildStatus(spec, m)) && b in StatusListing(RebuildStatus(spec, m))
    ensures a.pipeline.activeAssets == b.pipeline.activeAssets
  {
    RebuiltUses(spec, m);
    assert EntryOf(m, a) && EntryOf(m, b);
  }

  lemma SecondStatus(spec: seq<SpecVersion>, m: UseMap, after: UseMap)
    requires Covers(m, spec) && SamePipelines(Count(spec, RebuildStatus(spec, m)), after)
    ensures RebuildStatus(spec, after) == RebuildStatus(spec, m)
  {
    var status := RebuildStatus(spec, m);
    CountsOfRebuilt(spec, m);
    forall u | u in SpecUses(spec)
      ensures u.key in after && u.key in m && after[u.key].pipeline.(name := "") == m[u.key].pipeline.(name := "")
    {
      assert CountedAgain(m, Count(spec, status), status, u.key);
    }
    RenamedSameStatus(spec, after, m);
  }

  /** The status takes the pipeline names from the spec, not from the use map. */
  predicate SameUpToName(m: UseMap, m': UseMap, spec: seq<SpecVersion>) {
    forall u :: u in SpecUses(spec) ==>
      u.key in m && u.key in m' && m[u.key].pipeline.(name := "") == m'[u.key].pipeline.(name := "")
  }

  lemma {:induction false} RenamedSameStatus(spec: seq<SpecVersion>, m: UseMap, m': UseMap)
    requires SameUpToName(m, m', spec)
    ensures RebuildStatus(spec, m) == RebuildStatus(spec, m')
  {
    forall i | 0 <= i < |spec|
      ensures RebuildVersion(spec[i], m) == RebuildVersion(spec[i], m')
    {
      forall p | p in spec[i].pipelines
        ensures KeyOfSpec(p) in m && KeyOfSpec(p) in m' &&
                m[KeyOfSpec(p)].pipeline.(name := "") == m'[KeyOfSpec(p)].pipeline.(name := "")
      {
        var j :| 0 <= j < |spec[i].pipelines| && spec[i].pipelines[j] == p;
        UsesInclude(spec, i, j);
      }
      RenamedSamePipelines(spec[i].pipelines, m, m');
    }
  }

  lemma {:induction false} UsesInclude(spec: seq<SpecVersion>, i: nat, j: nat)
    requires i < |spec| && j < |spec[i].pipelines|
    ensures Use(KeyOfSpec(spec[i].pipelines[j]), spec[i].version) in SpecUses(spec)
  {
    var n := |spec| - 1;
    if i == n {
      assert SpecVersionUses(spec[n])[j] in SpecVersionUses(spec[n]);
    } else {
      UsesInclude(spec[..n], i, j);
    }
  }

  lemma {:induction false} RenamedSamePipelines(ps: seq<PipelineSpec>, m: UseMap, m': UseMap)
    requires forall p :: p in ps ==> KeyOfSpec(p) in m && KeyOfSpec(p) in m'
    requires forall p :: p in ps ==> m[KeyOfSpec(p)].pipeline.(name := "") == m'[KeyOfSpec(p)].pipeline.(name := "")
    ensures RebuildPipelines(ps, m) == RebuildPipelines(ps, m')
  {
    if ps != [] {
      var n := |ps| - 1;
      assert ps == ps[..n] + [ps[n]];
      RenamedSamePipelines(ps[..n], m, m');
      var a, b := m[KeyOfSpec(ps[n])].pipeline, m'[KeyOfSpec(ps[n])].pipeline;
      assert a.(name := ps[n].id) == a.(name := "").(name := ps[n].id);
      assert b.(name := ps[n].id) == b.(name := "").(name := ps[n].id);
    }
  }
}
