/** When downloads and creations succeed, the outcome of an activation does not depend on the order in
    which the archives are visited, even if archives share objects. */
module IterationOrder {
  import opened Component
  import opened UseCounts
  import opened Cluster
  import opened Activation
  import opened Ownership
  import opened Accuracy

  ghost predicate AlwaysSucceeds(world: World, archive: Archive) {
    && (forall k, n: nat :: world.download(k, n) == Fetched(archive(k)))
    && (forall k, i: nat, j: nat :: world.apply(k, i, j) == Applied)
  }

  // ---------------------------------------------------------------- one asset is one touch of its object

  /** What a successful visit does to one object. */
  function Touch(objects: Objects, id: ObjectId, uid: Uid): Objects {
    if id in objects then Adopted(objects, id, uid)
    else if IsAllowed(id.group) then objects[id := if TakesOwner(id.kind) then [uid] else []]
    else objects
  }

  function TouchAll(objects: Objects, ids: seq<ObjectId>, uid: Uid): Objects {
    if ids == [] then objects
    else Touch(TouchAll(objects, ids[..|ids| - 1], uid), ids[|ids| - 1], uid)
  }

  /** The asset after a successful visit. */
  function Visited(a: AssetStatus, exists_: bool): AssetStatus {
    if exists_ || IsAllowed(a.group) then MarkActive(a) else a.(status := ASSET_FAILED, message := REJECTED)
  }

  function AssetIds(assets: seq<AssetStatus>): seq<ObjectId> {
    seq(|assets|, i requires 0 <= i < |assets| => IdOf(assets[i]))
  }

  lemma SuccessfulAsset(a: Adoption, key: UseKey, i: nat, namespace: string, uid: Uid, world: World, archive: Archive)
    requires namespace != "" && AlwaysSucceeds(world, archive) && NamesUnique(archive(key))
    requires i < |a.value.pipeline.activeAssets| && ValueOk(a.value, archive(key), namespace)
    ensures var r := EnsureAsset(a, key, i, namespace, uid, world);
      var asset := a.value.pipeline.activeAssets[i];
      && r.objects == Touch(a.objects, IdOf(asset), uid)
      && r.value.pipeline == SetAsset(a.value, i, Visited(asset, IdOf(asset) in a.objects)).pipeline
  {
    var ms := archive(key);
    var asset := a.value.pipeline.activeAssets[i];
    assert Describes(asset, ms[i], namespace);
    assert Namespaced(asset, namespace) == asset;
    if IdOf(asset) !in a.objects {
      OneManifestMatches(Progress(a.objects, asset), ms, |ms|, key, i, uid, world);
    }
  }

  /** Nothing disappears, and only allowed objects appear. */
  predicate Extends(before: Objects, after: Objects) {
    before.Keys <= after.Keys && forall id :: id in after && id !in before ==> IsAllowed(id.group)
  }

  /** The first n assets have been visited successfully. */
  predicate VisitedUpTo(a: Adoption, r: Adoption, n: nat, uid: Uid, ms: seq<Manifest>, namespace: string,
                        start: Objects) {
    var was, now := a.value.pipeline.activeAssets, r.value.pipeline.activeAssets;
    && n <= |was| == |now| && r.value.pipeline == a.value.pipeline.(activeAssets := now)
    && r.objects == TouchAll(a.objects, AssetIds(was)[..n], uid) && Extends(start, r.objects)
    && ValueOk(r.value, ms, namespace)
    && (forall i :: 0 <= i < n ==> now[i] == Visited(was[i], IdOf(was[i]) in start))
    && (forall i :: n <= i < |was| ==> now[i] == was[i])
  }

  predicate VisitedOne(a: Adoption, r: Adoption, i: nat, uid: Uid, ms: seq<Manifest>, namespace: string) {
    && i < |a.value.pipeline.activeAssets| && ValueOk(r.value, ms, namespace)
    && var asset := a.value.pipeline.activeAssets[i];
       && r.objects == Touch(a.objects, IdOf(asset), uid)
       && r.value.pipeline == SetAsset(a.value, i, Visited(asset, IdOf(asset) in a.objects)).pipeline
  }

  lemma SuccessfulStep(a: Adoption, key: UseKey, n: nat, namespace: string, uid: Uid, world: World, archive: Archive)
    requires namespace != "" && Faithful(world, archive) && AlwaysSucceeds(world, archive) && NamesUnique(archive(key))
    requires n < |a.value.pipeline.activeAssets|
    requires ValueOk(EnsureAssets(a, key, n, namespace, uid, world).value, archive(key), namespace)
    ensures VisitedOne(EnsureAssets(a, key, n, namespace, uid, world),
                       EnsureAssets(a, key, n + 1, namespace, uid, world), n, uid, archive(key), namespace)
  {
    var mid := EnsureAssets(a, key, n, namespace, uid, world);
    EnsureAssetEffect(mid, key, n, namespace, uid, world, archive);
    SuccessfulAsset(mid, key, n, namespace, uid, world, archive);
  }

  lemma VisitedStep(a: Adoption, mid: Adoption, r: Adoption, i: nat, uid: Uid, ms: seq<Manifest>, namespace: string,
                    start: Objects)
    requires VisitedUpTo(a, mid, i, uid, ms, namespace, start) && i < |a.value.pipeline.activeAssets|
    requires VisitedOne(mid, r, i, uid, ms, namespace)
    ensures VisitedUpTo(a, r, i + 1, uid, ms, namespace, start)
  {
    var ids := AssetIds(a.value.pipeline.activeAssets);
    assert ids[..i + 1][..i] == ids[..i];
  }

  lemma {:induction false} ChainVisits(states: seq<Adoption>, n: nat, uid: Uid, ms: seq<Manifest>, namespace: string,
                                       start: Objects)
    requires n < |states| && n <= |states[0].value.pipeline.activeAssets|
    requires ValueOk(states[0].value, ms, namespace) && Extends(start, states[0].objects)
    requires forall i :: 0 <= i < n && ValueOk(states[i].value, ms, namespace) ==>
      VisitedOne(states[i], states[i + 1], i, uid, ms, namespace)
    ensures VisitedUpTo(states[0], states[n], n, uid, ms, namespace, start)
  {
    if n != 0 {
      ChainVisits(states, n - 1, uid, ms, namespace, start);
      VisitedStep(states[0], states[n - 1], states[n], n - 1, uid, ms, namespace, start);
    }
  }

  lemma StatesVisited(a: Adoption, key: UseKey, n: nat, namespace: string, uid: Uid, world: World, archive: Archive)
    requires namespace != "" && Faithful(world, archive) && AlwaysSucceeds(world, archive) && NamesUnique(archive(key))
    requires n <= |a.value.pipeline.activeAssets|
    ensures var states := States(a, key, n, namespace, uid, world);
      forall i :: 0 <= i < n && ValueOk(states[i].value, archive(key), namespace) ==>
        VisitedOne(states[i], states[i + 1], i, uid, archive(key), namespace)
  {
    var states := States(a, key, n, namespace, uid, world);
    forall i | 0 <= i < n && ValueOk(states[i].value, archive(key), namespace)
      ensures VisitedOne(states[i], states[i + 1], i, uid, archive(key), namespace)
    {
      SuccessfulStep(a, key, i, namespace, uid, world, archive);
    }
  }

  lemma SuccessfulAssets(a: Adoption, key: UseKey, n: nat, namespace: string, uid: Uid, world: World, archive: Archive,
                         start: Objects)
    requires namespace != "" && Faithful(world, archive) && AlwaysSucceeds(world, archive) && NamesUnique(archive(key))
    requires n <= |a.value.pipeline.activeAssets| && ValueOk(a.value, archive(key), namespace)
    requires Extends(start, a.objects)
    ensures VisitedUpTo(a, States(a, key, n, namespace, uid, world)[n], n, uid, archive(key), namespace, start)
  {
    StatesVisited(a, key, n, namespace, uid, world, archive);
    ChainVisits(States(a, key, n, namespace, uid, world), n, uid, archive(key), namespace, start);
  }

  // ---------------------------------------------------------------- touches commute

  /** What n touches make of one object. */
  function TouchedTimes(objects: Objects, id: ObjectId, uid: Uid, n: nat): Option<seq<Uid>> {
    if n == 0 then if id in objects then Some(objects[id]) else None
    else
      match TouchedTimes(objects, id, uid, n - 1)
      case Some(owners) => Some(if uid in owners then owners else owners + [uid])
      case None => if IsAllowed(id.group) then Some(if TakesOwner(id.kind) then [uid] else []) else None
  }

  lemma {:induction false} TouchAllAt(objects: Objects, ids: seq<ObjectId>, uid: Uid, id: ObjectId)
    ensures var r := TouchAll(objects, ids, uid);
      (if id in r then Some(r[id]) else None) == TouchedTimes(objects, id, uid, multiset(ids)[id])
  {
    if ids != [] {
      var n := |ids| - 1;
      assert ids == ids[..n] + [ids[n]];
      TouchAllAt(objects, ids[..n], uid, id);
    }
  }

  lemma TouchesCommute(objects: Objects, a: seq<ObjectId>, b: seq<ObjectId>, uid: Uid)
    requires multiset(a) == multiset(b)
    ensures TouchAll(objects, a, uid) == TouchAll(objects, b, uid)
  {
    var ra, rb := TouchAll(objects, a, uid), TouchAll(objects, b, uid);
    forall id
      ensures (id in ra <==> id in rb) && (id in ra ==> ra[id] == rb[id])
    {
      TouchAllAt(objects, a, uid, id);
      TouchAllAt(objects, b, uid, id);
    }
    assert ra.Keys == rb.Keys;
  }

  lemma {:induction false} TouchAllConcat(objects: Objects, a: seq<ObjectId>, b: seq<ObjectId>, uid: Uid)
    ensures TouchAll(objects, a + b, uid) == TouchAll(TouchAll(objects, a, uid), b, uid)
  {
    if b == [] {
      assert a + b == a;
    } else {
      var n := |b| - 1;
      TouchAllConcat(objects, a, b[..n], uid);
      assert (a + b)[..|a + b| - 1] == a + b[..n];
    }
  }

  // ---------------------------------------------------------------- all archives

  /** The assets an archive in use ends up with a list of. */
  function ListedAssets(v: UseValue, key: UseKey, archive: Archive, namespace: string): seq<AssetStatus> {
    if v.pipeline.activeAssets == [] then NewAssets(archive(key), namespace) else v.pipeline.activeAssets
  }

  function IdsOfKey(m: UseMap, key: UseKey, archive: Archive, namespace: string): seq<ObjectId>
    requires key in m
  {
    if m[key].useCount > 0 then AssetIds(ListedAssets(m[key], key, archive, namespace)) else []
  }

  function IdsOfOrder(m: UseMap, order: seq<UseKey>, archive: Archive, namespace: string): seq<ObjectId>
    requires forall k :: k in order ==> k in m
  {
    if order == [] then []
    else IdsOfOrder(m, order[..|order| - 1], archive, namespace) + IdsOfKey(m, order[|order| - 1], archive, namespace)
  }

  /** The pipeline of a visited archive, in terms of the objects before any visit. */
  function FinalPipeline(v: UseValue, key: UseKey, archive: Archive, namespace: string,
                         start: Objects): PipelineStatus {
    if v.useCount > 0 then
      var listed := ListedAssets(v, key, archive, namespace);
      v.pipeline.(activeAssets := seq(|listed|,
                                      i requires 0 <= i < |listed| => Visited(listed[i], IdOf(listed[i]) in start)))
    else v.pipeline
  }

  lemma SuccessfulArchive(a: Adoption, key: UseKey, namespace: string, uid: Uid, world: World, archive: Archive,
                          start: Objects)
    requires namespace != "" && Faithful(world, archive) && AlwaysSucceeds(world, archive) && NamesUnique(archive(key))
    requires ValueOk(a.value, archive(key), namespace) && Extends(start, a.objects) && a.value.useCount > 0
    ensures var r := EnsureArchive(a, key, namespace, uid, world);
      && r.objects == TouchAll(a.objects, AssetIds(ListedAssets(a.value, key, archive, namespace)), uid)
      && Extends(start, r.objects)
      && r.value.pipeline == FinalPipeline(a.value, key, archive, namespace, start)
  {
    var value := Listing(a.value, key, namespace, world);
    var assets := ListedAssets(a.value, key, archive, namespace);
    assert value.pipeline.activeAssets == assets;
    SuccessfulAssets(a.(value := value), key, |assets|, namespace, uid, world, archive, start);
    assert AssetIds(assets)[..|assets|] == AssetIds(assets);
  }

  lemma {:induction false} SuccessfulOrder(p: Pass, order: seq<UseKey>, namespace: string, uid: Uid, world: World,
                                           archive: Archive)
    requires namespace != "" && Faithful(world, archive) && AlwaysSucceeds(world, archive) && WellNamed(archive)
    requires MapOk(p.useMap, archive, namespace) && forall k :: k in order ==> k in p.useMap
    requires forall i, j :: 0 <= i < j < |order| ==> order[i] != order[j]
    ensures var r := EnsureAll(p, order, namespace, uid, world);
      && r.objects == TouchAll(p.objects, IdsOfOrder(p.useMap, order, archive, namespace), uid)
      && Extends(p.objects, r.objects)
      && (forall k :: k in p.useMap && k !in order ==> r.useMap[k] == p.useMap[k])
      && (forall k :: k in order ==>
            r.useMap[k].pipeline == FinalPipeline(p.useMap[k], k, archive, namespace, p.objects))
  {
    if order != [] {
      var n := |order| - 1;
      var init, key := order[..n], order[n];
      assert order == init + [key];
      SuccessfulOrder(p, init, namespace, uid, world, archive);
      var mid := EnsureAll(p, init, namespace, uid, world);
      assert key !in init && mid.useMap[key] == p.useMap[key];
      TouchAllConcat(p.objects, IdsOfOrder(p.useMap, init, archive, namespace),
                     IdsOfKey(p.useMap, key, archive, namespace), uid);
      if p.useMap[key].useCount > 0 {
        SuccessfulArchive(Adoption(mid.objects, mid.useMap[key]), key, namespace, uid, world, archive, p.objects);
      }
    }
  }

  lemma OrderWithout<T>(order: seq<T>, keys: set<T>, j: nat)
    requires IsOrder(order, keys) && j < |order|
    ensures IsOrder(order[..j] + order[j + 1..], keys - {order[j]})
  {
    var rest := order[..j] + order[j + 1..];
    OrderMembers(order, keys);
    forall k ensures k in rest <==> k in keys && k != order[j] {
      if k in keys && k != order[j] {
        var i :| 0 <= i < |order| && order[i] == k;
        assert if i < j then rest[i] == k else rest[i - 1] == k;
      }
    }
    assert (set k | k in rest) == keys - {order[j]};
  }

  lemma {:induction false} OrderSize<T>(order: seq<T>, keys: set<T>)
    requires IsOrder(order, keys)
    ensures |order| == |keys|
  {
    if order != [] {
      var n := |order| - 1;
      OrderMembers(order, keys);
      OrderWithout(order, keys, n);
      assert order[..n] + order[n + 1..] == order[..n];
      OrderSize(order[..n], keys - {order[n]});
    }
  }

  predicate InMap(m: UseMap, order: seq<UseKey>) {
    forall k :: k in order ==> k in m
  }

  /** The touches of one object, over an order. */
  function Touches(m: UseMap, order: seq<UseKey>, archive: Archive, namespace: string): multiset<ObjectId>
    requires InMap(m, order)
  {
    multiset(IdsOfOrder(m, order, archive, namespace))
  }

  lemma TouchesSnoc(m: UseMap, init: seq<UseKey>, last: UseKey, archive: Archive, namespace: string)
    requires InMap(m, init) && last in m
    ensures InMap(m, init + [last])
    ensures Touches(m, init + [last], archive, namespace) ==
            Touches(m, init, archive, namespace) + multiset(IdsOfKey(m, last, archive, namespace))
  {
    assert (init + [last])[..|init|] == init;
  }

  lemma {:induction false} TouchesWithout(m: UseMap, before: seq<UseKey>, k: UseKey, after: seq<UseKey>,
                                          archive: Archive, namespace: string)
    requires InMap(m, before + [k] + after)
    ensures InMap(m, before + after) && k in m
    ensures Touches(m, before + [k] + after, archive, namespace) ==
            Touches(m, before + after, archive, namespace) + multiset(IdsOfKey(m, k, archive, namespace))
    decreases |after|
  {
    assert k in before + [k] + after;
    if after == [] {
      assert before + [k] + after == before + [k] && before + after == before;
      assert InMap(m, before) by {
        assert forall x :: x in before ==> x in before + [k] + after;
      }
      TouchesSnoc(m, before, k, archive, namespace);
    } else {
      var n := |after| - 1;
      var init, last := after[..n], after[n];
      assert before + [k] + after == (before + [k] + init) + [last] && before + after == (before + init) + [last];
      assert InMap(m, before + [k] + init) && last in m by {
        assert forall x :: x in before + [k] + init ==> x in before + [k] + after;
        assert last in before + [k] + after;
      }
      TouchesWithout(m, before, k, init, archive, namespace);
      TouchesSnoc(m, before + [k] + init, last, archive, namespace);
      TouchesSnoc(m, before + init, last, archive, namespace);
    }
  }

  /** Two orders of the same archives touch the same objects equally often. */
  lemma {:induction false} SameTouches(m: UseMap, a: seq<UseKey>, b: seq<UseKey>, keys: set<UseKey>, archive: Archive,
                                       namespace: string)
    requires IsOrder(a, keys) && IsOrder(b, keys) && InMap(m, a) && InMap(m, b)
    ensures Touches(m, a, archive, namespace) == Touches(m, b, archive, namespace)
    decreases |a|
  {
    OrderMembers(a, keys);
    OrderMembers(b, keys);
    OrderSize(a, keys);
    OrderSize(b, keys);
    if a != [] {
      var n := |a| - 1;
      assert a[n] in b;
      var j :| 0 <= j < |b| && b[j] == a[n];
      assert a == a[..n] + [a[n]] + a[n + 1..] && b == b[..j] + [b[j]] + b[j + 1..];
      TouchesWithout(m, a[..n], a[n], a[n + 1..], archive, namespace);
      TouchesWithout(m, b[..j], b[j], b[j + 1..], archive, namespace);
      OrderWithout(a, keys, n);
      OrderWithout(b, keys, j);
      SameTouches(m, a[..n] + a[n + 1..], b[..j] + b[j + 1..], keys - {a[n]}, archive, namespace);
    }
  }

  /** The result for any two iteration orders: the same objects with the same owner lists, and the same
      pipelines with the same assets in every entry, so that the rebuilt status is the same too. */
  lemma OrderDoesNotMatter(objects: Objects, spec: seq<SpecVersion>, status: seq<StatusVersion>, a: seq<UseKey>,
                           b: seq<UseKey>, namespace: string, uid: Uid, world: World, archive: Archive)
    requires namespace != "" && Faithful(world, archive) && AlwaysSucceeds(world, archive) && WellNamed(archive)
    requires StatusOk(status, archive, namespace)
    requires IsOrder(a, Count(spec, status).Keys) && IsOrder(b, Count(spec, status).Keys)
    ensures var p := Activate(objects, spec, status, a, namespace, uid, world);
      var q := Activate(objects, spec, status, b, namespace, uid, world);
      && p.objects == q.objects && p.useMap.Keys == q.useMap.Keys
      && (forall k :: k in p.useMap ==> p.useMap[k].pipeline == q.useMap[k].pipeline)
      && RebuildStatus(spec, p.useMap) == RebuildStatus(spec, q.useMap)
  {
    var m := Count(spec, status);
    var start := AfterRelease(objects, m, namespace, uid);
    CountsFitStatus(spec, status, archive, namespace);
    OrderMembers(a, m.Keys);
    OrderMembers(b, m.Keys);
    SuccessfulOrder(start, a, namespace, uid, world, archive);
    SuccessfulOrder(start, b, namespace, uid, world, archive);
    SameTouches(m, a, b, m.Keys, archive, namespace);
    TouchesCommute(start.objects, IdsOfOrder(m, a, archive, namespace), IdsOfOrder(m, b, archive, namespace), uid);
    var p := Activate(objects, spec, status, a, namespace, uid, world);
    var q := Activate(objects, spec, status, b, namespace, uid, world);
    SamePipelinesSameStatus(spec, p.useMap, q.useMap);
  }

  predicate SamePipelines(m: UseMap, m': UseMap) {
    m.Keys == m'.Keys && forall k :: k in m ==> m[k].pipeline == m'[k].pipeline
  }

  lemma SamePipelinesSameStatus(spec: seq<SpecVersion>, m: UseMap, m': UseMap)
    requires SamePipelines(m, m')
    ensures RebuildStatus(spec, m) == RebuildStatus(spec, m')
  {
    forall i | 0 <= i < |spec|
      ensures RebuildVersion(spec[i], m) == RebuildVersion(spec[i], m')
    {
      SamePipelinesSameVersion(spec[i].pipelines, m, m');
    }
  }

  lemma {:induction false} SamePipelinesSameVersion(ps: seq<PipelineSpec>, m: UseMap, m': UseMap)
    requires SamePipelines(m, m')
    ensures RebuildPipelines(ps, m) == RebuildPipelines(ps, m')
  {
    if ps != [] {
      SamePipelinesSameVersion(ps[..|ps| - 1], m, m');
    }
  }
}
