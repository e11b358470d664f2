/** The activation of a component's pipelines: count the uses, release what fell out of use, then
    create or adopt every asset that is in use. Downloads and object creations can fail; what they
    yield is the World's choice. */
module Activation {
  import opened Component
  import opened UseCounts
  import opened Cluster

  datatype Download = Fetched(manifests: seq<Manifest>) | FetchFailed(message: string)

  datatype ApplyOutcome = Applied | ApplyFailed(message: string) | TransformFailed(message: string)

  /** The outside world during one activation. A download is named by the archive and by the moment
      it is needed (0 for the asset list, i + 1 for asset i); an application of a manifest by the
      archive, the asset and the manifest. */
  datatype World = World(download: (UseKey, nat) -> Download, apply: (UseKey, nat, nat) -> ApplyOutcome)

  const NOT_APPLIED := "Asset has not been applied yet."
  const NOT_AVAILABLE := "Manifests are no longer available at specified URL"
  const REJECTED := "Manifest rejected: contains a Group not equal to tekton.dev or triggers.tekton.dev"

  predicate IsAllowed(group: string) {
    group == "tekton.dev" || group == "triggers.tekton.dev"
  }

  /** Trigger objects and event listeners may choose their namespace. */
  function NamespaceFor(m: Manifest, namespace: string): string {
    if (m.kind == "TriggerBinding" || m.kind == "TriggerTemplate" || m.kind == "EventListener") && m.namespace != ""
    then m.namespace
    else namespace
  }

  function NewAsset(m: Manifest, namespace: string): AssetStatus {
    AssetStatus(m.name, NamespaceFor(m, namespace), m.group, m.version, m.kind, m.sha256, ASSET_UNKNOWN, NOT_APPLIED)
  }

  function NewAssets(ms: seq<Manifest>, namespace: string): seq<AssetStatus> {
    seq(|ms|, i requires 0 <= i < |ms| => NewAsset(ms[i], namespace))
  }

  function MarkActive(a: AssetStatus): AssetStatus {
    a.(status := ASSET_ACTIVE, message := "")
  }

  datatype Progress = Progress(objects: Objects, asset: AssetStatus)

  /** One manifest is tried for one missing asset. They are matched by name alone; a transformation
      error replaces the status, not the message. */
  function TryManifest(p: Progress, m: Manifest, outcome: ApplyOutcome, uid: Uid): Progress {
    if p.asset.name != m.name then p
    else if !IsAllowed(m.group) then p.(asset := p.asset.(status := ASSET_FAILED, message := REJECTED))
    else
      match outcome
      case TransformFailed(message) => p.(asset := p.asset.(status := message))
      case ApplyFailed(message) => p.(asset := p.asset.(status := ASSET_FAILED, message := message))
      case Applied =>
        var id := ObjectId(m.group, m.version, m.kind, p.asset.namespace, m.name);
        var owners := if TakesOwner(m.kind) then Some([uid]) else None;
        Progress(Merged(p.objects, id, owners), MarkActive(p.asset))
  }

  /** The first n manifests are tried. */
  function TryManifests(p: Progress, ms: seq<Manifest>, n: nat, key: UseKey, i: nat, uid: Uid, world: World): Progress
    requires n <= |ms|
  {
    if n == 0 then p
    else TryManifest(TryManifests(p, ms, n - 1, key, i, uid, world), ms[n - 1], world.apply(key, i, n - 1), uid)
  }

  datatype Adoption = Adoption(objects: Objects, value: UseValue)

  function Adopted(objects: Objects, id: ObjectId, uid: Uid): Objects
    requires id in objects
  {
    if uid in objects[id] then objects else objects[id := objects[id] + [uid]]
  }

  function SetAsset(value: UseValue, i: nat, asset: AssetStatus): UseValue
    requires i < |value.pipeline.activeAssets|
  {
    value.(pipeline := value.pipeline.(activeAssets := value.pipeline.activeAssets[i := asset]))
  }

  /** Asset i of an archive in use: adopted if the object exists, created if it does not. */
  function EnsureAsset(a: Adoption, key: UseKey, i: nat, namespace: string, uid: Uid, world: World): (r: Adoption)
    requires i < |a.value.pipeline.activeAssets|
    ensures |r.value.pipeline.activeAssets| == |a.value.pipeline.activeAssets|
  {
    var asset := Namespaced(a.value.pipeline.activeAssets[i], namespace);
    var id := IdOf(asset);
    if id in a.objects then
      Adoption(Adopted(a.objects, id, uid), SetAsset(a.value, i, MarkActive(asset)))
    else if a.value.manifests == [] then
      match world.download(key, i + 1)
      case FetchFailed(_) =>
        Adoption(a.objects, SetAsset(a.value, i, asset.(status := ASSET_FAILED, message := NOT_AVAILABLE)))
      case Fetched(ms) =>
        CreateAsset(a.(value := a.value.(manifests := ms)), asset, key, i, uid, world)
    else
      CreateAsset(a, asset, key, i, uid, world)
  }

  function CreateAsset(a: Adoption, asset: AssetStatus, key: UseKey, i: nat, uid: Uid, world: World): (r: Adoption)
    requires i < |a.value.pipeline.activeAssets|
    ensures |r.value.pipeline.activeAssets| == |a.value.pipeline.activeAssets|
  {
    var p := TryManifests(Progress(a.objects, asset), a.value.manifests, |a.value.manifests|, key, i, uid, world);
    Adoption(p.objects, SetAsset(a.value, i, p.asset))
  }

  /** The first n assets. */
  function EnsureAssets(a: Adoption, key: UseKey, n: nat, namespace: string, uid: Uid, world: World): (r: Adoption)
    requires n <= |a.value.pipeline.activeAssets|
    ensures |r.value.pipeline.activeAssets| == |a.value.pipeline.activeAssets|
  {
    if n == 0 then a
    else EnsureAsset(EnsureAssets(a, key, n - 1, namespace, uid, world), key, n - 1, namespace, uid, world)
  }

  /** An archive in use without an asset list gets one first; a failed download is recorded. */
  function Listing(value: UseValue, key: UseKey, namespace: string, world: World): UseValue {
    if value.pipeline.activeAssets != [] then value
    else
      match world.download(key, 0)
      case FetchFailed(message) => value.(manifestError := Some(message))
      case Fetched(ms) => value.(manifests := ms, pipeline := value.pipeline.(activeAssets := NewAssets(ms, namespace)))
  }

  function EnsureArchive(a: Adoption, key: UseKey, namespace: string, uid: Uid, world: World): Adoption {
    var value := Listing(a.value, key, namespace, world);
    EnsureAssets(a.(value := value), key, |value.pipeline.activeAssets|, namespace, uid, world)
  }

  datatype Pass = Pass(objects: Objects, useMap: UseMap)

  function EnsureKey(p: Pass, key: UseKey, namespace: string, uid: Uid, world: World): (r: Pass)
    requires key in p.useMap
    ensures r.useMap.Keys == p.useMap.Keys
  {
    if p.useMap[key].useCount > 0 then
      var a := EnsureArchive(Adoption(p.objects, p.useMap[key]), key, namespace, uid, world);
      Pass(a.objects, p.useMap[key := a.value])
    else p
  }

  /** The archives are visited in the order the map iteration happens to give. */
  function EnsureAll(p: Pass, order: seq<UseKey>, namespace: string, uid: Uid, world: World): (r: Pass)
    requires forall k :: k in order ==> k in p.useMap
    ensures r.useMap.Keys == p.useMap.Keys
  {
    if order == [] then p
    else
      EnsureKey(EnsureAll(p, order[..|order| - 1], namespace, uid, world), order[|order| - 1], namespace, uid, world)
  }

  /** The objects that archives out of use point at. */
  function DeadTargets(m: UseMap, keys: set<UseKey>, namespace: string): set<ObjectId> {
    set k, a | k in keys && k in m && m[k].useCount <= 0 && a in m[k].pipeline.activeAssets && IsReleasable(a) ::
      IdOf(Namespaced(a, namespace))
  }

  predicate IsOrder<T>(order: seq<T>, keys: set<T>) {
    (set k | k in order) == keys && forall i, j :: 0 <= i < j < |order| ==> order[i] != order[j]
  }

  function Activate(objects: Objects, spec: seq<SpecVersion>, status: seq<StatusVersion>, order: seq<UseKey>,
                    namespace: string, uid: Uid, world: World): Pass
    requires IsOrder(order, Count(spec, status).Keys)
  {
    var m := Count(spec, status);
    assert forall k :: k in order ==> k in (set x | x in order);
    EnsureAll(Pass(Released(objects, DeadTargets(m, m.Keys, namespace), uid), m), order, namespace, uid, world)
  }

  // ---------------------------------------------------------------- the program

  method CreateMissing(api: ApiServer, asset0: AssetStatus, manifests: seq<Manifest>, key: UseKey, index: nat, uid: Uid,
                       world: World)
    returns (asset: AssetStatus)
    modifies api
    ensures Progress(api.objects, asset) ==
            TryManifests(Progress(old(api.objects), asset0), manifests, |manifests|, key, index, uid, world)
  {
    asset := asset0;
    ghost var start := Progress(api.objects, asset0);
    for j := 0 to |manifests|
      invariant asset.name == asset0.name && asset.namespace == asset0.namespace
      invariant Progress(api.objects, asset) == TryManifests(start, manifests, j, key, index, uid, world)
    {
      var manifest := manifests[j];
      if asset.name == manifest.name {
        if manifest.group != "tekton.dev" && manifest.group != "triggers.tekton.dev" {
          asset := asset.(status := ASSET_FAILED, message := REJECTED);
        } else {
          match world.apply(key, index, j) {
            case TransformFailed(message) =>
              asset := asset.(status := ASSET_FAILED);
              asset := asset.(status := message);
            case ApplyFailed(message) =>
              asset := asset.(status := ASSET_FAILED, message := message);
            case Applied =>
              var id := ObjectId(manifest.group, manifest.version, manifest.kind, asset.namespace, manifest.name);
              api.Apply(id, if TakesOwner(manifest.kind) then Some([uid]) else None);
              asset := asset.(status := ASSET_ACTIVE, message := "");
          }
        }
      }
    }
  }

  method EnsureOne(api: ApiServer, value0: UseValue, key: UseKey, index: nat, namespace: string, uid: Uid, world: World)
    returns (value: UseValue)
    requires index < |value0.pipeline.activeAssets|
    modifies api
    ensures Adoption(api.objects, value) ==
            EnsureAsset(Adoption(old(api.objects), value0), key, index, namespace, uid, world)
  {
    value := value0;
    var asset := value.pipeline.activeAssets[index];
    if asset.namespace == "" {
      asset := asset.(namespace := namespace);
      value := SetAsset(value, index, asset);
    }
    var id := IdOf(asset);
    if id !in api.objects {
      if value.manifests == [] {
        match world.download(key, index + 1) {
          case FetchFailed(_) =>
            asset := asset.(status := ASSET_FAILED, message := NOT_AVAILABLE);
          case Fetched(manifests) =>
            value := value.(manifests := manifests);
        }
      }
      asset := CreateMissing(api, asset, value.manifests, key, index, uid, world);
    } else {
      var owners := api.objects[id];
      var foundOurselves := false;
      for i := 0 to |owners|
        invariant foundOurselves <==> uid in owners[..i]
      {
        if owners[i] == uid {
          foundOurselves := true;
        }
      }
      assert owners[..|owners|] == owners;
      if !foundOurselves {
        api.Update(id, owners + [uid]);
      }
      asset := asset.(status := ASSET_ACTIVE, message := "");
    }
    value := SetAsset(value, index, asset);
  }

  method EnsureOneArchive(api: ApiServer, value0: UseValue, key: UseKey, namespace: string, uid: Uid, world: World)
    returns (value: UseValue)
    modifies api
    ensures Adoption(api.objects, value) ==
            EnsureArchive(Adoption(old(api.objects), value0), key, namespace, uid, world)
  {
    value := value0;
    if value.pipeline.activeAssets == [] {
      match world.download(key, 0) {
        case FetchFailed(message) =>
          value := value.(manifestError := Some(message));
          return;
        case Fetched(manifests) =>
          value := value.(manifests := manifests);
          var assets: seq<AssetStatus> := [];
          for i := 0 to |manifests|
            invariant assets == NewAssets(manifests[..i], namespace)
          {
            assets := assets + [NewAsset(manifests[i], namespace)];
          }
          assert manifests[..|manifests|] == manifests;
          value := value.(pipeline := value.pipeline.(activeAssets := assets));
      }
    }
    ghost var start := Adoption(api.objects, value);
    for i := 0 to |value.pipeline.activeAssets|
      invariant |value.pipeline.activeAssets| == |start.value.pipeline.activeAssets|
      invariant Adoption(api.objects, value) == EnsureAssets(start, key, i, namespace, uid, world)
    {
      value := EnsureOne(api, value, key, i, namespace, uid, world);
    }
  }

  method ReleaseDead(api: ApiServer, m: UseMap, namespace: string, uid: Uid)
    modifies api
    ensures api.objects == Released(old(api.objects), DeadTargets(m, m.Keys, namespace), uid)
  {
    ghost var before := api.objects;
    ReleasedNothing(before, uid);
    var todo := m.Keys;
    assert DeadTargets(m, m.Keys - todo, namespace) == {};
    while todo != {}
      invariant todo <= m.Keys
      invariant api.objects == Released(before, DeadTargets(m, m.Keys - todo, namespace), uid)
      decreases todo
    {
      var k :| k in todo;
      ghost var done := m.Keys - todo;
      todo := todo - {k};
      assert m.Keys - todo == done + {k};
      DeadTargetsStep(m, done, k, namespace);
      if m[k].useCount <= 0 {
        ReleasedTwice(before, DeadTargets(m, done, namespace), Targets(m[k].pipeline.activeAssets, namespace), uid);
        DeleteAssets(api, m[k].pipeline.activeAssets, namespace, uid);
      }
    }
    assert m.Keys - todo == m.Keys;
  }

  lemma DeadTargetsStep(m: UseMap, done: set<UseKey>, k: UseKey, namespace: string)
    requires k in m
    ensures DeadTargets(m, done + {k}, namespace) == DeadTargets(m, done, namespace) +
      if m[k].useCount <= 0 then Targets(m[k].pipeline.activeAssets, namespace) else {}
  {}

  lemma EnsureAllStep(p: Pass, order: seq<UseKey>, k: UseKey, namespace: string, uid: Uid, world: World)
    requires forall x :: x in order + [k] ==> x in p.useMap
    ensures forall x :: x in order ==> x in p.useMap
    ensures k in p.useMap
    ensures EnsureAll(p, order + [k], namespace, uid, world) ==
            EnsureKey(EnsureAll(p, order, namespace, uid, world), k, namespace, uid, world)
  {
    assert forall x :: x in order ==> x in order + [k];
    assert (order + [k])[..|order|] == order;
  }

  lemma OrderStep<T>(order: seq<T>, keys: set<T>, k: T)
    requires IsOrder(order, keys) && k !in keys
    ensures IsOrder(order + [k], keys + {k})
  {
    assert forall x :: x in order + [k] <==> x in order || x == k;
    assert forall x :: x in order ==> x in (set y | y in order);
  }

  lemma OrderMembers<T>(order: seq<T>, keys: set<T>)
    requires IsOrder(order, keys)
    ensures forall k :: k in order <==> k in keys
  {
    assert forall k :: k in order <==> k in (set x | x in order);
  }

  method EnsureUsed(api: ApiServer, useMap0: UseMap, namespace: string, uid: Uid, world: World)
    returns (useMap: UseMap, ghost order: seq<UseKey>)
    modifies api
    ensures IsOrder(order, useMap0.Keys) && forall k :: k in order ==> k in useMap0
    ensures Pass(api.objects, useMap) == EnsureAll(Pass(old(api.objects), useMap0), order, namespace, uid, world)
  {
    useMap := useMap0;
    ghost var start := Pass(api.objects, useMap0);
    order := [];
    var todo := useMap.Keys;
    while todo != {}
      invariant todo <= useMap0.Keys
      invariant IsOrder(order, useMap0.Keys - todo)
      invariant forall k :: k in order ==> k in useMap0
      invariant Pass(api.objects, useMap) == EnsureAll(start, order, namespace, uid, world)
      decreases todo
    {
      var k :| k in todo;
      OrderStep(order, useMap0.Keys - todo, k);
      assert useMap0.Keys - (todo - {k}) == (useMap0.Keys - todo) + {k};
      EnsureAllStep(start, order, k, namespace, uid, world);
      if useMap[k].useCount > 0 {
        var value := EnsureOneArchive(api, useMap[k], k, namespace, uid, world);
        useMap := useMap[k := value];
      }
      order := order + [k];
      todo := todo - {k};
    }
    assert useMap0.Keys - todo == useMap0.Keys;
  }

  method ActivatePipelines(api: ApiServer, spec: seq<SpecVersion>, status: seq<StatusVersion>, namespace: string,
                           uid: Uid, world: World)
    returns (useMap: UseMap, ghost order: seq<UseKey>)
    modifies api
    ensures IsOrder(order, Count(spec, status).Keys)
    ensures Pass(api.objects, useMap) == Activate(old(api.objects), spec, status, order, namespace, uid, world)
  {
    useMap := CountUses(spec, status);
    ReleaseDead(api, useMap, namespace, uid);
    useMap, order := EnsureUsed(api, useMap, namespace, uid, world);
  }
}
