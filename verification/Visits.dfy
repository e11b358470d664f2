/** The visit of an archive in use, field by field: what its asset list says after a download, which objects are made,
    with which owners, and what is reported of every asset. */
module Visits {
  import opened Component
  import opened UseCounts
  import opened Cluster
  import opened Activation
  import opened Ownership
  import opened Accuracy
  import opened Sources

  // ---------------------------------------------------------------- the asset list

  /** The namespace an object is made in: trigger objects and event listeners may bring their own. */
  function PlaceOf(m: Manifest, namespace: string): string {
    if m.kind in {"TriggerBinding", "TriggerTemplate", "EventListener"} && |m.namespace| > 0 then m.namespace
    else namespace
  }

  function ObjectFor(m: Manifest, namespace: string): ObjectId {
    ObjectId(m.group, m.version, m.kind, PlaceOf(m, namespace), m.name)
  }

  /** The asset is listed for the manifest. */
  predicate Records(a: AssetStatus, m: Manifest, namespace: string) {
    && a.name == m.name && a.group == m.group && a.version == m.version && a.kind == m.kind && a.digest == m.sha256
    && a.namespace == PlaceOf(m, namespace)
  }

  predicate RecordsAll(assets: seq<AssetStatus>, ms: seq<Manifest>, namespace: string) {
    |assets| == |ms| && forall i :: 0 <= i < |assets| ==> Records(assets[i], ms[i], namespace)
  }

  lemma {:induction false} AssetsKeepRecords(a: Adoption, key: UseKey, n: nat, namespace: string, uid: Uid,
                                             world: World, ms: seq<Manifest>)
    requires namespace != "" && n <= |a.value.pipeline.activeAssets|
    requires RecordsAll(a.value.pipeline.activeAssets, ms, namespace)
    ensures RecordsAll(EnsureAssets(a, key, n, namespace, uid, world).value.pipeline.activeAssets, ms, namespace)
  {
    if n != 0 {
      AssetsKeepRecords(a, key, n - 1, namespace, uid, world, ms);
      var mid := EnsureAssets(a, key, n - 1, namespace, uid, world);
      AssetKeepsRecords(mid, key, n - 1, namespace, uid, world, ms);
    }
  }

  lemma {:induction false} TriedKeepsIdentity(p: Progress, ms: seq<Manifest>, n: nat, key: UseKey, i: nat, uid: Uid,
                                              world: World)
    requires n <= |ms|
    ensures var a := TryManifests(p, ms, n, key, i, uid, world).asset;
      a == p.asset.(status := a.status, message := a.message)
  {
    if n != 0 {
      TriedKeepsIdentity(p, ms, n - 1, key, i, uid, world);
    }
  }

  lemma AssetKeepsRecords(a: Adoption, key: UseKey, i: nat, namespace: string, uid: Uid, world: World,
                          ms: seq<Manifest>)
    requires namespace != "" && i < |a.value.pipeline.activeAssets|
    requires RecordsAll(a.value.pipeline.activeAssets, ms, namespace)
    ensures RecordsAll(EnsureAsset(a, key, i, namespace, uid, world).value.pipeline.activeAssets, ms, namespace)
  {
    var asset := a.value.pipeline.activeAssets[i];
    assert Records(asset, ms[i], namespace) && Namespaced(asset, namespace) == asset;
    var manifests := if a.value.manifests != [] then a.value.manifests
                     else if world.download(key, i + 1).Fetched? then world.download(key, i + 1).manifests else [];
    TriedKeepsIdentity(Progress(a.objects, asset), manifests, |manifests|, key, i, uid, world);
  }

  lemma NewAssetsRecord(ms: seq<Manifest>, namespace: string)
    ensures RecordsAll(NewAssets(ms, namespace), ms, namespace)
  {}

  /** An archive in use is visited once; what happens to its entry does not depend on the others but through the
      objects it finds. */
  lemma {:induction false} VisitedOnce(p: Pass, order: seq<UseKey>, namespace: string, uid: Uid, world: World,
                                       k: UseKey)
    requires (forall x :: x in order ==> x in p.useMap) && k in order && p.useMap[k].useCount > 0
    requires forall i, j :: 0 <= i < j < |order| ==> order[i] != order[j]
    ensures exists objects :: EnsureAll(p, order, namespace, uid, world).useMap[k] ==
                              EnsureArchive(Adoption(objects, p.useMap[k]), k, namespace, uid, world).value
  {
    var n := |order| - 1;
    var init, last := order[..n], order[n];
    assert order == init + [last];
    var mid := EnsureAll(p, init, namespace, uid, world);
    if k == last {
      UnvisitedStays(p, init, namespace, uid, world, k);
      assert EnsureAll(p, order, namespace, uid, world).useMap[k] ==
             EnsureArchive(Adoption(mid.objects, p.useMap[k]), k, namespace, uid, world).value;
    } else {
      VisitedOnce(p, init, namespace, uid, world, k);
    }
  }

  lemma {:induction false} UnvisitedStays(p: Pass, order: seq<UseKey>, namespace: string, uid: Uid, world: World,
                                          k: UseKey)
    requires (forall x :: x in order ==> x in p.useMap) && k !in order && k in p.useMap
    ensures EnsureAll(p, order, namespace, uid, world).useMap[k] == p.useMap[k]
  {
    if order != [] {
      UnvisitedStays(p, order[..|order| - 1], namespace, uid, world, k);
    }
  }

  // ---------------------------------------------------------------- a new archive is fetched

  /** How the world names the archive of a pipeline. */
  function FileOf(p: PipelineSpec): UseKey {
    if Complete(p.gitRelease.info) then UseKey("", p.gitRelease.info, p.sha256)
    else UseKey(p.url, GitRelease("", "", "", "", ""), p.sha256)
  }

  predicate Unlisted(status: seq<StatusVersion>, p: PipelineSpec) {
    forall i, j :: 0 <= i < |status| && 0 <= j < |status[i].pipelines| ==> !StandsFor(status[i].pipelines[j], p)
  }

  lemma {:induction false} ListingIsPipeline(status: seq<StatusVersion>, l: Listed) returns (i: nat, j: nat)
    requires l in StatusListing(status)
    ensures i < |status| && j < |status[i].pipelines| && l.pipeline == status[i].pipelines[j]
    ensures l.use == Use(KeyOfStatus(l.pipeline), status[i].version)
  {
    var n := |status| - 1;
    if l in StatusListing(status[..n]) {
      i, j := ListingIsPipeline(status[..n], l);
    } else {
      i := n;
      j :| 0 <= j < |status[n].pipelines| && VersionListing(status[n])[j] == l;
    }
  }

  lemma UnlistedIsFresh(spec: seq<SpecVersion>, status: seq<StatusVersion>, i: nat, j: nat)
    requires i < |spec| && j < |spec[i].pipelines| && Unlisted(status, spec[i].pipelines[j])
    ensures var k := FileOf(spec[i].pipelines[j]);
      && k == KeyOfSpec(spec[i].pipelines[j]) && k in Count(spec, status) && Count(spec, status)[k].useCount > 0
      && Count(spec, status)[k].pipeline.activeAssets == [] && Count(spec, status)[k].manifests == []
      && Count(spec, status)[k].manifestError == None
  {
    var k := KeyOfSpec(spec[i].pipelines[j]);
    UsesOfSpec(spec, i, j);
    CountsConserved(spec, status, k);
    PositiveExactlyWhenWanted(spec, status, k);
    CountPipelines(spec, status, k);
    if l :| l in StatusListing(status) && l.use.key == k {
      var v, q := ListingIsPipeline(status, l);
      ListedExactly(status[v].pipelines[q], spec[i].pipelines[j]);
    }
  }

  /** A pipeline that the old status does not list, as after its checksum changed: its entry in the new status lists
      what was downloaded under its release or URL and its digest, manifest by manifest, or nothing if that failed. */
  lemma NewFileIsFetched(objects: Objects, spec: seq<SpecVersion>, status: seq<StatusVersion>, order: seq<UseKey>,
                         namespace: string, uid: Uid, world: World, i: nat, j: nat)
    requires namespace != "" && IsOrder(order, Count(spec, status).Keys)
    requires i < |spec| && j < |spec[i].pipelines| && Unlisted(status, spec[i].pipelines[j])
    ensures var now := RebuildStatus(spec, Activate(objects, spec, status, order, namespace, uid, world).useMap);
      && |now| == |spec| && |now[i].pipelines| == |spec[i].pipelines|
      && match world.download(FileOf(spec[i].pipelines[j]), 0)
         case Fetched(ms) => RecordsAll(now[i].pipelines[j].activeAssets, ms, namespace)
         case FetchFailed(_) => now[i].pipelines[j].activeAssets == []
  {
    var k, start := FileOf(spec[i].pipelines[j]), AfterRelease(objects, Count(spec, status), namespace, uid);
    var p := Activate(objects, spec, status, order, namespace, uid, world);
    UnlistedIsFresh(spec, status, i, j);
    OrderMembers(order, start.useMap.Keys);
    VisitedOnce(start, order, namespace, uid, world, k);
    var found :| p.useMap[k] == EnsureArchive(Adoption(found, start.useMap[k]), k, namespace, uid, world).value;
    FreshVisitRecords(found, start.useMap[k], k, namespace, uid, world);
    ActivationCovers(objects, spec, status, order, namespace, uid, world);
    WantedKeys(spec, p.useMap, i);
    RebuiltAt(spec[i].pipelines, p.useMap, j);
  }

  /** A failed download is recorded with its message, and the archive stays without assets. */
  lemma FailureIsRecorded(objects: Objects, spec: seq<SpecVersion>, status: seq<StatusVersion>, order: seq<UseKey>,
                          namespace: string, uid: Uid, world: World, i: nat, j: nat)
    requires IsOrder(order, Count(spec, status).Keys)
    requires i < |spec| && j < |spec[i].pipelines| && Unlisted(status, spec[i].pipelines[j])
    ensures var m := Activate(objects, spec, status, order, namespace, uid, world).useMap;
      var k := FileOf(spec[i].pipelines[j]);
      k in m && m[k].manifestError ==
        match world.download(k, 0)
        case FetchFailed(message) => Some(message)
        case Fetched(_) => None
  {
    var k, start := FileOf(spec[i].pipelines[j]), AfterRelease(objects, Count(spec, status), namespace, uid);
    var p := Activate(objects, spec, status, order, namespace, uid, world);
    UnlistedIsFresh(spec, status, i, j);
    OrderMembers(order, start.useMap.Keys);
    VisitedOnce(start, order, namespace, uid, world, k);
    var found :| p.useMap[k] == EnsureArchive(Adoption(found, start.useMap[k]), k, namespace, uid, world).value;
    var listed := Listing(start.useMap[k], k, namespace, world);
    KeepsError(Adoption(found, listed), k, |listed.pipeline.activeAssets|, namespace, uid, world);
  }

  lemma {:induction false} KeepsError(a: Adoption, key: UseKey, n: nat, namespace: string, uid: Uid, world: World)
    requires n <= |a.value.pipeline.activeAssets|
    ensures EnsureAssets(a, key, n, namespace, uid, world).value.manifestError == a.value.manifestError
  {
    if n != 0 {
      KeepsError(a, key, n - 1, namespace, uid, world);
    }
  }

  lemma FreshVisitRecords(objects: Objects, value: UseValue, key: UseKey, namespace: string, uid: Uid, world: World)
    requires namespace != "" && value.pipeline.activeAssets == []
    ensures var assets :=
      EnsureArchive(Adoption(objects, value), key, namespace, uid, world).value.pipeline.activeAssets;
      match world.download(key, 0)
      case Fetched(ms) => RecordsAll(assets, ms, namespace)
      case FetchFailed(_) => assets == []
  {
    var listed := Listing(value, key, namespace, world);
    if world.download(key, 0).Fetched? {
      var ms := world.download(key, 0).manifests;
      NewAssetsRecord(ms, namespace);
      AssetsKeepRecords(Adoption(objects, listed), key, |listed.pipeline.activeAssets|, namespace, uid, world, ms);
    }
  }

  // ---------------------------------------------------------------- objects and reports

  /** One asset after its visit, with the object it stands for: an object that is there gains this owner at the end of
      its list; one that is missing is made, unless its group is refused or the attempt fails. */
  predicate Reported(before: Objects, after: Objects, a: AssetStatus, m: Manifest, outcome: ApplyOutcome,
                     namespace: string, uid: Uid)
  {
    var id := ObjectFor(m, namespace);
    if id in before then
      && a.status == "active" && a.message == "" && id in after
      && after[id] == if uid in before[id] then before[id] else before[id] + [uid]
    else if m.group != "tekton.dev" && m.group != "triggers.tekton.dev" then
      && a.status == "failed" && id !in after
      && a.message == "Manifest rejected: contains a Group not equal to tekton.dev or triggers.tekton.dev"
    else
      match outcome
      case Applied =>
        && a.status == "active" && a.message == "" && id in after
        && after[id] == if m.kind == "TriggerBinding" || m.kind == "TriggerTemplate" then [] else [uid]
      case ApplyFailed(message) => a.status == "failed" && a.message == message && id !in after
      case TransformFailed(message) =>
        a.status == message && a.message == "Asset has not been applied yet." && id !in after
  }

  predicate NotYet(a: AssetStatus, m: Manifest, namespace: string) {
    Records(a, m, namespace) && a.status == "unknown" && a.message == "Asset has not been applied yet."
  }

  /** The first n assets of a downloaded archive are visited. */
  ghost predicate ReportedUpTo(before: Objects, after: Objects, assets: seq<AssetStatus>, ms: seq<Manifest>, n: nat,
                               key: UseKey, namespace: string, uid: Uid, world: World)
    requires n <= |ms|
  {
    && RecordsAll(assets, ms, namespace)
    && (forall i :: n <= i < |ms| ==> NotYet(assets[i], ms[i], namespace))
    && (forall i :: 0 <= i < n ==>
          Reported(before, after, assets[i], ms[i], world.apply(key, i, i), namespace, uid))
    && (forall id :: Untouched(ms, n, namespace, id) ==> SameAt(before, after, id))
  }

  predicate Untouched(ms: seq<Manifest>, n: nat, namespace: string, id: ObjectId)
    requires n <= |ms|
  {
    forall i :: 0 <= i < n ==> ObjectFor(ms[i], namespace) != id
  }

  predicate SameAt(before: Objects, after: Objects, id: ObjectId) {
    (id in after <==> id in before) && (id in before ==> after[id] == before[id])
  }

  lemma OneReported(objects: Objects, asset: AssetStatus, ms: seq<Manifest>, i: nat, key: UseKey, namespace: string,
                    uid: Uid, world: World)
    requires i < |ms| && NamesUnique(ms) && NotYet(asset, ms[i], namespace) && ObjectFor(ms[i], namespace) !in objects
    ensures var p := TryManifests(Progress(objects, asset), ms, |ms|, key, i, uid, world);
      && Reported(objects, p.objects, p.asset, ms[i], world.apply(key, i, i), namespace, uid)
      && forall id :: id != ObjectFor(ms[i], namespace) ==> SameAt(objects, p.objects, id)
  {
    OneManifestMatches(Progress(objects, asset), ms, |ms|, key, i, uid, world);
  }

  lemma VisitReported(a: Adoption, i: nat, ms: seq<Manifest>, key: UseKey, namespace: string, uid: Uid, world: World)
    requires namespace != "" && NamesUnique(ms) && i < |ms| && a.value.manifests == ms
    requires RecordsAll(a.value.pipeline.activeAssets, ms, namespace)
    requires NotYet(a.value.pipeline.activeAssets[i], ms[i], namespace)
    ensures var r := EnsureAsset(a, key, i, namespace, uid, world);
      && r.value.manifests == ms
      && Reported(a.objects, r.objects, r.value.pipeline.activeAssets[i], ms[i], world.apply(key, i, i), namespace, uid)
      && (forall j :: 0 <= j < |ms| && j != i ==>
            r.value.pipeline.activeAssets[j] == a.value.pipeline.activeAssets[j])
      && (forall id :: id != ObjectFor(ms[i], namespace) ==> SameAt(a.objects, r.objects, id))
  {
    var asset := a.value.pipeline.activeAssets[i];
    assert Namespaced(asset, namespace) == asset && IdOf(asset) == ObjectFor(ms[i], namespace);
    if IdOf(asset) !in a.objects {
      OneReported(a.objects, asset, ms, i, key, namespace, uid, world);
    }
  }

  lemma {:induction false} AllReported(a: Adoption, n: nat, ms: seq<Manifest>, key: UseKey, namespace: string, uid: Uid,
                                       world: World)
    requires namespace != "" && NamesUnique(ms) && n <= |ms| && a.value.manifests == ms
    requires ReportedUpTo(a.objects, a.objects, a.value.pipeline.activeAssets, ms, 0, key, namespace, uid, world)
    ensures var r := EnsureAssets(a, key, n, namespace, uid, world);
      && r.value.manifests == ms
      && ReportedUpTo(a.objects, r.objects, r.value.pipeline.activeAssets, ms, n, key, namespace, uid, world)
  {
    if n != 0 {
      var m := n - 1;
      AllReported(a, m, ms, key, namespace, uid, world);
      var mid := EnsureAssets(a, key, m, namespace, uid, world);
      VisitReported(mid, m, ms, key, namespace, uid, world);
      AssetKeepsRecords(mid, key, m, namespace, uid, world, ms);
      var r := EnsureAsset(mid, key, m, namespace, uid, world);
      ReportedNext(a.objects, mid.objects, r.objects, mid.value.pipeline.activeAssets, r.value.pipeline.activeAssets, m,
                   ms, key, namespace, uid, world);
    }
  }

  lemma ReportedNext(before: Objects, mid: Objects, after: Objects, was: seq<AssetStatus>, now: seq<AssetStatus>,
                     m: nat, ms: seq<Manifest>, key: UseKey, namespace: string, uid: Uid, world: World)
    requires NamesUnique(ms) && m < |ms| && RecordsAll(now, ms, namespace)
    requires ReportedUpTo(before, mid, was, ms, m, key, namespace, uid, world)
    requires Reported(mid, after, now[m], ms[m], world.apply(key, m, m), namespace, uid)
    requires forall j :: 0 <= j < |ms| && j != m ==> now[j] == was[j]
    requires forall id :: id != ObjectFor(ms[m], namespace) ==> SameAt(mid, after, id)
    ensures ReportedUpTo(before, after, now, ms, m + 1, key, namespace, uid, world)
  {
    UntouchedNext(before, mid, after, ms, m, namespace);
    EarlierReported(before, mid, after, was, now, m, ms, key, namespace, uid, world);
    LastReported(before, mid, after, now[m], ms, m, world.apply(key, m, m), namespace, uid);
  }

  lemma LastReported(before: Objects, mid: Objects, after: Objects, a: AssetStatus, ms: seq<Manifest>, m: nat,
                     outcome: ApplyOutcome, namespace: string, uid: Uid)
    requires NamesUnique(ms) && m < |ms| && forall id :: Untouched(ms, m, namespace, id) ==> SameAt(before, mid, id)
    requires Reported(mid, after, a, ms[m], outcome, namespace, uid)
    ensures Reported(before, after, a, ms[m], outcome, namespace, uid)
  {
    assert Untouched(ms, m, namespace, ObjectFor(ms[m], namespace));
    ReportedFromStart(before, mid, after, a, ms[m], outcome, namespace, uid);
  }

  lemma EarlierReported(before: Objects, mid: Objects, after: Objects, was: seq<AssetStatus>, now: seq<AssetStatus>,
                        m: nat, ms: seq<Manifest>, key: UseKey, namespace: string, uid: Uid, world: World)
    requires NamesUnique(ms) && m < |ms| == |was| == |now|
    requires forall i :: 0 <= i < m ==> now[i] == was[i]
    requires forall i :: 0 <= i < m ==>
      Reported(before, mid, was[i], ms[i], world.apply(key, i, i), namespace, uid)
    requires forall id :: id != ObjectFor(ms[m], namespace) ==> SameAt(mid, after, id)
    ensures forall i :: 0 <= i < m ==>
      Reported(before, after, now[i], ms[i], world.apply(key, i, i), namespace, uid)
  {
    forall i | 0 <= i < m ensures Reported(before, after, now[i], ms[i], world.apply(key, i, i), namespace, uid) {
      assert Reported(before, mid, was[i], ms[i], world.apply(key, i, i), namespace, uid);
      assert ObjectFor(ms[i], namespace) != ObjectFor(ms[m], namespace);
      StillReported(before, mid, after, now[i], ms[i], world.apply(key, i, i), namespace, uid);
    }
  }

  lemma UntouchedNext(before: Objects, mid: Objects, after: Objects, ms: seq<Manifest>, m: nat, namespace: string)
    requires m < |ms| && forall id :: Untouched(ms, m, namespace, id) ==> SameAt(before, mid, id)
    requires forall id :: id != ObjectFor(ms[m], namespace) ==> SameAt(mid, after, id)
    ensures forall id :: Untouched(ms, m + 1, namespace, id) ==> SameAt(before, after, id)
  {
    forall id | Untouched(ms, m + 1, namespace, id) ensures SameAt(before, after, id) {
      assert ObjectFor(ms[m], namespace) != id && Untouched(ms, m, namespace, id);
      assert SameAt(before, mid, id) && SameAt(mid, after, id);
    }
  }

  lemma StillReported(before: Objects, mid: Objects, after: Objects, a: AssetStatus, m: Manifest, outcome: ApplyOutcome,
                      namespace: string, uid: Uid)
    requires Reported(before, mid, a, m, outcome, namespace, uid) && SameAt(mid, after, ObjectFor(m, namespace))
    ensures Reported(before, after, a, m, outcome, namespace, uid)
  {}

  lemma ReportedFromStart(before: Objects, mid: Objects, after: Objects, a: AssetStatus, m: Manifest,
                          outcome: ApplyOutcome, namespace: string, uid: Uid)
    requires Reported(mid, after, a, m, outcome, namespace, uid) && SameAt(before, mid, ObjectFor(m, namespace))
    ensures Reported(before, after, a, m, outcome, namespace, uid)
  {}

  /** The first visit of an archive with unique names, when its download succeeds: what becomes of each of its objects,
      what is reported of each asset, and that nothing else changes. */
  lemma FirstVisitReported(objects: Objects, value: UseValue, key: UseKey, namespace: string, uid: Uid, world: World)
    requires namespace != "" && value.pipeline.activeAssets == [] && world.download(key, 0).Fetched?
    requires NamesUnique(world.download(key, 0).manifests)
    ensures var ms := world.download(key, 0).manifests;
      var r := EnsureArchive(Adoption(objects, value), key, namespace, uid, world);
      ReportedUpTo(objects, r.objects, r.value.pipeline.activeAssets, ms, |ms|, key, namespace, uid, world)
  {
    var ms := world.download(key, 0).manifests;
    var listed := Listing(value, key, namespace, world);
    NewAssetsRecord(ms, namespace);
    AllReported(Adoption(objects, listed), |ms|, ms, key, namespace, uid, world);
  }

  /** A later visit of an asset whose object is missing: without the manifests it is failed, with them the manifest of
      its name is tried, if there is one. */
  lemma MissingIsMadeAgain(a: Adoption, i: nat, key: UseKey, namespace: string, uid: Uid, world: World)
    requires i < |a.value.pipeline.activeAssets| && a.value.manifests == []
    requires ObjectOf(a.value.pipeline.activeAssets[i], namespace) !in a.objects
    requires world.download(key, i + 1).Fetched? ==> NamesUnique(world.download(key, i + 1).manifests)
    ensures var r := EnsureAsset(a, key, i, namespace, uid, world);
      var was, now := a.value.pipeline.activeAssets[i], r.value.pipeline.activeAssets[i];
      match world.download(key, i + 1)
      case FetchFailed(_) =>
        && r.objects == a.objects && now.status == "failed"
        && now.message == "Manifests are no longer available at specified URL"
      case Fetched(ms) =>
        && (forall j :: 0 <= j < |ms| && ms[j].name == was.name ==>
              MadeFrom(a.objects, r.objects, ObjectOf(was, namespace), now, ms[j], world.apply(key, i, j), uid))
        && ((forall j :: 0 <= j < |ms| ==> ms[j].name != was.name) ==>
              r.objects == a.objects && now.status == was.status && now.message == was.message)
  {
    var asset := Namespaced(a.value.pipeline.activeAssets[i], namespace);
    assert IdOf(asset) == ObjectOf(a.value.pipeline.activeAssets[i], namespace);
    if world.download(key, i + 1).Fetched? {
      var ms := world.download(key, i + 1).manifests;
      if j :| 0 <= j < |ms| && ms[j].name == asset.name {
        OnlyMatches(Progress(a.objects, asset), ms, |ms|, key, i, j, uid, world);
      } else {
        NoneMatches(Progress(a.objects, asset), ms, |ms|, key, i, uid, world);
      }
    }
  }

  /** A missing object is made from a manifest of its name, in the namespace that the asset records. */
  predicate MadeFrom(before: Objects, after: Objects, id: ObjectId, a: AssetStatus, m: Manifest, outcome: ApplyOutcome,
                     uid: Uid)
  {
    if m.group != "tekton.dev" && m.group != "triggers.tekton.dev" then a.status == "failed" && after == before
    else
      match outcome
      case Applied =>
        var made := ObjectId(m.group, m.version, m.kind, id.namespace, m.name);
        && a.status == "active" && a.message == ""
        && after == if m.kind != "TriggerBinding" && m.kind != "TriggerTemplate" then before[made := [uid]]
                    else if made in before then before else before[made := []]
      case ApplyFailed(message) => a.status == "failed" && a.message == message && after == before
      case TransformFailed(message) => a.status == message && after == before
  }

  lemma {:induction false} NoneMatches(p: Progress, ms: seq<Manifest>, n: nat, key: UseKey, i: nat, uid: Uid,
                                       world: World)
    requires n <= |ms|
    ensures (forall j :: 0 <= j < n ==> ms[j].name != p.asset.name) ==>
      TryManifests(p, ms, n, key, i, uid, world) == p
  {
    if n != 0 {
      NoneMatches(p, ms, n - 1, key, i, uid, world);
    }
  }

  lemma {:induction false} OnlyMatches(p: Progress, ms: seq<Manifest>, n: nat, key: UseKey, i: nat, j: nat, uid: Uid,
                                       world: World)
    requires j < n <= |ms| && NamesUnique(ms) && ms[j].name == p.asset.name
    ensures TryManifests(p, ms, n, key, i, uid, world) == TryManifest(p, ms[j], world.apply(key, i, j), uid)
  {
    if j == n - 1 {
      NoneMatches(p, ms, n - 1, key, i, uid, world);
    } else {
      OnlyMatches(p, ms, n - 1, key, i, j, uid, world);
    }
  }

  // ---------------------------------------------------------------- an asset whose object is there

  /** An existing object is adopted: this owner is appended unless it is there, and the asset becomes active in the
      namespace where it was looked for. All other objects and assets stay as they are. */
  lemma FoundIsListedActive(a: Adoption, i: nat, key: UseKey, namespace: string, uid: Uid, world: World)
    requires i < |a.value.pipeline.activeAssets|
    requires ObjectOf(a.value.pipeline.activeAssets[i], namespace) in a.objects
    ensures var was := a.value.pipeline.activeAssets[i];
      var id := ObjectOf(was, namespace);
      var r := EnsureAsset(a, key, i, namespace, uid, world);
      && r.objects == (if uid in a.objects[id] then a.objects else a.objects[id := a.objects[id] + [uid]])
      && r.value == a.value.(pipeline := a.value.pipeline.(activeAssets := a.value.pipeline.activeAssets[i :=
           was.(namespace := id.namespace, status := "active", message := "")]))
  {
    var asset := Namespaced(a.value.pipeline.activeAssets[i], namespace);
    assert IdOf(asset) == ObjectOf(a.value.pipeline.activeAssets[i], namespace);
  }

  // ---------------------------------------------------------------- letting go of one asset

  /** An owner list without one owner is the list of the others, in their order. */
  lemma {:induction false} OthersStayInOrder(before: seq<Uid>, after: seq<Uid>, uid: Uid)
    ensures Without(before + after, uid) == Without(before, uid) + Without(after, uid)
    ensures uid !in before ==> Without(before, uid) == before
    decreases |before| + |after|
  {
    if after != [] {
      var n := |after| - 1;
      OthersStayInOrder(before, after[..n], uid);
      assert (before + after)[..|before + after| - 1] == before + after[..n];
    } else {
      assert before + after == before;
      if before != [] {
        var n := |before| - 1;
        OthersStayInOrder(before[..n], [], uid);
        assert before == before[..n] + [before[n]];
      }
    }
  }

  /** An asset that failed or was never applied is left alone. Any other object loses this owner, and is deleted if
      it has no other. */
  lemma OneIsLetGo(objects: Objects, a: AssetStatus, uid: Uid)
    requires a.namespace != ""
    ensures var after, id := Released(objects, Targets([a], a.namespace), uid), ObjectOf(a, a.namespace);
      && (a.status == "unknown" || a.status == "failed" ==> after == objects)
      && (forall other :: other != id ==> SameAt(objects, after, other))
      && (a.status != "unknown" && a.status != "failed" && id in objects ==>
            && (id in after <==> exists o :: o in objects[id] && o != uid)
            && (id in after ==> after[id] == Without(objects[id], uid)))
      && (id !in objects ==> after == objects)
  {
    var id := ObjectOf(a, a.namespace);
    assert a in [a] && IdOf(Namespaced(a, a.namespace)) == id;
    assert forall x :: x in [a] ==> x == a;
    ReleasedOwnership(objects, Targets([a], a.namespace), uid);
    if id in objects {
      SomebodyElse(objects[id], uid);
    }
  }
}
