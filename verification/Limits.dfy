/** Where the guarantees of the activation engine end. */
module Limits {
  import opened Component
  import opened UseCounts
  import opened Cluster
  import opened Activation
  import opened Ownership
  import opened Accuracy
  import opened StackController
  import opened Digests
  import opened Runs

  // ---------------------------------------------------------------- images that do not parse

  /** A rebuild that goes through has met no image that does not parse. */
  lemma RebuiltMeansParsed(versions: seq<StackVersion>, m: UseMap, previous: seq<VersionStatus>, w: StackWorld)
    requires Rebuild(versions, |versions|, m, previous, w).ok
    ensures ImagesParse(versions, w.repository)
  {
    var r := Rebuild(versions, |versions|, m, previous, w);
    RebuildAt(versions, |versions|, m, previous, w);
    forall v | v in versions && !v.IsInactive() ensures StripTags(v.images, w.repository).ok {
      var i :| 0 <= i < |versions| && versions[i] == v;
      assert BuiltFrom(versions[i], r.versions[i], r.statuses[i], i, m, previous, w);
    }
  }

  /** The status follows the activation exactly when the stack id is valid and every image of every active
      version parses. Otherwise the old status stays, although with a valid id the cluster has changed. */
  lemma StatusIsReplacedExactly(objects: Objects, s: StackState, name: string, namespace: string, uid: Uid,
                                order: seq<UseKey>, w: StackWorld)
    requires IsOrder(order, Count(SpecVersions(s.versions), StatusVersions(s.status.versions)).Keys)
    ensures var r := ReconcileVersions(objects, s, name, namespace, uid, order, w);
      var p := Activate(objects, SpecVersions(s.versions), StatusVersions(s.status.versions), order, namespace, uid,
                        w.pipelines);
      && (r.ok <==> IsStackId(name) && ImagesParse(s.versions, w.repository))
      && (r.ok ==> StatusVersions(r.state.status.versions) == RebuildStatus(SpecVersions(s.versions), p.useMap))
      && (!r.ok ==> r.state.status == s.status)
      && r.objects == if IsStackId(name) then p.objects else objects
  {
    if IsStackId(name) {
      var p := Activate(objects, SpecVersions(s.versions), StatusVersions(s.status.versions), order, namespace, uid,
                        w.pipelines);
      if ImagesParse(s.versions, w.repository) {
        RebuildSucceeds(s.versions, |s.versions|, p.useMap, s.status.versions, w);
        RebuildIsStatus(s.versions, p.useMap, s.status.versions, w);
      } else if Rebuild(s.versions, |s.versions|, p.useMap, s.status.versions, w).ok {
        RebuiltMeansParsed(s.versions, p.useMap, s.status.versions, w);
      }
    }
  }

  // ---------------------------------------------------------------- names shared within an archive

  /** Archives made of objects that are accepted and take owners. */
  predicate AllOwnable(ms: seq<Manifest>) {
    forall m :: m in ms ==> IsAllowed(m.group) && TakesOwner(m.kind)
  }

  function FirstVisit(ms: seq<Manifest>, namespace: string): Adoption {
    Adoption(map[], UseValue(PipelineStatus("", "", NO_RELEASE, "", NewAssets(ms, namespace)), 1, ms, None))
  }

  /** Everything owned after the first visit of an archive in an empty cluster is listed as active. */
  ghost predicate OwnedAreListed(ms: seq<Manifest>, namespace: string, uid: Uid, world: World) {
    forall key, id ::
      var r := EnsureAssets(FirstVisit(ms, namespace), key, |ms|, namespace, uid, world);
      Owns(r.objects, uid, id) ==> ActiveIn(r.value.pipeline.activeAssets, id)
  }

  /** A world in which a single creation succeeds: that of manifest j on behalf of asset i. */
  function OnlyOne(i: nat, j: nat, ms: seq<Manifest>): World {
    World((k, n) => Fetched(ms), (k, x, y) => if x == i && y == j then Applied else ApplyFailed("refused"))
  }

  predicate Matches(ms: seq<Manifest>, name: string, from: nat, to: nat) {
    exists y :: from <= y < to && y < |ms| && ms[y].name == name
  }

  /** What an asset and the cluster look like after n manifests, when only one creation succeeds. */
  lemma {:induction false} OneSuccess(p: Progress, ms: seq<Manifest>, n: nat, key: UseKey, x: nat, uid: Uid, i: nat,
                                      j: nat)
    requires n <= |ms| && AllOwnable(ms) && j < |ms|
    ensures var r := TryManifests(p, ms, n, key, x, uid, OnlyOne(i, j, ms));
      var created := x == i && j < n && ms[j].name == p.asset.name;
      && r.asset.name == p.asset.name && IdOf(r.asset) == IdOf(p.asset)
      && (if created then
            var id := ObjectId(ms[j].group, ms[j].version, ms[j].kind, p.asset.namespace, ms[j].name);
            r.objects == p.objects[id := [uid]]
          else r.objects == p.objects)
      && (Matches(ms, p.asset.name, if created then j + 1 else 0, n) ==> r.asset.status == ASSET_FAILED)
  {
    if n != 0 {
      OneSuccess(p, ms, n - 1, key, x, uid, i, j);
      assert ms[n - 1] in ms;
    }
  }

  /** The assets visited so far have failed, and the only object there may be is not listed as active. */
  predicate OnlyStray(r: Adoption, ms: seq<Manifest>, namespace: string, n: nat, i: nat, stray: ObjectId, uid: Uid) {
    && n <= |r.value.pipeline.activeAssets| == |ms| && r.value.manifests == ms
    && (forall x :: 0 <= x < |ms| ==> Describes(r.value.pipeline.activeAssets[x], ms[x], namespace))
    && (forall x :: 0 <= x < n ==> r.value.pipeline.activeAssets[x].status == ASSET_FAILED)
    && r.objects == if n <= i then map[] else map[stray := [uid]]
  }

  predicate IsStray(ms: seq<Manifest>, i: nat, j: nat, stray: ObjectId, namespace: string) {
    && j < i < |ms| && ms[i].name == ms[j].name && (forall y :: i < y < |ms| ==> ms[y].name != ms[i].name)
    && stray == ObjectId(ms[j].group, ms[j].version, ms[j].kind, NamespaceFor(ms[i], namespace), ms[j].name)
  }

  lemma {:induction false} TryManifestsKeepsIdentity(p: Progress, ms: seq<Manifest>, n: nat, key: UseKey, i: nat,
                                                     uid: Uid, w: World)
    requires n <= |ms|
    ensures var r := TryManifests(p, ms, n, key, i, uid, w).asset;
      r == p.asset.(status := r.status, message := r.message)
  {
    if n != 0 {
      TryManifestsKeepsIdentity(p, ms, n - 1, key, i, uid, w);
    }
  }

  lemma StrayVisit(objects: Objects, asset: AssetStatus, ms: seq<Manifest>, namespace: string, n: nat, key: UseKey,
                   uid: Uid, i: nat, j: nat, stray: ObjectId)
    requires AllOwnable(ms) && IsStray(ms, i, j, stray, namespace) && n < |ms| && Describes(asset, ms[n], namespace)
    ensures var p := TryManifests(Progress(objects, asset), ms, |ms|, key, n, uid, OnlyOne(i, j, ms));
      && p.asset == asset.(status := ASSET_FAILED, message := p.asset.message)
      && p.objects == if n == i then objects[stray := [uid]] else objects
  {
    OneSuccess(Progress(objects, asset), ms, |ms|, key, n, uid, i, j);
    assert Matches(ms, asset.name, if n == i then j + 1 else 0, |ms|);
    TryManifestsKeepsIdentity(Progress(objects, asset), ms, |ms|, key, n, uid, OnlyOne(i, j, ms));
  }

  lemma OnlyStrayStep(mid: Adoption, ms: seq<Manifest>, namespace: string, n: nat, key: UseKey, uid: Uid, i: nat,
                      j: nat, stray: ObjectId)
    requires AllOwnable(ms) && namespace != "" && IsStray(ms, i, j, stray, namespace) && n < |ms|
    requires OnlyStray(mid, ms, namespace, n, i, stray, uid)
    ensures OnlyStray(EnsureAsset(mid, key, n, namespace, uid, OnlyOne(i, j, ms)), ms, namespace, n + 1, i, stray, uid)
  {
    var asset := mid.value.pipeline.activeAssets[n];
    assert Describes(asset, ms[n], namespace);
    assert Namespaced(asset, namespace) == asset && IdOf(asset) !in mid.objects;
    StrayVisit(mid.objects, asset, ms, namespace, n, key, uid, i, j, stray);
    var p := TryManifests(Progress(mid.objects, asset), ms, |ms|, key, n, uid, OnlyOne(i, j, ms));
    assert EnsureAsset(mid, key, n, namespace, uid, OnlyOne(i, j, ms)) ==
      Adoption(p.objects, SetAsset(mid.value, n, p.asset));
  }

  lemma {:induction false} OnlyStrayAppears(ms: seq<Manifest>, namespace: string, n: nat, key: UseKey, uid: Uid, i: nat,
                                            j: nat, stray: ObjectId)
    requires AllOwnable(ms) && namespace != "" && IsStray(ms, i, j, stray, namespace) && n <= |ms|
    ensures OnlyStray(EnsureAssets(FirstVisit(ms, namespace), key, n, namespace, uid, OnlyOne(i, j, ms)), ms, namespace,
                      n, i, stray, uid)
  {
    if n != 0 {
      OnlyStrayAppears(ms, namespace, n - 1, key, uid, i, j, stray);
      OnlyStrayStep(EnsureAssets(FirstVisit(ms, namespace), key, n - 1, namespace, uid, OnlyOne(i, j, ms)), ms,
                    namespace, n - 1, key, uid, i, j, stray);
    }
  }

  lemma UniqueNamesAreListed(ms: seq<Manifest>, namespace: string, uid: Uid, world: World, archive: Archive)
    requires AllOwnable(ms) && namespace != "" && NamesUnique(ms)
    requires Faithful(world, archive) && forall k :: archive(k) == ms
    ensures OwnedAreListed(ms, namespace, uid, world)
  {
    forall key, id
      ensures var r := EnsureAssets(FirstVisit(ms, namespace), key, |ms|, namespace, uid, world);
        Owns(r.objects, uid, id) ==> ActiveIn(r.value.pipeline.activeAssets, id)
    {
      EnsureAssetsEffect(FirstVisit(ms, namespace), key, |ms|, namespace, uid, world, archive);
    }
  }

  /** For such archives, unique names are exactly what makes the visit sound: with a shared name there are
      creation failures after which a created object is listed by failed assets only. */
  lemma UniqueNamesExactly(ms: seq<Manifest>, namespace: string, uid: Uid)
    requires AllOwnable(ms) && namespace != ""
    ensures NamesUnique(ms) <==>
      forall world :: Faithful(world, k => ms) ==> OwnedAreListed(ms, namespace, uid, world)
  {
    var archive: Archive := k => ms;
    if NamesUnique(ms) {
      forall world | Faithful(world, archive) ensures OwnedAreListed(ms, namespace, uid, world) {
        UniqueNamesAreListed(ms, namespace, uid, world, archive);
      }
    } else {
      var i, j := LastShared(ms);
      var w := OnlyOne(i, j, ms);
      var key := UseKey("", NO_RELEASE, "");
      var stray := ObjectId(ms[j].group, ms[j].version, ms[j].kind, NamespaceFor(ms[i], namespace), ms[j].name);
      OnlyStrayAppears(ms, namespace, |ms|, key, uid, i, j, stray);
      var r := EnsureAssets(FirstVisit(ms, namespace), key, |ms|, namespace, uid, w);
      assert Owns(r.objects, uid, stray) && !ActiveIn(r.value.pipeline.activeAssets, stray);
      assert !OwnedAreListed(ms, namespace, uid, w);
      assert Faithful(w, archive);
    }
  }

  lemma {:induction false} LastWithName(ms: seq<Manifest>, j: nat, n: nat) returns (i: nat)
    requires j < n <= |ms|
    ensures j <= i < n && ms[i].name == ms[j].name && forall y :: i < y < n ==> ms[y].name != ms[j].name
    decreases n
  {
    if n == j + 1 || ms[n - 1].name == ms[j].name {
      i := n - 1;
    } else {
      i := LastWithName(ms, j, n - 1);
    }
  }

  lemma LastShared(ms: seq<Manifest>) returns (i: nat, j: nat)
    requires !NamesUnique(ms)
    ensures j < i < |ms| && ms[i].name == ms[j].name && forall y :: i < y < |ms| ==> ms[y].name != ms[i].name
  {
    var a, b :| 0 <= a < b < |ms| && ms[a].name == ms[b].name;
    j := a;
    i := LastWithName(ms, j, |ms|);
  }
}
