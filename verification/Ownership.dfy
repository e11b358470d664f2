/** Why the status can be trusted as the only memory of what a component owns: one activation,
    started from an accurate status, ends in an accurate status. */
module Ownership {
  import opened Component
  import opened UseCounts
  import opened Cluster
  import opened Activation

  /** What the archives of one component hold, for as long as the component exists. */
  type Archive = UseKey -> seq<Manifest>

  predicate NamesUnique(ms: seq<Manifest>) {
    forall i, j :: 0 <= i < j < |ms| ==> ms[i].name != ms[j].name
  }

  ghost predicate WellNamed(archive: Archive) {
    forall k :: NamesUnique(archive(k))
  }

  /** Downloads may fail, but what they deliver is the archive; no transformation error reads "active". */
  ghost predicate Faithful(world: World, archive: Archive) {
    && (forall k, n: nat :: world.download(k, n).Fetched? ==> world.download(k, n).manifests == archive(k))
    && (forall k, i: nat, j: nat :: world.apply(k, i, j).TransformFailed? ==>
       world.apply(k, i, j).message != ASSET_ACTIVE)
  }

  predicate Describes(a: AssetStatus, m: Manifest, namespace: string) {
    && a.name == m.name && a.group == m.group && a.version == m.version && a.kind == m.kind
    && a.namespace == NamespaceFor(m, namespace)
  }

  predicate Conforms(assets: seq<AssetStatus>, ms: seq<Manifest>, namespace: string) {
    |assets| == |ms| && forall i :: 0 <= i < |assets| ==> Describes(assets[i], ms[i], namespace)
  }

  /** The part of a use map entry that an activation never changes. */
  predicate SameArchive(v: UseValue, w: UseValue) {
    && v.useCount == w.useCount && v.pipeline.name == w.pipeline.name && v.pipeline.url == w.pipeline.url
    && v.pipeline.gitRelease == w.pipeline.gitRelease && v.pipeline.digest == w.pipeline.digest
  }

  predicate ValueOk(v: UseValue, ms: seq<Manifest>, namespace: string) {
    && (v.pipeline.activeAssets == [] || Conforms(v.pipeline.activeAssets, ms, namespace))
    && (v.manifests == [] || v.manifests == ms)
  }

  predicate Active(a: AssetStatus) {
    a.status == ASSET_ACTIVE
  }

  predicate ActiveIn(assets: seq<AssetStatus>, id: ObjectId) {
    exists i :: 0 <= i < |assets| && Active(assets[i]) && IdOf(assets[i]) == id
  }

  predicate SameIds(a: seq<AssetStatus>, b: seq<AssetStatus>) {
    |a| == |b| && forall i :: 0 <= i < |a| ==> IdOf(a[i]) == IdOf(b[i])
  }

  /** What one component may do to the objects while it creates and adopts: it only gains objects. */
  ghost predicate Gains(before: Objects, after: Objects, uid: Uid) {
    && before.Keys <= after.Keys
    && (forall u, id :: u != uid ==> (Owns(after, u, id) <==> Owns(before, u, id)))
    && (forall id :: Owns(before, uid, id) ==> Owns(after, uid, id))
  }

  // ---------------------------------------------------------------- one asset

  lemma {:induction false} OneManifestMatches(p: Progress, ms: seq<Manifest>, n: nat, key: UseKey, i: nat, uid: Uid,
                                              world: World)
    requires n <= |ms| && i < |ms| && NamesUnique(ms) && p.asset.name == ms[i].name
    ensures TryManifests(p, ms, n, key, i, uid, world) ==
            if n <= i then p else TryManifest(p, ms[i], world.apply(key, i, i), uid)
  {
    if n != 0 {
      OneManifestMatches(p, ms, n - 1, key, i, uid, world);
    }
  }

  /** An object is adopted if it was there; otherwise it exists exactly if the asset became active. */
  predicate Settled(before: Objects, after: Objects, id: ObjectId, uid: Uid, active: bool) {
    if id in before then active && after == Adopted(before, id, uid)
    else if active then after == before[id := if TakesOwner(id.kind) then [uid] else []]
    else after == before
  }

  lemma SettledGains(before: Objects, after: Objects, id: ObjectId, uid: Uid, active: bool)
    requires Settled(before, after, id, uid, active)
    ensures Gains(before, after, uid)
    ensures active ==> id in after
    ensures active && TakesOwner(id.kind) ==> Owns(after, uid, id)
    ensures forall o :: Owns(after, uid, o) && !Owns(before, uid, o) ==> active && o == id
  {}

  predicate OnlyAsset(v: UseValue, w: UseValue, i: nat) {
    && i < |v.pipeline.activeAssets| == |w.pipeline.activeAssets|
    && IdOf(w.pipeline.activeAssets[i]) == IdOf(v.pipeline.activeAssets[i])
    && forall j :: 0 <= j < |v.pipeline.activeAssets| && j != i ==>
       w.pipeline.activeAssets[j] == v.pipeline.activeAssets[j]
  }

  /** What the visit of asset i does. */
  predicate Stepped(a: Adoption, r: Adoption, i: nat, uid: Uid, ms: seq<Manifest>, namespace: string) {
    && SameArchive(a.value, r.value) && ValueOk(r.value, ms, namespace) && OnlyAsset(a.value, r.value, i)
    && var asset := r.value.pipeline.activeAssets[i];
       Settled(a.objects, r.objects, IdOf(asset), uid, Active(asset)) && (Active(asset) ==> asset.message == "")
  }

  /** Replacing the status of an asset. */
  lemma SetAssetOk(v: UseValue, i: nat, asset: AssetStatus, ms: seq<Manifest>, namespace: string)
    requires i < |v.pipeline.activeAssets| && ValueOk(v, ms, namespace)
    requires var a := v.pipeline.activeAssets[i]; asset == a.(status := asset.status, message := asset.message)
    ensures var w := SetAsset(v, i, asset);
      SameArchive(v, w) && ValueOk(w, ms, namespace) && OnlyAsset(v, w, i) && w.pipeline.activeAssets[i] == asset
  {
    assert Describes(v.pipeline.activeAssets[i], ms[i], namespace);
  }

  lemma CreateAssetEffect(a: Adoption, key: UseKey, i: nat, namespace: string, uid: Uid, world: World, archive: Archive)
    requires Faithful(world, archive) && NamesUnique(archive(key)) && a.value.manifests == archive(key)
    requires i < |a.value.pipeline.activeAssets| && ValueOk(a.value, archive(key), namespace)
    requires IdOf(a.value.pipeline.activeAssets[i]) !in a.objects
    ensures Stepped(a, CreateAsset(a, a.value.pipeline.activeAssets[i], key, i, uid, world), i, uid, archive(key),
                    namespace)
  {
    var ms := archive(key);
    var asset := a.value.pipeline.activeAssets[i];
    assert Describes(asset, ms[i], namespace);
    OneManifestMatches(Progress(a.objects, asset), ms, |ms|, key, i, uid, world);
    var p := TryManifest(Progress(a.objects, asset), ms[i], world.apply(key, i, i), uid);
    SetAssetOk(a.value, i, p.asset, ms, namespace);
  }

  lemma EnsureAssetEffect(a: Adoption, key: UseKey, i: nat, namespace: string, uid: Uid, world: World, archive: Archive)
    requires namespace != "" && Faithful(world, archive) && NamesUnique(archive(key))
    requires i < |a.value.pipeline.activeAssets| && ValueOk(a.value, archive(key), namespace)
    ensures Stepped(a, EnsureAsset(a, key, i, namespace, uid, world), i, uid, archive(key), namespace)
  {
    var ms := archive(key);
    var asset := a.value.pipeline.activeAssets[i];
    assert Describes(asset, ms[i], namespace);
    assert Namespaced(asset, namespace) == asset;
    if IdOf(asset) in a.objects {
      SetAssetOk(a.value, i, MarkActive(asset), ms, namespace);
    } else if a.value.manifests == [] {
      if world.download(key, i + 1).FetchFailed? {
        SetAssetOk(a.value, i, asset.(status := ASSET_FAILED, message := NOT_AVAILABLE), ms, namespace);
      } else {
        var b := a.(value := a.value.(manifests := world.download(key, i + 1).manifests));
        CreateAssetEffect(b, key, i, namespace, uid, world, archive);
      }
    } else {
      CreateAssetEffect(a, key, i, namespace, uid, world, archive);
    }
  }

  /** The first n assets of an archive are settled: those that existed before or could be created are
      active, the active ones are there and owned, and nothing else became owned. */
  ghost predicate Ensured(before: Objects, after: Objects, assets: seq<AssetStatus>, n: nat, uid: Uid)
    requires n <= |assets|
  {
    && Gains(before, after, uid)
    && (forall i :: 0 <= i < n && IdOf(assets[i]) in before ==> Active(assets[i]))
    && (forall i :: 0 <= i < n && Active(assets[i]) ==>
          assets[i].message == "" && IdOf(assets[i]) in after &&
          (TakesOwner(assets[i].kind) ==> Owns(after, uid, IdOf(assets[i]))))
    && (forall id :: Owns(after, uid, id) && !Owns(before, uid, id) ==>
          exists i :: 0 <= i < n && Active(assets[i]) && IdOf(assets[i]) == id)
  }

  lemma EnsuredStep(before: Objects, mid: Adoption, r: Adoption, i: nat, uid: Uid, ms: seq<Manifest>, namespace: string)
    requires Stepped(mid, r, i, uid, ms, namespace) &&
      Ensured(before, mid.objects, mid.value.pipeline.activeAssets, i, uid)
    ensures Ensured(before, r.objects, r.value.pipeline.activeAssets, i + 1, uid)
  {
    var was, assets := mid.value.pipeline.activeAssets, r.value.pipeline.activeAssets;
    SettledGains(mid.objects, r.objects, IdOf(assets[i]), uid, Active(assets[i]));
    forall id | Owns(r.objects, uid, id) && !Owns(before, uid, id)
      ensures exists j :: 0 <= j < i + 1 && Active(assets[j]) && IdOf(assets[j]) == id
    {
      if Owns(mid.objects, uid, id) {
        var j :| 0 <= j < i && Active(was[j]) && IdOf(was[j]) == id;
        assert assets[j] == was[j];
      } else {
        assert Active(assets[i]) && IdOf(assets[i]) == id;
      }
    }
  }

  /** What the visits of the first n assets do. */
  ghost predicate Chained(a: Adoption, r: Adoption, n: nat, uid: Uid, ms: seq<Manifest>, namespace: string) {
    && SameArchive(a.value, r.value) && ValueOk(r.value, ms, namespace)
    && SameIds(a.value.pipeline.activeAssets, r.value.pipeline.activeAssets)
    && n <= |r.value.pipeline.activeAssets| && Ensured(a.objects, r.objects, r.value.pipeline.activeAssets, n, uid)
  }

  lemma ChainedStep(a: Adoption, mid: Adoption, r: Adoption, i: nat, uid: Uid, ms: seq<Manifest>, namespace: string)
    requires Chained(a, mid, i, uid, ms, namespace) && Stepped(mid, r, i, uid, ms, namespace)
    ensures Chained(a, r, i + 1, uid, ms, namespace)
  {
    EnsuredStep(a.objects, mid, r, i, uid, ms, namespace);
  }

  /** The visits of the first n assets, one by one. */
  lemma EnsureAssetsStep(a: Adoption, key: UseKey, n: nat, namespace: string, uid: Uid, world: World, archive: Archive)
    requires namespace != "" && Faithful(world, archive) && NamesUnique(archive(key))
    requires n < |a.value.pipeline.activeAssets|
    requires ValueOk(EnsureAssets(a, key, n, namespace, uid, world).value, archive(key), namespace)
    ensures Stepped(EnsureAssets(a, key, n, namespace, uid, world), EnsureAssets(a, key, n + 1, namespace, uid, world),
                    n, uid, archive(key), namespace)
  {
    EnsureAssetEffect(EnsureAssets(a, key, n, namespace, uid, world), key, n, namespace, uid, world, archive);
  }

  /** A chain of steps, one for each asset. */
  lemma {:induction false} ChainSteps(states: seq<Adoption>, n: nat, uid: Uid, ms: seq<Manifest>, namespace: string)
    requires n < |states| && n <= |states[0].value.pipeline.activeAssets| && ValueOk(states[0].value, ms, namespace)
    requires forall i :: 0 <= i < n && ValueOk(states[i].value, ms, namespace) ==>
      Stepped(states[i], states[i + 1], i, uid, ms, namespace)
    ensures Chained(states[0], states[n], n, uid, ms, namespace)
  {
    if n != 0 {
      ChainSteps(states, n - 1, uid, ms, namespace);
      ChainedStep(states[0], states[n - 1], states[n], n - 1, uid, ms, namespace);
    }
  }

  function States(a: Adoption, key: UseKey, n: nat, namespace: string, uid: Uid, world: World): (r: seq<Adoption>)
    requires n <= |a.value.pipeline.activeAssets|
    ensures |r| == n + 1 && forall i :: 0 <= i <= n ==> r[i] == EnsureAssets(a, key, i, namespace, uid, world)
  {
    seq(n + 1, i requires 0 <= i <= n => EnsureAssets(a, key, i, namespace, uid, world))
  }

  lemma StatesStep(a: Adoption, key: UseKey, n: nat, namespace: string, uid: Uid, world: World, archive: Archive)
    requires namespace != "" && Faithful(world, archive) && NamesUnique(archive(key))
    requires n <= |a.value.pipeline.activeAssets|
    ensures var states := States(a, key, n, namespace, uid, world);
      forall i :: 0 <= i < n && ValueOk(states[i].value, archive(key), namespace) ==>
        Stepped(states[i], states[i + 1], i, uid, archive(key), namespace)
  {
    var states := States(a, key, n, namespace, uid, world);
    forall i | 0 <= i < n && ValueOk(states[i].value, archive(key), namespace)
      ensures Stepped(states[i], states[i + 1], i, uid, archive(key), namespace)
    {
      EnsureAssetsStep(a, key, i, namespace, uid, world, archive);
    }
  }

  lemma EnsureAssetsEffect(a: Adoption, key: UseKey, n: nat, namespace: string, uid: Uid, world: World,
                           archive: Archive)
    requires namespace != "" && Faithful(world, archive) && NamesUnique(archive(key))
    requires n <= |a.value.pipeline.activeAssets| && ValueOk(a.value, archive(key), namespace)
    ensures Chained(a, States(a, key, n, namespace, uid, world)[n], n, uid, archive(key), namespace)
  {
    StatesStep(a, key, n, namespace, uid, world, archive);
    ChainSteps(States(a, key, n, namespace, uid, world), n, uid, archive(key), namespace);
  }

  // ---------------------------------------------------------------- one archive, and all of them

  /** An entry of the use map before and after an activation. */
  predicate SameEntry(v: UseValue, w: UseValue, ms: seq<Manifest>, namespace: string) {
    && SameArchive(v, w) && ValueOk(w, ms, namespace)
    && (v.pipeline.activeAssets != [] ==> SameIds(v.pipeline.activeAssets, w.pipeline.activeAssets))
  }

  lemma EnsureArchiveEffect(a: Adoption, key: UseKey, namespace: string, uid: Uid, world: World, archive: Archive)
    requires namespace != "" && Faithful(world, archive) && NamesUnique(archive(key))
    requires ValueOk(a.value, archive(key), namespace)
    ensures var r := EnsureArchive(a, key, namespace, uid, world);
      && SameEntry(a.value, r.value, archive(key), namespace)
      && Ensured(a.objects, r.objects, r.value.pipeline.activeAssets, |r.value.pipeline.activeAssets|, uid)
  {
    var value := Listing(a.value, key, namespace, world);
    EnsureAssetsEffect(a.(value := value), key, |value.pipeline.activeAssets|, namespace, uid, world, archive);
  }

  ghost predicate MapOk(m: UseMap, archive: Archive, namespace: string) {
    forall k :: k in m ==> ValueOk(m[k], archive(k), namespace)
  }

  /** Some asset of a visited archive in use is active and stands for the object. */
  ghost predicate Justified(m: UseMap, visited: seq<UseKey>, id: ObjectId) {
    exists k :: k in visited && k in m && m[k].useCount > 0 && ActiveIn(m[k].pipeline.activeAssets, id)
  }

  /** The assets of an archive: active if their objects were there, and if active then there and owned. */
  ghost predicate AllSettled(before: Objects, after: Objects, assets: seq<AssetStatus>, uid: Uid) {
    forall a :: a in assets ==>
      && (IdOf(a) in before ==> Active(a))
      && (Active(a) ==> a.message == "" && IdOf(a) in after && (TakesOwner(a.kind) ==> Owns(after, uid, IdOf(a))))
  }

  /** All visited archives in use are settled. */
  ghost predicate AllEnsured(before: Pass, after: Pass, visited: seq<UseKey>, uid: Uid) {
    && Gains(before.objects, after.objects, uid)
    && (forall k :: k in visited && k in after.useMap && after.useMap[k].useCount > 0 ==>
          AllSettled(before.objects, after.objects, after.useMap[k].pipeline.activeAssets, uid))
    && (forall id :: Owns(after.objects, uid, id) && !Owns(before.objects, uid, id) ==>
       Justified(after.useMap, visited, id))
  }

  ghost predicate SameEntries(before: UseMap, after: UseMap, archive: Archive, namespace: string) {
    before.Keys == after.Keys && forall k :: k in before ==> SameEntry(before[k], after[k], archive(k), namespace)
  }

  lemma AllEnsuredStep(before: Pass, mid: Pass, after: Pass, visited: seq<UseKey>, key: UseKey, uid: Uid)
    requires AllEnsured(before, mid, visited, uid)
    requires key in mid.useMap && key !in visited && key in after.useMap
    requires after.useMap == mid.useMap[key := after.useMap[key]]
    requires var assets := after.useMap[key].pipeline.activeAssets;
      if after.useMap[key].useCount > 0 then Ensured(mid.objects, after.objects, assets, |assets|, uid)
      else after == mid
    ensures AllEnsured(before, after, visited + [key], uid)
  {
    var assets := after.useMap[key].pipeline.activeAssets;
    forall k | k in visited + [key] && k in after.useMap && after.useMap[k].useCount > 0
      ensures AllSettled(before.objects, after.objects, after.useMap[k].pipeline.activeAssets, uid)
    {
      if k == key {
        assert forall a :: a in assets ==> exists i :: 0 <= i < |assets| && assets[i] == a;
      } else {
        assert AllSettled(before.objects, mid.objects, mid.useMap[k].pipeline.activeAssets, uid);
      }
    }
    forall id | Owns(after.objects, uid, id) && !Owns(before.objects, uid, id)
      ensures Justified(after.useMap, visited + [key], id)
    {
      if Owns(mid.objects, uid, id) {
        var k :| k in visited && k in mid.useMap && mid.useMap[k].useCount > 0 &&
                 ActiveIn(mid.useMap[k].pipeline.activeAssets, id);
        assert k in visited + [key] && k in after.useMap;
      } else {
        assert key in visited + [key] && ActiveIn(assets, id);
      }
    }
  }

  lemma {:induction false} EnsureAllEffect(p: Pass, order: seq<UseKey>, namespace: string, uid: Uid, world: World,
                                           archive: Archive)
    requires namespace != "" && Faithful(world, archive) && WellNamed(archive) && MapOk(p.useMap, archive, namespace)
    requires forall k :: k in order ==> k in p.useMap
    requires forall i, j :: 0 <= i < j < |order| ==> order[i] != order[j]
    ensures var r := EnsureAll(p, order, namespace, uid, world);
      && SameEntries(p.useMap, r.useMap, archive, namespace) && AllEnsured(p, r, order, uid)
      && (forall k :: k in p.useMap && k !in order ==> r.useMap[k] == p.useMap[k])
  {
    if order != [] {
      var n := |order| - 1;
      var init, key := order[..n], order[n];
      assert order == init + [key];
      EnsureAllEffect(p, init, namespace, uid, world, archive);
      var mid := EnsureAll(p, init, namespace, uid, world);
      var r := EnsureKey(mid, key, namespace, uid, world);
      assert key !in init && mid.useMap[key] == p.useMap[key];
      if mid.useMap[key].useCount > 0 {
        EnsureArchiveEffect(Adoption(mid.objects, mid.useMap[key]), key, namespace, uid, world, archive);
      }
      AllEnsuredStep(p, mid, r, init, key, uid);
    }
  }
}
