/** What the create phase of an activation does to every object, whatever fails: which objects appear, and who owns
    them. An object that is found is adopted; one that is made belongs to its maker only if its kind takes owners. */
module Creation {
  import opened Component
  import opened UseCounts
  import opened Cluster
  import opened Activation
  import opened Ownership
  import opened Accuracy

  predicate IsLister(assets: seq<AssetStatus>, n: nat, id: ObjectId)
    requires n <= |assets|
  {
    exists i :: 0 <= i < n && IdOf(assets[i]) == id
  }

  predicate IsActiveLister(assets: seq<AssetStatus>, n: nat, id: ObjectId)
    requires n <= |assets|
  {
    exists i :: 0 <= i < n && Active(assets[i]) && IdOf(assets[i]) == id
  }

  function WithOwner(owners: seq<Uid>, uid: Uid): seq<Uid> {
    if uid in owners then owners else owners + [uid]
  }

  function FirstOwners(kind: string, uid: Uid): seq<Uid> {
    if TakesOwner(kind) then [uid] else []
  }

  // ---------------------------------------------------------------- one archive

  /** One object before and after the visits of assets with different objects. */
  predicate ExactAt(before: Objects, after: Objects, id: ObjectId, uid: Uid, listed: bool, active: bool) {
    if id in before then
      id in after && after[id] == (if listed then WithOwner(before[id], uid) else before[id]) && (listed ==> active)
    else
      (id in after <==> active) && (active ==> after[id] == FirstOwners(id.kind, uid))
  }

  ghost predicate ExactUpTo(before: Objects, after: Objects, assets: seq<AssetStatus>, n: nat, uid: Uid)
    requires n <= |assets|
  {
    forall id :: ExactFor(before, after, assets, n, uid, id)
  }

  predicate ExactFor(before: Objects, after: Objects, assets: seq<AssetStatus>, n: nat, uid: Uid, id: ObjectId)
    requires n <= |assets|
  {
    ExactAt(before, after, id, uid, IsLister(assets, n, id), IsActiveLister(assets, n, id))
  }

  predicate DifferentIds(assets: seq<AssetStatus>) {
    forall i, j :: 0 <= i < j < |assets| ==> IdOf(assets[i]) != IdOf(assets[j])
  }

  lemma UniqueNamesDifferentIds(assets: seq<AssetStatus>, ms: seq<Manifest>, namespace: string)
    requires Conforms(assets, ms, namespace) && NamesUnique(ms)
    ensures DifferentIds(assets)
  {
    forall i, j | 0 <= i < j < |assets| ensures IdOf(assets[i]) != IdOf(assets[j]) {
      assert Describes(assets[i], ms[i], namespace) && Describes(assets[j], ms[j], namespace);
    }
  }

  lemma ListersStep(was: seq<AssetStatus>, now: seq<AssetStatus>, n: nat, id: ObjectId)
    requires n < |was| == |now| && DifferentIds(was)
    requires IdOf(now[n]) == IdOf(was[n]) && forall j :: 0 <= j < |was| && j != n ==> now[j] == was[j]
    ensures IsLister(now, n + 1, id) <==> IsLister(was, n, id) || IdOf(now[n]) == id
    ensures IsActiveLister(now, n + 1, id) <==> IsActiveLister(was, n, id) || (Active(now[n]) && IdOf(now[n]) == id)
    ensures IdOf(now[n]) == id ==> !IsLister(was, n, id)
    ensures IsActiveLister(was, n, id) ==> IsLister(was, n, id)
  {
    if i :| 0 <= i < n && IdOf(was[i]) == id {
      assert IdOf(now[i]) == id;
    }
    if i :| 0 <= i < n && Active(was[i]) && IdOf(was[i]) == id {
      assert Active(now[i]) && IdOf(now[i]) == id;
    }
  }

  lemma ExactStep(before: Objects, mid: Adoption, r: Adoption, n: nat, uid: Uid, ms: seq<Manifest>, namespace: string)
    requires Stepped(mid, r, n, uid, ms, namespace) && DifferentIds(mid.value.pipeline.activeAssets)
    requires ExactUpTo(before, mid.objects, mid.value.pipeline.activeAssets, n, uid)
    ensures ExactUpTo(before, r.objects, r.value.pipeline.activeAssets, n + 1, uid)
  {
    var was, now := mid.value.pipeline.activeAssets, r.value.pipeline.activeAssets;
    var m := n + 1;
    forall id ensures ExactFor(before, r.objects, now, m, uid, id) {
      ListersStep(was, now, n, id);
      assert ExactFor(before, mid.objects, was, n, uid, id);
    }
  }

  lemma SameIdsDiffer(a: seq<AssetStatus>, b: seq<AssetStatus>)
    requires SameIds(a, b) && DifferentIds(a)
    ensures DifferentIds(b)
  {}

  lemma {:induction false} ExactChain(states: seq<Adoption>, n: nat, uid: Uid, ms: seq<Manifest>, namespace: string)
    requires n < |states| && n <= |states[0].value.pipeline.activeAssets| && ValueOk(states[0].value, ms, namespace)
    requires DifferentIds(states[0].value.pipeline.activeAssets)
    requires forall i :: 0 <= i < n && ValueOk(states[i].value, ms, namespace) ==>
      Stepped(states[i], states[i + 1], i, uid, ms, namespace)
    ensures n <= |states[n].value.pipeline.activeAssets|
    ensures ExactUpTo(states[0].objects, states[n].objects, states[n].value.pipeline.activeAssets, n, uid)
  {
    if n != 0 {
      ExactChain(states, n - 1, uid, ms, namespace);
      ChainSteps(states, n - 1, uid, ms, namespace);
      SameIdsDiffer(states[0].value.pipeline.activeAssets, states[n - 1].value.pipeline.activeAssets);
      ExactStep(states[0].objects, states[n - 1], states[n], n - 1, uid, ms, namespace);
    }
  }

  /** The visit of one archive in use. */
  lemma ArchiveExact(a: Adoption, key: UseKey, namespace: string, uid: Uid, world: World, archive: Archive)
    requires namespace != "" && Faithful(world, archive) && NamesUnique(archive(key))
    requires ValueOk(a.value, archive(key), namespace)
    ensures var r := EnsureArchive(a, key, namespace, uid, world);
      ExactUpTo(a.objects, r.objects, r.value.pipeline.activeAssets, |r.value.pipeline.activeAssets|, uid)
  {
    var value := Listing(a.value, key, namespace, world);
    var listed := a.(value := value);
    var n := |value.pipeline.activeAssets|;
    assert ValueOk(value, archive(key), namespace);
    if n != 0 {
      UniqueNamesDifferentIds(value.pipeline.activeAssets, archive(key), namespace);
    }
    StatesStep(listed, key, n, namespace, uid, world, archive);
    ExactChain(States(listed, key, n, namespace, uid, world), n, uid, archive(key), namespace);
    EnsureAssetsEffect(listed, key, n, namespace, uid, world, archive);
  }

  // ---------------------------------------------------------------- all archives

  /** The visited archives in use that list an object, and those that list it as active. */
  ghost function Listers(m: UseMap, visited: seq<UseKey>, id: ObjectId): set<UseKey> {
    set k | k in visited && k in m && m[k].useCount > 0 &&
            IsLister(m[k].pipeline.activeAssets, |m[k].pipeline.activeAssets|, id)
  }

  ghost function ActiveListers(m: UseMap, visited: seq<UseKey>, id: ObjectId): set<UseKey> {
    set k | k in visited && k in m && m[k].useCount > 0 && ActiveIn(m[k].pipeline.activeAssets, id)
  }

  /** Who owns an object that is made while n archives list it as active: the first of them makes it, any other
      finds it. */
  function MadeOwners(kind: string, uid: Uid, n: nat): seq<Uid> {
    if TakesOwner(kind) || n >= 2 then [uid] else []
  }

  ghost predicate CreatedAt(before: Objects, after: Pass, visited: seq<UseKey>, uid: Uid, id: ObjectId) {
    Created(before, after.objects, uid, id, Listers(after.useMap, visited, id),
            ActiveListers(after.useMap, visited, id))
  }

  predicate Created(before: Objects, after: Objects, uid: Uid, id: ObjectId, listers: set<UseKey>,
                    active: set<UseKey>) {
    if id in before then
      && id in after && active == listers
      && after[id] == if listers == {} then before[id] else WithOwner(before[id], uid)
    else
      && (id in after <==> active != {})
      && (active != {} ==> after[id] == MadeOwners(id.kind, uid, |active|))
  }

  ghost predicate AllCreated(before: Objects, after: Pass, visited: seq<UseKey>, uid: Uid) {
    forall id :: CreatedAt(before, after, visited, uid, id)
  }

  function With(keys: set<UseKey>, key: UseKey, added: bool): set<UseKey> {
    if added then keys + {key} else keys
  }

  lemma ListersNext(mid: UseMap, m: UseMap, visited: seq<UseKey>, key: UseKey, id: ObjectId)
    requires key in m && key !in visited && m == mid[key := m[key]]
    ensures var assets := m[key].pipeline.activeAssets;
      && Listers(m, visited + [key], id) ==
         With(Listers(mid, visited, id), key, m[key].useCount > 0 && IsLister(assets, |assets|, id))
      && ActiveListers(m, visited + [key], id) ==
         With(ActiveListers(mid, visited, id), key, m[key].useCount > 0 && ActiveIn(assets, id))
      && key !in ActiveListers(mid, visited, id)
  {
    assert forall k :: k in visited + [key] <==> k in visited || k == key;
  }

  lemma CreatedNext(before: Objects, mid: Objects, after: Objects, uid: Uid, id: ObjectId, listers: set<UseKey>,
                    active: set<UseKey>, key: UseKey, listed: bool, activated: bool)
    requires Created(before, mid, uid, id, listers, active) && key !in active && (activated ==> listed)
    requires ExactAt(mid, after, id, uid, listed, activated)
    ensures Created(before, after, uid, id, With(listers, key, listed), With(active, key, activated))
  {
    if activated {
      assert |active + {key}| == |active| + 1;
    }
  }

  lemma CreatedStep(before: Objects, mid: Pass, after: Pass, visited: seq<UseKey>, key: UseKey, uid: Uid, id: ObjectId)
    requires CreatedAt(before, mid, visited, uid, id)
    requires key in after.useMap && key !in visited && after.useMap == mid.useMap[key := after.useMap[key]]
    requires var assets := after.useMap[key].pipeline.activeAssets;
      if after.useMap[key].useCount > 0 then ExactFor(mid.objects, after.objects, assets, |assets|, uid, id)
      else after.objects == mid.objects
    ensures CreatedAt(before, after, visited + [key], uid, id)
  {
    var assets := after.useMap[key].pipeline.activeAssets;
    ListersNext(mid.useMap, after.useMap, visited, key, id);
    assert ActiveIn(assets, id) <==> IsActiveLister(assets, |assets|, id);
    if after.useMap[key].useCount > 0 {
      CreatedNext(before, mid.objects, after.objects, uid, id, Listers(mid.useMap, visited, id),
                  ActiveListers(mid.useMap, visited, id), key, IsLister(assets, |assets|, id), ActiveIn(assets, id));
    }
  }

  lemma {:induction false} EnsureAllExact(p: Pass, order: seq<UseKey>, namespace: string, uid: Uid, world: World,
                                          archive: Archive)
    requires namespace != "" && Faithful(world, archive) && WellNamed(archive) && MapOk(p.useMap, archive, namespace)
    requires forall k :: k in order ==> k in p.useMap
    requires forall i, j :: 0 <= i < j < |order| ==> order[i] != order[j]
    ensures AllCreated(p.objects, EnsureAll(p, order, namespace, uid, world), order, uid)
  {
    if order != [] {
      var n := |order| - 1;
      var init, key := order[..n], order[n];
      assert order == init + [key];
      EnsureAllExact(p, init, namespace, uid, world, archive);
      EnsureAllEffect(p, init, namespace, uid, world, archive);
      var mid := EnsureAll(p, init, namespace, uid, world);
      var r := EnsureKey(mid, key, namespace, uid, world);
      assert key !in init && mid.useMap[key] == p.useMap[key];
      if mid.useMap[key].useCount > 0 {
        ArchiveExact(Adoption(mid.objects, mid.useMap[key]), key, namespace, uid, world, archive);
        EnsureArchiveEffect(Adoption(mid.objects, mid.useMap[key]), key, namespace, uid, world, archive);
      }
      forall id ensures CreatedAt(p.objects, r, order, uid, id) {
        assert CreatedAt(p.objects, mid, init, uid, id);
        CreatedStep(p.objects, mid, r, init, key, uid, id);
      }
    }
  }

  // ---------------------------------------------------------------- in terms of the new status

  /** The archives that a status lists an object as active for. */
  ghost function ListingArchives(status: seq<StatusVersion>, id: ObjectId): set<UseKey> {
    set l | l in StatusListing(status) && ActiveIn(l.pipeline.activeAssets, id) :: l.use.key
  }

  lemma ActiveListersAreListed(spec: seq<SpecVersion>, status: seq<StatusVersion>, order: seq<UseKey>, m: UseMap,
                               id: ObjectId)
    requires Distinct(StatusUses(status)) && Covers(m, spec) && m.Keys == Count(spec, status).Keys
    requires forall k :: k in order <==> k in m
    requires forall k :: k in m ==> m[k].useCount == Count(spec, status)[k].useCount
    ensures ActiveListers(m, order, id) == ListingArchives(RebuildStatus(spec, m), id)
  {
    var status' := RebuildStatus(spec, m);
    RebuiltUses(spec, m);
    forall k ensures k in ActiveListers(m, order, id) <==> k in ListingArchives(status', id) {
      if k in ActiveListers(m, order, id) {
        InUseIsWanted(spec, status, k);
        var u :| u in SpecUses(spec) && u.key == k;
        var l := UseListed(status', u);
        assert EntryOf(m, l);
      }
      if l :| l in StatusListing(status') && ActiveIn(l.pipeline.activeAssets, id) && l.use.key == k {
        assert EntryOf(m, l);
        ListedUse(status', l);
        InUseIsWanted(spec, status, k);
      }
    }
  }

  /** What an activation leaves of an object that survived its release phase, or did not: objects that were there
      stay, and are owned if the new status lists them; the others are there exactly if it lists them as active,
      and then owned if their kind takes owners or two archives list them. */
  ghost predicate ObjectAfter(start: Objects, after: Objects, status: seq<StatusVersion>, uid: Uid, id: ObjectId) {
    var n := |ListingArchives(status, id)|;
    if id in start then
      id in after && after[id] == if n == 0 then start[id] else WithOwner(start[id], uid)
    else
      (id in after <==> n > 0) && (n > 0 ==> after[id] == MadeOwners(id.kind, uid, n))
  }

  lemma ActivationExact(objects: Objects, spec: seq<SpecVersion>, status: seq<StatusVersion>, order: seq<UseKey>,
                        namespace: string, uid: Uid, world: World, archive: Archive, id: ObjectId)
    requires namespace != "" && Faithful(world, archive) && WellNamed(archive)
    requires IsOrder(order, Count(spec, status).Keys) && StatusOk(status, archive, namespace)
    ensures var p := Activate(objects, spec, status, order, namespace, uid, world);
      ObjectAfter(AfterRelease(objects, Count(spec, status), namespace, uid).objects, p.objects,
                  RebuildStatus(spec, p.useMap), uid, id)
  {
    var start := AfterRelease(objects, Count(spec, status), namespace, uid);
    var p := Activate(objects, spec, status, order, namespace, uid, world);
    OrderMembers(order, start.useMap.Keys);
    CountsFitStatus(spec, status, archive, namespace);
    ActivateEffect(objects, spec, status, order, namespace, uid, world, archive);
    EnsureAllExact(start, order, namespace, uid, world, archive);
    forall k | k in p.useMap ensures p.useMap[k].useCount == Count(spec, status)[k].useCount {
      assert SameEntry(start.useMap[k], p.useMap[k], archive(k), namespace);
    }
    ActiveListersAreListed(spec, status, order, p.useMap, id);
    assert CreatedAt(start.objects, p, order, uid, id);
    EmptySet(ActiveListers(p.useMap, order, id));
  }

  lemma EmptySet(keys: set<UseKey>)
    ensures |keys| == 0 <==> keys == {}
  {}

  /** A listed object of a kind that is created without an owner is owned after an activation exactly if it was
      there when the create phase began, or two archives list it. */
  lemma TriggerOwnedExactly(objects: Objects, spec: seq<SpecVersion>, status: seq<StatusVersion>, order: seq<UseKey>,
                            namespace: string, uid: Uid, world: World, archive: Archive, id: ObjectId)
    requires namespace != "" && Faithful(world, archive) && WellNamed(archive)
    requires IsOrder(order, Count(spec, status).Keys) && StatusOk(status, archive, namespace)
    requires !TakesOwner(id.kind)
    requires ListsActive(RebuildStatus(spec, Activate(objects, spec, status, order, namespace, uid, world).useMap), id)
    ensures var p := Activate(objects, spec, status, order, namespace, uid, world);
      Owns(p.objects, uid, id) <==>
        id in AfterRelease(objects, Count(spec, status), namespace, uid).objects ||
        |ListingArchives(RebuildStatus(spec, p.useMap), id)| >= 2
  {
    ActivationExact(objects, spec, status, order, namespace, uid, world, archive, id);
    var status' := RebuildStatus(spec, Activate(objects, spec, status, order, namespace, uid, world).useMap);
    var l :| l in StatusListing(status') && ActiveIn(l.pipeline.activeAssets, id);
    assert l.use.key in ListingArchives(status', id);
    EmptySet(ListingArchives(status', id));
  }
}
