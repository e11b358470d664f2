/** The status a component writes after an activation, and the facts about it that every later
    activation relies on. */
module Accuracy {
  import opened Component
  import opened UseCounts
  import opened Cluster
  import opened Activation
  import opened Ownership

  /** The pipelines of one version as the new status lists them; a pipeline that is not in the use map
      would be skipped. */
  function RebuildPipelines(ps: seq<PipelineSpec>, m: UseMap): seq<PipelineStatus> {
    if ps == [] then []
    else
      var last := ps[|ps| - 1];
      var rest := RebuildPipelines(ps[..|ps| - 1], m);
      if KeyOfSpec(last) in m then rest + [m[KeyOfSpec(last)].pipeline.(name := last.id)] else rest
  }

  function RebuildVersion(v: SpecVersion, m: UseMap): StatusVersion {
    StatusVersion(v.version, RebuildPipelines(v.pipelines, m))
  }

  function RebuildStatus(spec: seq<SpecVersion>, m: UseMap): seq<StatusVersion> {
    seq(|spec|, i requires 0 <= i < |spec| => RebuildVersion(spec[i], m))
  }

  // ---------------------------------------------------------------- keys survive the trip

  predicate FreshEntry(v: UseValue, k: UseKey) {
    v.manifests == [] && v.manifestError == None && KeyOfStatus(v.pipeline) == k
  }

  /** Corrections of the counts touch nothing else in an entry. */
  lemma CountBase(spec: seq<SpecVersion>, status: seq<StatusVersion>, k: UseKey)
    requires k in Count(spec, status)
    ensures var base := CountListed(StatusListing(status));
      && Count(spec, status)[k] == Base(base, k).(useCount := Count(spec, status)[k].useCount)
      && (k !in base ==> exists u :: u in SpecUses(spec) && u.key == k)
  {
    CountListedKeys(StatusListing(status));
    DeltasCharacterized(Elements(StatusUses(status)), SpecUses(spec));
  }

  lemma ListedIsCounted(status: seq<StatusVersion>, l: Listed)
    requires l in StatusListing(status)
    ensures l.use.key in CountListed(StatusListing(status))
  {
    CountListedKeys(StatusListing(status));
    ListedUse(status, l);
    assert l.use in UsesOf(StatusListing(status));
  }

  /** Every entry of the use map carries a pipeline with its own key: the first listing of the key in
      the status, or else a fresh one. */
  lemma CountPipelines(spec: seq<SpecVersion>, status: seq<StatusVersion>, k: UseKey)
    requires k in Count(spec, status)
    ensures FreshEntry(Count(spec, status)[k], k)
    ensures (exists l :: l in StatusListing(status) && l.use.key == k &&
                         l.pipeline == Count(spec, status)[k].pipeline) ||
            ((forall l :: l in StatusListing(status) ==> l.use.key != k) &&
             Count(spec, status)[k].pipeline == FreshValue(k).pipeline)
  {
    CountBase(spec, status, k);
    if k in CountListed(StatusListing(status)) {
      StatusListingKeys(status);
      CountListedPipelines(StatusListing(status));
    } else {
      var u :| u in SpecUses(spec) && u.key == k;
      SpecUsesComeFromPipelines(spec, u);
      forall l | l in StatusListing(status) ensures l.use.key != k {
        ListedIsCounted(status, l);
      }
    }
  }

  lemma {:induction false} CountListedPipelines(listing: seq<Listed>)
    requires forall l :: l in listing ==> l.use.key == KeyOfStatus(l.pipeline)
    ensures forall k :: k in CountListed(listing) ==>
      var v := CountListed(listing)[k];
      v.manifests == [] && v.manifestError == None && KeyOfStatus(v.pipeline) == k &&
      exists l :: l in listing && l.use.key == k && l.pipeline == v.pipeline
  {
    if listing != [] {
      var n := |listing| - 1;
      assert listing == listing[..n] + [listing[n]];
      CountListedPipelines(listing[..n]);
    }
  }

  lemma {:induction false} StatusListingKeys(status: seq<StatusVersion>)
    ensures forall l :: l in StatusListing(status) ==> l.use.key == KeyOfStatus(l.pipeline)
  {
    if status != [] {
      StatusListingKeys(status[..|status| - 1]);
    }
  }

  lemma {:induction false} SpecUsesComeFromPipelines(spec: seq<SpecVersion>, u: Use)
    requires u in SpecUses(spec)
    ensures exists p: PipelineSpec :: u.key == KeyOfSpec(p)
  {
    var n := |spec| - 1;
    if u in SpecUses(spec[..n]) {
      SpecUsesComeFromPipelines(spec[..n], u);
    } else {
      var i :| 0 <= i < |spec[n].pipelines| && SpecVersionUses(spec[n])[i] == u;
      assert u.key == KeyOfSpec(spec[n].pipelines[i]);
    }
  }

  /** A use map in which every pipeline of the spec finds an entry, filed under its own key. */
  predicate Covers(m: UseMap, spec: seq<SpecVersion>) {
    && (forall u :: u in SpecUses(spec) ==> u.key in m)
    && (forall k :: k in m ==> KeyOfStatus(m[k].pipeline) == k)
  }

  /** The status entry of a wanted pipeline. */
  predicate EntryOf(m: UseMap, l: Listed) {
    l.use.key in m && l.pipeline == m[l.use.key].pipeline.(name := l.pipeline.name)
  }

  lemma {:induction false} RebuiltVersion(version: string, ps: seq<PipelineSpec>, m: UseMap)
    requires forall p :: p in ps ==> KeyOfSpec(p) in m && KeyOfStatus(m[KeyOfSpec(p)].pipeline) == KeyOfSpec(p)
    ensures |RebuildPipelines(ps, m)| == |ps|
    ensures UsesOf(VersionListing(StatusVersion(version, RebuildPipelines(ps, m)))) ==
            SpecVersionUses(SpecVersion(version, ps))
    ensures forall l :: l in VersionListing(StatusVersion(version, RebuildPipelines(ps, m))) ==> EntryOf(m, l)
  {
    if ps != [] {
      var n := |ps| - 1;
      var init, last := ps[..n], ps[n];
      assert ps == init + [last];
      RebuiltVersion(version, init, m);
      var before := VersionListing(StatusVersion(version, RebuildPipelines(init, m)));
      var entry := m[KeyOfSpec(last)].pipeline.(name := last.id);
      var l := Listed(Use(KeyOfSpec(last), version), entry);
      assert KeyOfStatus(entry) == KeyOfSpec(last);
      assert VersionListing(StatusVersion(version, RebuildPipelines(ps, m))) == before + [l];
      assert SpecVersionUses(SpecVersion(version, ps)) == SpecVersionUses(SpecVersion(version, init)) + [l.use];
    }
  }

  /** The new status uses what the spec uses, in the same order and with the same repetitions: no
      pipeline is skipped for want of a use map entry. */
  lemma {:induction false} RebuiltUses(spec: seq<SpecVersion>, m: UseMap)
    requires Covers(m, spec)
    ensures StatusUses(RebuildStatus(spec, m)) == SpecUses(spec)
    ensures forall l :: l in StatusListing(RebuildStatus(spec, m)) ==> EntryOf(m, l)
  {
    if spec != [] {
      var n := |spec| - 1;
      var init, last := spec[..n], spec[n];
      assert SpecUses(spec) == SpecUses(init) + SpecVersionUses(last);
      assert RebuildStatus(spec, m)[..n] == RebuildStatus(init, m);
      assert RebuildStatus(spec, m)[n] == RebuildVersion(last, m);
      RebuiltUses(init, m);
      forall p | p in last.pipelines
        ensures KeyOfSpec(p) in m && KeyOfStatus(m[KeyOfSpec(p)].pipeline) == KeyOfSpec(p)
      {
        var i :| 0 <= i < |last.pipelines| && last.pipelines[i] == p;
        assert SpecVersionUses(last)[i].key == KeyOfSpec(p);
        assert SpecVersionUses(last)[i] in SpecUses(spec);
      }
      RebuiltVersion(last.version, last.pipelines, m);
      assert StatusListing(RebuildStatus(spec, m)) ==
             StatusListing(RebuildStatus(init, m)) + VersionListing(RebuildVersion(last, m));
    }
  }

  // ---------------------------------------------------------------- accuracy

  /** The status lists the object as an active asset. */
  ghost predicate ListsActive(status: seq<StatusVersion>, id: ObjectId) {
    exists l :: l in StatusListing(status) && ActiveIn(l.pipeline.activeAssets, id)
  }

  /** No version repeats an archive. */
  ghost predicate Distinct(uses: seq<Use>) {
    forall u :: u in uses ==> Multiplicity(uses, u) <= 1
  }

  /** What a status written by an activation looks like. */
  ghost predicate StatusOk(status: seq<StatusVersion>, archive: Archive, namespace: string) {
    && Distinct(StatusUses(status))
    && (forall l :: l in StatusListing(status) ==>
          l.pipeline.activeAssets == [] || Conforms(l.pipeline.activeAssets, archive(l.use.key), namespace))
    && (forall l, l' :: l in StatusListing(status) && l' in StatusListing(status) && l.use.key == l'.use.key ==>
          l.pipeline.activeAssets == l'.pipeline.activeAssets)
  }

  /** The component owns no more than its status lists as active. */
  ghost predicate OwnsOnlyListed(objects: Objects, status: seq<StatusVersion>, uid: Uid) {
    forall id :: Owns(objects, uid, id) ==> ListsActive(status, id)
  }

  /** The component owns what its status lists as active, among the kinds that take owners. */
  ghost predicate OwnsListed(objects: Objects, status: seq<StatusVersion>, uid: Uid) {
    forall id :: ListsActive(status, id) && TakesOwner(id.kind) ==> Owns(objects, uid, id)
  }

  /** The keys of the counts and the entries they hold fit a well-kept status. */
  lemma CountsFitStatus(spec: seq<SpecVersion>, status: seq<StatusVersion>, archive: Archive, namespace: string)
    requires StatusOk(status, archive, namespace)
    ensures MapOk(Count(spec, status), archive, namespace) && Covers(Count(spec, status), spec)
    ensures forall l :: l in StatusListing(status) ==>
      l.use.key in Count(spec, status) &&
      Count(spec, status)[l.use.key].pipeline.activeAssets == l.pipeline.activeAssets
  {
    var m := Count(spec, status);
    forall k | k in m
      ensures ValueOk(m[k], archive(k), namespace) && KeyOfStatus(m[k].pipeline) == k
    {
      CountPipelines(spec, status, k);
    }
    forall u | u in SpecUses(spec) ensures u.key in m {
      CountsConserved(spec, status, u.key);
    }
    forall l | l in StatusListing(status)
      ensures l.use.key in m && m[l.use.key].pipeline.activeAssets == l.pipeline.activeAssets
    {
      ListedUse(status, l);
      CountsConserved(spec, status, l.use.key);
      CountPipelines(spec, status, l.use.key);
    }
  }

  lemma ListedUse(status: seq<StatusVersion>, l: Listed)
    requires l in StatusListing(status)
    ensures l.use in StatusUses(status)
  {
    var i :| 0 <= i < |StatusListing(status)| && StatusListing(status)[i] == l;
    assert StatusUses(status)[i] == l.use;
  }

  lemma UseListed(status: seq<StatusVersion>, u: Use) returns (l: Listed)
    requires u in StatusUses(status)
    ensures l in StatusListing(status) && l.use == u
  {
    var i :| 0 <= i < |StatusUses(status)| && StatusUses(status)[i] == u;
    l := StatusListing(status)[i];
  }

  /** An object that is still owned after the release is listed by an archive that stays in use. */
  lemma SurvivorsStayInUse(objects: Objects, spec: seq<SpecVersion>, status: seq<StatusVersion>, namespace: string,
                           uid: Uid, archive: Archive, id: ObjectId) returns (k: UseKey)
    requires namespace != "" && StatusOk(status, archive, namespace) && OwnsOnlyListed(objects, status, uid)
    requires var targets := DeadTargets(Count(spec, status), Count(spec, status).Keys, namespace);
      Owns(Released(objects, targets, uid), uid, id)
    ensures k in Count(spec, status) && Count(spec, status)[k].useCount > 0
    ensures ActiveIn(Count(spec, status)[k].pipeline.activeAssets, id)
  {
    var m := Count(spec, status);
    var dead := DeadTargets(m, m.Keys, namespace);
    ReleasedOwnership(objects, dead, uid);
    CountsFitStatus(spec, status, archive, namespace);
    var l :| l in StatusListing(status) && ActiveIn(l.pipeline.activeAssets, id);
    k := l.use.key;
    var assets := m[k].pipeline.activeAssets;
    var i :| 0 <= i < |assets| && Active(assets[i]) && IdOf(assets[i]) == id;
    assert Describes(assets[i], archive(k)[i], namespace);
    assert Namespaced(assets[i], namespace) == assets[i];
    assert assets[i] in assets && IsReleasable(assets[i]);
    assert m[k].useCount <= 0 ==> id in dead;
  }

  /** With distinct archives in every version, an archive is in use after counting exactly when the
      spec wants it. */
  lemma InUseIsWanted(spec: seq<SpecVersion>, status: seq<StatusVersion>, k: UseKey)
    requires Distinct(StatusUses(status)) && k in Count(spec, status)
    ensures Count(spec, status)[k].useCount > 0 <==> WantedBySpec(spec, k)
  {
    PositiveExactlyWhenWanted(spec, status, k);
  }

  /** What one activation did, before the status is rebuilt from it. */
  ghost predicate Activated(start: Pass, p: Pass, spec: seq<SpecVersion>, order: seq<UseKey>, namespace: string,
                            uid: Uid, archive: Archive)
  {
    && (forall k :: k in order <==> k in start.useMap)
    && SameEntries(start.useMap, p.useMap, archive, namespace) && AllEnsured(start, p, order, uid)
    && Covers(p.useMap, spec) && MapOk(p.useMap, archive, namespace)
  }

  function AfterRelease(objects: Objects, m: UseMap, namespace: string, uid: Uid): Pass {
    Pass(Released(objects, DeadTargets(m, m.Keys, namespace), uid), m)
  }

  lemma ActivateEffect(objects: Objects, spec: seq<SpecVersion>, status: seq<StatusVersion>, order: seq<UseKey>,
                       namespace: string, uid: Uid, world: World, archive: Archive)
    requires namespace != "" && Faithful(world, archive) && WellNamed(archive)
    requires IsOrder(order, Count(spec, status).Keys) && StatusOk(status, archive, namespace)
    ensures Activated(AfterRelease(objects, Count(spec, status), namespace, uid),
                      Activate(objects, spec, status, order, namespace, uid, world), spec, order, namespace, uid,
                      archive)
  {
    var start := AfterRelease(objects, Count(spec, status), namespace, uid);
    OrderMembers(order, start.useMap.Keys);
    CountsFitStatus(spec, status, archive, namespace);
    EnsureAllEffect(start, order, namespace, uid, world, archive);
    SameEntriesCover(start.useMap, Activate(objects, spec, status, order, namespace, uid, world).useMap, spec, archive,
                     namespace);
  }

  lemma SameEntriesCover(m: UseMap, m': UseMap, spec: seq<SpecVersion>, archive: Archive, namespace: string)
    requires Covers(m, spec) && SameEntries(m, m', archive, namespace)
    ensures Covers(m', spec) && MapOk(m', archive, namespace)
  {
    forall k | k in m'
      ensures KeyOfStatus(m'[k].pipeline) == k && ValueOk(m'[k], archive(k), namespace)
    {
      assert SameEntry(m[k], m'[k], archive(k), namespace);
    }
  }

  lemma OwnedIsListed(objects: Objects, spec: seq<SpecVersion>, status: seq<StatusVersion>, order: seq<UseKey>,
                      namespace: string, uid: Uid, archive: Archive, p: Pass, id: ObjectId)
    requires namespace != "" && StatusOk(status, archive, namespace) && OwnsOnlyListed(objects, status, uid)
    requires var start := AfterRelease(objects, Count(spec, status), namespace, uid);
      Activated(start, p, spec, order, namespace, uid, archive)
    requires Owns(p.objects, uid, id)
    ensures ListsActive(RebuildStatus(spec, p.useMap), id)
  {
    var start := AfterRelease(objects, Count(spec, status), namespace, uid);
    var k: UseKey;
    if Owns(start.objects, uid, id) {
      k := SurvivorsStayInUse(objects, spec, status, namespace, uid, archive, id);
      SurvivorIsActive(start, p, order, uid, archive, namespace, k, id);
    } else {
      k :| k in order && k in p.useMap && p.useMap[k].useCount > 0 && ActiveIn(p.useMap[k].pipeline.activeAssets, id);
      assert SameEntry(start.useMap[k], p.useMap[k], archive(k), namespace);
    }
    InUseIsWanted(spec, status, k);
    WantedIsListed(spec, p.useMap, k, id);
  }

  lemma ListedIsOwned(spec: seq<SpecVersion>, status: seq<StatusVersion>, start: Pass, order: seq<UseKey>,
                      namespace: string, uid: Uid, archive: Archive, p: Pass, id: ObjectId)
    requires start.useMap == Count(spec, status) && Distinct(StatusUses(status))
    requires Activated(start, p, spec, order, namespace, uid, archive)
    requires ListsActive(RebuildStatus(spec, p.useMap), id) && TakesOwner(id.kind)
    ensures Owns(p.objects, uid, id)
  {
    var k := ListedIsWanted(spec, p.useMap, id);
    InUseIsWanted(spec, status, k);
    assert SameEntry(start.useMap[k], p.useMap[k], archive(k), namespace);
    var assets := p.useMap[k].pipeline.activeAssets;
    var i :| 0 <= i < |assets| && Active(assets[i]) && IdOf(assets[i]) == id;
    assert AllSettled(start.objects, p.objects, assets, uid);
    assert assets[i] in assets;
  }

  lemma ListedIsWanted(spec: seq<SpecVersion>, m: UseMap, id: ObjectId) returns (k: UseKey)
    requires Covers(m, spec) && ListsActive(RebuildStatus(spec, m), id)
    ensures WantedBySpec(spec, k) && k in m && ActiveIn(m[k].pipeline.activeAssets, id)
  {
    var status' := RebuildStatus(spec, m);
    RebuiltUses(spec, m);
    var l :| l in StatusListing(status') && ActiveIn(l.pipeline.activeAssets, id);
    k := l.use.key;
    assert EntryOf(m, l);
    ListedUse(status', l);
    assert l.use in SpecUses(spec);
  }

  /** The main step: one activation followed by the rebuild of the status, from a status that lists all that is
      owned, even if somebody else took listed objects away. Whatever the downloads and creations do, and in
      whatever order the archives are visited, the new status again lists all that is owned, what it lists is
      owned, and no other component gains or loses anything. */
  lemma ActivationKeepsAccuracy(objects: Objects, spec: seq<SpecVersion>, status: seq<StatusVersion>,
                                order: seq<UseKey>, namespace: string, uid: Uid, world: World, archive: Archive)
    requires namespace != "" && Faithful(world, archive) && WellNamed(archive)
    requires IsOrder(order, Count(spec, status).Keys)
    requires Distinct(SpecUses(spec)) && StatusOk(status, archive, namespace) && OwnsOnlyListed(objects, status, uid)
    ensures var p := Activate(objects, spec, status, order, namespace, uid, world);
      var status' := RebuildStatus(spec, p.useMap);
      && Covers(p.useMap, spec) && StatusOk(status', archive, namespace)
      && OwnsOnlyListed(p.objects, status', uid) && OwnsListed(p.objects, status', uid)
      && (forall u, id :: u != uid ==> (Owns(p.objects, u, id) <==> Owns(objects, u, id)))
  {
    var m := Count(spec, status);
    var start := AfterRelease(objects, m, namespace, uid);
    var p := Activate(objects, spec, status, order, namespace, uid, world);
    var status' := RebuildStatus(spec, p.useMap);
    ActivateEffect(objects, spec, status, order, namespace, uid, world, archive);
    ReleasedOwnership(objects, DeadTargets(m, m.Keys, namespace), uid);
    RebuiltStatusOk(spec, p.useMap, archive, namespace);
    forall id | Owns(p.objects, uid, id)
      ensures ListsActive(status', id)
    {
      OwnedIsListed(objects, spec, status, order, namespace, uid, archive, p, id);
    }
    forall id | ListsActive(status', id) && TakesOwner(id.kind)
      ensures Owns(p.objects, uid, id)
    {
      ListedIsOwned(spec, status, start, order, namespace, uid, archive, p, id);
    }
  }

  lemma SurvivorIsActive(start: Pass, p: Pass, order: seq<UseKey>, uid: Uid, archive: Archive, namespace: string,
                         k: UseKey, id: ObjectId)
    requires AllEnsured(start, p, order, uid) && SameEntries(start.useMap, p.useMap, archive, namespace)
    requires k in order && k in start.useMap && start.useMap[k].useCount > 0
    requires Owns(start.objects, uid, id) && ActiveIn(start.useMap[k].pipeline.activeAssets, id)
    ensures k in p.useMap && p.useMap[k].useCount > 0 && ActiveIn(p.useMap[k].pipeline.activeAssets, id)
  {
    var was, now := start.useMap[k].pipeline.activeAssets, p.useMap[k].pipeline.activeAssets;
    var i :| 0 <= i < |was| && Active(was[i]) && IdOf(was[i]) == id;
    assert SameEntry(start.useMap[k], p.useMap[k], archive(k), namespace);
    assert IdOf(now[i]) == id && now[i] in now;
  }

  lemma WantedIsListed(spec: seq<SpecVersion>, m: UseMap, k: UseKey, id: ObjectId)
    requires Covers(m, spec) && WantedBySpec(spec, k) && k in m && ActiveIn(m[k].pipeline.activeAssets, id)
    ensures ListsActive(RebuildStatus(spec, m), id)
  {
    RebuiltUses(spec, m);
    var u :| u in SpecUses(spec) && u.key == k;
    var l := UseListed(RebuildStatus(spec, m), u);
    assert EntryOf(m, l);
  }

  lemma RebuiltStatusOk(spec: seq<SpecVersion>, m: UseMap, archive: Archive, namespace: string)
    requires Covers(m, spec) && MapOk(m, archive, namespace) && Distinct(SpecUses(spec))
    ensures StatusOk(RebuildStatus(spec, m), archive, namespace)
  {
    RebuiltUses(spec, m);
    forall l | l in StatusListing(RebuildStatus(spec, m))
      ensures l.pipeline.activeAssets == m[l.use.key].pipeline.activeAssets
      ensures l.pipeline.activeAssets == [] || Conforms(l.pipeline.activeAssets, archive(l.use.key), namespace)
    {
      assert EntryOf(m, l);
      assert ValueOk(m[l.use.key], archive(l.use.key), namespace);
    }
  }
}
