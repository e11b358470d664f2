/** A second reconciliation of an unchanged resource: after a pass without any error it writes the same status, exactly
    unless an archive without assets can no longer be downloaded, or an image of a version has two digests. */
module Idempotence {
  import opened Component
  import opened UseCounts
  import opened Cluster
  import opened Activation
  import opened Ownership
  import opened Accuracy
  import opened IterationOrder
  import opened Fixpoint
  import opened StackController
  import opened KabaneroController
  import opened Digests
  import opened Runs
  import opened Limits

  // ---------------------------------------------------------------- download errors

  lemma {:induction false} AssetsKeepError(a: Adoption, key: UseKey, n: nat, namespace: string, uid: Uid, world: World)
    requires n <= |a.value.pipeline.activeAssets|
    ensures EnsureAssets(a, key, n, namespace, uid, world).value.manifestError == a.value.manifestError
  {
    if n != 0 {
      AssetsKeepError(a, key, n - 1, namespace, uid, world);
    }
  }

  predicate DownloadFails(world: World, key: UseKey) {
    world.download(key, 0).FetchFailed?
  }

  /** The error an entry has after its visit: only an archive in use without an asset list is downloaded anew. */
  function ErrorAfter(v: UseValue, key: UseKey, world: World): Option<string> {
    if v.useCount > 0 && v.pipeline.activeAssets == [] && DownloadFails(world, key)
    then Some(world.download(key, 0).message) else v.manifestError
  }

  lemma {:induction false} AllErrors(p: Pass, order: seq<UseKey>, namespace: string, uid: Uid, world: World)
    requires forall k :: k in order ==> k in p.useMap
    requires forall i, j :: 0 <= i < j < |order| ==> order[i] != order[j]
    ensures var r := EnsureAll(p, order, namespace, uid, world);
      && (forall k :: k in order ==> r.useMap[k].manifestError == ErrorAfter(p.useMap[k], k, world))
      && (forall k :: k in p.useMap && k !in order ==> r.useMap[k] == p.useMap[k])
  {
    if order != [] {
      var n := |order| - 1;
      var init, key := order[..n], order[n];
      assert order == init + [key];
      AllErrors(p, init, namespace, uid, world);
      var mid := EnsureAll(p, init, namespace, uid, world);
      assert key !in init && mid.useMap[key] == p.useMap[key];
      var value := Listing(p.useMap[key], key, namespace, world);
      AssetsKeepError(Adoption(mid.objects, value), key, |value.pipeline.activeAssets|, namespace, uid, world);
    }
  }

  lemma PassErrors(objects: Objects, spec: seq<SpecVersion>, status: seq<StatusVersion>, order: seq<UseKey>,
                   namespace: string, uid: Uid, world: World, k: UseKey)
    requires IsOrder(order, Count(spec, status).Keys) && k in Count(spec, status)
    ensures var p := Activate(objects, spec, status, order, namespace, uid, world);
      k in p.useMap &&
      (p.useMap[k].manifestError.Some? <==>
        Count(spec, status)[k].useCount > 0 && Count(spec, status)[k].pipeline.activeAssets == [] &&
          DownloadFails(world, k))
  {
    var start := AfterRelease(objects, Count(spec, status), namespace, uid);
    OrderMembers(order, start.useMap.Keys);
    AllErrors(start, order, namespace, uid, world);
    CountPipelines(spec, status, k);
  }

  lemma {:induction false} LastErrorExactly(ps: seq<PipelineSpec>, m: UseMap)
    ensures LastError(ps, m).Some? <==> exists p :: p in ps && KeyOfSpec(p) in m && m[KeyOfSpec(p)].manifestError.Some?
  {
    if ps != [] {
      var n := |ps| - 1;
      LastErrorExactly(ps[..n], m);
      assert ps == ps[..n] + [ps[n]];
    }
  }

  /** Some archive that the spec wants has an error. */
  ghost predicate WantedError(spec: seq<SpecVersion>, m: UseMap) {
    exists k :: WantedBySpec(spec, k) && k in m && m[k].manifestError.Some?
  }

  lemma VersionErrors(spec: seq<SpecVersion>, m: UseMap)
    ensures WantedError(spec, m) <==> exists i :: 0 <= i < |spec| && LastError(spec[i].pipelines, m).Some?
  {
    if k :| WantedBySpec(spec, k) && k in m && m[k].manifestError.Some? {
      var u :| u in SpecUses(spec) && u.key == k;
      var i, j := UseAt(spec, u);
      LastErrorExactly(spec[i].pipelines, m);
      assert spec[i].pipelines[j] in spec[i].pipelines;
    }
    if i :| 0 <= i < |spec| && LastError(spec[i].pipelines, m).Some? {
      LastErrorExactly(spec[i].pipelines, m);
      var p :| p in spec[i].pipelines && KeyOfSpec(p) in m && m[KeyOfSpec(p)].manifestError.Some?;
      var j :| 0 <= j < |spec[i].pipelines| && spec[i].pipelines[j] == p;
      UsesInclude(spec, i, j);
      assert WantedBySpec(spec, KeyOfSpec(p));
    }
  }

  lemma {:induction false} UseAt(spec: seq<SpecVersion>, u: Use) returns (i: nat, j: nat)
    requires u in SpecUses(spec)
    ensures i < |spec| && j < |spec[i].pipelines| && KeyOfSpec(spec[i].pipelines[j]) == u.key
  {
    var n := |spec| - 1;
    if u in SpecUses(spec[..n]) {
      i, j := UseAt(spec[..n], u);
    } else {
      i := n;
      j :| 0 <= j < |spec[n].pipelines| && SpecVersionUses(spec[n])[j] == u;
    }
  }

  // ---------------------------------------------------------------- the engine, twice

  ghost predicate AllAssetsActive(status: seq<StatusVersion>) {
    forall l, a :: l in StatusListing(status) && a in l.pipeline.activeAssets ==> Active(a)
  }

  /** A pass is clean if every listed asset is active and no wanted archive has an error. */
  lemma CleanPassIsInPlace(objects: Objects, spec: seq<SpecVersion>, status: seq<StatusVersion>, order: seq<UseKey>,
                           namespace: string, uid: Uid, world: World, archive: Archive)
    requires namespace != "" && Faithful(world, archive) && WellNamed(archive)
    requires IsOrder(order, Count(spec, status).Keys) && StatusOk(status, archive, namespace)
    requires var p := Activate(objects, spec, status, order, namespace, uid, world);
      AllAssetsActive(RebuildStatus(spec, p.useMap)) && !WantedError(spec, p.useMap)
    ensures var p := Activate(objects, spec, status, order, namespace, uid, world);
      Covers(p.useMap, spec) && InPlace(p.objects, RebuildStatus(spec, p.useMap), uid, archive, namespace)
  {
    var p := Activate(objects, spec, status, order, namespace, uid, world);
    var status' := RebuildStatus(spec, p.useMap);
    ActivateEffect(objects, spec, status, order, namespace, uid, world, archive);
    RebuiltUses(spec, p.useMap);
    forall l | l in StatusListing(status') ensures Conforms(l.pipeline.activeAssets, archive(l.use.key), namespace) {
      assert EntryOf(p.useMap, l);
      ListedUse(status', l);
      ListedConforms(objects, spec, status, order, namespace, uid, world, archive, l.use.key);
    }
    AllActiveIsInPlace(objects, spec, status, order, namespace, uid, world, archive);
  }

  lemma ListedConforms(objects: Objects, spec: seq<SpecVersion>, status: seq<StatusVersion>, order: seq<UseKey>,
                       namespace: string, uid: Uid, world: World, archive: Archive, k: UseKey)
    requires namespace != "" && Faithful(world, archive) && WellNamed(archive)
    requires IsOrder(order, Count(spec, status).Keys) && StatusOk(status, archive, namespace)
    requires WantedBySpec(spec, k)
    requires !WantedError(spec, Activate(objects, spec, status, order, namespace, uid, world).useMap)
    ensures var p := Activate(objects, spec, status, order, namespace, uid, world);
      k in p.useMap && Conforms(p.useMap[k].pipeline.activeAssets, archive(k), namespace)
  {
    var start := AfterRelease(objects, Count(spec, status), namespace, uid);
    CountsFitStatus(spec, status, archive, namespace);
    WantedIsFetched(objects, spec, status, order, namespace, uid, world, k);
    OrderMembers(order, start.useMap.Keys);
    EmptyMeansEmpty(start, order, namespace, uid, world, archive, k);
  }

  lemma WantedIsFetched(objects: Objects, spec: seq<SpecVersion>, status: seq<StatusVersion>, order: seq<UseKey>,
                        namespace: string, uid: Uid, world: World, k: UseKey)
    requires IsOrder(order, Count(spec, status).Keys) && WantedBySpec(spec, k)
    requires !WantedError(spec, Activate(objects, spec, status, order, namespace, uid, world).useMap)
    ensures k in Count(spec, status) && Count(spec, status)[k].useCount > 0
    ensures !(Count(spec, status)[k].pipeline.activeAssets == [] && DownloadFails(world, k))
  {
    CountsConserved(spec, status, k);
    PositiveExactlyWhenWanted(spec, status, k);
    PassErrors(objects, spec, status, order, namespace, uid, world, k);
    var m := Activate(objects, spec, status, order, namespace, uid, world).useMap;
    assert WantedBySpec(spec, k) && k in m && m[k].manifestError.Some? ==> WantedError(spec, m);
  }

  lemma VisitedConforms(p: Pass, k: UseKey, namespace: string, uid: Uid, world: World, archive: Archive)
    requires namespace != "" && Faithful(world, archive) && NamesUnique(archive(k)) && k in p.useMap
    requires ValueOk(p.useMap[k], archive(k), namespace) && p.useMap[k].useCount > 0
    requires !(p.useMap[k].pipeline.activeAssets == [] && DownloadFails(world, k))
    ensures Conforms(EnsureKey(p, k, namespace, uid, world).useMap[k].pipeline.activeAssets, archive(k), namespace)
  {
    var value := Listing(p.useMap[k], k, namespace, world);
    assert Conforms(value.pipeline.activeAssets, archive(k), namespace);
    EnsureAssetsEffect(Adoption(p.objects, value), k, |value.pipeline.activeAssets|, namespace, uid, world, archive);
  }

  /** A visited archive in use that still has no assets, and whose download did not fail, is empty. */
  lemma {:induction false} EmptyMeansEmpty(p: Pass, order: seq<UseKey>, namespace: string, uid: Uid, world: World,
                                           archive: Archive, k: UseKey)
    requires namespace != "" && Faithful(world, archive) && WellNamed(archive) && MapOk(p.useMap, archive, namespace)
    requires forall x :: x in order ==> x in p.useMap
    requires forall i, j :: 0 <= i < j < |order| ==> order[i] != order[j]
    requires k in order && p.useMap[k].useCount > 0
    requires !(p.useMap[k].pipeline.activeAssets == [] && DownloadFails(world, k))
    ensures var r := EnsureAll(p, order, namespace, uid, world);
      Conforms(r.useMap[k].pipeline.activeAssets, archive(k), namespace)
  {
    var n := |order| - 1;
    var init, key := order[..n], order[n];
    assert order == init + [key];
    EnsureAllEffect(p, order, namespace, uid, world, archive);
    EnsureAllEffect(p, init, namespace, uid, world, archive);
    var mid := EnsureAll(p, init, namespace, uid, world);
    if k == key {
      assert key !in init && mid.useMap[key] == p.useMap[key];
      VisitedConforms(mid, key, namespace, uid, world, archive);
    } else {
      EmptyMeansEmpty(p, init, namespace, uid, world, archive, k);
    }
  }

  /** The archives that have no assets and cannot be downloaded. */
  ghost predicate EmptyArchiveFails(spec: seq<SpecVersion>, world: World, archive: Archive) {
    exists k :: WantedBySpec(spec, k) && archive(k) == [] && DownloadFails(world, k)
  }

  lemma SecondPassErrors(objects: Objects, spec: seq<SpecVersion>, m: UseMap, order: seq<UseKey>, namespace: string,
                         uid: Uid, world: World, archive: Archive)
    requires Covers(m, spec) && InPlace(objects, RebuildStatus(spec, m), uid, archive, namespace)
    requires IsOrder(order, Count(spec, RebuildStatus(spec, m)).Keys)
    ensures WantedError(spec, Activate(objects, spec, RebuildStatus(spec, m), order, namespace, uid, world).useMap) <==>
      EmptyArchiveFails(spec, world, archive)
  {
    var status := RebuildStatus(spec, m);
    var m' := Count(spec, status);
    CountsOfRebuilt(spec, m);
    forall k | WantedBySpec(spec, k)
      ensures k in m' && m'[k].useCount > 0 && (m'[k].pipeline.activeAssets == [] <==> archive(k) == [])
    {
      assert CountedAgain(m, m', status, k);
      var l :| l in StatusListing(status) && l.use.key == k && m'[k].pipeline == l.pipeline;
      assert Conforms(l.pipeline.activeAssets, archive(k), namespace);
    }
    forall k | WantedBySpec(spec, k)
      ensures k in Activate(objects, spec, status, order, namespace, uid, world).useMap
      ensures Activate(objects, spec, status, order, namespace, uid, world).useMap[k].manifestError.Some? <==>
        archive(k) == [] && DownloadFails(world, k)
    {
      PassErrors(objects, spec, status, order, namespace, uid, world, k);
    }
  }

  // ---------------------------------------------------------------- the status of a stack, twice

  /** Every version went well: none is in error, and every asset is active. */
  ghost predicate ErrorFree(versions: seq<VersionStatus>) {
    (forall v :: v in versions ==> v.status != STATE_ERROR) && AllAssetsActive(StatusVersions(versions))
  }

  /** The digests that the registry answers are not empty. */
  ghost predicate NamesDigests(w: StackWorld) {
    forall i: nat, j: nat :: w.lookup(i, j).Digest? ==> w.lookup(i, j).hex != ""
  }

  predicate AllRecorded(versions: seq<VersionStatus>) {
    forall v, x :: v in versions && x in v.images ==> x.digest.activation != ""
  }

  /** Wherever a version reports an image, it reports the same digest. */
  ghost predicate OneDigest(versions: seq<VersionStatus>) {
    forall version, x, y :: Reports(versions, version, x) && Reports(versions, version, y) && x.image == y.image ==>
      x.digest == y.digest
  }

  lemma ErrorFreeEntryIsRecorded(v: StackVersion, v': StackVersion, s: VersionStatus, i: nat, m: UseMap,
                                 previous: seq<VersionStatus>, w: StackWorld)
    requires BuiltFrom(v, v', s, i, m, previous, w) && s.status != STATE_ERROR && NamesDigests(w)
    ensures forall x :: x in s.images ==> x.digest.activation != ""
  {
    if !v.IsInactive() {
      ImageStatusAt(v'.images, |v'.images|, v'.version, i, previous, w);
      forall j | 0 <= j < |v'.images| ensures s.images[j].digest.activation != "" {
        assert !DigestFailed(previous, v'.version, v'.images[j].image, w.lookup(i, j));
      }
    }
  }

  /** A pass without errors leaves every digest recorded. */
  lemma ErrorFreeIsRecorded(versions: seq<StackVersion>, m: UseMap, previous: seq<VersionStatus>, w: StackWorld)
    requires NamesDigests(w)
    requires var r := Rebuild(versions, |versions|, m, previous, w); r.ok && ErrorFree(r.statuses)
    ensures AllRecorded(Rebuild(versions, |versions|, m, previous, w).statuses)
  {
    var r := Rebuild(versions, |versions|, m, previous, w);
    RebuildAt(versions, |versions|, m, previous, w);
    forall v, x | v in r.statuses && x in v.images ensures x.digest.activation != "" {
      var i :| 0 <= i < |r.statuses| && r.statuses[i] == v;
      assert BuiltFrom(versions[i], r.versions[i], v, i, m, previous, w);
      ErrorFreeEntryIsRecorded(versions[i], r.versions[i], v, i, m, previous, w);
    }
  }

  lemma ErrorFreeMeansFetched(versions: seq<StackVersion>, m: UseMap, previous: seq<VersionStatus>, w: StackWorld)
    requires var r := Rebuild(versions, |versions|, m, previous, w); r.ok && ErrorFree(r.statuses)
    ensures !WantedError(SpecVersions(versions), m)
  {
    var r := Rebuild(versions, |versions|, m, previous, w);
    RebuildAt(versions, |versions|, m, previous, w);
    forall i | 0 <= i < |versions| ensures LastError(SpecVersions(versions)[i].pipelines, m).None? {
      assert BuiltFrom(versions[i], r.versions[i], r.statuses[i], i, m, previous, w);
      assert r.statuses[i] in r.statuses;
    }
    VersionErrors(SpecVersions(versions), m);
  }

  /** What is reported of the images of a version, where every digest is recorded: again the same exactly if each is the
      digest of the first status for its image. */
  lemma ImagesAgain(v: StackVersion, now: VersionStatus, i: nat, m: UseMap, previous: seq<VersionStatus>,
                    written: seq<VersionStatus>, w: StackWorld, w': StackWorld)
    requires now == ActiveStatus(v, i, m, previous, w) && AllRecorded(written) && now in written
    ensures !AnyDigestFailed(v.images, v.version, i, written, w')
    ensures ImageStatuses(v.images, |v.images|, v.version, i, written, w') == now.images <==>
      forall x :: x in now.images ==> FindDigest(written, v.version, x.image) == Some(x.digest)
  {
    var again := ImageStatuses(v.images, |v.images|, v.version, i, written, w');
    ImageStatusAt(v.images, |v.images|, v.version, i, previous, w);
    ImageStatusAt(v.images, |v.images|, v.version, i, written, w');
    forall j | 0 <= j < |v.images|
      ensures !DigestFailed(written, v.version, v.images[j].image, w'.lookup(i, j))
      ensures again[j] == now.images[j] <==>
        FindDigest(written, v.version, now.images[j].image) == Some(now.images[j].digest)
    {
      assert now.images[j] in now.images && Reports(written, v.version, now.images[j]);
      FoundIsRecorded(written, v.version, v.images[j].image);
    }
    forall x | x in now.images && again == now.images
      ensures FindDigest(written, v.version, x.image) == Some(x.digest)
    {
      var j :| 0 <= j < |now.images| && now.images[j] == x;
      assert again[j] == now.images[j];
    }
  }

  lemma FoundIsRecorded(versions: seq<VersionStatus>, version: string, image: string)
    requires AllRecorded(versions) && exists x :: Reports(versions, version, x) && x.image == image
    ensures var d := FindDigest(versions, version, image);
      d.Some? && d.value.activation != ""
  {
    FindDigestIsReported(versions, version, image);
  }

  /** The version reports for its images what the first status for each of them says. */
  predicate Agrees(versions: seq<VersionStatus>, v: VersionStatus) {
    forall x :: x in v.images ==> FindDigest(versions, v.version, x.image) == Some(x.digest)
  }

  lemma OneDigestExactly(versions: seq<VersionStatus>)
    ensures OneDigest(versions) <==> forall v :: v in versions ==> Agrees(versions, v)
  {
    if OneDigest(versions) {
      forall v, x | v in versions && x in v.images ensures FindDigest(versions, v.version, x.image) == Some(x.digest) {
        assert Reports(versions, v.version, x);
        FindDigestIsReported(versions, v.version, x.image);
      }
    }
    if forall v :: v in versions ==> Agrees(versions, v) {
      forall version, x | Reports(versions, version, x)
        ensures FindDigest(versions, version, x.image) == Some(x.digest)
      {
        var v :| v in versions && v.version == version && x in v.images;
        assert Agrees(versions, v);
      }
    }
  }

  lemma StatusAgain(v: StackVersion, v': StackVersion, now: VersionStatus, again: VersionStatus, v'': StackVersion,
                    i: nat, m: UseMap, m': UseMap, previous: seq<VersionStatus>, written: seq<VersionStatus>,
                    w: StackWorld, w': StackWorld)
    requires BuiltFrom(v, v', now, i, m, previous, w) && BuiltFrom(v, v'', again, i, m', written, w')
    requires w.repository == w'.repository && now.status != STATE_ERROR && AllRecorded(written) && now in written
    requires RebuildPipelines(v.GetPipelines(), m) == RebuildPipelines(v.GetPipelines(), m')
    ensures v'' == v'
    ensures again == now <==> LastError(v.GetPipelines(), m').None? && Agrees(written, now)
  {
    if !v.IsInactive() {
      ImagesAgain(v', now, i, m, previous, written, w, w');
    }
  }

  /** The entry at place i is written again exactly if its version has no error and it agrees with the others. */
  predicate EntryAgain(now: seq<VersionStatus>, again: VersionStatus, i: nat, v: SpecVersion, m': UseMap)
    requires i < |now|
  {
    again == now[i] <==> LastError(v.pipelines, m').None? && Agrees(now, now[i])
  }

  lemma EntriesAgain(now: seq<VersionStatus>, again: seq<VersionStatus>, spec: seq<SpecVersion>, m': UseMap)
    requires |now| == |again| == |spec|
    requires forall i :: 0 <= i < |spec| ==> EntryAgain(now, again[i], i, spec[i], m')
    ensures again == now <==> !WantedError(spec, m') && OneDigest(now)
  {
    VersionErrors(spec, m');
    OneDigestExactly(now);
    assert forall i :: 0 <= i < |now| ==> now[i] in now;
    if again == now {
      forall i | 0 <= i < |spec| ensures LastError(spec[i].pipelines, m').None? && Agrees(now, now[i]) {
        assert EntryAgain(now, again[i], i, spec[i], m');
      }
    }
  }

  lemma BuiltAgain(versions: seq<StackVersion>, r: Rebuilt, r': Rebuilt, i: nat, m: UseMap, m': UseMap,
                   previous: seq<VersionStatus>, w: StackWorld, w': StackWorld)
    requires w.repository == w'.repository && i < |versions| && AllRecorded(r.statuses)
    requires BuiltUpTo(versions, r, |versions|, m, previous, w)
    requires BuiltUpTo(versions, r', |versions|, m', r.statuses, w') && ErrorFree(r.statuses)
    requires RebuildStatus(SpecVersions(versions), m) == RebuildStatus(SpecVersions(versions), m')
    ensures r'.versions[i] == r.versions[i]
    ensures EntryAgain(r.statuses, r'.statuses[i], i, SpecVersions(versions)[i], m')
  {
    var spec := SpecVersions(versions);
    assert RebuildStatus(spec, m)[i] == RebuildStatus(spec, m')[i] && r.statuses[i] in r.statuses;
    StatusAgain(versions[i], r.versions[i], r.statuses[i], r'.statuses[i], r'.versions[i], i, m, m', previous,
                r.statuses, w, w');
  }

  /** Rebuilding an error-free status from the same spec and the same pipelines gives it again, exactly if no version
      has an error and no image of a version has two digests. */
  lemma RebuiltAgain(versions: seq<StackVersion>, m: UseMap, m': UseMap, previous: seq<VersionStatus>, w: StackWorld,
                     w': StackWorld)
    requires w.repository == w'.repository && NamesDigests(w)
    requires var r := Rebuild(versions, |versions|, m, previous, w); r.ok && ErrorFree(r.statuses)
    requires RebuildStatus(SpecVersions(versions), m) == RebuildStatus(SpecVersions(versions), m')
    ensures var r := Rebuild(versions, |versions|, m, previous, w);
      var r' := Rebuild(versions, |versions|, m', r.statuses, w');
      && r'.ok && r'.versions == r.versions
      && (r'.statuses == r.statuses <==> !WantedError(SpecVersions(versions), m') && OneDigest(r.statuses))
  {
    var n, spec := |versions|, SpecVersions(versions);
    var r := Rebuild(versions, n, m, previous, w);
    RebuiltMeansParsed(versions, m, previous, w);
    RebuildSucceeds(versions, n, m', r.statuses, w');
    var r' := Rebuild(versions, n, m', r.statuses, w');
    RebuildAt(versions, n, m, previous, w);
    RebuildAt(versions, n, m', r.statuses, w');
    ErrorFreeIsRecorded(versions, m, previous, w);
    forall i | 0 <= i < n
      ensures r'.versions[i] == r.versions[i]
      ensures EntryAgain(r.statuses, r'.statuses[i], i, spec[i], m')
    {
      BuiltAgain(versions, r, r', i, m, m', previous, w, w');
    }
    EntriesAgain(r.statuses, r'.statuses, spec, m');
  }

  /** One reconciliation of a stack that is not being deleted, and what is stored of it: the spec is not written. */
  ghost predicate Reconciles(objects: Objects, s: StackState, name: string, namespace: string, uid: Uid,
                             order: seq<UseKey>, w: StackWorld, objects': Objects, s': StackState)
  {
    && !s.deleting && IsOrder(order, Count(SpecVersions(s.versions), StatusVersions(s.status.versions)).Keys)
    && var r := Reconciled(objects, s, name, namespace, uid, order, w);
       r.ok && objects' == r.objects && s' == r.state.(versions := s.versions)
  }

  lemma ReconcilesParts(objects: Objects, s: StackState, name: string, namespace: string, uid: Uid, order: seq<UseKey>,
                        w: StackWorld, objects': Objects, s': StackState)
    requires Reconciles(objects, s, name, namespace, uid, order, w, objects', s')
    ensures var spec := SpecVersions(s.versions);
      var p := Activate(objects, spec, StatusVersions(s.status.versions), order, namespace, uid, w.pipelines);
      var r := Rebuild(s.versions, |s.versions|, p.useMap, s.status.versions, w);
      && IsStackId(name) && objects' == p.objects && r.ok && s'.status == StackStatus("", r.statuses)
      && s'.versions == s.versions && !s'.deleting
      && s'.finalizers == (if FINALIZER in s.finalizers then s.finalizers else s.finalizers + [FINALIZER])
      && StatusVersions(s'.status.versions) == RebuildStatus(spec, p.useMap)
  {
    var spec := SpecVersions(s.versions);
    var p := Activate(objects, spec, StatusVersions(s.status.versions), order, namespace, uid, w.pipelines);
    var r := Rebuild(s.versions, |s.versions|, p.useMap, s.status.versions, w);
    if r.ok {
      RebuildIsStatus(s.versions, p.useMap, s.status.versions, w);
    }
  }

  /** Reconciling an unchanged stack again. After an error-free pass, whatever fails in the second one and in whatever
      order, it deletes and creates nothing and changes no owner list but to adopt unowned trigger objects; and it
      writes the same state exactly unless a wanted archive without assets cannot be downloaded any more, or the first
      pass reported two digests for one image of a version. */
  lemma StackReconciledAgain(objects: Objects, s: StackState, name: string, namespace: string, uid: Uid,
                             first: seq<UseKey>, second: seq<UseKey>, w: StackWorld, w': StackWorld, archive: Archive,
                             objects': Objects, s': StackState)
    requires namespace != "" && WellNamed(archive) && Faithful(w.pipelines, archive) && Faithful(w'.pipelines, archive)
    requires w.repository == w'.repository && NamesDigests(w)
    requires StatusOk(StatusVersions(s.status.versions), archive, namespace)
    requires Reconciles(objects, s, name, namespace, uid, first, w, objects', s') && ErrorFree(s'.status.versions)
    requires IsOrder(second, Count(SpecVersions(s'.versions), StatusVersions(s'.status.versions)).Keys)
    ensures var r := Reconciled(objects', s', name, namespace, uid, second, w');
      && r.ok && OnlyAdopts(objects', r.objects, uid)
      && (r.state.(versions := s'.versions) == s' <==>
          !EmptyArchiveFails(SpecVersions(s.versions), w'.pipelines, archive) && OneDigest(s'.status.versions))
  {
    var spec, status := SpecVersions(s.versions), StatusVersions(s.status.versions);
    ReconcilesParts(objects, s, name, namespace, uid, first, w, objects', s');
    var p := Activate(objects, spec, status, first, namespace, uid, w.pipelines);
    ErrorFreeMeansFetched(s.versions, p.useMap, s.status.versions, w);
    CleanPassIsInPlace(objects, spec, status, first, namespace, uid, w.pipelines, archive);
    SecondPassIsIdle(objects', spec, p.useMap, second, namespace, uid, w'.pipelines, archive);
    SecondPassErrors(objects', spec, p.useMap, second, namespace, uid, w'.pipelines, archive);
    var p' := Activate(objects', spec, StatusVersions(s'.status.versions), second, namespace, uid, w'.pipelines);
    RebuiltAgain(s.versions, p.useMap, p'.useMap, s.status.versions, w, w');
  }

  // ---------------------------------------------------------------- an archive without assets

  function OnePipeline(ps: PipelineSpec): StackState {
    StackState([StackVersion("1.0.0", "", [ps], [], false, false, "", "")], StackStatus("", []), [], false)
  }

  function Downloading(answer: Download): StackWorld {
    StackWorld(World((k, n) => answer, (k, i, j) => Applied), image => Some(image), (i, j) => Digest("d"))
  }

  lemma OnlyKey(ps: PipelineSpec, status: seq<StatusVersion>)
    requires StatusUses(status) == [] || StatusUses(status) == SpecUses(SpecVersions(OnePipeline(ps).versions))
    ensures Count(SpecVersions(OnePipeline(ps).versions), status).Keys == {KeyOfSpec(ps)}
    ensures WantedBySpec(SpecVersions(OnePipeline(ps).versions), KeyOfSpec(ps))
    ensures IsOrder([KeyOfSpec(ps)], {KeyOfSpec(ps)})
  {
    var spec, key := SpecVersions(OnePipeline(ps).versions), KeyOfSpec(ps);
    OnlyUse(ps);
    assert Use(key, "1.0.0") in SpecUses(spec);
    forall k ensures k in Count(spec, status) <==> k == key {
      OneUseCounted(spec, status, key, k);
    }
    OneIsOrder(key);
  }

  lemma OneUseCounted(spec: seq<SpecVersion>, status: seq<StatusVersion>, key: UseKey, k: UseKey)
    requires SpecUses(spec) == [Use(key, "1.0.0")] && (StatusUses(status) == [] || StatusUses(status) == SpecUses(spec))
    ensures k in Count(spec, status) <==> k == key
  {
    CountsConserved(spec, status, k);
    assert SpecUses(spec)[0] in SpecUses(spec);
  }

  lemma OneIsOrder(key: UseKey)
    ensures IsOrder([key], {key})
  {
    assert forall k :: k in [key] <==> k == key;
  }

  lemma OnlyUse(ps: PipelineSpec)
    ensures SpecUses(SpecVersions(OnePipeline(ps).versions)) == [Use(KeyOfSpec(ps), "1.0.0")]
  {
    var spec := SpecVersions(OnePipeline(ps).versions);
    assert spec[..0] == [] && SpecUses([]) == [];
    assert SpecVersionUses(spec[0]) == [Use(KeyOfSpec(ps), "1.0.0")];
  }

  const EMPTY_ARCHIVE: Download := Fetched([])
  const NO_ARCHIVE: Download := FetchFailed("gone")

  /** The entry of an empty archive after a pass. */
  lemma EmptyArchivePass(ps: PipelineSpec)
    ensures var spec, key := SpecVersions(OnePipeline(ps).versions), KeyOfSpec(ps);
      && IsOrder([key], Count(spec, []).Keys)
      && var m := Activate(map[], spec, [], [key], "kabanero", "u", Downloading(EMPTY_ARCHIVE).pipelines).useMap;
         m.Keys == {key} && m[key].pipeline.activeAssets == [] && m[key].manifestError.None?
  {
    var spec, key := SpecVersions(OnePipeline(ps).versions), KeyOfSpec(ps);
    var archive: Archive := k => [];
    var world := Downloading(EMPTY_ARCHIVE).pipelines;
    NothingReported(archive, "kabanero");
    EmptyIsFaithful(archive);
    OnlyKey(ps, []);
    PassErrors(map[], spec, [], [key], "kabanero", "u", world, key);
    ListedConforms(map[], spec, [], [key], "kabanero", "u", world, archive, key);
  }

  lemma OnePipelineStatus(ps: PipelineSpec, m: UseMap)
    requires KeyOfSpec(ps) in m && m[KeyOfSpec(ps)].manifestError.None?
    ensures RebuildPipelines([ps], m) == [m[KeyOfSpec(ps)].pipeline.(name := ps.id)] && LastError([ps], m).None?
  {
    assert [ps][..0] == [];
  }

  lemma EmptyArchiveRebuilt(ps: PipelineSpec, m: UseMap)
    requires m.Keys == {KeyOfSpec(ps)} && m[KeyOfSpec(ps)].manifestError.None?
    requires m[KeyOfSpec(ps)].pipeline.activeAssets == []
    ensures var r := Rebuild(OnePipeline(ps).versions, 1, m, [], Downloading(EMPTY_ARCHIVE));
      r.ok && ErrorFree(r.statuses)
  {
    var versions, w := OnePipeline(ps).versions, Downloading(EMPTY_ARCHIVE);
    RebuildSucceeds(versions, 1, m, [], w);
    RebuildAt(versions, 1, m, [], w);
    var r := Rebuild(versions, 1, m, [], w);
    assert BuiltFrom(versions[0], r.versions[0], r.statuses[0], 0, m, [], w);
    OnePipelineStatus(ps, m);
    assert r.statuses[0].pipelines == RebuildPipelines([ps], m) && r.statuses[0].images == [];
    assert r.statuses == [r.statuses[0]];
    NoAssetsAreActive(r.statuses);
  }

  lemma EmptyArchiveStatus(ps: PipelineSpec)
    ensures var s, key := OnePipeline(ps), KeyOfSpec(ps);
      && IsOrder([key], Count(SpecVersions(s.versions), StatusVersions(s.status.versions)).Keys)
      && var r := Reconciled(map[], s, "java", "kabanero", "u", [key], Downloading(EMPTY_ARCHIVE));
         && Reconciles(map[], s, "java", "kabanero", "u", [key], Downloading(EMPTY_ARCHIVE), r.objects,
                       r.state.(versions := s.versions))
         && ErrorFree(r.state.status.versions)
  {
    var s, key, w := OnePipeline(ps), KeyOfSpec(ps), Downloading(EMPTY_ARCHIVE);
    assert StatusVersions([]) == [];
    EmptyArchivePass(ps);
    EmptyArchiveRebuilt(ps, Activate(map[], SpecVersions(s.versions), [], [key], "kabanero", "u", w.pipelines).useMap);
    JavaIsStackId();
    CompleteRebuildReconciles(map[], s, "java", "kabanero", "u", [key], w);
  }

  lemma JavaIsStackId()
    ensures IsStackId("java")
  {}

  lemma CompleteRebuildReconciles(objects: Objects, s: StackState, name: string, namespace: string, uid: Uid,
                                  order: seq<UseKey>, w: StackWorld)
    requires !s.deleting && IsStackId(name)
    requires IsOrder(order, Count(SpecVersions(s.versions), StatusVersions(s.status.versions)).Keys)
    requires var p := Activate(objects, SpecVersions(s.versions), StatusVersions(s.status.versions), order, namespace,
                               uid, w.pipelines);
      Rebuild(s.versions, |s.versions|, p.useMap, s.status.versions, w).ok
    ensures var p := Activate(objects, SpecVersions(s.versions), StatusVersions(s.status.versions), order, namespace,
                              uid, w.pipelines);
      var r := Reconciled(objects, s, name, namespace, uid, order, w);
      && Reconciles(objects, s, name, namespace, uid, order, w, r.objects, r.state.(versions := s.versions))
      && r.state.status.versions == Rebuild(s.versions, |s.versions|, p.useMap, s.status.versions, w).statuses
  {
    var (_, s0) := ProcessedDeletion(objects, s, namespace, uid);
    var s1 := s0.(status := s0.status.(statusMessage := ""));
    assert s1.versions == s.versions && s1.status.versions == s.status.versions;
  }

  lemma NoAssetsAreActive(versions: seq<VersionStatus>)
    requires forall v, p :: v in versions && p in v.pipelines ==> p.activeAssets == []
    ensures AllAssetsActive(StatusVersions(versions))
  {
    forall l | l in StatusListing(StatusVersions(versions)) ensures l.pipeline.activeAssets == [] {
      ListingMember(StatusVersions(versions), l);
      var v :| v in StatusVersions(versions) && l.pipeline in v.pipelines;
      var i :| 0 <= i < |versions| && StatusVersions(versions)[i] == v;
      assert versions[i] in versions && l.pipeline in versions[i].pipelines;
    }
  }

  lemma EmptyArchiveUses(ps: PipelineSpec)
    ensures var s, key := OnePipeline(ps), KeyOfSpec(ps);
      && IsOrder([key], Count(SpecVersions(s.versions), StatusVersions(s.status.versions)).Keys)
      && var r := Reconciled(map[], s, "java", "kabanero", "u", [key], Downloading(EMPTY_ARCHIVE));
         StatusUses(StatusVersions(r.state.status.versions)) == SpecUses(SpecVersions(s.versions))
  {
    var s, key := OnePipeline(ps), KeyOfSpec(ps);
    var spec, w := SpecVersions(s.versions), Downloading(EMPTY_ARCHIVE);
    var archive: Archive := k => [];
    assert StatusVersions([]) == [] && StatusUses([]) == [];
    EmptyArchiveStatus(ps);
    var r := Reconciled(map[], s, "java", "kabanero", "u", [key], w);
    ReconcilesParts(map[], s, "java", "kabanero", "u", [key], w, r.objects, r.state.(versions := s.versions));
    assert StatusOk([], archive, "kabanero");
    ActivateEffect(map[], spec, [], [key], "kabanero", "u", w.pipelines, archive);
    RebuiltUses(spec, Activate(map[], spec, [], [key], "kabanero", "u", w.pipelines).useMap);
  }

  /** An archive that holds no assets is downloaded in every pass. When the download fails for once, the version that
      was reported as active is reported in error, although nothing it needs is missing. */
  lemma EmptyArchiveTurnsToError(ps: PipelineSpec)
    ensures var s, key := OnePipeline(ps), KeyOfSpec(ps);
      && IsOrder([key], Count(SpecVersions(s.versions), StatusVersions(s.status.versions)).Keys)
      && var r := Reconciled(map[], s, "java", "kabanero", "u", [key], Downloading(EMPTY_ARCHIVE));
         var s' := r.state.(versions := s.versions);
         && Reconciles(map[], s, "java", "kabanero", "u", [key], Downloading(EMPTY_ARCHIVE), r.objects, s')
         && ErrorFree(s'.status.versions)
         && IsOrder([key], Count(SpecVersions(s'.versions), StatusVersions(s'.status.versions)).Keys)
         && Reconciled(r.objects, s', "java", "kabanero", "u", [key], Downloading(NO_ARCHIVE)).state.(
              versions := s.versions) != s'
  {
    var s, key := OnePipeline(ps), KeyOfSpec(ps);
    EmptyArchiveStatus(ps);
    EmptyArchiveUses(ps);
    var r := Reconciled(map[], s, "java", "kabanero", "u", [key], Downloading(EMPTY_ARCHIVE));
    EmptyArchiveFailsAgain(ps, r.objects, r.state.(versions := s.versions));
  }

  lemma EmptyArchiveFailsAgain(ps: PipelineSpec, objects: Objects, s': StackState)
    requires Reconciles(map[], OnePipeline(ps), "java", "kabanero", "u", [KeyOfSpec(ps)], Downloading(EMPTY_ARCHIVE),
                        objects, s')
    requires ErrorFree(s'.status.versions) && s'.versions == OnePipeline(ps).versions
    requires StatusUses(StatusVersions(s'.status.versions)) == SpecUses(SpecVersions(s'.versions))
    ensures IsOrder([KeyOfSpec(ps)], Count(SpecVersions(s'.versions), StatusVersions(s'.status.versions)).Keys)
    ensures Reconciled(objects, s', "java", "kabanero", "u", [KeyOfSpec(ps)], Downloading(NO_ARCHIVE)).state.(
              versions := s'.versions) != s'
  {
    var s, key := OnePipeline(ps), KeyOfSpec(ps);
    var archive: Archive := k => [];
    var w, w' := Downloading(EMPTY_ARCHIVE), Downloading(NO_ARCHIVE);
    OnlyKey(ps, StatusVersions(s'.status.versions));
    NothingReported(archive, "kabanero");
    EmptyIsFaithful(archive);
    StackReconciledAgain(map[], s, "java", "kabanero", "u", [key], [key], w, w', archive, objects, s');
    assert EmptyArchiveFails(SpecVersions(s.versions), w'.pipelines, archive) by {
      assert WantedBySpec(SpecVersions(s.versions), key) && archive(key) == [] && DownloadFails(w'.pipelines, key);
    }
  }

  lemma NothingReported(archive: Archive, namespace: string)
    ensures StatusVersions([]) == [] && StatusUses([]) == [] && StatusOk(StatusVersions([]), archive, namespace)
  {}

  lemma EmptyIsFaithful(archive: Archive)
    requires forall k :: archive(k) == []
    ensures WellNamed(archive) && Faithful(Downloading(EMPTY_ARCHIVE).pipelines, archive)
    ensures Faithful(Downloading(NO_ARCHIVE).pipelines, archive)
  {}

  // ---------------------------------------------------------------- an image with two digests

  /** A stack whose only version lists an image under two ids. */
  function ListedTwice(image: string): StackState {
    StackState([StackVersion("1.0.0", "", [], [Image("a", image), Image("b", image)], false, false, "", "")],
               StackStatus("", []), [], false)
  }

  /** The registry answers one digest for the first image and another for the second: the tag was pushed in between. */
  function Pushed(d: string, e: string): StackWorld {
    StackWorld(World((k, n) => NO_ARCHIVE, (k, i, j) => Applied), image => Some(image),
               (i, j) => if j == 0 then Digest(d) else Digest(e))
  }

  /** The status of such a stack. */
  function TwoDigests(image: string, d: string, e: string): seq<VersionStatus> {
    [VersionStatus("1.0.0", [], STATE_ACTIVE, "",
                   [ImageStatus("a", image, ImageDigest(d, "")), ImageStatus("b", image, ImageDigest(e, ""))])]
  }

  lemma NoPipelines(image: string, status: seq<StatusVersion>)
    requires status == [] || status == [StatusVersion("1.0.0", [])]
    ensures Count(SpecVersions(ListedTwice(image).versions), status).Keys == {}
    ensures IsOrder([], Count(SpecVersions(ListedTwice(image).versions), status).Keys)
    ensures forall k :: !WantedBySpec(SpecVersions(ListedTwice(image).versions), k)
  {
    var spec := SpecVersions(ListedTwice(image).versions);
    assert spec[..0] == [] && SpecVersionUses(spec[0]) == [] && SpecUses(spec) == [];
    if status != [] {
      assert status[..0] == [] && VersionListing(status[0]) == [] && StatusListing(status) == [];
    }
    assert StatusUses(status) == [];
    forall k ensures k !in Count(spec, status) {
      CountsConserved(spec, status, k);
    }
  }

  lemma ListedTwiceRebuilt(image: string, d: string, e: string, m: UseMap)
    ensures var r := Rebuild(ListedTwice(image).versions, 1, m, [], Pushed(d, e));
      r.ok && r.statuses == TwoDigests(image, d, e)
  {
    var versions, w := ListedTwice(image).versions, Pushed(d, e);
    SameImages(versions[0].images, w.repository);
    RebuildSucceeds(versions, 1, m, [], w);
    RebuildAt(versions, 1, m, [], w);
    var r := Rebuild(versions, 1, m, [], w);
    assert BuiltFrom(versions[0], r.versions[0], r.statuses[0], 0, m, [], w);
    ImageStatusAt(versions[0].images, 2, "1.0.0", 0, [], w);
    assert r.statuses[0].images == TwoDigests(image, d, e)[0].images;
    assert r.statuses == [r.statuses[0]];
  }

  lemma {:induction false} SameImages(images: seq<Image>, repository: string -> Option<string>)
    requires forall image :: repository(image) == Some(image)
    ensures StripTags(images, repository) == Stripped(images, true)
  {
    if images != [] {
      SameImages(images[1..], repository);
    }
  }

  /** An image that a version lists twice gets two digests if its tag is pushed while the version is activated. The next
      pass finds the first of them for both, and the state changes although nothing fails. */
  lemma SecondDigestIsReplaced(image: string, d: string, e: string, archive: Archive)
    requires d != "" && e != "" && d != e && WellNamed(archive)
    ensures var s, w := ListedTwice(image), Pushed(d, e);
      && IsOrder([], Count(SpecVersions(s.versions), StatusVersions(s.status.versions)).Keys)
      && var r := Reconciled(map[], s, "java", "kabanero", "u", [], w);
         var s' := r.state.(versions := s.versions);
         && Reconciles(map[], s, "java", "kabanero", "u", [], w, r.objects, s')
         && ErrorFree(s'.status.versions) && !EmptyArchiveFails(SpecVersions(s.versions), w.pipelines, archive)
         && IsOrder([], Count(SpecVersions(s'.versions), StatusVersions(s'.status.versions)).Keys)
         && Reconciled(r.objects, s', "java", "kabanero", "u", [], w).state.(versions := s.versions) != s'
  {
    var s, w := ListedTwice(image), Pushed(d, e);
    NoPipelines(image, []);
    assert StatusVersions([]) == [];
    var p := Activate(map[], SpecVersions(s.versions), [], [], "kabanero", "u", w.pipelines);
    ListedTwiceRebuilt(image, d, e, p.useMap);
    JavaIsStackId();
    CompleteRebuildReconciles(map[], s, "java", "kabanero", "u", [], w);
    var r := Reconciled(map[], s, "java", "kabanero", "u", [], w);
    TwoDigestsChange(image, d, e, archive, r.objects, r.state.(versions := s.versions));
  }

  lemma TwoDigestsChange(image: string, d: string, e: string, archive: Archive, objects: Objects, s': StackState)
    requires d != "" && e != "" && d != e && WellNamed(archive) && s'.versions == ListedTwice(image).versions
    requires Reconciles(map[], ListedTwice(image), "java", "kabanero", "u", [], Pushed(d, e), objects, s')
    requires s'.status.versions == TwoDigests(image, d, e)
    ensures ErrorFree(s'.status.versions)
    ensures IsOrder([], Count(SpecVersions(s'.versions), StatusVersions(s'.status.versions)).Keys)
    ensures !EmptyArchiveFails(SpecVersions(s'.versions), Pushed(d, e).pipelines, archive)
    ensures Reconciled(objects, s', "java", "kabanero", "u", [], Pushed(d, e)).state.(versions := s'.versions) != s'
  {
    var w := Pushed(d, e);
    TwoDigestsErrorFree(image, d, e);
    PushedIsFaithful(d, e, archive);
    NoPipelines(image, StatusVersions(s'.status.versions));
    NothingReported(archive, "kabanero");
    StackReconciledAgain(map[], ListedTwice(image), "java", "kabanero", "u", [], [], w, w, archive, objects, s');
  }

  lemma TwoDigestsErrorFree(image: string, d: string, e: string)
    requires d != e
    ensures var versions := TwoDigests(image, d, e);
      && ErrorFree(versions) && !OneDigest(versions)
      && StatusVersions(versions) == [StatusVersion("1.0.0", [])]
  {
    var versions := TwoDigests(image, d, e);
    NoAssetsAreActive(versions);
    var x, y := versions[0].images[0], versions[0].images[1];
    assert Reports(versions, "1.0.0", x) && Reports(versions, "1.0.0", y);
  }

  lemma PushedIsFaithful(d: string, e: string, archive: Archive)
    requires d != "" && e != ""
    ensures NamesDigests(Pushed(d, e)) && Faithful(Pushed(d, e).pipelines, archive)
  {}

  // ---------------------------------------------------------------- the gitops status, twice

  /** Errors say something. */
  ghost predicate Speaks(world: World) {
    forall k, n: nat :: world.download(k, n).FetchFailed? ==> world.download(k, n).message != ""
  }

  lemma {:induction false} ErrorsSpeak(ps: seq<PipelineSpec>, m: UseMap)
    requires forall k :: k in m && m[k].manifestError.Some? ==> m[k].manifestError.value != ""
    ensures LastError(ps, m).Some? ==> LastError(ps, m).value != ""
  {
    if ps != [] {
      ErrorsSpeak(ps[..|ps| - 1], m);
    }
  }

  lemma PassSpeaks(objects: Objects, spec: seq<SpecVersion>, status: seq<StatusVersion>, order: seq<UseKey>,
                   namespace: string, uid: Uid, world: World)
    requires IsOrder(order, Count(spec, status).Keys) && Speaks(world)
    ensures var m := Activate(objects, spec, status, order, namespace, uid, world).useMap;
      forall k :: k in m && m[k].manifestError.Some? ==> m[k].manifestError.value != ""
  {
    var start := AfterRelease(objects, Count(spec, status), namespace, uid);
    OrderMembers(order, start.useMap.Keys);
    AllErrors(start, order, namespace, uid, world);
    forall k | k in start.useMap ensures start.useMap[k].manifestError.None? {
      CountPipelines(spec, status, k);
    }
  }

  /** The gitops pipelines of an unchanged Kabanero, likewise, after a pass that reported them ready. */
  lemma GitopsReconciledAgain(objects: Objects, s: KabaneroState, namespace: string, uid: Uid, first: seq<UseKey>,
                              second: seq<UseKey>, world: World, world': World, archive: Archive)
    requires namespace != "" && WellNamed(archive) && Faithful(world, archive) && Faithful(world', archive)
    requires Speaks(world) && Speaks(world') && StatusOk(GitopsVersions(s.status.pipelines), archive, namespace)
    requires IsOrder(first, Count(GitopsSpec(s.gitops), GitopsVersions(s.status.pipelines)).Keys)
    requires ReconciledGitops(objects, s, namespace, uid, first, world).state.status.ready == "True"
    requires var r := ReconciledGitops(objects, s, namespace, uid, first, world);
      IsOrder(second, Count(GitopsSpec(s.gitops), GitopsVersions(r.state.status.pipelines)).Keys)
    ensures var r := ReconciledGitops(objects, s, namespace, uid, first, world);
      var r' := ReconciledGitops(r.objects, r.state, namespace, uid, second, world');
      && OnlyAdopts(r.objects, r'.objects, uid)
      && (r'.state == r.state <==> !EmptyArchiveFails(GitopsSpec(s.gitops), world', archive))
  {
    var spec, status := GitopsSpec(s.gitops), GitopsVersions(s.status.pipelines);
    var p := Activate(objects, spec, status, first, namespace, uid, world);
    var written := RebuildStatus(spec, p.useMap);
    ReadyPassIsInPlace(objects, s, namespace, uid, first, world, archive);
    SecondPassIsIdle(p.objects, spec, p.useMap, second, namespace, uid, world', archive);
    SecondPassErrors(p.objects, spec, p.useMap, second, namespace, uid, world', archive);
    var p' := Activate(p.objects, spec, written, second, namespace, uid, world');
    assert RebuildStatus(spec, p'.useMap)[0] == written[0];
    PassSpeaks(p.objects, spec, written, second, namespace, uid, world');
    ErrorsSpeak(s.gitops, p'.useMap);
    VersionErrors(spec, p'.useMap);
    GitopsAgain(s.gitops, p.useMap, p'.useMap);
  }

  lemma ReadyPassIsInPlace(objects: Objects, s: KabaneroState, namespace: string, uid: Uid, first: seq<UseKey>,
                           world: World, archive: Archive)
    requires namespace != "" && WellNamed(archive) && Faithful(world, archive) && Speaks(world)
    requires StatusOk(GitopsVersions(s.status.pipelines), archive, namespace)
    requires IsOrder(first, Count(GitopsSpec(s.gitops), GitopsVersions(s.status.pipelines)).Keys)
    requires ReconciledGitops(objects, s, namespace, uid, first, world).state.status.ready == "True"
    ensures var spec := GitopsSpec(s.gitops);
      var p := Activate(objects, spec, GitopsVersions(s.status.pipelines), first, namespace, uid, world);
      && RebuildStatus(spec, p.useMap) == GitopsVersions(RebuildPipelines(s.gitops, p.useMap))
      && Covers(p.useMap, spec) && InPlace(p.objects, RebuildStatus(spec, p.useMap), uid, archive, namespace)
  {
    var spec, status := GitopsSpec(s.gitops), GitopsVersions(s.status.pipelines);
    var p := Activate(objects, spec, status, first, namespace, uid, world);
    assert RebuildStatus(spec, p.useMap) == GitopsVersions(RebuildPipelines(s.gitops, p.useMap));
    PassSpeaks(objects, spec, status, first, namespace, uid, world);
    ErrorsSpeak(s.gitops, p.useMap);
    VersionErrors(spec, p.useMap);
    ReadyIsActive(RebuildPipelines(s.gitops, p.useMap));
    CleanPassIsInPlace(objects, spec, status, first, namespace, uid, world, archive);
  }

  lemma GitopsAgain(ps: seq<PipelineSpec>, m: UseMap, m': UseMap)
    requires RebuildPipelines(ps, m) == RebuildPipelines(ps, m') && NewGitopsStatus(ps, m).ready == "True"
    requires LastError(ps, m').Some? ==> LastError(ps, m').value != ""
    ensures NewGitopsStatus(ps, m') == NewGitopsStatus(ps, m) <==> LastError(ps, m').None?
  {}

  lemma ReadyIsActive(pipelines: seq<PipelineStatus>)
    requires AllActive(pipelines)
    ensures AllAssetsActive(GitopsVersions(pipelines))
  {
    forall l, a | l in StatusListing(GitopsVersions(pipelines)) && a in l.pipeline.activeAssets ensures Active(a) {
      ListingMember(GitopsVersions(pipelines), l);
    }
  }
}
