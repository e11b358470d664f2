/** What a stack reports of its versions, field by field: which desired states deactivate a version, what an inactive
    and an active entry say, and which digest is reported for an image. */
module Reports {
  import opened Component
  import opened UseCounts
  import opened Cluster
  import opened Activation
  import opened Ownership
  import opened Accuracy
  import opened StackController
  import opened KabaneroController
  import opened Digests
  import opened Sources
  import opened Visits

  // ---------------------------------------------------------------- desired states

  /** The word, with each letter in either case; the second argument is the word in capitals. */
  predicate Spells(s: string, small: string, capital: string)
    requires |small| == |capital|
  {
    |s| == |small| && forall i :: 0 <= i < |s| ==> s[i] == small[i] || s[i] == capital[i]
  }

  predicate SaysInactive(v: StackVersion) {
    Spells(v.desiredState, "inactive", "INACTIVE")
  }

  predicate SaysActive(v: StackVersion) {
    Spells(v.desiredState, "active", "ACTIVE")
  }

  lemma FoldsExactly(c: char, small: char, capital: char)
    requires 'a' <= small <= 'z' && capital as int == small as int - 32
    ensures FoldCase(c) == FoldCase(small) <==> c == small || c == capital
  {
    if FoldCase(c) == small && c != small {
      assert c as int == capital as int;
    }
  }

  lemma FoldsWord(s: string, small: string, capital: string)
    requires |small| == |capital|
    requires forall i :: 0 <= i < |small| ==> 'a' <= small[i] <= 'z' && capital[i] as int == small[i] as int - 32
    ensures EqualFold(s, small) <==> Spells(s, small, capital)
  {
    if |s| == |small| {
      forall i | 0 <= i < |s| ensures FoldCase(s[i]) == FoldCase(small[i]) <==> s[i] == small[i] || s[i] == capital[i] {
        FoldsExactly(s[i], small[i], capital[i]);
      }
    }
  }

  lemma DesiredStates(v: StackVersion)
    ensures EqualFold(v.desiredState, STATE_INACTIVE) <==> SaysInactive(v)
    ensures EqualFold(v.desiredState, STATE_ACTIVE) <==> SaysActive(v)
    ensures v.IsInactive() <==> SaysInactive(v)
    ensures !(SaysInactive(v) && SaysActive(v))
  {
    FoldsWord(v.desiredState, "inactive", "INACTIVE");
    FoldsWord(v.desiredState, "active", "ACTIVE");
  }

  // ---------------------------------------------------------------- the entry of a version

  /** An inactive version reports no more than that. */
  predicate ReportsInactive(s: VersionStatus) {
    s.status == "inactive" && s.statusMessage == "The stack has been deactivated." && s.pipelines == [] &&
      s.images == []
  }

  /** One entry for every pipeline and every image of the spec. */
  predicate ReportsAll(v: StackVersion, s: VersionStatus, repository: string -> Option<string>) {
    && |s.pipelines| == |v.pipelines| &&
       (forall j :: 0 <= j < |v.pipelines| ==> Follows(s.pipelines[j], v.pipelines[j]))
    && |s.images| == |v.images|
    && (forall j :: 0 <= j < |v.images| ==>
          s.images[j].id == v.images[j].id && repository(v.images[j].image) == Some(s.images[j].image))
  }

  /** A completed reconciliation of a stack. */
  ghost predicate Completed(objects: Objects, s: StackState, name: string, namespace: string, uid: Uid,
                            order: seq<UseKey>, w: StackWorld)
  {
    && IsOrder(order, Count(SpecVersions(s.versions), StatusVersions(s.status.versions)).Keys)
    && ReconcileVersions(objects, s, name, namespace, uid, order, w).ok
  }

  lemma ActiveEntry(v: StackVersion, v': StackVersion, s: VersionStatus, i: nat, m: UseMap,
                    previous: seq<VersionStatus>, w: StackWorld)
    requires BuiltFrom(v, v', s, i, m, previous, w) && !SaysInactive(v)
    requires forall j :: 0 <= j < |v.pipelines| ==> KeyOfSpec(v.pipelines[j]) in m
    requires forall k :: k in m ==> KeyOfStatus(m[k].pipeline) == k
    ensures s.version == v.version && ReportsAll(v, s, w.repository) && s.status != "inactive"
  {
    DesiredStates(v);
    StrippedAt(v.images, w.repository);
    ImageStatusAt(v'.images, |v'.images|, v.version, i, previous, w);
    RebuiltAt(v.pipelines, m, |v.pipelines|);
    forall j | 0 <= j < |v.pipelines| ensures Follows(s.pipelines[j], v.pipelines[j]) {
      RebuiltAt(v.pipelines, m, j);
      ListedExactly(s.pipelines[j], v.pipelines[j]);
    }
  }

  lemma EntryKeys(versions: seq<StackVersion>, m: UseMap, i: nat)
    requires Covers(m, SpecVersions(versions)) && i < |versions| && !SaysInactive(versions[i])
    ensures forall j :: 0 <= j < |versions[i].pipelines| ==> KeyOfSpec(versions[i].pipelines[j]) in m
  {
    DesiredStates(versions[i]);
    WantedKeys(SpecVersions(versions), m, i);
    assert SpecVersions(versions)[i].pipelines == versions[i].pipelines;
  }

  /** A completed reconciliation reports every version of the spec in its place. It is inactive, without pipelines and
      images, exactly if the desired state spells "inactive" in any case; every other version reports all its pipelines
      and images. */
  lemma VersionsReported(objects: Objects, s: StackState, name: string, namespace: string, uid: Uid,
                         order: seq<UseKey>, w: StackWorld, i: nat)
    requires Completed(objects, s, name, namespace, uid, order, w) && i < |s.versions|
    ensures var now := ReconcileVersions(objects, s, name, namespace, uid, order, w).state.status.versions;
      && |now| == |s.versions| && now[i].version == s.versions[i].version
      && (now[i].status == "inactive" <==> SaysInactive(s.versions[i]))
      && (SaysInactive(s.versions[i]) ==> ReportsInactive(now[i]))
      && (!SaysInactive(s.versions[i]) ==> ReportsAll(s.versions[i], now[i], w.repository))
  {
    var spec, status := SpecVersions(s.versions), StatusVersions(s.status.versions);
    var m := Activate(objects, spec, status, order, namespace, uid, w.pipelines).useMap;
    var r := Rebuild(s.versions, |s.versions|, m, s.status.versions, w);
    RebuildAt(s.versions, |s.versions|, m, s.status.versions, w);
    assert BuiltFrom(s.versions[i], r.versions[i], r.statuses[i], i, m, s.status.versions, w);
    DesiredStates(s.versions[i]);
    if !SaysInactive(s.versions[i]) {
      ActivationCovers(objects, spec, status, order, namespace, uid, w.pipelines);
      EntryKeys(s.versions, m, i);
      ActiveEntry(s.versions[i], r.versions[i], r.statuses[i], i, m, s.status.versions, w);
    }
  }

  /** The spec of a version after a completed reconciliation: an inactive one is as it was, and any other has its images
      cut down to their repositories. */
  lemma SpecIsStripped(objects: Objects, s: StackState, name: string, namespace: string, uid: Uid,
                       order: seq<UseKey>, w: StackWorld, i: nat)
    requires Completed(objects, s, name, namespace, uid, order, w) && i < |s.versions|
    ensures var after := ReconcileVersions(objects, s, name, namespace, uid, order, w).state.versions;
      && |after| == |s.versions| && after[i] == s.versions[i].(images := after[i].images)
      && |after[i].images| == |s.versions[i].images|
      && forall j :: 0 <= j < |after[i].images| ==>
           if SaysInactive(s.versions[i]) then after[i].images[j] == s.versions[i].images[j]
           else after[i].images[j].id == s.versions[i].images[j].id &&
                w.repository(s.versions[i].images[j].image) == Some(after[i].images[j].image)
  {
    var m := Activate(objects, SpecVersions(s.versions), StatusVersions(s.status.versions), order, namespace, uid,
                      w.pipelines).useMap;
    var r := Rebuild(s.versions, |s.versions|, m, s.status.versions, w);
    RebuildAt(s.versions, |s.versions|, m, s.status.versions, w);
    assert BuiltFrom(s.versions[i], r.versions[i], r.statuses[i], i, m, s.status.versions, w);
    DesiredStates(s.versions[i]);
    if !SaysInactive(s.versions[i]) {
      StrippedAt(s.versions[i].images, w.repository);
    }
  }

  // ---------------------------------------------------------------- states and messages

  predicate IsKnownState(v: StackVersion) {
    v.desiredState == "" || SaysActive(v)
  }

  lemma {:induction false} NoErrorsLeft(p: Pass, order: seq<UseKey>, namespace: string, uid: Uid, world: World)
    requires (forall k :: k in order ==> k in p.useMap) && (forall k, n: nat :: world.download(k, n).Fetched?)
    requires forall k :: k in p.useMap ==> p.useMap[k].manifestError.None?
    ensures forall k :: k in p.useMap ==> EnsureAll(p, order, namespace, uid, world).useMap[k].manifestError.None?
  {
    if order != [] {
      var n := |order| - 1;
      NoErrorsLeft(p, order[..n], namespace, uid, world);
      var mid := EnsureAll(p, order[..n], namespace, uid, world);
      var value := Listing(mid.useMap[order[n]], order[n], namespace, world);
      assert value.manifestError.None?;
      KeepsError(Adoption(mid.objects, value), order[n], |value.pipeline.activeAssets|, namespace, uid, world);
    }
  }

  lemma {:induction false} NoErrorExactly(ps: seq<PipelineSpec>, m: UseMap)
    ensures LastError(ps, m).None? <==> forall j :: 0 <= j < |ps| ==> ErrorOf(ps[j], m).None?
  {
    if ps != [] {
      var n := |ps| - 1;
      NoErrorExactly(ps[..n], m);
      assert forall j :: 0 <= j < n ==> ps[..n][j] == ps[j];
    }
  }

  lemma {:induction false} LastErrorAt(ps: seq<PipelineSpec>, m: UseMap) returns (j: nat)
    requires LastError(ps, m).Some?
    ensures j < |ps| && ErrorOf(ps[j], m) == LastError(ps, m) && forall l :: j < l < |ps| ==> ErrorOf(ps[l], m).None?
  {
    var n := |ps| - 1;
    if ErrorOf(ps[n], m).Some? {
      j := n;
    } else {
      j := LastErrorAt(ps[..n], m);
      assert forall l :: 0 <= l < n ==> ps[..n][l] == ps[l];
    }
  }

  /** The error reported for a list of pipelines is that of the last of them whose archive has one. */
  lemma LastErrorIs(ps: seq<PipelineSpec>, m: UseMap)
    ensures LastError(ps, m).None? <==> forall j :: 0 <= j < |ps| ==> ErrorOf(ps[j], m).None?
    ensures LastError(ps, m).Some? ==>
      exists j :: 0 <= j < |ps| && ErrorOf(ps[j], m) == LastError(ps, m) &&
                  forall l :: j < l < |ps| ==> ErrorOf(ps[l], m).None?
  {
    NoErrorExactly(ps, m);
    if LastError(ps, m).Some? {
      var j := LastErrorAt(ps, m);
    }
  }

  function ErrorOf(p: PipelineSpec, m: UseMap): Option<string> {
    if KeyOfSpec(p) in m then m[KeyOfSpec(p)].manifestError else None
  }

  /** For some image the first status has no digest, if there is one, and the registry has no answer. */
  predicate LacksDigest(images: seq<Image>, version: string, i: nat, previous: seq<VersionStatus>, w: StackWorld) {
    exists j :: 0 <= j < |images| && w.lookup(i, j).Unavailable? &&
                DigestFailed(previous, version, images[j].image, w.lookup(i, j))
  }

  /** The entry of a version that is not deactivated: it is in error if a download or a digest failed, and else active.
      A failed download gives the message, or else an unknown desired state does. */
  lemma ActiveMessage(v: StackVersion, v': StackVersion, s: VersionStatus, i: nat, m: UseMap,
                      previous: seq<VersionStatus>, w: StackWorld)
    requires BuiltFrom(v, v', s, i, m, previous, w) && !SaysInactive(v)
    ensures s.status == if LastError(v.pipelines, m).Some? || LacksDigest(v'.images, v.version, i, previous, w)
                        then "error" else "active"
    ensures LastError(v.pipelines, m).Some? ==> s.statusMessage == LastError(v.pipelines, m).value
    ensures LastError(v.pipelines, m).None? ==>
      s.statusMessage == if IsKnownState(v) then ""
                         else "An invalid desiredState value of " + v.desiredState +
                              " was specified. The stack is activated by default."
  {
    DesiredStates(v);
  }

  lemma NoDownloadFailed(objects: Objects, spec: seq<SpecVersion>, status: seq<StatusVersion>, order: seq<UseKey>,
                         namespace: string, uid: Uid, world: World)
    requires IsOrder(order, Count(spec, status).Keys) && forall k, n: nat :: world.download(k, n).Fetched?
    ensures var m := Activate(objects, spec, status, order, namespace, uid, world).useMap;
      forall k :: k in m ==> m[k].manifestError.None?
  {
    var start := AfterRelease(objects, Count(spec, status), namespace, uid);
    OrderMembers(order, start.useMap.Keys);
    forall k | k in start.useMap ensures start.useMap[k].manifestError.None? {
      CountPipelines(spec, status, k);
    }
    NoErrorsLeft(start, order, namespace, uid, world);
  }

  lemma ErrorFreeMessage(v: StackVersion, v': StackVersion, s: VersionStatus, i: nat, m: UseMap,
                         previous: seq<VersionStatus>, w: StackWorld)
    requires BuiltFrom(v, v', s, i, m, previous, w) && !SaysInactive(v)
    requires forall k :: k in m ==> m[k].manifestError.None?
    ensures s.statusMessage == "" <==> v.desiredState == "" || SaysActive(v)
    ensures (forall j: nat :: w.lookup(i, j).Digest?) ==> s.status == "active"
  {
    LastErrorIs(v.pipelines, m);
    ActiveMessage(v, v', s, i, m, previous, w);
  }

  /** When no download and no registry fails: a version that is not deactivated is active, and its message is empty
      exactly if the desired state is empty or spells "active" in any case. */
  lemma ActiveReported(objects: Objects, s: StackState, name: string, namespace: string, uid: Uid,
                       order: seq<UseKey>, w: StackWorld, i: nat)
    requires Completed(objects, s, name, namespace, uid, order, w) && i < |s.versions| && !SaysInactive(s.versions[i])
    requires forall k, n: nat :: w.pipelines.download(k, n).Fetched?
    ensures var now := ReconcileVersions(objects, s, name, namespace, uid, order, w).state.status.versions;
      && i < |now|
      && (now[i].statusMessage == "" <==> s.versions[i].desiredState == "" || SaysActive(s.versions[i]))
      && ((forall j: nat :: w.lookup(i, j).Digest?) ==> now[i].status == "active")
  {
    var spec, status := SpecVersions(s.versions), StatusVersions(s.status.versions);
    var m := Activate(objects, spec, status, order, namespace, uid, w.pipelines).useMap;
    var r := Rebuild(s.versions, |s.versions|, m, s.status.versions, w);
    NoDownloadFailed(objects, spec, status, order, namespace, uid, w.pipelines);
    RebuildAt(s.versions, |s.versions|, m, s.status.versions, w);
    assert BuiltFrom(s.versions[i], r.versions[i], r.statuses[i], i, m, s.status.versions, w);
    ErrorFreeMessage(s.versions[i], r.versions[i], r.statuses[i], i, m, s.status.versions, w);
  }

  // ---------------------------------------------------------------- the rest of the state

  /** The reconciliation of a stack that is not being deleted: it gets its finalizer once, its status message is
      cleared, and if it does not complete, the rest of the old status stays. With a name that is no stack id nothing
      else happens. */
  lemma LivingStackReconciled(objects: Objects, s: StackState, name: string, namespace: string, uid: Uid,
                              order: seq<UseKey>, w: StackWorld)
    requires IsOrder(order, Count(SpecVersions(s.versions), StatusVersions(s.status.versions)).Keys) && !s.deleting
    ensures var r := Reconciled(objects, s, name, namespace, uid, order, w);
      && !r.state.deleting && r.state.status.statusMessage == ""
      && r.state.finalizers ==
         (if "kabanero.io/stack-controller" in s.finalizers then s.finalizers
          else s.finalizers + ["kabanero.io/stack-controller"])
      && (!r.ok ==> r.state.status.versions == s.status.versions)
      && (!IsStackId(name) ==> !r.ok && r.objects == objects && r.state.versions == s.versions)
  {}

  // ---------------------------------------------------------------- digests

  /** The entry with the first status for an image, in the versions of that name. */
  predicate IsFirst(versions: seq<VersionStatus>, version: string, image: string, i: nat, j: nat) {
    && i < |versions| && j < |versions[i].images| && versions[i].version == version
    && versions[i].images[j].image == image
    && (forall l :: 0 <= l < j ==> versions[i].images[l].image != image)
    && (forall k, l :: 0 <= k < i && versions[k].version == version && 0 <= l < |versions[k].images| ==>
          versions[k].images[l].image != image)
  }

  lemma {:induction false} FoundImageIsFirst(images: seq<ImageStatus>, image: string, j: nat)
    requires j < |images| && images[j].image == image && forall l :: 0 <= l < j ==> images[l].image != image
    ensures FindImage(images, image) == Some(images[j].digest)
  {
    if j != 0 {
      FoundImageIsFirst(images[1..], image, j - 1);
    }
  }

  lemma NoImage(images: seq<ImageStatus>, image: string)
    requires forall l :: 0 <= l < |images| ==> images[l].image != image
    ensures FindImage(images, image).None?
  {
    FindImageIsFirst(images, image);
  }

  lemma {:induction false} FoundIsFirst(versions: seq<VersionStatus>, version: string, image: string, i: nat, j: nat)
    requires IsFirst(versions, version, image, i, j)
    ensures FindDigest(versions, version, image) == Some(versions[i].images[j].digest)
    decreases i
  {
    if i == 0 {
      FoundImageIsFirst(versions[0].images, image, j);
    } else {
      if versions[0].version == version {
        NoImage(versions[0].images, image);
      }
      assert versions[1..][i - 1] == versions[i];
      assert forall k :: 0 <= k < i - 1 ==> versions[1..][k] == versions[k + 1];
      FoundIsFirst(versions[1..], version, image, i - 1, j);
    }
  }

  /** The digest reported for an image: that of its first status, if it has one; else what the registry answers, which
      is a failure if it does not. */
  lemma DigestReported(versions: seq<VersionStatus>, version: string, image: string, answer: Lookup)
    ensures (exists i: nat, j: nat :: IsFirst(versions, version, image, i, j) &&
                                      versions[i].images[j].digest.activation != "" &&
                                      StatusDigest(versions, version, image, answer) == versions[i].images[j].digest &&
                                      !DigestFailed(versions, version, image, answer))
            || ((forall i: nat, j: nat :: IsFirst(versions, version, image, i, j) ==>
                   versions[i].images[j].digest.activation == "") &&
                (DigestFailed(versions, version, image, answer) <==> answer.Unavailable?) &&
                match answer
                case Digest(hex) => StatusDigest(versions, version, image, answer) == ImageDigest(hex, "")
                case Unavailable(message) =>
                  StatusDigest(versions, version, image, answer) == ImageDigest("", message))
  {
    forall i: nat, j: nat | IsFirst(versions, version, image, i, j)
      ensures FindDigest(versions, version, image) == Some(versions[i].images[j].digest)
    {
      FoundIsFirst(versions, version, image, i, j);
    }
    if FindDigest(versions, version, image).Some? {
      var i, j := FirstExists(versions, version, image);
      assert IsFirst(versions, version, image, i, j);
    }
  }

  lemma {:induction false} FirstExists(versions: seq<VersionStatus>, version: string, image: string)
    returns (i: nat, j: nat)
    requires FindDigest(versions, version, image).Some?
    ensures IsFirst(versions, version, image, i, j)
  {
    if versions[0].version == version && FindImage(versions[0].images, image).Some? {
      i := 0;
      j := FirstImageExists(versions[0].images, image);
    } else {
      var k;
      k, j := FirstExists(versions[1..], version, image);
      i := k + 1;
      if versions[0].version == version {
        FindImageIsFirst(versions[0].images, image);
      }
      forall k', l | 0 <= k' < i && versions[k'].version == version && 0 <= l < |versions[k'].images|
        ensures versions[k'].images[l].image != image
      {
        if k' == 0 {
          assert versions[0].images[l] in versions[0].images;
        } else {
          assert versions[1..][k' - 1] == versions[k'];
        }
      }
    }
  }

  lemma {:induction false} FirstImageExists(images: seq<ImageStatus>, image: string) returns (j: nat)
    requires FindImage(images, image).Some?
    ensures j < |images| && images[j].image == image && forall l :: 0 <= l < j ==> images[l].image != image
  {
    if images[0].image == image {
      j := 0;
    } else {
      var k := FirstImageExists(images[1..], image);
      j := k + 1;
      assert forall l :: 0 < l < j ==> images[l] == images[1..][l - 1];
    }
  }

  // ---------------------------------------------------------------- the gitops status of a Kabanero

  /** The new gitops status: one entry for every pipeline of the spec; ready exactly if every asset is active and no
      archive has an error with a text; the message is the last error. */
  lemma GitopsReported(objects: Objects, s: KabaneroState, namespace: string, uid: Uid, order: seq<UseKey>,
                       world: World)
    requires IsOrder(order, Count(GitopsSpec(s.gitops), GitopsVersions(s.status.pipelines)).Keys)
    ensures var m := Activate(objects, GitopsSpec(s.gitops), GitopsVersions(s.status.pipelines), order, namespace, uid,
                              world).useMap;
      var now := ReconciledGitops(objects, s, namespace, uid, order, world).state.status;
      && |now.pipelines| == |s.gitops|
      && (forall j :: 0 <= j < |s.gitops| ==> Follows(now.pipelines[j], s.gitops[j]))
      && (now.ready == "True" <==>
            now.message == "" && forall p, a :: p in now.pipelines && a in p.activeAssets ==> a.status == "active")
      && (now.ready == "True" || now.ready == "False")
      && now.message == if LastError(s.gitops, m).Some? then LastError(s.gitops, m).value else ""
  {
    var spec, status := GitopsSpec(s.gitops), GitopsVersions(s.status.pipelines);
    var m := Activate(objects, spec, status, order, namespace, uid, world).useMap;
    StatusFollowsSpec(objects, spec, status, order, namespace, uid, world, 0);
    assert RebuildStatus(spec, m)[0].pipelines == RebuildPipelines(s.gitops, m);
  }

  // ---------------------------------------------------------------- the names of stacks

  predicate IsNameChar(c: char) {
    'a' <= c <= 'z' || '0' <= c <= '9' || c == '-'
  }

  /** A stack id: one lower-case letter, or one followed by up to sixty-six letters, digits and dashes and a last letter
      or digit. */
  lemma StackIds(first: char, middle: string, last: char)
    ensures IsStackId([first]) <==> 'a' <= first <= 'z'
    ensures IsStackId([first] + middle + [last]) <==>
      && 'a' <= first <= 'z' && |middle| <= 66 && ('a' <= last <= 'z' || '0' <= last <= '9')
      && forall i :: 0 <= i < |middle| ==> IsNameChar(middle[i])
  {
    var s := [first] + middle + [last];
    assert s[0] == first && s[|s| - 1] == last && forall i :: 0 <= i < |middle| ==> s[i + 1] == middle[i];
  }
}
