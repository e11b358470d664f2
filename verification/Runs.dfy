/** Runs of the whole system: any number of stacks and Kabanero instances in one cluster, reconciled,
    edited and deleted in any interleaving. */
module Runs {
  import opened Component
  import opened UseCounts
  import opened Cluster
  import opened Activation
  import opened Ownership
  import opened Accuracy
  import opened StackController
  import opened KabaneroController
  import opened Digests

  datatype StackMember = StackMember(name: string, namespace: string, owners: seq<Uid>, state: StackState)

  datatype KabaneroMember = KabaneroMember(namespace: string, state: KabaneroState)

  /** The objects the pipelines created, the resources that exist, and all UIDs ever given out, each with the
      namespace of its resource. */
  datatype System = System(objects: Objects, stacks: map<Uid, StackMember>, kabaneros: map<Uid, KabaneroMember>,
                           used: map<Uid, string>)

  datatype Step =
    | CreateStack(uid: Uid, name: string, namespace: string, owners: seq<Uid>, versions: seq<StackVersion>,
                  finalizers: seq<string>)
    | CreateKabanero(uid: Uid, namespace: string, gitops: seq<PipelineSpec>, finalizers: seq<string>)
    | EditStack(uid: Uid, versions: seq<StackVersion>)
    | EditGitops(uid: Uid, gitops: seq<PipelineSpec>)
    | RequestDeletion(uid: Uid)
    | DropOther(uid: Uid, finalizer: string)
    | ReconcileStack(uid: Uid, order: seq<UseKey>, w: StackWorld)
    | ReconcileKabanero(uid: Uid, order: seq<UseKey>, world: World, errors: CleanupErrors)
    | Foreign(id: ObjectId, written: Option<seq<Uid>>)

  // ---------------------------------------------------------------- the transitions

  function NewKabanero(gitops: seq<PipelineSpec>, finalizers: seq<string>): KabaneroState {
    KabaneroState(gitops, GitopsStatus([], "", ""), finalizers, false)
  }

  /** A resource under deletion vanishes with its last finalizer. */
  function LiveStacks(stacks: map<Uid, StackMember>): map<Uid, StackMember> {
    map u | u in stacks && !(stacks[u].state.deleting && stacks[u].state.finalizers == []) :: stacks[u]
  }

  function LiveKabaneros(kabaneros: map<Uid, KabaneroMember>): map<Uid, KabaneroMember> {
    map u | u in kabaneros && !(kabaneros[u].state.deleting && kabaneros[u].state.finalizers == []) :: kabaneros[u]
  }

  function Settle(s: System): System {
    s.(stacks := LiveStacks(s.stacks), kabaneros := LiveKabaneros(s.kabaneros))
  }

  function SetStack(s: System, uid: Uid, state: StackState): System
    requires uid in s.stacks
  {
    s.(stacks := s.stacks[uid := s.stacks[uid].(state := state)])
  }

  function SetKabanero(s: System, uid: Uid, state: KabaneroState): System
    requires uid in s.kabaneros
  {
    s.(kabaneros := s.kabaneros[uid := s.kabaneros[uid].(state := state)])
  }

  /** Only the stacks in the namespace of a Kabanero count as its own. */
  predicate BelongsTo(m: StackMember, uid: Uid, namespace: string) {
    m.namespace == namespace && uid in m.owners
  }

  predicate OwnsStacks(stacks: map<Uid, StackMember>, uid: Uid, namespace: string) {
    exists u :: u in stacks && BelongsTo(stacks[u], uid, namespace)
  }

  /** The deletion of a Kabanero's stacks, as its teardown requests it. */
  function DeleteOwned(stacks: map<Uid, StackMember>, uid: Uid, namespace: string): map<Uid, StackMember> {
    map u | u in stacks :: stacks[u].(state := Asked(stacks[u].state, BelongsTo(stacks[u], uid, namespace)))
  }

  function Asked(state: StackState, asked: bool): StackState {
    state.(deleting := state.deleting || asked)
  }

  function ReconcileStackStep(s: System, uid: Uid, order: seq<UseKey>, w: StackWorld): System
    requires uid in s.stacks
    requires IsOrder(order, Count(SpecVersions(s.stacks[uid].state.versions),
                                  StatusVersions(s.stacks[uid].state.status.versions)).Keys)
  {
    var m := s.stacks[uid];
    var r := Reconciled(s.objects, m.state, m.name, m.namespace, uid, order, w);
    SetStack(s.(objects := r.objects), uid, r.state.(versions := m.state.versions))
  }

  function ReconcileKabaneroStep(s: System, uid: Uid, order: seq<UseKey>, world: World, errors: CleanupErrors): System
    requires uid in s.kabaneros
    requires IsOrder(order, Count(GitopsSpec(s.kabaneros[uid].state.gitops),
                                  GitopsVersions(s.kabaneros[uid].state.status.pipelines)).Keys)
  {
    var m := s.kabaneros[uid];
    if !m.state.deleting then
      var r := ReconciledGitops(s.objects, WithFinalizer(m.state), m.namespace, uid, order, world);
      SetKabanero(s.(objects := r.objects), uid, r.state)
    else
      var r := ProcessedKabaneroDeletion(s.objects, m.state, OwnsStacks(s.stacks, uid, m.namespace), m.namespace, uid,
                                         errors);
      var stacks := if KABANERO_FINALIZER in m.state.finalizers && !errors.early
                    then DeleteOwned(s.stacks, uid, m.namespace)
                    else s.stacks;
      SetKabanero(s.(objects := r.objects, stacks := stacks), uid, r.state)
  }

  /** What the environment may do: UIDs are never reused, a stack names a Kabanero of its own namespace only while
      that one exists and holds its finalizer, specs repeat no archive within a version, nobody takes away the
      finalizers of the two controllers, and nobody else makes a component the owner of an object. */
  ghost predicate Enabled(s: System, step: Step, archives: Uid -> Archive) {
    match step
    case CreateStack(uid, _, namespace, owners, versions, finalizers) =>
      && uid !in s.used && (forall id :: !Owns(s.objects, uid, id)) && namespace != ""
      && (forall k :: k in owners ==> OwnerLives(s.kabaneros, s.used, k, namespace))
      && Distinct(SpecUses(SpecVersions(versions))) && FINALIZER !in finalizers
    case CreateKabanero(uid, namespace, gitops, finalizers) =>
      && uid !in s.used && (forall id :: !Owns(s.objects, uid, id)) && namespace != ""
      && Distinct(SpecUses(GitopsSpec(gitops))) && KABANERO_FINALIZER !in finalizers
    case EditStack(uid, versions) => uid in s.stacks && Distinct(SpecUses(SpecVersions(versions)))
    case EditGitops(uid, gitops) => uid in s.kabaneros && Distinct(SpecUses(GitopsSpec(gitops)))
    case RequestDeletion(uid) => true
    case DropOther(uid, finalizer) => finalizer != FINALIZER && finalizer != KABANERO_FINALIZER
    case ReconcileStack(uid, order, w) =>
      && uid in s.stacks && Faithful(w.pipelines, archives(uid)) &&
         ImagesParse(s.stacks[uid].state.versions, w.repository)
      && IsOrder(order, Count(SpecVersions(s.stacks[uid].state.versions),
                              StatusVersions(s.stacks[uid].state.status.versions)).Keys)
    case ReconcileKabanero(uid, order, world, _) =>
      && uid in s.kabaneros && Faithful(world, archives(uid))
      && IsOrder(order, Count(GitopsSpec(s.kabaneros[uid].state.gitops),
                              GitopsVersions(s.kabaneros[uid].state.status.pipelines)).Keys)
    case Foreign(id, written) =>
      written.Some? ==> forall u :: u in written.value && u in s.used ==> Owns(s.objects, u, id)
  }

  predicate ImagesParse(versions: seq<StackVersion>, repository: string -> Option<string>) {
    forall v :: v in versions && !v.IsInactive() ==> StripTags(v.images, repository).ok
  }

  ghost function Next(s: System, step: Step, archives: Uid -> Archive): System
    requires Enabled(s, step, archives)
  {
    match step
    case CreateStack(uid, name, namespace, owners, versions, finalizers) =>
      s.(stacks := s.stacks[uid := StackMember(name, namespace, owners,
                                               StackState(versions, StackStatus("", []), finalizers, false))],
         used := s.used[uid := namespace])
    case CreateKabanero(uid, namespace, gitops, finalizers) =>
      s.(kabaneros := s.kabaneros[uid := KabaneroMember(namespace, NewKabanero(gitops, finalizers))],
         used := s.used[uid := namespace])
    case EditStack(uid, versions) => SetStack(s, uid, s.stacks[uid].state.(versions := versions))
    case EditGitops(uid, gitops) => SetKabanero(s, uid, s.kabaneros[uid].state.(gitops := gitops))
    case RequestDeletion(uid) =>
      Settle(if uid in s.stacks then SetStack(s, uid, s.stacks[uid].state.(deleting := true))
             else if uid in s.kabaneros then SetKabanero(s, uid, s.kabaneros[uid].state.(deleting := true))
             else s)
    case DropOther(uid, finalizer) =>
      Settle(if uid in s.stacks then
               SetStack(s, uid, s.stacks[uid].state.(finalizers :=
                                  DropFinalizer(s.stacks[uid].state.finalizers, finalizer)))
             else if uid in s.kabaneros then
               SetKabanero(s, uid, s.kabaneros[uid].state.(finalizers :=
                                     DropFinalizer(s.kabaneros[uid].state.finalizers, finalizer)))
             else s)
    case ReconcileStack(uid, order, w) => Settle(ReconcileStackStep(s, uid, order, w))
    case ReconcileKabanero(uid, order, world, errors) => Settle(ReconcileKabaneroStep(s, uid, order, world, errors))
    case Foreign(id, written) =>
      s.(objects := if written.Some? then s.objects[id := written.value] else s.objects - {id})
  }

  // ---------------------------------------------------------------- the invariant

  /** What holds of one component at any time: it owns only what its status lists, and nothing without its
      finalizer. */
  ghost predicate Kept(objects: Objects, uid: Uid, spec: seq<SpecVersion>, status: seq<StatusVersion>,
                       namespace: string, guarded: bool, archive: Archive)
  {
    && namespace != "" && Distinct(SpecUses(spec)) && StatusOk(status, archive, namespace)
    && OwnsOnlyListed(objects, status, uid)
    && (!guarded ==> forall id :: !Owns(objects, uid, id))
  }

  ghost predicate StackKept(objects: Objects, uid: Uid, m: StackMember, archive: Archive) {
    Kept(objects, uid, SpecVersions(m.state.versions), StatusVersions(m.state.status.versions), m.namespace,
         FINALIZER in m.state.finalizers, archive)
  }

  ghost predicate KabaneroKept(objects: Objects, uid: Uid, m: KabaneroMember, archive: Archive) {
    Kept(objects, uid, GitopsSpec(m.state.gitops), GitopsVersions(m.state.status.pipelines), m.namespace,
         KABANERO_FINALIZER in m.state.finalizers, archive)
  }

  ghost predicate StacksKept(objects: Objects, stacks: map<Uid, StackMember>, archives: Uid -> Archive) {
    forall u :: u in stacks ==> StackKept(objects, u, stacks[u], archives(u))
  }

  ghost predicate KabanerosKept(objects: Objects, kabaneros: map<Uid, KabaneroMember>, archives: Uid -> Archive) {
    forall u :: u in kabaneros ==> KabaneroKept(objects, u, kabaneros[u], archives(u))
  }

  /** Of all UIDs ever given out, only those of existing resources own anything. */
  ghost predicate OnlyLivingOwn(s: System) {
    forall u, id :: u in s.used && Owns(s.objects, u, id) ==> u in s.stacks || u in s.kabaneros
  }

  /** An owner is a resource that once existed; if it was of the given namespace, it is a Kabanero that still exists
      and still holds its finalizer. */
  predicate OwnerLives(kabaneros: map<Uid, KabaneroMember>, used: map<Uid, string>, k: Uid, namespace: string) {
    k in used && (used[k] == namespace ==> k in kabaneros && KABANERO_FINALIZER in kabaneros[k].state.finalizers)
  }

  predicate OwnersLive(stacks: map<Uid, StackMember>, kabaneros: map<Uid, KabaneroMember>, used: map<Uid, string>) {
    forall u, k :: u in stacks && k in stacks[u].owners ==> OwnerLives(kabaneros, used, k, stacks[u].namespace)
  }

  predicate AtHome(kabaneros: map<Uid, KabaneroMember>, used: map<Uid, string>) {
    forall k :: k in kabaneros ==> k in used && used[k] == kabaneros[k].namespace
  }

  ghost predicate Inv(s: System, archives: Uid -> Archive) {
    && s.stacks.Keys <= s.used.Keys && s.stacks.Keys !! s.kabaneros.Keys && AtHome(s.kabaneros, s.used)
    && OnlyLivingOwn(s)
    && StacksKept(s.objects, s.stacks, archives) && KabanerosKept(s.objects, s.kabaneros, archives)
    && OwnersLive(s.stacks, s.kabaneros, s.used)
  }

  // ---------------------------------------------------------------- helpers

  /** The component's view of the objects is all that its part of the invariant depends on. */
  ghost predicate SameOwner(before: Objects, after: Objects, uid: Uid) {
    forall id :: Owns(after, uid, id) <==> Owns(before, uid, id)
  }

  lemma KeptBySameOwner(before: Objects, after: Objects, uid: Uid, spec: seq<SpecVersion>, status: seq<StatusVersion>,
                        namespace: string, guarded: bool, archive: Archive)
    requires Kept(before, uid, spec, status, namespace, guarded, archive) && SameOwner(before, after, uid)
    ensures Kept(after, uid, spec, status, namespace, guarded, archive)
  {}

  lemma {:induction false} DropFinalizerKeeps(finalizers: seq<string>, finalizer: string)
    ensures forall f :: f in DropFinalizer(finalizers, finalizer) <==> f in finalizers && f != finalizer
  {
    if finalizers != [] {
      var n := |finalizers| - 1;
      DropFinalizerKeeps(finalizers[..n], finalizer);
      assert finalizers == finalizers[..n] + [finalizers[n]];
    }
  }

  /** Dropping a finalizer keeps the others with their order and repetitions. */
  lemma {:induction false} OtherFinalizersSurvive(before: seq<string>, after: seq<string>, finalizer: string)
    ensures DropFinalizer(before + after, finalizer) ==
      DropFinalizer(before, finalizer) + DropFinalizer(after, finalizer)
    ensures finalizer !in before ==> DropFinalizer(before, finalizer) == before
    ensures finalizer !in DropFinalizer(before, finalizer)
    decreases |before| + |after|
  {
    DropFinalizerKeeps(before, finalizer);
    if after != [] {
      var n := |after| - 1;
      OtherFinalizersSurvive(before, after[..n], finalizer);
      assert (before + after)[..|before + after| - 1] == before + after[..n];
    } else {
      assert before + after == before;
      if before != [] {
        var n := |before| - 1;
        OtherFinalizersSurvive(before[..n], [], finalizer);
        assert before == before[..n] + [before[n]];
      }
    }
  }

  lemma {:induction false} ListingMember(status: seq<StatusVersion>, l: Listed)
    requires l in StatusListing(status)
    ensures exists v :: v in status && l.pipeline in v.pipelines
  {
    var n := |status| - 1;
    if l in StatusListing(status[..n]) {
      ListingMember(status[..n], l);
    } else {
      var i :| 0 <= i < |status[n].pipelines| && VersionListing(status[n])[i] == l;
      assert status[n] in status && l.pipeline in status[n].pipelines;
    }
  }

  /** Everything a component owns is among the targets of its cleanup. */
  lemma OwnedIsTarget(status: seq<StatusVersion>, archive: Archive, namespace: string, id: ObjectId)
    requires namespace != "" && StatusOk(status, archive, namespace) && ListsActive(status, id)
    ensures exists v, p, a :: v in status && p in v.pipelines && a in p.activeAssets && IsReleasable(a) &&
                              IdOf(Namespaced(a, namespace)) == id
  {
    var l :| l in StatusListing(status) && ActiveIn(l.pipeline.activeAssets, id);
    ListingMember(status, l);
    var v :| v in status && l.pipeline in v.pipelines;
    var assets := l.pipeline.activeAssets;
    var i :| 0 <= i < |assets| && Active(assets[i]) && IdOf(assets[i]) == id;
    assert Describes(assets[i], archive(l.use.key)[i], namespace);
    assert assets[i] in assets && IsReleasable(assets[i]);
    assert Namespaced(assets[i], namespace) == assets[i];
  }

  /** A cleanup leaves the component without objects and everybody else with theirs. */
  lemma CleanupReleasesAll(objects: Objects, uid: Uid, status: seq<StatusVersion>, archive: Archive, namespace: string,
                           targets: set<ObjectId>)
    requires namespace != "" && StatusOk(status, archive, namespace)
    requires OwnsOnlyListed(objects, status, uid)
    requires forall v, p, a :: v in status && p in v.pipelines && a in p.activeAssets && IsReleasable(a) ==>
      IdOf(Namespaced(a, namespace)) in targets
    ensures forall id :: !Owns(Released(objects, targets, uid), uid, id)
    ensures forall u :: u != uid ==> SameOwner(objects, Released(objects, targets, uid), u)
  {
    ReleasedOwnership(objects, targets, uid);
    forall id | Owns(objects, uid, id) ensures id in targets {
      OwnedIsTarget(status, archive, namespace, id);
    }
  }

  /** The status a stack writes is the rebuilt status of the engine. */
  lemma RebuildIsStatus(versions: seq<StackVersion>, m: UseMap, previous: seq<VersionStatus>, w: StackWorld)
    requires Rebuild(versions, |versions|, m, previous, w).ok
    ensures StatusVersions(Rebuild(versions, |versions|, m, previous, w).statuses) ==
      RebuildStatus(SpecVersions(versions), m)
  {
    var r := Rebuild(versions, |versions|, m, previous, w);
    RebuildAt(versions, |versions|, m, previous, w);
    forall i | 0 <= i < |versions|
      ensures StatusVersions(r.statuses)[i] == RebuildVersion(SpecVersions(versions)[i], m)
    {
      assert BuiltFrom(versions[i], r.versions[i], r.statuses[i], i, m, previous, w);
    }
  }

  lemma {:induction false} RebuildSucceeds(versions: seq<StackVersion>, n: nat, m: UseMap, previous: seq<VersionStatus>,
                                           w: StackWorld)
    requires n <= |versions| && ImagesParse(versions, w.repository)
    ensures Rebuild(versions, n, m, previous, w).ok
  {
    if n != 0 {
      RebuildSucceeds(versions, n - 1, m, previous, w);
      RebuildAt(versions, n - 1, m, previous, w);
      assert versions[n - 1] in versions;
    }
  }

  // ---------------------------------------------------------------- every step keeps the invariant

  lemma UnguardedOwnsNothing(s: System, u: Uid, archives: Uid -> Archive)
    requires StacksKept(s.objects, s.stacks, archives) && KabanerosKept(s.objects, s.kabaneros, archives)
    requires (u in s.stacks && FINALIZER !in s.stacks[u].state.finalizers) ||
             (u in s.kabaneros && KABANERO_FINALIZER !in s.kabaneros[u].state.finalizers)
    ensures forall id :: !Owns(s.objects, u, id)
  {
    if u in s.stacks && FINALIZER !in s.stacks[u].state.finalizers {
      assert StackKept(s.objects, u, s.stacks[u], archives(u));
    } else {
      assert KabaneroKept(s.objects, u, s.kabaneros[u], archives(u));
    }
  }

  lemma SettledLivingOwn(s: System, archives: Uid -> Archive)
    requires OnlyLivingOwn(s)
    requires StacksKept(s.objects, s.stacks, archives) && KabanerosKept(s.objects, s.kabaneros, archives)
    ensures OnlyLivingOwn(Settle(s))
  {
    var s' := Settle(s);
    forall u, id | u in s'.used && Owns(s'.objects, u, id)
      ensures u in s'.stacks || u in s'.kabaneros
    {
      if u !in s'.stacks && u !in s'.kabaneros {
        UnguardedOwnsNothing(s, u, archives);
      }
    }
  }

  lemma SettledOwnersLive(s: System)
    requires OwnersLive(s.stacks, s.kabaneros, s.used) && AtHome(s.kabaneros, s.used)
    ensures OwnersLive(Settle(s).stacks, Settle(s).kabaneros, s.used) && AtHome(Settle(s).kabaneros, s.used)
  {}

  lemma SettleKeepsInv(s: System, archives: Uid -> Archive)
    requires Inv(s, archives)
    ensures Inv(Settle(s), archives)
  {
    SettledLivingOwn(s, archives);
    SettledOwnersLive(s);
    StacksKeptFrame(s.objects, s.objects, s.stacks, LiveStacks(s.stacks), archives);
    KabanerosKeptFrame(s.objects, s.objects, s.kabaneros, LiveKabaneros(s.kabaneros), archives);
  }

  lemma StacksKeptFrame(objects: Objects, objects': Objects, stacks: map<Uid, StackMember>,
                        stacks': map<Uid, StackMember>, archives: Uid -> Archive)
    requires StacksKept(objects, stacks, archives)
    requires forall u :: u in stacks' ==>
      StackKept(objects', u, stacks'[u], archives(u)) ||
      (u in stacks && stacks'[u] == stacks[u] && SameOwner(objects, objects', u))
    ensures StacksKept(objects', stacks', archives)
  {
    forall u | u in stacks'
      ensures StackKept(objects', u, stacks'[u], archives(u))
    {
      if !StackKept(objects', u, stacks'[u], archives(u)) {
        var m := stacks[u];
        assert StackKept(objects, u, m, archives(u));
        KeptBySameOwner(objects, objects', u, SpecVersions(m.state.versions), StatusVersions(m.state.status.versions),
                        m.namespace, FINALIZER in m.state.finalizers, archives(u));
      }
    }
  }

  lemma KabanerosKeptFrame(objects: Objects, objects': Objects, kabaneros: map<Uid, KabaneroMember>,
                           kabaneros': map<Uid, KabaneroMember>, archives: Uid -> Archive)
    requires KabanerosKept(objects, kabaneros, archives)
    requires forall u :: u in kabaneros' ==>
      KabaneroKept(objects', u, kabaneros'[u], archives(u)) ||
      (u in kabaneros && kabaneros'[u] == kabaneros[u] && SameOwner(objects, objects', u))
    ensures KabanerosKept(objects', kabaneros', archives)
  {
    forall u | u in kabaneros'
      ensures KabaneroKept(objects', u, kabaneros'[u], archives(u))
    {
      if !KabaneroKept(objects', u, kabaneros'[u], archives(u)) {
        var m := kabaneros[u];
        assert KabaneroKept(objects, u, m, archives(u));
        KeptBySameOwner(objects, objects', u, GitopsSpec(m.state.gitops), GitopsVersions(m.state.status.pipelines),
                        m.namespace, KABANERO_FINALIZER in m.state.finalizers, archives(u));
      }
    }
  }

  lemma OneStackKept(objects: Objects, objects': Objects, stacks: map<Uid, StackMember>, uid: Uid, m: StackMember,
                     archives: Uid -> Archive)
    requires StacksKept(objects, stacks, archives) && StackKept(objects', uid, m, archives(uid))
    requires forall u :: u != uid ==> SameOwner(objects, objects', u)
    ensures StacksKept(objects', stacks[uid := m], archives)
  {
    StacksKeptFrame(objects, objects', stacks, stacks[uid := m], archives);
  }

  lemma OneKabaneroKept(objects: Objects, objects': Objects, kabaneros: map<Uid, KabaneroMember>, uid: Uid,
                        m: KabaneroMember, archives: Uid -> Archive)
    requires KabanerosKept(objects, kabaneros, archives) && KabaneroKept(objects', uid, m, archives(uid))
    requires forall u :: u != uid ==> SameOwner(objects, objects', u)
    ensures KabanerosKept(objects', kabaneros[uid := m], archives)
  {
    KabanerosKeptFrame(objects, objects', kabaneros, kabaneros[uid := m], archives);
  }

  lemma OtherStacksKept(objects: Objects, objects': Objects, stacks: map<Uid, StackMember>, archives: Uid -> Archive)
    requires StacksKept(objects, stacks, archives)
    requires forall u :: u in stacks ==> SameOwner(objects, objects', u)
    ensures StacksKept(objects', stacks, archives)
  {
    StacksKeptFrame(objects, objects', stacks, stacks, archives);
  }

  lemma OtherKabanerosKept(objects: Objects, objects': Objects, kabaneros: map<Uid, KabaneroMember>,
                           archives: Uid -> Archive)
    requires KabanerosKept(objects, kabaneros, archives)
    requires forall u :: u in kabaneros ==> SameOwner(objects, objects', u)
    ensures KabanerosKept(objects', kabaneros, archives)
  {
    KabanerosKeptFrame(objects, objects', kabaneros, kabaneros, archives);
  }

  lemma SetStackOwners(s: System, uid: Uid, state: StackState)
    requires OwnersLive(s.stacks, s.kabaneros, s.used) && uid in s.stacks
    ensures OwnersLive(SetStack(s, uid, state).stacks, s.kabaneros, s.used)
  {}

  lemma SetKabaneroOwners(s: System, uid: Uid, state: KabaneroState)
    requires OwnersLive(s.stacks, s.kabaneros, s.used) && AtHome(s.kabaneros, s.used) && uid in s.kabaneros
    requires OwnsStacks(s.stacks, uid, s.kabaneros[uid].namespace) ==> KABANERO_FINALIZER in state.finalizers
    ensures OwnersLive(s.stacks, SetKabanero(s, uid, state).kabaneros, s.used)
    ensures AtHome(SetKabanero(s, uid, state).kabaneros, s.used)
  {
    forall u, k | u in s.stacks && k in s.stacks[u].owners
      ensures OwnerLives(SetKabanero(s, uid, state).kabaneros, s.used, k, s.stacks[u].namespace)
    {
      assert OwnerLives(s.kabaneros, s.used, k, s.stacks[u].namespace);
      assert k == uid && s.used[k] == s.stacks[u].namespace ==> BelongsTo(s.stacks[u], uid, s.kabaneros[uid].namespace);
    }
  }

  /** A step of one stack, seen from the whole system. */
  lemma StackStepKeepsInv(s: System, objects: Objects, uid: Uid, state: StackState, archives: Uid -> Archive)
    requires Inv(s, archives) && uid in s.stacks
    requires StackKept(objects, uid, s.stacks[uid].(state := state), archives(uid))
    requires forall u :: u != uid ==> SameOwner(s.objects, objects, u)
    ensures Inv(SetStack(s.(objects := objects), uid, state), archives)
  {
    OneStackKept(s.objects, objects, s.stacks, uid, s.stacks[uid].(state := state), archives);
    OtherKabanerosKept(s.objects, objects, s.kabaneros, archives);
    SetStackOwners(s, uid, state);
    OnlyLivingOwnFrame(s, objects, uid);
  }

  /** A step of one Kabanero, seen from the whole system. */
  lemma KabaneroStepKeepsInv(s: System, objects: Objects, uid: Uid, state: KabaneroState, archives: Uid -> Archive)
    requires Inv(s, archives) && uid in s.kabaneros
    requires KabaneroKept(objects, uid, s.kabaneros[uid].(state := state), archives(uid))
    requires OwnsStacks(s.stacks, uid, s.kabaneros[uid].namespace) ==> KABANERO_FINALIZER in state.finalizers
    requires forall u :: u != uid ==> SameOwner(s.objects, objects, u)
    ensures Inv(SetKabanero(s.(objects := objects), uid, state), archives)
  {
    OneKabaneroKept(s.objects, objects, s.kabaneros, uid, s.kabaneros[uid].(state := state), archives);
    OtherStacksKept(s.objects, objects, s.stacks, archives);
    SetKabaneroOwners(s, uid, state);
    OnlyLivingOwnFrame(s, objects, uid);
  }

  predicate IsMember(s: System, u: Uid) {
    u in s.stacks || u in s.kabaneros
  }

  lemma OnlyLivingOwnFrame(s: System, objects: Objects, uid: Uid)
    requires OnlyLivingOwn(s) && IsMember(s, uid)
    requires forall u :: u != uid ==> SameOwner(s.objects, objects, u)
    ensures forall u, id :: u in s.used && Owns(objects, u, id) ==> IsMember(s, u)
  {
    forall u, id | u in s.used && Owns(objects, u, id)
      ensures IsMember(s, u)
    {
      if u != uid {
        assert SameOwner(s.objects, objects, u);
      }
    }
  }

  /** Reconciling a stack. */
  lemma ReconciledStackKept(objects: Objects, uid: Uid, m: StackMember, order: seq<UseKey>, w: StackWorld,
                            archive: Archive)
    requires StackKept(objects, uid, m, archive) && Faithful(w.pipelines, archive) && WellNamed(archive)
    requires ImagesParse(m.state.versions, w.repository)
    requires IsOrder(order, Count(SpecVersions(m.state.versions), StatusVersions(m.state.status.versions)).Keys)
    ensures var r := Reconciled(objects, m.state, m.name, m.namespace, uid, order, w);
      && StackKept(r.objects, uid, m.(state := r.state.(versions := m.state.versions)), archive)
      && forall u :: u != uid ==> SameOwner(objects, r.objects, u)
  {
    var spec, status := SpecVersions(m.state.versions), StatusVersions(m.state.status.versions);
    DropFinalizerKeeps(m.state.finalizers, FINALIZER);
    if m.state.deleting {
      var targets := StatusTargets(m.state.status.versions, m.namespace);
      forall v, p, a | v in status && p in v.pipelines && a in p.activeAssets && IsReleasable(a)
        ensures IdOf(Namespaced(a, m.namespace)) in targets
      {
        var i :| 0 <= i < |status| && status[i] == v;
        assert m.state.status.versions[i] in m.state.status.versions && p in m.state.status.versions[i].pipelines;
      }
      CleanupReleasesAll(objects, uid, status, archive, m.namespace, targets);
    } else if IsStackId(m.name) {
      ActivationKeepsAccuracy(objects, spec, status, order, m.namespace, uid, w.pipelines, archive);
      var p := Activate(objects, spec, status, order, m.namespace, uid, w.pipelines);
      RebuildSucceeds(m.state.versions, |m.state.versions|, p.useMap, m.state.status.versions, w);
      RebuildIsStatus(m.state.versions, p.useMap, m.state.status.versions, w);
    }
  }

  /** Reconciling or tearing down a Kabanero. */
  lemma ReconciledGitopsKept(objects: Objects, uid: Uid, m: KabaneroMember, order: seq<UseKey>, world: World,
                             archive: Archive)
    requires KabaneroKept(objects, uid, m, archive) && Faithful(world, archive) && WellNamed(archive)
    requires !m.state.deleting
    requires IsOrder(order, Count(GitopsSpec(m.state.gitops), GitopsVersions(m.state.status.pipelines)).Keys)
    ensures var r := ReconciledGitops(objects, WithFinalizer(m.state), m.namespace, uid, order, world);
      && KabaneroKept(r.objects, uid, m.(state := r.state), archive)
      && KABANERO_FINALIZER in r.state.finalizers
      && forall u :: u != uid ==> SameOwner(objects, r.objects, u)
  {
    var spec, status := GitopsSpec(m.state.gitops), GitopsVersions(m.state.status.pipelines);
    ActivationKeepsAccuracy(objects, spec, status, order, m.namespace, uid, world, archive);
    var p := Activate(objects, spec, status, order, m.namespace, uid, world);
    assert RebuildStatus(spec, p.useMap) == GitopsVersions(NewGitopsStatus(m.state.gitops, p.useMap).pipelines);
  }

  lemma TornDownKabaneroKept(objects: Objects, uid: Uid, m: KabaneroMember, ownsStacks: bool, errors: CleanupErrors,
                             archive: Archive)
    requires KabaneroKept(objects, uid, m, archive) && m.state.deleting
    ensures var r := ProcessedKabaneroDeletion(objects, m.state, ownsStacks, m.namespace, uid, errors);
      && KabaneroKept(r.objects, uid, m.(state := r.state), archive)
      && (ownsStacks ==> r.state == m.state)
      && forall u :: u != uid ==> SameOwner(objects, r.objects, u)
  {
    var status := GitopsVersions(m.state.status.pipelines);
    var targets := PipelineTargets(m.state.status.pipelines, m.namespace);
    DropFinalizerKeeps(m.state.finalizers, KABANERO_FINALIZER);
    forall v, p, a | v in status && p in v.pipelines && a in p.activeAssets && IsReleasable(a)
      ensures IdOf(Namespaced(a, m.namespace)) in targets
    {}
    CleanupReleasesAll(objects, uid, status, archive, m.namespace, targets);
  }

  /** A stack that is asked to go is still kept. */
  lemma DeleteOwnedKeepsInv(s: System, uid: Uid, namespace: string, archives: Uid -> Archive)
    requires Inv(s, archives)
    ensures Inv(s.(stacks := DeleteOwned(s.stacks, uid, namespace)), archives)
  {
    var stacks := DeleteOwned(s.stacks, uid, namespace);
    forall u | u in stacks ensures StackKept(s.objects, u, stacks[u], archives(u)) {
      assert StackKept(s.objects, u, s.stacks[u], archives(u));
    }
    DeleteOwnedKeepsOwners(s, uid, namespace);
  }

  lemma DeleteOwnedKeepsOwners(s: System, uid: Uid, namespace: string)
    requires OwnersLive(s.stacks, s.kabaneros, s.used)
    ensures OwnersLive(DeleteOwned(s.stacks, uid, namespace), s.kabaneros, s.used)
  {
    var stacks := DeleteOwned(s.stacks, uid, namespace);
    assert forall u :: u in stacks ==>
      u in s.stacks && stacks[u].owners == s.stacks[u].owners && stacks[u].namespace == s.stacks[u].namespace;
  }

  lemma NewComponentKept(objects: Objects, uid: Uid, spec: seq<SpecVersion>, status: seq<StatusVersion>,
                         namespace: string, archive: Archive)
    requires (forall id :: !Owns(objects, uid, id)) && namespace != "" && Distinct(SpecUses(spec))
    requires StatusListing(status) == []
    ensures Kept(objects, uid, spec, status, namespace, false, archive)
  {
    assert StatusUses(status) == [];
  }

  lemma NewStackKept(objects: Objects, uid: Uid, m: StackMember, archive: Archive)
    requires (forall id :: !Owns(objects, uid, id)) && m.namespace != "" &&
      Distinct(SpecUses(SpecVersions(m.state.versions)))
    requires m.state.status.versions == [] && !m.state.deleting && FINALIZER !in m.state.finalizers
    ensures StackKept(objects, uid, m, archive)
  {
    NewComponentKept(objects, uid, SpecVersions(m.state.versions), StatusVersions([]), m.namespace, archive);
  }

  lemma CreateStackKeepsInv(s: System, step: Step, archives: Uid -> Archive)
    requires Inv(s, archives) && step.CreateStack? && Enabled(s, step, archives)
    ensures Inv(Next(s, step, archives), archives)
  {
    var m := StackMember(step.name, step.namespace, step.owners,
                         StackState(step.versions, StackStatus("", []), step.finalizers, false));
    NewStackKept(s.objects, step.uid, m, archives(step.uid));
    OneStackKept(s.objects, s.objects, s.stacks, step.uid, m, archives);
    NewOwnersLive(s, step.uid, m);
  }

  lemma NewOwnersLive(s: System, uid: Uid, m: StackMember)
    requires OwnersLive(s.stacks, s.kabaneros, s.used) && AtHome(s.kabaneros, s.used) && uid !in s.used
    requires forall k :: k in m.owners ==> OwnerLives(s.kabaneros, s.used, k, m.namespace)
    ensures OwnersLive(s.stacks[uid := m], s.kabaneros, s.used[uid := m.namespace])
    ensures AtHome(s.kabaneros, s.used[uid := m.namespace])
  {}

  lemma NewKabaneroKept(objects: Objects, uid: Uid, m: KabaneroMember, archive: Archive)
    requires (forall id :: !Owns(objects, uid, id)) && m.namespace != "" &&
      Distinct(SpecUses(GitopsSpec(m.state.gitops)))
    requires m.state.status.pipelines == [] && !m.state.deleting && KABANERO_FINALIZER !in m.state.finalizers
    ensures KabaneroKept(objects, uid, m, archive)
  {
    assert StatusListing(GitopsVersions([])) == [];
    NewComponentKept(objects, uid, GitopsSpec(m.state.gitops), GitopsVersions([]), m.namespace, archive);
  }

  lemma CreateKabaneroKeepsInv(s: System, step: Step, archives: Uid -> Archive)
    requires Inv(s, archives) && step.CreateKabanero? && Enabled(s, step, archives)
    ensures Inv(Next(s, step, archives), archives)
  {
    var m := KabaneroMember(step.namespace, NewKabanero(step.gitops, step.finalizers));
    NewKabaneroKept(s.objects, step.uid, m, archives(step.uid));
    OneKabaneroKept(s.objects, s.objects, s.kabaneros, step.uid, m, archives);
    MoreKabanerosOwnersLive(s, step.uid, m);
  }

  lemma MoreKabanerosOwnersLive(s: System, uid: Uid, m: KabaneroMember)
    requires OwnersLive(s.stacks, s.kabaneros, s.used) && AtHome(s.kabaneros, s.used) && uid !in s.used
    ensures OwnersLive(s.stacks, s.kabaneros[uid := m], s.used[uid := m.namespace])
    ensures AtHome(s.kabaneros[uid := m], s.used[uid := m.namespace])
  {}

  /** Editing the spec, asking for the deletion or dropping another finalizer touches no object. */
  lemma StackEditKeepsInv(s: System, uid: Uid, state: StackState, archives: Uid -> Archive)
    requires Inv(s, archives) && uid in s.stacks
    requires Distinct(SpecUses(SpecVersions(state.versions))) && state.status == s.stacks[uid].state.status
    requires s.stacks[uid].state.deleting ==> state.deleting
    requires FINALIZER in s.stacks[uid].state.finalizers ==> FINALIZER in state.finalizers
    ensures Inv(SetStack(s, uid, state), archives)
  {
    assert StackKept(s.objects, uid, s.stacks[uid], archives(uid));
    assert StackKept(s.objects, uid, s.stacks[uid].(state := state), archives(uid));
    StackStepKeepsInv(s, s.objects, uid, state, archives);
  }

  lemma KabaneroEditKeepsInv(s: System, uid: Uid, state: KabaneroState, archives: Uid -> Archive)
    requires Inv(s, archives) && uid in s.kabaneros
    requires Distinct(SpecUses(GitopsSpec(state.gitops))) && state.status == s.kabaneros[uid].state.status
    requires s.kabaneros[uid].state.deleting ==> state.deleting
    requires KABANERO_FINALIZER in s.kabaneros[uid].state.finalizers ==> KABANERO_FINALIZER in state.finalizers
    ensures Inv(SetKabanero(s, uid, state), archives)
  {
    assert KabaneroKept(s.objects, uid, s.kabaneros[uid], archives(uid));
    assert KabaneroKept(s.objects, uid, s.kabaneros[uid].(state := state), archives(uid));
    KabaneroStepKeepsInv(s, s.objects, uid, state, archives);
  }

  lemma MemberKept(s: System, u: Uid, archives: Uid -> Archive)
    requires Inv(s, archives)
    ensures u in s.stacks ==> StackKept(s.objects, u, s.stacks[u], archives(u))
    ensures u in s.stacks ==> Distinct(SpecUses(SpecVersions(s.stacks[u].state.versions)))
    ensures u in s.kabaneros ==> KabaneroKept(s.objects, u, s.kabaneros[u], archives(u))
    ensures u in s.kabaneros ==> Distinct(SpecUses(GitopsSpec(s.kabaneros[u].state.gitops)))
  {}

  lemma MetadataStepKeepsInv(s: System, step: Step, archives: Uid -> Archive)
    requires Inv(s, archives) && (step.RequestDeletion? || step.DropOther?) && Enabled(s, step, archives)
    ensures Inv(Next(s, step, archives), archives)
  {
    var uid := step.uid;
    MemberKept(s, uid, archives);
    if uid in s.stacks {
      var m := s.stacks[uid].state;
      var state := if step.RequestDeletion? then m.(deleting := true)
                   else m.(finalizers := DropFinalizer(m.finalizers, step.finalizer));
      if step.DropOther? { DropFinalizerKeeps(m.finalizers, step.finalizer); }
      StackEditKeepsInv(s, uid, state, archives);
      SettleKeepsInv(SetStack(s, uid, state), archives);
    } else if uid in s.kabaneros {
      var m := s.kabaneros[uid].state;
      var state := if step.RequestDeletion? then m.(deleting := true)
                   else m.(finalizers := DropFinalizer(m.finalizers, step.finalizer));
      if step.DropOther? { DropFinalizerKeeps(m.finalizers, step.finalizer); }
      KabaneroEditKeepsInv(s, uid, state, archives);
      SettleKeepsInv(SetKabanero(s, uid, state), archives);
    } else {
      SettleKeepsInv(s, archives);
    }
  }

  lemma ReconcileStackKeepsInv(s: System, step: Step, archives: Uid -> Archive)
    requires (forall u :: WellNamed(archives(u)))
    requires Inv(s, archives) && step.ReconcileStack? && Enabled(s, step, archives)
    ensures Inv(Next(s, step, archives), archives)
  {
    var uid := step.uid;
    var m := s.stacks[uid];
    MemberKept(s, uid, archives);
    ReconciledStackKept(s.objects, uid, m, step.order, step.w, archives(uid));
    var r := Reconciled(s.objects, m.state, m.name, m.namespace, uid, step.order, step.w);
    StackStepKeepsInv(s, r.objects, uid, r.state.(versions := m.state.versions), archives);
    SettleKeepsInv(ReconcileStackStep(s, uid, step.order, step.w), archives);
  }

  lemma LivingKabaneroKeepsInv(s: System, uid: Uid, order: seq<UseKey>, world: World, errors: CleanupErrors,
                               archives: Uid -> Archive)
    requires (forall u :: WellNamed(archives(u))) && Inv(s, archives)
    requires Enabled(s, ReconcileKabanero(uid, order, world, errors), archives) && !s.kabaneros[uid].state.deleting
    ensures Inv(ReconcileKabaneroStep(s, uid, order, world, errors), archives)
  {
    var m := s.kabaneros[uid];
    MemberKept(s, uid, archives);
    ReconciledGitopsKept(s.objects, uid, m, order, world, archives(uid));
    var r := ReconciledGitops(s.objects, WithFinalizer(m.state), m.namespace, uid, order, world);
    KabaneroStepKeepsInv(s, r.objects, uid, r.state, archives);
  }

  lemma ReconcileKabaneroKeepsInv(s: System, step: Step, archives: Uid -> Archive)
    requires (forall u :: WellNamed(archives(u)))
    requires Inv(s, archives) && step.ReconcileKabanero? && Enabled(s, step, archives)
    ensures Inv(Next(s, step, archives), archives)
  {
    if s.kabaneros[step.uid].state.deleting {
      TearDownKeepsInv(s, step.uid, step.errors, archives);
    } else {
      LivingKabaneroKeepsInv(s, step.uid, step.order, step.world, step.errors, archives);
    }
    SettleKeepsInv(ReconcileKabaneroStep(s, step.uid, step.order, step.world, step.errors), archives);
  }

  lemma TearDownKeepsInv(s: System, uid: Uid, errors: CleanupErrors, archives: Uid -> Archive)
    requires Inv(s, archives) && uid in s.kabaneros && s.kabaneros[uid].state.deleting
    ensures var m := s.kabaneros[uid];
      var r := ProcessedKabaneroDeletion(s.objects, m.state, OwnsStacks(s.stacks, uid, m.namespace), m.namespace, uid,
                                         errors);
      && Inv(SetKabanero(s.(objects := r.objects), uid, r.state), archives)
      && Inv(SetKabanero(s.(objects := r.objects, stacks := DeleteOwned(s.stacks, uid, m.namespace)), uid, r.state),
             archives)
  {
    var m := s.kabaneros[uid];
    MemberKept(s, uid, archives);
    TornDownKabaneroKept(s.objects, uid, m, OwnsStacks(s.stacks, uid, m.namespace), errors, archives(uid));
    var r := ProcessedKabaneroDeletion(s.objects, m.state, OwnsStacks(s.stacks, uid, m.namespace), m.namespace, uid,
                                       errors);
    OwnedHasFinalizer(s, uid);
    KabaneroStepKeepsInv(s, r.objects, uid, r.state, archives);
    var s' := SetKabanero(s.(objects := r.objects), uid, r.state);
    DeleteOwnedKeepsInv(s', uid, m.namespace, archives);
    assert SetKabanero(s.(objects := r.objects, stacks := DeleteOwned(s.stacks, uid, m.namespace)), uid, r.state) ==
           s'.(stacks := DeleteOwned(s'.stacks, uid, m.namespace));
  }

  lemma OwnedHasFinalizer(s: System, uid: Uid)
    requires OwnersLive(s.stacks, s.kabaneros, s.used) && AtHome(s.kabaneros, s.used) && uid in s.kabaneros
    ensures OwnsStacks(s.stacks, uid, s.kabaneros[uid].namespace) ==>
      KABANERO_FINALIZER in s.kabaneros[uid].state.finalizers
  {
    if u :| u in s.stacks && BelongsTo(s.stacks[u], uid, s.kabaneros[uid].namespace) {
      assert OwnerLives(s.kabaneros, s.used, uid, s.stacks[u].namespace);
    }
  }

  lemma ForeignKeepsInv(s: System, step: Step, archives: Uid -> Archive)
    requires Inv(s, archives) && step.Foreign? && Enabled(s, step, archives)
    ensures Inv(Next(s, step, archives), archives)
  {
    var objects := Next(s, step, archives).objects;
    assert forall u, id :: u in s.used && Owns(objects, u, id) ==> Owns(s.objects, u, id);
    forall u | u in s.stacks ensures StackKept(objects, u, s.stacks[u], archives(u)) {
      assert StackKept(s.objects, u, s.stacks[u], archives(u));
    }
    forall u | u in s.kabaneros ensures KabaneroKept(objects, u, s.kabaneros[u], archives(u)) {
      assert KabaneroKept(s.objects, u, s.kabaneros[u], archives(u));
    }
  }

  lemma EditKeepsInv(s: System, step: Step, archives: Uid -> Archive)
    requires Inv(s, archives) && (step.EditStack? || step.EditGitops?) && Enabled(s, step, archives)
    ensures Inv(Next(s, step, archives), archives)
  {
    MemberKept(s, step.uid, archives);
    if step.EditStack? {
      StackEditKeepsInv(s, step.uid, s.stacks[step.uid].state.(versions := step.versions), archives);
    } else {
      KabaneroEditKeepsInv(s, step.uid, s.kabaneros[step.uid].state.(gitops := step.gitops), archives);
    }
  }

  lemma StepKeepsInv(s: System, step: Step, archives: Uid -> Archive)
    requires (forall u :: WellNamed(archives(u))) && Inv(s, archives) && Enabled(s, step, archives)
    ensures Inv(Next(s, step, archives), archives)
  {
    if step.CreateStack? {
      CreateStackKeepsInv(s, step, archives);
    } else if step.CreateKabanero? {
      CreateKabaneroKeepsInv(s, step, archives);
    } else if step.EditStack? || step.EditGitops? {
      EditKeepsInv(s, step, archives);
    } else if step.RequestDeletion? || step.DropOther? {
      MetadataStepKeepsInv(s, step, archives);
    } else if step.ReconcileStack? {
      ReconcileStackKeepsInv(s, step, archives);
    } else if step.ReconcileKabanero? {
      ReconcileKabaneroKeepsInv(s, step, archives);
    } else {
      ForeignKeepsInv(s, step, archives);
    }
  }

  // ---------------------------------------------------------------- runs

  /** A run starts without any component and takes enabled steps. */
  ghost predicate IsRun(states: seq<System>, steps: seq<Step>, archives: Uid -> Archive) {
    && |states| == |steps| + 1 && states[0].stacks == map[] && states[0].kabaneros == map[] && states[0].used == map[]
    && forall i :: 0 <= i < |steps| ==>
      Enabled(states[i], steps[i], archives) && states[i + 1] == Next(states[i], steps[i], archives)
  }

  lemma {:induction false} RunKeepsInv(states: seq<System>, steps: seq<Step>, archives: Uid -> Archive, n: nat)
    requires (forall u :: WellNamed(archives(u))) && IsRun(states, steps, archives) && n < |states|
    ensures Inv(states[n], archives)
  {
    if n != 0 {
      RunKeepsInv(states, steps, archives, n - 1);
      StepKeepsInv(states[n - 1], steps[n - 1], archives);
    }
  }

  /** Teardown over runs: a component that has vanished, or does not hold its finalizer yet or any more,
      is named as owner by no object; and every Kabanero that a stack of its namespace names as owner still exists. */
  lemma TeardownLeavesNothing(states: seq<System>, steps: seq<Step>, archives: Uid -> Archive, n: nat)
    requires (forall u :: WellNamed(archives(u))) && IsRun(states, steps, archives) && n < |states|
    ensures var s := states[n];
      && (forall u, id :: u in s.used && u !in s.stacks && u !in s.kabaneros ==> !Owns(s.objects, u, id))
      && (forall u, id :: u in s.stacks && FINALIZER !in s.stacks[u].state.finalizers ==> !Owns(s.objects, u, id))
      && (forall u, id :: u in s.kabaneros && KABANERO_FINALIZER !in s.kabaneros[u].state.finalizers ==>
            !Owns(s.objects, u, id))
      && (forall u, k :: u in s.stacks && k in s.stacks[u].owners ==>
            k in s.used && (s.used[k] == s.stacks[u].namespace ==> k in s.kabaneros))
  {
    RunKeepsInv(states, steps, archives, n);
    forall u, k | u in states[n].stacks && k in states[n].stacks[u].owners
      ensures OwnerLives(states[n].kabaneros, states[n].used, k, states[n].stacks[u].namespace)
    {}
    forall u, id | (u in states[n].stacks && FINALIZER !in states[n].stacks[u].state.finalizers) ||
                   (u in states[n].kabaneros && KABANERO_FINALIZER !in states[n].kabaneros[u].state.finalizers)
      ensures !Owns(states[n].objects, u, id)
    {
      UnguardedOwnsNothing(states[n], u, archives);
    }
  }

  /** A teardown without errors lets go of the Kabanero exactly when no stack of its own namespace names it. */
  lemma TeardownWaitsExactly(s: System, step: Step, archives: Uid -> Archive)
    requires step.ReconcileKabanero? && Enabled(s, step, archives) && step.errors == CleanupErrors(false, false, false)
    requires s.kabaneros[step.uid].state.deleting && s.kabaneros[step.uid].state.finalizers == [KABANERO_FINALIZER]
    ensures step.uid in Next(s, step, archives).kabaneros <==>
      OwnsStacks(s.stacks, step.uid, s.kabaneros[step.uid].namespace)
  {
    assert DropFinalizer([KABANERO_FINALIZER], KABANERO_FINALIZER) == [];
  }

  /** A stack of another namespace is not waited for: its Kabanero vanishes, and it stays and is not asked to go. */
  lemma ForeignStackIsLeftBehind(s: System, step: Step, archives: Uid -> Archive, u: Uid)
    requires step.ReconcileKabanero? && Enabled(s, step, archives) && step.errors == CleanupErrors(false, false, false)
    requires s.kabaneros[step.uid].state.deleting && s.kabaneros[step.uid].state.finalizers == [KABANERO_FINALIZER]
    requires u in s.stacks && step.uid in s.stacks[u].owners && !s.stacks[u].state.deleting
    requires forall v :: v in s.stacks && step.uid in s.stacks[v].owners ==>
      s.stacks[v].namespace != s.kabaneros[step.uid].namespace
    ensures var next := Next(s, step, archives);
      step.uid !in next.kabaneros && u in next.stacks && next.stacks[u] == s.stacks[u]
  {
    TeardownWaitsExactly(s, step, archives);
    assert !BelongsTo(s.stacks[u], step.uid, s.kabaneros[step.uid].namespace);
    assert DeleteOwned(s.stacks, step.uid, s.kabaneros[step.uid].namespace)[u] == s.stacks[u];
  }
}
