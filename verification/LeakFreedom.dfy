/** Nothing is left behind: in a cluster where only the components write, every object always has a component that
    holds its finalizer and either owns the object or lists it as active, and so will let go of it in time. */
module LeakFreedom {
  import opened Component
  import opened UseCounts
  import opened Cluster
  import opened Activation
  import opened Ownership
  import opened Accuracy
  import opened Creation
  import opened StackController
  import opened KabaneroController
  import opened Runs
  import opened Holdings

  /** The component is responsible for the object. */
  ghost predicate AnswersFor(s: System, u: Uid, id: ObjectId) {
    IsMember(s, u) && Guarded(s, u) && (Owns(s.objects, u, id) || ListsActive(StatusOf(s, u), id))
  }

  ghost predicate NoLeak(s: System) {
    forall id :: id in s.objects ==> NoLeakAt(s, id)
  }

  /** Its owners are known components, and somebody answers for it. */
  ghost predicate NoLeakAt(s: System, id: ObjectId)
    requires id in s.objects
  {
    (forall o :: o in s.objects[id] ==> o in s.used) && exists u :: AnswersFor(s, u, id)
  }

  /** A known owner is alive and holds its finalizer. */
  lemma OwnerAnswers(s: System, u: Uid, archives: Uid -> Archive, id: ObjectId)
    requires Inv(s, archives) && u in s.used && Owns(s.objects, u, id)
    ensures AnswersFor(s, u, id)
  {
    assert u in s.stacks || u in s.kabaneros;
    MemberInv(s, u, archives);
  }

  /** Who answers for an object lists it. */
  lemma AnsweringLists(s: System, u: Uid, archives: Uid -> Archive, id: ObjectId)
    requires Inv(s, archives) && AnswersFor(s, u, id)
    ensures ListsActive(StatusOf(s, u), id)
  {
    MemberInv(s, u, archives);
  }

  /** The component is there and guarded as before, with the same status and the same objects in the cluster. */
  ghost predicate GuardedAsBefore(s: System, next: System, u: Uid)
    requires IsMember(s, u)
  {
    IsMember(next, u) && Guarded(next, u) && StatusOf(next, u) == StatusOf(s, u) && next.objects == s.objects
  }

  lemma DropKeepsGuarded(s: System, step: Step, u: Uid, archives: Uid -> Archive)
    requires Apart(s) && Enabled(s, step, archives) && step.DropOther? && IsMember(s, u) && Guarded(s, u)
    ensures GuardedAsBefore(s, Next(s, step, archives), u)
  {
    if step.uid == u {
      DropFinalizerKeeps(if u in s.stacks then s.stacks[u].state.finalizers else s.kabaneros[u].state.finalizers,
                         step.finalizer);
    }
  }

  lemma CreationKeepsGuarded(s: System, step: Step, u: Uid, archives: Uid -> Archive)
    requires Enabled(s, step, archives) && (step.CreateStack? || step.CreateKabanero?) && IsMember(s, u)
    requires Apart(s) && u in s.used && Guarded(s, u)
    ensures GuardedAsBefore(s, Next(s, step, archives), u)
  {
    assert step.uid != u;
  }

  lemma EditKeepsGuarded(s: System, step: Step, u: Uid, archives: Uid -> Archive)
    requires Enabled(s, step, archives) && (step.EditStack? || step.EditGitops? || step.RequestDeletion?)
    requires Apart(s) && IsMember(s, u) && Guarded(s, u)
    ensures GuardedAsBefore(s, Next(s, step, archives), u)
  {}

  /** Editing, creating and asking for deletion leave guarded components and their statuses alone. */
  lemma QuietKeepsGuarded(s: System, step: Step, u: Uid, archives: Uid -> Archive)
    requires Apart(s) && Enabled(s, step, archives) && IsQuiet(step) && IsMember(s, u) && u in s.used && Guarded(s, u)
    ensures GuardedAsBefore(s, Next(s, step, archives), u)
  {
    if step.CreateStack? || step.CreateKabanero? {
      CreationKeepsGuarded(s, step, u, archives);
    } else if step.DropOther? {
      DropKeepsGuarded(s, step, u, archives);
    } else {
      EditKeepsGuarded(s, step, u, archives);
    }
  }

  lemma QuietKeepsAnswer(s: System, step: Step, u: Uid, archives: Uid -> Archive, id: ObjectId)
    requires Inv(s, archives) && Enabled(s, step, archives) && IsQuiet(step) && AnswersFor(s, u, id)
    ensures AnswersFor(Next(s, step, archives), u, id)
  {
    MemberInv(s, u, archives);
    QuietKeepsGuarded(s, step, u, archives);
  }

  lemma QuietLeaksNothing(s: System, step: Step, archives: Uid -> Archive)
    requires Inv(s, archives) && Enabled(s, step, archives) && IsQuiet(step) && NoLeak(s)
    ensures NoLeak(Next(s, step, archives))
  {
    var next := Next(s, step, archives);
    forall id | id in next.objects ensures NoLeakAt(next, id) {
      assert NoLeakAt(s, id);
      var u :| AnswersFor(s, u, id);
      QuietKeepsAnswer(s, step, u, archives, id);
    }
  }

  lemma StackKeepsGuarded(s: System, step: Step, u: Uid, archives: Uid -> Archive)
    requires Apart(s) && Enabled(s, step, archives) && step.ReconcileStack? && step.uid != u
    requires IsMember(s, u) && Guarded(s, u)
    ensures var next := Next(s, step, archives);
      IsMember(next, u) && Guarded(next, u) && StatusOf(next, u) == StatusOf(s, u)
  {}

  lemma KabaneroKeepsGuarded(s: System, step: Step, u: Uid, archives: Uid -> Archive)
    requires Apart(s) && Enabled(s, step, archives) && step.ReconcileKabanero? && step.uid != u
    requires IsMember(s, u) && Guarded(s, u)
    ensures var next := Next(s, step, archives);
      IsMember(next, u) && Guarded(next, u) && StatusOf(next, u) == StatusOf(s, u)
  {}

  /** Another component's reconciliation takes neither the object nor the listing away. */
  lemma OtherKeepsAnswer(s: System, step: Step, u: Uid, archives: Uid -> Archive, id: ObjectId)
    requires (forall u :: WellNamed(archives(u))) && Inv(s, archives) && Enabled(s, step, archives)
    requires (step.ReconcileStack? || step.ReconcileKabanero?) && step.uid != u && AnswersFor(s, u, id)
    ensures AnswersFor(Next(s, step, archives), u, id)
  {
    OthersKeepTheirs(s, step, u, archives);
    if step.ReconcileStack? {
      StackKeepsGuarded(s, step, u, archives);
    } else {
      KabaneroKeepsGuarded(s, step, u, archives);
    }
  }

  lemma PassGuards(s: System, step: Step, u: Uid, archives: Uid -> Archive)
    requires Inv(s, archives) && Enabled(s, step, archives) && IsPass(s, step, u)
    ensures IsMember(Next(s, step, archives), u) && Guarded(Next(s, step, archives), u)
  {
    MemberInv(s, u, archives);
    PassEnabled(s, step, u, archives);
    PassIsActivation(s, step, u, archives);
  }

  lemma UnlistedWasThere(s: System, step: Step, u: Uid, archives: Uid -> Archive, id: ObjectId)
    requires (forall u :: WellNamed(archives(u)))
    requires Inv(s, archives) && Enabled(s, step, archives) && IsPass(s, step, u)
    requires id in Next(s, step, archives).objects && IsMember(Next(s, step, archives), u)
    requires !ListsActive(StatusOf(Next(s, step, archives), u), id)
    ensures id in s.objects
  {
    PassExact(s, step, u, archives, id);
    ListedSomewhere(StatusOf(Next(s, step, archives), u), id);
  }

  /** What a pass leaves behind, its own component still answers for if it did before. */
  lemma PassKeepsAnswer(s: System, step: Step, u: Uid, archives: Uid -> Archive, id: ObjectId)
    requires (forall u :: WellNamed(archives(u)))
    requires Inv(s, archives) && Enabled(s, step, archives) && IsPass(s, step, u)
    requires id in Next(s, step, archives).objects && (id in s.objects ==> NoLeakAt(s, id))
    ensures exists v :: AnswersFor(Next(s, step, archives), v, id)
  {
    var next := Next(s, step, archives);
    PassGuards(s, step, u, archives);
    if ListsActive(StatusOf(next, u), id) {
      assert AnswersFor(next, u, id);
    } else {
      UnlistedWasThere(s, step, u, archives, id);
      var o := UnlistedKeepsAnswer(s, step, u, archives, id);
    }
  }

  lemma UnlistedKeepsAnswer(s: System, step: Step, u: Uid, archives: Uid -> Archive, id: ObjectId) returns (o: Uid)
    requires (forall u :: WellNamed(archives(u)))
    requires Inv(s, archives) && Enabled(s, step, archives) && IsPass(s, step, u) && id in s.objects && NoLeakAt(s, id)
    requires id in Next(s, step, archives).objects && IsMember(Next(s, step, archives), u)
    requires !ListsActive(StatusOf(Next(s, step, archives), u), id)
    ensures AnswersFor(Next(s, step, archives), o, id)
  {
    o :| AnswersFor(s, o, id);
    if o != u {
      OtherKeepsAnswer(s, step, o, archives, id);
    } else {
      o := DroppedKeepsAnswer(s, step, u, archives, id);
    }
  }

  lemma DroppedKeepsAnswer(s: System, step: Step, u: Uid, archives: Uid -> Archive, id: ObjectId) returns (o: Uid)
    requires (forall u :: WellNamed(archives(u)))
    requires Inv(s, archives) && Enabled(s, step, archives) && IsPass(s, step, u)
    requires id in s.objects && NoLeakAt(s, id) && AnswersFor(s, u, id)
    requires id in Next(s, step, archives).objects && IsMember(Next(s, step, archives), u)
    requires !ListsActive(StatusOf(Next(s, step, archives), u), id)
    ensures AnswersFor(Next(s, step, archives), o, id)
  {
    o := RemainingOwner(s, step, u, archives, id);
    OwnerAnswers(s, o, archives, id);
    OtherKeepsAnswer(s, step, o, archives, id);
  }

  /** An object that a pass drops from its status, but leaves, has another owner. */
  lemma RemainingOwner(s: System, step: Step, u: Uid, archives: Uid -> Archive, id: ObjectId) returns (o: Uid)
    requires (forall u :: WellNamed(archives(u)))
    requires Inv(s, archives) && Enabled(s, step, archives) && IsPass(s, step, u)
    requires id in s.objects && NoLeakAt(s, id) && AnswersFor(s, u, id)
    requires id in Next(s, step, archives).objects && IsMember(Next(s, step, archives), u)
    requires !ListsActive(StatusOf(Next(s, step, archives), u), id)
    ensures o != u && o in s.used && Owns(s.objects, o, id)
  {
    AnsweringLists(s, u, archives, id);
    DroppedIsReleased(s, step, u, archives, id);
    PassRemovesExactly(s, step, u, archives, id);
    o :| o in s.objects[id] && o != u;
  }

  /** What a pass no longer lists, it let go of. */
  lemma DroppedIsReleased(s: System, step: Step, u: Uid, archives: Uid -> Archive, id: ObjectId)
    requires (forall u :: WellNamed(archives(u)))
    requires Inv(s, archives) && Enabled(s, step, archives) && IsPass(s, step, u)
    requires IsMember(s, u) && ListsActive(StatusOf(s, u), id) && id in s.objects
    requires IsMember(Next(s, step, archives), u) && !ListsActive(StatusOf(Next(s, step, archives), u), id)
    ensures id in OwnReleases(s, u)
  {
    MemberInv(s, u, archives);
    PassEnabled(s, step, u, archives);
    PassIsActivation(s, step, u, archives);
    if id !in OwnReleases(s, u) {
      ListedStaysOrDies(s.objects, SpecOf(s, u), StatusOf(s, u), OrderOf(step), NamespaceOf(s, u), u, WorldOf(step),
                        archives(u), id);
    }
  }

  /** An asset that stands for a listed object, in the counts made from the status. */
  lemma ListedInCounts(spec: seq<SpecVersion>, status: seq<StatusVersion>, namespace: string, archive: Archive,
                       id: ObjectId) returns (k: UseKey, i: nat)
    requires namespace != "" && StatusOk(status, archive, namespace) && ListsActive(status, id)
    ensures k in Count(spec, status) && i < |Count(spec, status)[k].pipeline.activeAssets|
    ensures IdOf(Count(spec, status)[k].pipeline.activeAssets[i]) == id
    ensures Count(spec, status)[k].useCount <= 0 ==>
      id in DeadTargets(Count(spec, status), Count(spec, status).Keys, namespace)
  {
    CountsFitStatus(spec, status, archive, namespace);
    var l :| l in StatusListing(status) && ActiveIn(l.pipeline.activeAssets, id);
    k := l.use.key;
    var assets := Count(spec, status)[k].pipeline.activeAssets;
    i :| 0 <= i < |assets| && Active(assets[i]) && IdOf(assets[i]) == id;
    assert Describes(assets[i], archive(k)[i], namespace);
    assert Namespaced(assets[i], namespace) == assets[i] && assets[i] in assets && IsReleasable(assets[i]);
  }

  /** A listed object is among the dead targets, or listed again if it is there. */
  lemma ListedStaysOrDies(objects: Objects, spec: seq<SpecVersion>, status: seq<StatusVersion>, order: seq<UseKey>,
                          namespace: string, uid: Uid, world: World, archive: Archive, id: ObjectId)
    requires namespace != "" && Faithful(world, archive) && WellNamed(archive)
    requires IsOrder(order, Count(spec, status).Keys) && StatusOk(status, archive, namespace)
    requires ListsActive(status, id) && id in objects
    requires id !in DeadTargets(Count(spec, status), Count(spec, status).Keys, namespace)
    ensures ListsActive(RebuildStatus(spec, Activate(objects, spec, status, order, namespace, uid, world).useMap), id)
  {
    var start := AfterRelease(objects, Count(spec, status), namespace, uid);
    var p := Activate(objects, spec, status, order, namespace, uid, world);
    var k, i := ListedInCounts(spec, status, namespace, archive, id);
    ActivateEffect(objects, spec, status, order, namespace, uid, world, archive);
    InUseIsWanted(spec, status, k);
    SurvivorIsListed(start, p, order, uid, archive, namespace, k, i);
    WantedIsListed(spec, p.useMap, k, id);
  }

  lemma SurvivorIsListed(start: Pass, p: Pass, order: seq<UseKey>, uid: Uid, archive: Archive, namespace: string,
                         k: UseKey, i: nat)
    requires AllEnsured(start, p, order, uid) && SameEntries(start.useMap, p.useMap, archive, namespace)
    requires k in order && k in start.useMap && start.useMap[k].useCount > 0
    requires i < |start.useMap[k].pipeline.activeAssets|
    requires IdOf(start.useMap[k].pipeline.activeAssets[i]) in start.objects
    ensures k in p.useMap && ActiveIn(p.useMap[k].pipeline.activeAssets, IdOf(start.useMap[k].pipeline.activeAssets[i]))
  {
    assert SameEntry(start.useMap[k], p.useMap[k], archive(k), namespace);
    var now := p.useMap[k].pipeline.activeAssets;
    assert now[i] in now;
  }

  /** A pass makes nobody else an owner. */
  lemma OwnersAfter(objects: Objects, targets: set<ObjectId>, after: Objects, status: seq<StatusVersion>, u: Uid,
                    id: ObjectId, o: Uid)
    requires ObjectAfter(Released(objects, targets, u), after, status, u, id) && Owns(after, o, id)
    ensures o == u || Owns(objects, o, id)
  {
    if id in objects {
      WithoutOwner(objects[id], u);
    }
  }

  lemma PassKeepsKnown(s: System, step: Step, u: Uid, archives: Uid -> Archive, id: ObjectId, o: Uid)
    requires (forall u :: WellNamed(archives(u)))
    requires Inv(s, archives) && Enabled(s, step, archives) && IsPass(s, step, u)
    requires (id in s.objects ==> NoLeakAt(s, id)) && Owns(Next(s, step, archives).objects, o, id)
    ensures o in Next(s, step, archives).used
  {
    MemberInv(s, u, archives);
    PassExact(s, step, u, archives, id);
    OwnersAfter(s.objects, OwnReleases(s, u), Next(s, step, archives).objects, StatusOf(Next(s, step, archives), u), u,
                id, o);
  }

  lemma PassLeaksNothing(s: System, step: Step, u: Uid, archives: Uid -> Archive)
    requires (forall u :: WellNamed(archives(u)))
    requires Inv(s, archives) && Enabled(s, step, archives) && IsPass(s, step, u) && NoLeak(s)
    ensures NoLeak(Next(s, step, archives))
  {
    var next := Next(s, step, archives);
    forall id | id in next.objects ensures NoLeakAt(next, id) {
      assert id in s.objects ==> NoLeakAt(s, id);
      PassKeepsAnswer(s, step, u, archives, id);
      forall o | o in next.objects[id] ensures o in next.used {
        PassKeepsKnown(s, step, u, archives, id, o);
      }
    }
  }

  // ---------------------------------------------------------------- teardown

  /** What a component under deletion lets go of, if this step comes to it. */
  function TeardownTargets(s: System, u: Uid): set<ObjectId>
    requires IsMember(s, u)
  {
    if u in s.stacks then StatusTargets(s.stacks[u].state.status.versions, s.stacks[u].namespace)
    else PipelineTargets(s.kabaneros[u].state.status.pipelines, s.kabaneros[u].namespace)
  }

  lemma ListedIsTarget(s: System, u: Uid, archives: Uid -> Archive, id: ObjectId)
    requires Inv(s, archives) && IsMember(s, u) && ListsActive(StatusOf(s, u), id)
    ensures id in TeardownTargets(s, u)
  {
    MemberInv(s, u, archives);
    var status := StatusOf(s, u);
    OwnedIsTarget(status, archives(u), NamespaceOf(s, u), id);
    var v, p, a :| v in status && p in v.pipelines && a in p.activeAssets && IsReleasable(a) &&
                   IdOf(Namespaced(a, NamespaceOf(s, u))) == id;
    if u in s.stacks {
      var i :| 0 <= i < |status| && status[i] == v;
      assert s.stacks[u].state.status.versions[i] in s.stacks[u].state.status.versions;
    }
  }

  /** A reconciliation that is no pass leaves the objects and its guarded component alone, or is a cleanup. */
  ghost predicate IdleOrCleanup(s: System, next: System, u: Uid)
    requires IsMember(s, u)
  {
    || next.objects == Released(s.objects, TeardownTargets(s, u), u)
    || (next.objects == s.objects &&
        (Guarded(s, u) ==> IsMember(next, u) && Guarded(next, u) && StatusOf(next, u) == StatusOf(s, u)))
  }

  lemma StackOutcome(s: System, step: Step, archives: Uid -> Archive)
    requires Apart(s) && Enabled(s, step, archives) && step.ReconcileStack? && !IsPass(s, step, step.uid)
    ensures IdleOrCleanup(s, Next(s, step, archives), step.uid)
  {
    StackObjects(s.objects, s.stacks[step.uid], step.uid, step.order, step.w);
  }

  lemma StackObjects(objects: Objects, m: StackMember, u: Uid, order: seq<UseKey>, w: StackWorld)
    requires IsOrder(order, Count(SpecVersions(m.state.versions), StatusVersions(m.state.status.versions)).Keys)
    requires m.state.deleting || !IsStackId(m.name)
    ensures var r := Reconciled(objects, m.state, m.name, m.namespace, u, order, w);
      || r.objects == Released(objects, StatusTargets(m.state.status.versions, m.namespace), u)
      || (r.objects == objects && r.state.status.versions == m.state.status.versions &&
          r.state.deleting == m.state.deleting &&
          (FINALIZER in m.state.finalizers ==> r.state.finalizers == m.state.finalizers))
  {}

  lemma TeardownOutcome(s: System, step: Step, archives: Uid -> Archive)
    requires Apart(s) && Enabled(s, step, archives) && step.ReconcileKabanero? && !IsPass(s, step, step.uid)
    ensures IdleOrCleanup(s, Next(s, step, archives), step.uid)
  {
    var m := s.kabaneros[step.uid];
    var owns := OwnsStacks(s.stacks, step.uid, m.namespace);
    var r := ProcessedKabaneroDeletion(s.objects, m.state, owns, m.namespace, step.uid, step.errors);
    TeardownObjects(s.objects, m, owns, step.uid, step.errors);
    assert r.objects == Released(s.objects, TeardownTargets(s, step.uid), step.uid) ||
           (r.objects == s.objects && r.state == m.state);
  }

  lemma TeardownObjects(objects: Objects, m: KabaneroMember, owns: bool, u: Uid, errors: CleanupErrors)
    requires m.state.deleting
    ensures var r := ProcessedKabaneroDeletion(objects, m.state, owns, m.namespace, u, errors);
      || r.objects == Released(objects, PipelineTargets(m.state.status.pipelines, m.namespace), u)
      || (r.objects == objects && r.state == m.state)
  {}

  lemma NoPassOutcome(s: System, step: Step, archives: Uid -> Archive)
    requires Apart(s) && Enabled(s, step, archives) && (step.ReconcileStack? || step.ReconcileKabanero?)
    requires !IsPass(s, step, step.uid)
    ensures IsMember(s, step.uid) && IdleOrCleanup(s, Next(s, step, archives), step.uid)
  {
    if step.ReconcileStack? {
      StackOutcome(s, step, archives);
    } else {
      TeardownOutcome(s, step, archives);
    }
  }

  /** What a cleanup leaves of the objects its component answers for has another owner. */
  lemma CleanupLeavesOwned(s: System, u: Uid, archives: Uid -> Archive, id: ObjectId) returns (o: Uid)
    requires Inv(s, archives) && AnswersFor(s, u, id) && id in Released(s.objects, TeardownTargets(s, u), u)
    ensures o != u && Owns(s.objects, o, id)
  {
    AnsweringLists(s, u, archives, id);
    ListedIsTarget(s, u, archives, id);
    NobodyElse(s.objects[id], u);
    o :| o in s.objects[id] && o != u;
  }

  lemma CleanupLeavesAnswer(s: System, step: Step, archives: Uid -> Archive, id: ObjectId) returns (o: Uid)
    requires (forall u :: WellNamed(archives(u))) && Inv(s, archives) && Enabled(s, step, archives)
    requires (step.ReconcileStack? || step.ReconcileKabanero?) && AnswersFor(s, step.uid, id)
    requires id in Released(s.objects, TeardownTargets(s, step.uid), step.uid) && NoLeakAt(s, id)
    ensures AnswersFor(Next(s, step, archives), o, id)
  {
    o := CleanupLeavesOwned(s, step.uid, archives, id);
    OwnerAnswers(s, o, archives, id);
    OtherKeepsAnswer(s, step, o, archives, id);
  }

  lemma IdleKeepsAnswer(s: System, next: System, u: Uid, id: ObjectId)
    requires AnswersFor(s, u, id) && IdleOrCleanup(s, next, u)
    requires next.objects != Released(s.objects, TeardownTargets(s, u), u)
    ensures AnswersFor(next, u, id)
  {}

  lemma OwnNoPassKeepsAnswer(s: System, step: Step, archives: Uid -> Archive, id: ObjectId) returns (v: Uid)
    requires (forall u :: WellNamed(archives(u))) && Inv(s, archives) && Enabled(s, step, archives)
    requires (step.ReconcileStack? || step.ReconcileKabanero?) && !IsPass(s, step, step.uid)
    requires id in s.objects && NoLeakAt(s, id) && AnswersFor(s, step.uid, id) && id in Next(s, step, archives).objects
    ensures AnswersFor(Next(s, step, archives), v, id)
  {
    NoPassOutcome(s, step, archives);
    if Next(s, step, archives).objects == Released(s.objects, TeardownTargets(s, step.uid), step.uid) {
      v := CleanupLeavesAnswer(s, step, archives, id);
    } else {
      v := step.uid;
      IdleKeepsAnswer(s, Next(s, step, archives), v, id);
    }
  }

  lemma NoPassKeepsAnswer(s: System, step: Step, archives: Uid -> Archive, id: ObjectId)
    requires (forall u :: WellNamed(archives(u))) && Inv(s, archives) && Enabled(s, step, archives)
    requires (step.ReconcileStack? || step.ReconcileKabanero?) && !IsPass(s, step, step.uid)
    requires id in s.objects && NoLeakAt(s, id) && id in Next(s, step, archives).objects
    ensures exists v :: AnswersFor(Next(s, step, archives), v, id)
  {
    var v :| AnswersFor(s, v, id);
    if v != step.uid {
      OtherKeepsAnswer(s, step, v, archives, id);
    } else {
      var o := OwnNoPassKeepsAnswer(s, step, archives, id);
    }
  }

  lemma NoPassLeaksNothing(s: System, step: Step, archives: Uid -> Archive)
    requires (forall u :: WellNamed(archives(u))) && Inv(s, archives) && Enabled(s, step, archives)
    requires (step.ReconcileStack? || step.ReconcileKabanero?) && !IsPass(s, step, step.uid) && NoLeak(s)
    ensures NoLeak(Next(s, step, archives))
  {
    var next := Next(s, step, archives);
    forall id | id in next.objects ensures NoLeakAt(next, id) {
      NoPassKeepsOwners(s, step, archives, id);
      assert NoLeakAt(s, id);
      NoPassKeepsAnswer(s, step, archives, id);
    }
  }

  lemma NoPassKeepsOwners(s: System, step: Step, archives: Uid -> Archive, id: ObjectId)
    requires Apart(s) && Enabled(s, step, archives) && (step.ReconcileStack? || step.ReconcileKabanero?)
    requires !IsPass(s, step, step.uid) && id in Next(s, step, archives).objects
    ensures id in s.objects && Next(s, step, archives).used == s.used
    ensures forall o :: o in Next(s, step, archives).objects[id] ==> o in s.objects[id]
  {
    NoPassOutcome(s, step, archives);
    if id in s.objects {
      WithoutOwner(s.objects[id], step.uid);
    }
  }

  // ---------------------------------------------------------------- runs

  lemma StepLeaksNothing(s: System, step: Step, archives: Uid -> Archive)
    requires (forall u :: WellNamed(archives(u))) && Inv(s, archives) && Enabled(s, step, archives)
    requires !step.Foreign? && NoLeak(s)
    ensures NoLeak(Next(s, step, archives))
  {
    if IsQuiet(step) {
      QuietLeaksNothing(s, step, archives);
    } else if IsPass(s, step, step.uid) {
      PassLeaksNothing(s, step, step.uid, archives);
    } else {
      NoPassLeaksNothing(s, step, archives);
    }
  }

  lemma OneStepLeaksNothing(states: seq<System>, steps: seq<Step>, archives: Uid -> Archive, n: nat)
    requires (forall u :: WellNamed(archives(u))) && IsRun(states, steps, archives) && n < |steps|
    requires !steps[n].Foreign? && NoLeak(states[n])
    ensures NoLeak(states[n + 1])
  {
    RunKeepsInv(states, steps, archives, n);
    StepLeaksNothing(states[n], steps[n], archives);
  }

  /** In every run from an empty cluster in which only the components write: every object has a living component that
      holds its finalizer and owns the object or lists it as active. */
  lemma {:induction false} NothingLeaks(states: seq<System>, steps: seq<Step>, archives: Uid -> Archive, n: nat)
    requires (forall u :: WellNamed(archives(u))) && IsRun(states, steps, archives) && n < |states|
    requires states[0].objects == map[] && forall i :: 0 <= i < |steps| ==> !steps[i].Foreign?
    ensures NoLeak(states[n])
    decreases n
  {
    if n != 0 {
      var before := n - 1;
      NothingLeaks(states, steps, archives, before);
      OneStepLeaksNothing(states, steps, archives, before);
      assert n == before + 1;
    }
  }
}
