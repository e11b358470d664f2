/** What components hold over runs: when the owner lists of the cluster agree with what the statuses list, for all
    kinds of objects, and who can take a listed object away. */
module Holdings {
  import opened Component
  import opened UseCounts
  import opened Cluster
  import opened Activation
  import opened Ownership
  import opened Accuracy
  import opened Creation
  import opened StackController
  import opened KabaneroController
  import opened Runs

  // ---------------------------------------------------------------- stacks and Kabanero instances alike

  function SpecOf(s: System, u: Uid): seq<SpecVersion>
    requires IsMember(s, u)
  {
    if u in s.stacks then SpecVersions(s.stacks[u].state.versions) else GitopsSpec(s.kabaneros[u].state.gitops)
  }

  function StatusOf(s: System, u: Uid): seq<StatusVersion>
    requires IsMember(s, u)
  {
    if u in s.stacks then StatusVersions(s.stacks[u].state.status.versions)
    else GitopsVersions(s.kabaneros[u].state.status.pipelines)
  }

  function NamespaceOf(s: System, u: Uid): string
    requires IsMember(s, u)
  {
    if u in s.stacks then s.stacks[u].namespace else s.kabaneros[u].namespace
  }

  predicate Deleting(s: System, u: Uid)
    requires IsMember(s, u)
  {
    if u in s.stacks then s.stacks[u].state.deleting else s.kabaneros[u].state.deleting
  }

  predicate Guarded(s: System, u: Uid)
    requires IsMember(s, u)
  {
    if u in s.stacks then FINALIZER in s.stacks[u].state.finalizers
    else KABANERO_FINALIZER in s.kabaneros[u].state.finalizers
  }

  lemma MemberInv(s: System, u: Uid, archives: Uid -> Archive)
    requires Inv(s, archives) && IsMember(s, u)
    ensures u in s.used && !(u in s.stacks && u in s.kabaneros)
    ensures Kept(s.objects, u, SpecOf(s, u), StatusOf(s, u), NamespaceOf(s, u), Guarded(s, u), archives(u))
  {
    MemberKept(s, u, archives);
  }

  // ---------------------------------------------------------------- passes and other steps

  /** The step activates the pipelines of the component. */
  predicate IsPass(s: System, step: Step, u: Uid) {
    match step
    case ReconcileStack(uid, _, _) =>
      u == uid && u in s.stacks && !s.stacks[u].state.deleting && IsStackId(s.stacks[u].name)
    case ReconcileKabanero(uid, _, _, _) => u == uid && u in s.kabaneros && !s.kabaneros[u].state.deleting
    case _ => false
  }

  function OrderOf(step: Step): seq<UseKey>
    requires step.ReconcileStack? || step.ReconcileKabanero?
  {
    step.order
  }

  function WorldOf(step: Step): World
    requires step.ReconcileStack? || step.ReconcileKabanero?
  {
    if step.ReconcileStack? then step.w.pipelines else step.world
  }

  ghost function OwnPass(s: System, step: Step, u: Uid): Pass
    requires IsMember(s, u) && IsPass(s, step, u)
    requires IsOrder(OrderOf(step), Count(SpecOf(s, u), StatusOf(s, u)).Keys)
  {
    Activate(s.objects, SpecOf(s, u), StatusOf(s, u), OrderOf(step), NamespaceOf(s, u), u, WorldOf(step))
  }

  predicate Apart(s: System) {
    s.stacks.Keys !! s.kabaneros.Keys
  }

  ghost predicate CanPass(s: System, step: Step, u: Uid, archives: Uid -> Archive) {
    && Apart(s) && Enabled(s, step, archives) && IsPass(s, step, u) && IsMember(s, u)
    && IsOrder(OrderOf(step), Count(SpecOf(s, u), StatusOf(s, u)).Keys)
  }

  lemma PassEnabled(s: System, step: Step, u: Uid, archives: Uid -> Archive)
    requires Inv(s, archives) && Enabled(s, step, archives) && IsPass(s, step, u)
    ensures CanPass(s, step, u, archives) && Faithful(WorldOf(step), archives(u))
  {}

  lemma StackPassOutcome(objects: Objects, m: StackMember, u: Uid, order: seq<UseKey>, w: StackWorld)
    requires IsOrder(order, Count(SpecVersions(m.state.versions), StatusVersions(m.state.status.versions)).Keys)
    requires !m.state.deleting && IsStackId(m.name) && ImagesParse(m.state.versions, w.repository)
    ensures var r := Reconciled(objects, m.state, m.name, m.namespace, u, order, w);
      var spec := SpecVersions(m.state.versions);
      var p := Activate(objects, spec, StatusVersions(m.state.status.versions), order, m.namespace, u, w.pipelines);
      && r.objects == p.objects && FINALIZER in r.state.finalizers && !r.state.deleting
      && StatusVersions(r.state.status.versions) == RebuildStatus(spec, p.useMap)
  {
    var spec := SpecVersions(m.state.versions);
    var p := Activate(objects, spec, StatusVersions(m.state.status.versions), order, m.namespace, u, w.pipelines);
    RebuildSucceeds(m.state.versions, |m.state.versions|, p.useMap, m.state.status.versions, w);
    RebuildIsStatus(m.state.versions, p.useMap, m.state.status.versions, w);
    var (_, s) := ProcessedDeletion(objects, m.state, m.namespace, u);
    var s' := s.(status := s.status.(statusMessage := ""));
    assert s'.versions == m.state.versions && s'.status.versions == m.state.status.versions && !s'.deleting;
    assert FINALIZER in s'.finalizers;
    VersionsOutcome(objects, s', m.name, m.namespace, u, order, w);
  }

  lemma VersionsOutcome(objects: Objects, s: StackState, name: string, namespace: string, u: Uid, order: seq<UseKey>,
                        w: StackWorld)
    requires IsOrder(order, Count(SpecVersions(s.versions), StatusVersions(s.status.versions)).Keys) && IsStackId(name)
    requires var p :=
      Activate(objects, SpecVersions(s.versions), StatusVersions(s.status.versions), order, namespace, u, w.pipelines);
      Rebuild(s.versions, |s.versions|, p.useMap, s.status.versions, w).ok
    ensures var p := Activate(objects, SpecVersions(s.versions), StatusVersions(s.status.versions), order, namespace, u,
                              w.pipelines);
      var r := Rebuild(s.versions, |s.versions|, p.useMap, s.status.versions, w);
      ReconcileVersions(objects, s, name, namespace, u, order, w) ==
        Outcome(p.objects, s.(versions := r.versions, status := StackStatus("", r.statuses)), true)
  {}

  lemma StackPass(s: System, step: Step, u: Uid, archives: Uid -> Archive)
    requires CanPass(s, step, u, archives) && step.ReconcileStack?
    ensures PassWrites(s, step, u, archives)
  {
    var m := s.stacks[u];
    StackPassOutcome(s.objects, m, u, step.order, step.w);
    var r := Reconciled(s.objects, m.state, m.name, m.namespace, u, step.order, step.w);
    assert Next(s, step, archives).stacks[u] == m.(state := r.state.(versions := m.state.versions));
  }

  lemma KabaneroPassOutcome(objects: Objects, m: KabaneroMember, u: Uid, order: seq<UseKey>, world: World)
    requires IsOrder(order, Count(GitopsSpec(m.state.gitops), GitopsVersions(m.state.status.pipelines)).Keys)
    ensures var r := ReconciledGitops(objects, WithFinalizer(m.state), m.namespace, u, order, world);
      var spec := GitopsSpec(m.state.gitops);
      var p := Activate(objects, spec, GitopsVersions(m.state.status.pipelines), order, m.namespace, u, world);
      && r.objects == p.objects && KABANERO_FINALIZER in r.state.finalizers && r.state.deleting == m.state.deleting
      && r.state.gitops == m.state.gitops && GitopsVersions(r.state.status.pipelines) == RebuildStatus(spec, p.useMap)
  {
    var spec := GitopsSpec(m.state.gitops);
    var p := Activate(objects, spec, GitopsVersions(m.state.status.pipelines), order, m.namespace, u, world);
    GitopsRebuild(m.state.gitops, p.useMap);
  }

  lemma GitopsRebuild(ps: seq<PipelineSpec>, m: UseMap)
    ensures RebuildStatus(GitopsSpec(ps), m) == GitopsVersions(NewGitopsStatus(ps, m).pipelines)
  {
    assert RebuildStatus(GitopsSpec(ps), m)[0] == StatusVersion(GITOPS, RebuildPipelines(ps, m));
  }

  lemma KabaneroPass(s: System, step: Step, u: Uid, archives: Uid -> Archive)
    requires CanPass(s, step, u, archives) && step.ReconcileKabanero?
    ensures PassWrites(s, step, u, archives)
  {
    var m := s.kabaneros[u];
    KabaneroPassOutcome(s.objects, m, u, step.order, step.world);
    var r := ReconciledGitops(s.objects, WithFinalizer(m.state), m.namespace, u, step.order, step.world);
    assert Next(s, step, archives).kabaneros[u] == m.(state := r.state);
  }

  /** A pass writes the objects and the status of one activation. */
  ghost predicate PassWrites(s: System, step: Step, u: Uid, archives: Uid -> Archive)
    requires CanPass(s, step, u, archives)
  {
    var next := Next(s, step, archives);
    && IsMember(next, u) && !Deleting(next, u) && Guarded(next, u) && NamespaceOf(next, u) == NamespaceOf(s, u)
    && next.objects == OwnPass(s, step, u).objects && SpecOf(next, u) == SpecOf(s, u)
    && StatusOf(next, u) == RebuildStatus(SpecOf(s, u), OwnPass(s, step, u).useMap)
  }

  lemma PassIsActivation(s: System, step: Step, u: Uid, archives: Uid -> Archive)
    requires CanPass(s, step, u, archives)
    ensures PassWrites(s, step, u, archives)
  {
    if step.ReconcileStack? {
      StackPass(s, step, u, archives);
    } else {
      KabaneroPass(s, step, u, archives);
    }
  }

  /** Somebody else who writes an object that the component owns keeps it among the owners. */
  predicate Spares(s: System, step: Step, u: Uid) {
    step.Foreign? && Owns(s.objects, u, step.id) ==> step.written.Some? && u in step.written.value
  }

  /** A component that lives on and is not passed over keeps what it holds and what it reports. */
  ghost predicate Undisturbed(s: System, step: Step, next: System, u: Uid)
    requires IsMember(s, u) && IsMember(next, u)
  {
    && (u in s.stacks <==> u in next.stacks) && !Deleting(s, u) && StatusOf(next, u) == StatusOf(s, u)
    && NamespaceOf(next, u) == NamespaceOf(s, u) && SameOwner(s.objects, next.objects, u)
    && (!Edits(step, u) ==> SpecOf(next, u) == SpecOf(s, u))
  }

  predicate Edits(step: Step, u: Uid) {
    (step.EditStack? || step.EditGitops?) && step.uid == u
  }

  predicate IsQuiet(step: Step) {
    !step.ReconcileStack? && !step.ReconcileKabanero? && !step.Foreign?
  }

  lemma QuietStep(s: System, step: Step, u: Uid, archives: Uid -> Archive)
    requires Apart(s) && Enabled(s, step, archives) && IsQuiet(step) && IsMember(s, u) && u in s.used
    requires IsMember(Next(s, step, archives), u) && !Deleting(Next(s, step, archives), u)
    ensures Undisturbed(s, step, Next(s, step, archives), u) && Next(s, step, archives).objects == s.objects
  {
    if step.CreateStack? || step.CreateKabanero? {
      assert step.uid != u;
    }
  }

  lemma ForeignStep(s: System, step: Step, u: Uid, archives: Uid -> Archive)
    requires Enabled(s, step, archives) && step.Foreign? && Spares(s, step, u) && IsMember(s, u) && u in s.used
    requires !Deleting(s, u)
    ensures Undisturbed(s, step, Next(s, step, archives), u)
  {
    assert SameOwner(s.objects, Next(s, step, archives).objects, u);
  }

  lemma StackStep(s: System, step: Step, u: Uid, archives: Uid -> Archive)
    requires Apart(s) && Enabled(s, step, archives) && step.ReconcileStack? && IsMember(s, u)
    requires !IsPass(s, step, u) && (step.uid != u ==> SameOwner(s.objects, Next(s, step, archives).objects, u))
    requires IsMember(Next(s, step, archives), u) && !Deleting(Next(s, step, archives), u)
    ensures Undisturbed(s, step, Next(s, step, archives), u)
  {
    if step.uid == u {
      var m := s.stacks[u];
      var r := Reconciled(s.objects, m.state, m.name, m.namespace, u, step.order, step.w);
      assert !m.state.deleting && r.objects == s.objects && r.state.status.versions == m.state.status.versions;
    }
  }

  lemma MembersAfterKabanero(s: System, step: Step, u: Uid, archives: Uid -> Archive)
    requires Enabled(s, step, archives) && step.ReconcileKabanero? && step.uid != u
    ensures var next := Next(s, step, archives);
      && (u in next.kabaneros ==> u in s.kabaneros && next.kabaneros[u] == s.kabaneros[u])
      && (u in next.stacks ==> u in s.stacks && next.stacks[u].namespace == s.stacks[u].namespace)
      && (u in next.stacks ==> exists asked :: next.stacks[u].state == Asked(s.stacks[u].state, asked))
  {
    if u in Next(s, step, archives).stacks {
      assert s.stacks[u].state == Asked(s.stacks[u].state, false);
    }
  }

  lemma KabaneroStep(s: System, step: Step, u: Uid, archives: Uid -> Archive)
    requires Apart(s) && Enabled(s, step, archives) && step.ReconcileKabanero? && IsMember(s, u)
    requires step.uid != u && SameOwner(s.objects, Next(s, step, archives).objects, u)
    requires IsMember(Next(s, step, archives), u) && !Deleting(Next(s, step, archives), u)
    ensures Undisturbed(s, step, Next(s, step, archives), u)
  {
    MembersAfterKabanero(s, step, u, archives);
  }

  lemma OthersKeepTheirs(s: System, step: Step, u: Uid, archives: Uid -> Archive)
    requires (forall u :: WellNamed(archives(u))) && Inv(s, archives) && Enabled(s, step, archives)
    requires (step.ReconcileStack? || step.ReconcileKabanero?) && step.uid != u
    ensures SameOwner(s.objects, Next(s, step, archives).objects, u)
  {
    var uid := step.uid;
    MemberKept(s, uid, archives);
    if step.ReconcileStack? {
      ReconciledStackKept(s.objects, uid, s.stacks[uid], step.order, step.w, archives(uid));
    } else if s.kabaneros[uid].state.deleting {
      var m := s.kabaneros[uid];
      TornDownKabaneroKept(s.objects, uid, m, OwnsStacks(s.stacks, uid, m.namespace), step.errors, archives(uid));
    } else {
      ReconciledGitopsKept(s.objects, uid, s.kabaneros[uid], step.order, step.world, archives(uid));
    }
  }

  lemma OtherStep(s: System, step: Step, u: Uid, archives: Uid -> Archive)
    requires (forall u :: WellNamed(archives(u)))
    requires Inv(s, archives) && Enabled(s, step, archives) && IsMember(s, u) && !IsPass(s, step, u) &&
      Spares(s, step, u)
    requires IsMember(Next(s, step, archives), u) && !Deleting(Next(s, step, archives), u)
    ensures Undisturbed(s, step, Next(s, step, archives), u)
  {
    MemberInv(s, u, archives);
    if IsQuiet(step) {
      QuietStep(s, step, u, archives);
    } else if step.Foreign? {
      ForeignStep(s, step, u, archives);
    } else {
      OtherReconcile(s, step, u, archives);
    }
  }

  lemma OtherReconcile(s: System, step: Step, u: Uid, archives: Uid -> Archive)
    requires (forall u :: WellNamed(archives(u))) && (step.ReconcileStack? || step.ReconcileKabanero?)
    requires Inv(s, archives) && Enabled(s, step, archives) && IsMember(s, u) && !IsPass(s, step, u)
    requires IsMember(Next(s, step, archives), u) && !Deleting(Next(s, step, archives), u)
    ensures Undisturbed(s, step, Next(s, step, archives), u)
  {
    if step.uid != u {
      OthersKeepTheirs(s, step, u, archives);
    } else if step.ReconcileKabanero? {
      DeletingStays(s, step, archives);
    }
    if step.ReconcileStack? {
      StackStep(s, step, u, archives);
    } else if step.uid != u {
      KabaneroStep(s, step, u, archives);
    }
  }

  lemma DeletingStays(s: System, step: Step, archives: Uid -> Archive)
    requires Apart(s) && Enabled(s, step, archives) && step.ReconcileKabanero? && s.kabaneros[step.uid].state.deleting
    ensures IsMember(Next(s, step, archives), step.uid) ==> Deleting(Next(s, step, archives), step.uid)
  {}

  // ---------------------------------------------------------------- owners and listings agree

  /** A component that is not being deleted owns what it lists, among the kinds that take owners. */
  ghost predicate Firm(s: System, u: Uid) {
    IsMember(s, u) && !Deleting(s, u) ==> OwnsListed(s.objects, StatusOf(s, u), u)
  }

  lemma PassMakesFirm(s: System, step: Step, u: Uid, archives: Uid -> Archive)
    requires (forall u :: WellNamed(archives(u)))
    requires Inv(s, archives) && Enabled(s, step, archives) && IsPass(s, step, u)
    ensures Firm(Next(s, step, archives), u)
  {
    MemberInv(s, u, archives);
    PassEnabled(s, step, u, archives);
    PassIsActivation(s, step, u, archives);
    ActivationKeepsAccuracy(s.objects, SpecOf(s, u), StatusOf(s, u), OrderOf(step), NamespaceOf(s, u), u, WorldOf(step),
                            archives(u));
  }

  lemma NewcomerIsFirm(s: System, step: Step, u: Uid, archives: Uid -> Archive)
    requires Enabled(s, step, archives) && !IsMember(s, u)
    ensures Firm(Next(s, step, archives), u)
  {
    var next := Next(s, step, archives);
    if IsMember(next, u) {
      NewcomerReportsNothing(s, step, u, archives);
      assert StatusListing(GitopsVersions([])) == [] && StatusListing(StatusVersions([])) == [];
    }
  }

  lemma NewcomerReportsNothing(s: System, step: Step, u: Uid, archives: Uid -> Archive)
    requires Enabled(s, step, archives) && !IsMember(s, u) && IsMember(Next(s, step, archives), u)
    ensures StatusOf(Next(s, step, archives), u) == GitopsVersions([]) ||
            StatusOf(Next(s, step, archives), u) == StatusVersions([])
  {}

  lemma StaysFirm(s: System, step: Step, u: Uid, archives: Uid -> Archive)
    requires (forall u :: WellNamed(archives(u)))
    requires Inv(s, archives) && Enabled(s, step, archives) && Firm(s, u) && Spares(s, step, u)
    ensures Firm(Next(s, step, archives), u)
  {
    var next := Next(s, step, archives);
    if IsPass(s, step, u) {
      PassMakesFirm(s, step, u, archives);
    } else if !IsMember(s, u) {
      NewcomerIsFirm(s, step, u, archives);
    } else if IsMember(next, u) && !Deleting(next, u) {
      OtherStep(s, step, u, archives);
    }
  }

  /** The steps from i to n leave the component among the owners of what it owns. */
  ghost predicate SparedBetween(states: seq<System>, steps: seq<Step>, u: Uid, i: nat, n: nat)
    requires |states| == |steps| + 1
  {
    forall j :: i <= j < n && j < |steps| ==> Spares(states[j], steps[j], u)
  }

  lemma {:induction false} FirmBetween(states: seq<System>, steps: seq<Step>, archives: Uid -> Archive, i: nat, n: nat,
                                       u: Uid)
    requires (forall u :: WellNamed(archives(u))) && IsRun(states, steps, archives) && i <= n < |states|
    requires Firm(states[i], u) && SparedBetween(states, steps, u, i, n)
    ensures Firm(states[n], u)
  {
    if i < n {
      var before := n - 1;
      FirmBetween(states, steps, archives, i, before, u);
      RunKeepsInv(states, steps, archives, before);
      StaysFirm(states[before], steps[before], u, archives);
      assert n == before + 1;
    }
  }

  /** From the start of the run, where there is no component, or from a pass of its own on. */
  lemma FirmFrom(states: seq<System>, steps: seq<Step>, archives: Uid -> Archive, i: nat, n: nat, u: Uid)
    requires (forall u :: WellNamed(archives(u))) && IsRun(states, steps, archives) && i <= n < |states|
    requires i > 0 ==> IsPass(states[i - 1], steps[i - 1], u)
    requires SparedBetween(states, steps, u, i, n)
    ensures Firm(states[n], u)
  {
    if i > 0 {
      var before := i - 1;
      RunKeepsInv(states, steps, archives, before);
      PassMakesFirm(states[before], steps[before], u, archives);
      assert i == before + 1;
    }
    FirmBetween(states, steps, archives, i, n, u);
  }

  /** Ownership over runs. At every moment of every run a component owns nothing that its status does not list as
      active. From the start of the run, or from any of its passes on, for as long as nobody else takes away what it
      owns, and until its deletion is asked for, it owns an object of a kind that takes owners exactly when its status
      lists it: a pass restores what others took away before. */
  lemma OwnershipMatchesStatus(states: seq<System>, steps: seq<Step>, archives: Uid -> Archive, i: nat, n: nat, u: Uid,
                               id: ObjectId)
    requires (forall u :: WellNamed(archives(u))) && IsRun(states, steps, archives) && i <= n < |states|
    requires IsMember(states[n], u)
    requires i > 0 ==> IsPass(states[i - 1], steps[i - 1], u)
    ensures Owns(states[n].objects, u, id) ==> ListsActive(StatusOf(states[n], u), id)
    ensures SparedBetween(states, steps, u, i, n) && !Deleting(states[n], u) && TakesOwner(id.kind) ==>
      (Owns(states[n].objects, u, id) <==> ListsActive(StatusOf(states[n], u), id))
  {
    RunKeepsInv(states, steps, archives, n);
    MemberInv(states[n], u, archives);
    if SparedBetween(states, steps, u, i, n) {
      FirmFrom(states, steps, archives, i, n, u);
    }
  }

  // ---------------------------------------------------------------- objects that are created without an owner

  /** The objects when the create phase of a pass begins. */
  ghost function AfterOwnRelease(s: System, u: Uid): Objects
    requires IsMember(s, u)
  {
    AfterRelease(s.objects, Count(SpecOf(s, u), StatusOf(s, u)), NamespaceOf(s, u), u).objects
  }

  lemma PassExact(s: System, step: Step, u: Uid, archives: Uid -> Archive, id: ObjectId)
    requires (forall u :: WellNamed(archives(u)))
    requires Inv(s, archives) && Enabled(s, step, archives) && IsPass(s, step, u)
    ensures var next := Next(s, step, archives);
      IsMember(next, u) && ObjectAfter(AfterOwnRelease(s, u), next.objects, StatusOf(next, u), u, id)
  {
    MemberInv(s, u, archives);
    PassEnabled(s, step, u, archives);
    PassIsActivation(s, step, u, archives);
    ActivationExact(s.objects, SpecOf(s, u), StatusOf(s, u), OrderOf(step), NamespaceOf(s, u), u, WorldOf(step),
                    archives(u), id);
  }

  lemma ListedSomewhere(status: seq<StatusVersion>, id: ObjectId)
    ensures ListsActive(status, id) <==> |ListingArchives(status, id)| > 0
  {
    EmptySet(ListingArchives(status, id));
    if l :| l in StatusListing(status) && ActiveIn(l.pipeline.activeAssets, id) {
      assert l.use.key in ListingArchives(status, id);
    }
  }

  /** In any run, right after a pass: an object that its status lists is there, and owned exactly if its kind takes
      owners, or it was there when the create phase began, or two archives list it. */
  lemma ListedAfterPass(states: seq<System>, steps: seq<Step>, archives: Uid -> Archive, n: nat, u: Uid, id: ObjectId)
    requires (forall u :: WellNamed(archives(u))) && IsRun(states, steps, archives) && n < |steps|
    requires IsPass(states[n], steps[n], u)
    ensures IsMember(states[n + 1], u)
    ensures var status := StatusOf(states[n + 1], u);
      ListsActive(status, id) ==>
        id in states[n + 1].objects &&
        (Owns(states[n + 1].objects, u, id) <==>
          TakesOwner(id.kind) || id in AfterOwnRelease(states[n], u) || |ListingArchives(status, id)| >= 2)
  {
    RunKeepsInv(states, steps, archives, n);
    PassExact(states[n], steps[n], u, archives, id);
    ListedSomewhere(StatusOf(states[n + 1], u), id);
  }

  /** The status was written for the present spec. */
  ghost predicate Steady(s: System, u: Uid) {
    IsMember(s, u) && !Deleting(s, u) && StatusUses(StatusOf(s, u)) == SpecUses(SpecOf(s, u))
  }

  lemma PassMakesSteady(s: System, step: Step, u: Uid, archives: Uid -> Archive)
    requires (forall u :: WellNamed(archives(u)))
    requires Inv(s, archives) && Enabled(s, step, archives) && IsPass(s, step, u)
    ensures Steady(Next(s, step, archives), u)
  {
    MemberInv(s, u, archives);
    PassEnabled(s, step, u, archives);
    PassIsActivation(s, step, u, archives);
    ActivationKeepsAccuracy(s.objects, SpecOf(s, u), StatusOf(s, u), OrderOf(step), NamespaceOf(s, u), u, WorldOf(step),
                            archives(u));
    RebuiltUses(SpecOf(s, u), OwnPass(s, step, u).useMap);
  }

  /** It stays so until the spec is edited or the deletion is asked for. */
  lemma StaysSteady(s: System, step: Step, u: Uid, archives: Uid -> Archive)
    requires (forall u :: WellNamed(archives(u)))
    requires Inv(s, archives) && Enabled(s, step, archives) && Steady(s, u) && Spares(s, step, u) && !Edits(step, u)
    requires IsMember(Next(s, step, archives), u) && !Deleting(Next(s, step, archives), u)
    ensures Steady(Next(s, step, archives), u)
  {
    if IsPass(s, step, u) {
      PassMakesSteady(s, step, u, archives);
    } else {
      OtherStep(s, step, u, archives);
    }
  }

  /** A steady component has nothing to release. */
  lemma SteadyReleasesNothing(s: System, u: Uid, archives: Uid -> Archive)
    requires Inv(s, archives) && Steady(s, u)
    ensures AfterOwnRelease(s, u) == s.objects
  {
    var spec, status := SpecOf(s, u), StatusOf(s, u);
    var m := Count(spec, status);
    MemberInv(s, u, archives);
    forall k | k in m ensures m[k].useCount > 0 {
      CountsConserved(spec, status, k);
      InUseIsWanted(spec, status, k);
    }
    assert DeadTargets(m, m.Keys, NamespaceOf(s, u)) == {};
    ReleasedNothing(s.objects, u);
  }

  lemma SteadyPassAdopts(s: System, step: Step, u: Uid, archives: Uid -> Archive, id: ObjectId)
    requires (forall u :: WellNamed(archives(u)))
    requires Inv(s, archives) && Enabled(s, step, archives) && IsPass(s, step, u) && Steady(s, u) && id in s.objects
    ensures IsMember(Next(s, step, archives), u) && id in Next(s, step, archives).objects
    ensures ListsActive(StatusOf(Next(s, step, archives), u), id) || Owns(s.objects, u, id) ==>
      Owns(Next(s, step, archives).objects, u, id)
  {
    PassExact(s, step, u, archives, id);
    SteadyReleasesNothing(s, u, archives);
    FoundIsAdopted(s.objects, Next(s, step, archives).objects, StatusOf(Next(s, step, archives), u), u, id);
  }

  lemma FoundIsAdopted(start: Objects, after: Objects, status: seq<StatusVersion>, u: Uid, id: ObjectId)
    requires ObjectAfter(start, after, status, u, id) && id in start
    ensures id in after && (ListsActive(status, id) || Owns(start, u, id) ==> Owns(after, u, id))
  {
    ListedSomewhere(status, id);
  }

  lemma SteadyStepKeepsOwned(s: System, step: Step, u: Uid, archives: Uid -> Archive, id: ObjectId)
    requires (forall u :: WellNamed(archives(u)))
    requires Inv(s, archives) && Enabled(s, step, archives) && Spares(s, step, u)
    requires Steady(s, u) && Steady(Next(s, step, archives), u) && Owns(s.objects, u, id)
    ensures Owns(Next(s, step, archives).objects, u, id)
  {
    if IsPass(s, step, u) {
      SteadyPassAdopts(s, step, u, archives, id);
    } else {
      OtherStep(s, step, u, archives);
    }
  }

  ghost predicate SteadyBetween(states: seq<System>, u: Uid, j: nat, n: nat) {
    forall k :: j <= k <= n && k < |states| ==> Steady(states[k], u)
  }

  lemma OwnedOneStep(states: seq<System>, steps: seq<Step>, archives: Uid -> Archive, k: nat, u: Uid, id: ObjectId)
    requires (forall u :: WellNamed(archives(u))) && IsRun(states, steps, archives) && k < |steps|
    requires Spares(states[k], steps[k], u) && Steady(states[k], u) && Steady(states[k + 1], u)
    ensures Owns(states[k].objects, u, id) ==> Owns(states[k + 1].objects, u, id)
  {
    RunKeepsInv(states, steps, archives, k);
    if Owns(states[k].objects, u, id) {
      SteadyStepKeepsOwned(states[k], steps[k], u, archives, id);
    }
  }

  lemma {:induction false} OwnedWhileSteady(states: seq<System>, steps: seq<Step>, archives: Uid -> Archive, j: nat,
                                            n: nat, u: Uid, id: ObjectId)
    requires (forall u :: WellNamed(archives(u))) && IsRun(states, steps, archives) && j <= n < |states|
    requires SteadyBetween(states, u, j, n) && SparedBetween(states, steps, u, j, n)
    requires Owns(states[j].objects, u, id)
    ensures Owns(states[n].objects, u, id)
  {
    if j < n {
      var before := n - 1;
      OwnedWhileSteady(states, steps, archives, j, before, u, id);
      OwnedOneStep(states, steps, archives, before, u, id);
      assert n == before + 1;
    }
  }

  /** The component is there and nobody edits its spec, asks for its deletion or takes away what it owns. */
  ghost predicate LeftAlone(states: seq<System>, steps: seq<Step>, u: Uid, j: nat, n: nat)
    requires |states| == |steps| + 1
  {
    && (forall k :: j <= k <= n && k < |states| ==> IsMember(states[k], u) && !Deleting(states[k], u))
    && (forall k :: j <= k < n && k < |steps| ==> !Edits(steps[k], u)) && SparedBetween(states, steps, u, j, n)
  }

  lemma SteadyOneStep(states: seq<System>, steps: seq<Step>, archives: Uid -> Archive, k: nat, u: Uid)
    requires (forall u :: WellNamed(archives(u))) && IsRun(states, steps, archives) && k < |steps|
    requires IsPass(states[k], steps[k], u) || (Steady(states[k], u) && LeftAlone(states, steps, u, k, k + 1))
    requires IsMember(states[k + 1], u) && !Deleting(states[k + 1], u)
    ensures Steady(states[k + 1], u)
  {
    RunKeepsInv(states, steps, archives, k);
    if IsPass(states[k], steps[k], u) {
      PassMakesSteady(states[k], steps[k], u, archives);
    } else {
      StaysSteady(states[k], steps[k], u, archives);
    }
  }

  lemma LeftAloneBetween(states: seq<System>, steps: seq<Step>, u: Uid, j: nat, k: nat, n: nat)
    requires |states| == |steps| + 1 && j <= k < n < |states| && LeftAlone(states, steps, u, j, n)
    ensures LeftAlone(states, steps, u, k, k + 1) && IsMember(states[k + 1], u) && !Deleting(states[k + 1], u)
  {}

  lemma SteadyNext(states: seq<System>, steps: seq<Step>, archives: Uid -> Archive, i: nat, k: nat, n: nat, u: Uid)
    requires (forall u :: WellNamed(archives(u))) && IsRun(states, steps, archives) && i <= k < n < |states|
    requires IsPass(states[i], steps[i], u) && LeftAlone(states, steps, u, i + 1, n)
    requires k == i || Steady(states[k], u)
    ensures Steady(states[k + 1], u)
  {
    if k > i {
      LeftAloneBetween(states, steps, u, i + 1, k, n);
    }
    SteadyOneStep(states, steps, archives, k, u);
  }

  lemma {:induction false} SteadyAfterPass(states: seq<System>, steps: seq<Step>, archives: Uid -> Archive, i: nat,
                                           k: nat, n: nat, u: Uid)
    requires (forall u :: WellNamed(archives(u))) && IsRun(states, steps, archives) && i < k <= n < |states|
    requires IsPass(states[i], steps[i], u) && LeftAlone(states, steps, u, i + 1, n)
    ensures Steady(states[k], u)
    decreases k
  {
    var before := k - 1;
    if i < before {
      SteadyAfterPass(states, steps, archives, i, before, n, u);
    }
    SteadyNext(states, steps, archives, i, before, n, u);
    assert k == before + 1;
  }

  /** From the second pass on: if the component is left alone since its first pass i, then every object that is there
      before its pass j and listed after it, of whatever kind, is owned and listed at every later moment. */
  lemma OwnedFromSecondPass(states: seq<System>, steps: seq<Step>, archives: Uid -> Archive, i: nat, j: nat, n: nat,
                            u: Uid, id: ObjectId)
    requires (forall u :: WellNamed(archives(u))) && IsRun(states, steps, archives) && i < j < n < |states|
    requires IsPass(states[i], steps[i], u) && IsPass(states[j], steps[j], u) && LeftAlone(states, steps, u, i + 1, n)
    requires IsMember(states[j + 1], u) && IsMember(states[n], u)
    requires id in states[j].objects && ListsActive(StatusOf(states[j + 1], u), id)
    ensures Owns(states[n].objects, u, id) && ListsActive(StatusOf(states[n], u), id)
  {
    forall k | j <= k <= n ensures Steady(states[k], u) {
      SteadyAfterPass(states, steps, archives, i, k, n, u);
    }
    RunKeepsInv(states, steps, archives, j);
    SteadyPassAdopts(states[j], steps[j], u, archives, id);
    OwnedWhileSteady(states, steps, archives, j + 1, n, u, id);
    RunKeepsInv(states, steps, archives, n);
    MemberInv(states[n], u, archives);
  }

  // ---------------------------------------------------------------- how an object is lost

  /** The objects that a pass lets go of. */
  ghost function OwnReleases(s: System, u: Uid): set<ObjectId>
    requires IsMember(s, u)
  {
    var m := Count(SpecOf(s, u), StatusOf(s, u));
    DeadTargets(m, m.Keys, NamespaceOf(s, u))
  }

  lemma NobodyElse(owners: seq<Uid>, u: Uid)
    ensures Without(owners, u) == [] <==> forall o :: o in owners ==> o == u
  {
    WithoutOwner(owners, u);
    if Without(owners, u) != [] {
      assert Without(owners, u)[0] in Without(owners, u);
    }
  }

  /** A pass removes an object exactly if it lets go of it, nobody else owns it, and the new status does not list it
      (it would have been made again). */
  lemma PassRemovesExactly(s: System, step: Step, u: Uid, archives: Uid -> Archive, id: ObjectId)
    requires (forall u :: WellNamed(archives(u)))
    requires Inv(s, archives) && Enabled(s, step, archives) && IsPass(s, step, u) && id in s.objects
    ensures IsMember(Next(s, step, archives), u)
    ensures id !in Next(s, step, archives).objects <==>
      && id in OwnReleases(s, u) && (forall o :: o in s.objects[id] ==> o == u)
      && !ListsActive(StatusOf(Next(s, step, archives), u), id)
  {
    PassExact(s, step, u, archives, id);
    ListedSomewhere(StatusOf(Next(s, step, archives), u), id);
    NobodyElse(s.objects[id], u);
  }

  /** The cleanup of a stack removes an object exactly if the status lists it as applied and nobody else owns it. */
  lemma CleanupRemovesExactly(s: System, step: Step, archives: Uid -> Archive, id: ObjectId)
    requires Enabled(s, step, archives) && step.ReconcileStack? && id in s.objects
    requires s.stacks[step.uid].state.deleting && FINALIZER in s.stacks[step.uid].state.finalizers
    ensures var m := s.stacks[step.uid];
      id !in Next(s, step, archives).objects <==>
        id in StatusTargets(m.state.status.versions, m.namespace) && forall o :: o in s.objects[id] ==> o == step.uid
  {
    NobodyElse(s.objects[id], step.uid);
  }

  lemma LostWasUnowned(s: System, step: Step, u: Uid, archives: Uid -> Archive, id: ObjectId)
    requires (forall u :: WellNamed(archives(u))) && Inv(s, archives) && Enabled(s, step, archives)
    requires (step.ReconcileStack? || step.ReconcileKabanero?) && step.uid != u
    requires IsMember(s, u) && ListsActive(StatusOf(s, u), id)
    requires id in s.objects && id !in Next(s, step, archives).objects
    ensures !Owns(s.objects, u, id) && (Firm(s, u) && !Deleting(s, u) ==> !TakesOwner(id.kind))
  {
    OthersKeepTheirs(s, step, u, archives);
  }

  /** In every run, a listed object that another component's step removes was not owned by the component that lists it.
      If nobody took anything from that component since one of its passes, or since the start, the object is of a kind
      that is created without an owner, and was not adopted yet. */
  lemma OnlyUnadoptedAreLost(states: seq<System>, steps: seq<Step>, archives: Uid -> Archive, i: nat, n: nat, u: Uid,
                             id: ObjectId)
    requires (forall u :: WellNamed(archives(u))) && IsRun(states, steps, archives) && i <= n < |steps|
    requires i > 0 ==> IsPass(states[i - 1], steps[i - 1], u)
    requires (steps[n].ReconcileStack? || steps[n].ReconcileKabanero?) && steps[n].uid != u
    requires IsMember(states[n], u) && ListsActive(StatusOf(states[n], u), id)
    requires id in states[n].objects && id !in states[n + 1].objects
    ensures !Owns(states[n].objects, u, id)
    ensures SparedBetween(states, steps, u, i, n) && !Deleting(states[n], u) ==> !TakesOwner(id.kind)
  {
    RunKeepsInv(states, steps, archives, n);
    LostWasUnowned(states[n], steps[n], u, archives, id);
    if SparedBetween(states, steps, u, i, n) {
      FirmFrom(states, steps, archives, i, n, u);
    }
  }

  /** Such an object is lost indeed when its only owner lets go of it, and stays listed. */
  lemma UnadoptedIsLost(s: System, step: Step, c: Uid, u: Uid, archives: Uid -> Archive, id: ObjectId)
    requires (forall u :: WellNamed(archives(u))) && Inv(s, archives) && Enabled(s, step, archives)
    requires IsPass(s, step, c) && c != u && IsMember(s, u) && ListsActive(StatusOf(s, u), id)
    requires IsMember(Next(s, step, archives), u) && !Deleting(Next(s, step, archives), u)
    requires id in s.objects && id in OwnReleases(s, c) && (forall o :: o in s.objects[id] ==> o == c)
    requires IsMember(Next(s, step, archives), c) && !ListsActive(StatusOf(Next(s, step, archives), c), id)
    ensures id !in Next(s, step, archives).objects && ListsActive(StatusOf(Next(s, step, archives), u), id)
  {
    PassRemovesExactly(s, step, c, archives, id);
    OtherStep(s, step, u, archives);
  }

  /** How it begins: the first visit of an archive with one trigger object makes the object and lists it as active,
      but does not own it. */
  lemma TriggerIsMadeUnowned(m: Manifest, key: UseKey, namespace: string, uid: Uid)
    requires IsAllowed(m.group) && !TakesOwner(m.kind) && namespace != ""
    ensures var world := World((k, n) => Fetched([m]), (k, i, j) => Applied);
      var r := EnsureArchive(Adoption(map[], FreshValue(key)), key, namespace, uid, world);
      var id := ObjectId(m.group, m.version, m.kind, NamespaceFor(m, namespace), m.name);
      id in r.objects && r.objects[id] == [] && ActiveIn(r.value.pipeline.activeAssets, id)
  {
    var world := World((k, n) => Fetched([m]), (k, i, j) => Applied);
    var archive: Archive := k => [m];
    var a := Adoption(map[], FreshValue(key));
    var r := EnsureArchive(a, key, namespace, uid, world);
    var id := ObjectId(m.group, m.version, m.kind, NamespaceFor(m, namespace), m.name);
    var listed := a.(value := Listing(a.value, key, namespace, world));
    assert listed.value.pipeline.activeAssets == NewAssets([m], namespace);
    var asset := listed.value.pipeline.activeAssets[0];
    assert asset == NewAsset(m, namespace) && IdOf(asset) == id;
    OneManifestMatches(Progress(map[], asset), [m], 1, key, 0, uid, world);
    assert EnsureAssets(listed, key, 0, namespace, uid, world) == listed;
    assert r == EnsureAsset(listed, key, 0, namespace, uid, world);
    assert r.value.pipeline.activeAssets[0] == MarkActive(asset);
  }
}
