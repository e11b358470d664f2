/** The parts of the Kabanero controller that share the activation engine and the finalizer protocol:
    the gitops pipelines, and the teardown that waits for the stacks. */
module KabaneroController {
  import opened Component
  import opened UseCounts
  import opened Cluster
  import opened Activation
  import opened Accuracy
  import opened StackController

  const GITOPS := "gitops"
  const KABANERO_FINALIZER := "kabanero.io.kabanero-operator"

  datatype GitopsStatus = GitopsStatus(pipelines: seq<PipelineStatus>, ready: string, message: string)

  /** The single version of the gitops component. */
  function GitopsSpec(pipelines: seq<PipelineSpec>): seq<SpecVersion> {
    [SpecVersion(GITOPS, pipelines)]
  }

  function GitopsVersions(pipelines: seq<PipelineStatus>): seq<StatusVersion> {
    [StatusVersion(GITOPS, pipelines)]
  }

  predicate AllActive(pipelines: seq<PipelineStatus>) {
    forall p, a :: p in pipelines && a in p.activeAssets ==> a.status == ASSET_ACTIVE
  }

  function NewGitopsStatus(ps: seq<PipelineSpec>, m: UseMap): GitopsStatus {
    var pipelines := RebuildPipelines(ps, m);
    var error := LastError(ps, m);
    var message := if error.Some? then error.value else "";
    GitopsStatus(pipelines, if AllActive(pipelines) && message == "" then "True" else "False", message)
  }

  datatype KabaneroState = KabaneroState(gitops: seq<PipelineSpec>, status: GitopsStatus, finalizers: seq<string>,
                                         deleting: bool)

  datatype KabaneroOutcome = KabaneroOutcome(objects: Objects, state: KabaneroState)

  function ReconciledGitops(objects: Objects, s: KabaneroState, namespace: string, uid: Uid, order: seq<UseKey>,
                            world: World): KabaneroOutcome
    requires IsOrder(order, Count(GitopsSpec(s.gitops), GitopsVersions(s.status.pipelines)).Keys)
  {
    var p := Activate(objects, GitopsSpec(s.gitops), GitopsVersions(s.status.pipelines), order, namespace, uid, world);
    KabaneroOutcome(p.objects, s.(status := NewGitopsStatus(s.gitops, p.useMap)))
  }

  function WithFinalizer(s: KabaneroState): KabaneroState {
    if KABANERO_FINALIZER in s.finalizers then s else s.(finalizers := s.finalizers + [KABANERO_FINALIZER])
  }

  /** The cleanup steps that can fail: those before the stacks, those between the stacks and the gitops
      pipelines, and the last one. */
  datatype CleanupErrors = CleanupErrors(early: bool, middle: bool, late: bool)

  function ProcessedKabaneroDeletion(objects: Objects, s: KabaneroState, ownsStacks: bool, namespace: string, uid: Uid,
                                     errors: CleanupErrors): KabaneroOutcome
  {
    if !s.deleting then KabaneroOutcome(objects, WithFinalizer(s))
    else if KABANERO_FINALIZER !in s.finalizers || errors.early || ownsStacks || errors.middle then
      KabaneroOutcome(objects, s)
    else
      KabaneroOutcome(
        Released(objects, PipelineTargets(s.status.pipelines, namespace), uid),
        if errors.late then s else s.(finalizers := DropFinalizer(s.finalizers, KABANERO_FINALIZER)))
  }

  function CountOf(owners: seq<Uid>, uid: Uid): nat {
    multiset(owners)[uid]
  }

  class Kabanero {
    const namespace: string
    const uid: Uid
    var gitops: seq<PipelineSpec>
    var status: GitopsStatus
    var finalizers: seq<string>
    var deleting: bool

    constructor (namespace: string, uid: Uid, gitops: seq<PipelineSpec>)
      ensures this.namespace == namespace && this.uid == uid
      ensures State() == KabaneroState(gitops, GitopsStatus([], "", ""), [], false)
    {
      this.namespace, this.uid := namespace, uid;
      this.gitops, status, finalizers, deleting := gitops, GitopsStatus([], "", ""), [], false;
    }

    function State(): KabaneroState
      reads this
    {
      KabaneroState(gitops, status, finalizers, deleting)
    }

    method ReconcileGitopsPipelines(api: ApiServer, world: World) returns (ghost order: seq<UseKey>)
      modifies this, api
      ensures IsOrder(order, Count(GitopsSpec(old(gitops)), GitopsVersions(old(status.pipelines))).Keys)
      ensures KabaneroOutcome(api.objects, State()) ==
              ReconciledGitops(old(api.objects), old(State()), namespace, uid, order, world)
    {
      var useMap;
      useMap, order :=
        ActivatePipelines(api, GitopsSpec(gitops), GitopsVersions(status.pipelines), namespace, uid, world);
      status := Report(gitops, useMap);
    }

    /** The new status: ready if every asset is active and there is no message. */
    static method Report(gitops: seq<PipelineSpec>, useMap: UseMap) returns (status: GitopsStatus)
      ensures status == NewGitopsStatus(gitops, useMap)
    {
      var pipelines, error := ReportPipelines(gitops, useMap);
      var ready, message := "True", if error.Some? then error.value else "";
      var allActive := CheckActive(pipelines);
      if !allActive {
        ready := "False";
      }
      if message != "" {
        ready := "False";
      }
      return GitopsStatus(pipelines, ready, message);
    }

    method CleanupGitopsPipelines(api: ApiServer)
      modifies api
      ensures api.objects == Released(old(api.objects), PipelineTargets(status.pipelines, namespace), uid)
    {
      CleanupPipelines(api, status.pipelines, namespace, uid);
    }

    /** Of all stacks, those of this namespace are listed. Every one of them that names this Kabanero as an owner is
        asked to go and blocks the teardown. */
    method CleanupStackController(stacks: seq<Stack>) returns (stackCount: nat)
      modifies set s | s in stacks
      ensures stackCount == OwnedStacks(stacks, uid, namespace)
      ensures forall s :: s in stacks ==>
        s.State() == old(s.State()).(deleting := old(s.deleting) || (s.namespace == namespace && uid in s.owners))
    {
      stackCount := 0;
      for i := 0 to |stacks|
        invariant stackCount == OwnedStacks(stacks[..i], uid, namespace)
        invariant forall s :: s in stacks ==>
          s.State() == old(s.State()).(deleting := old(s.deleting) || (s in stacks[..i] && IsOwned(s, uid, namespace)))
      {
        var stack := stacks[i];
        assert stacks[..i + 1][..i] == stacks[..i];
        assert forall s :: s in stacks[..i + 1] <==> s in stacks[..i] || s == stack;
        if stack.namespace == namespace {
          var references := DeleteStack(stack);
          stackCount := stackCount + references;
        }
      }
      assert stacks[..|stacks|] == stacks;
    }

    /** The owner references of one listed stack. */
    method DeleteStack(stack: Stack) returns (references: nat)
      modifies stack
      ensures references == CountOf(stack.owners, uid)
      ensures stack.State() == old(stack.State()).(deleting := old(stack.deleting) || uid in stack.owners)
    {
      references := 0;
      for j := 0 to |stack.owners|
        invariant references == CountOf(stack.owners[..j], uid)
        invariant stack.State() == old(stack.State()).(deleting := old(stack.deleting) || uid in stack.owners[..j])
      {
        assert stack.owners[..j + 1] == stack.owners[..j] + [stack.owners[j]];
        if stack.owners[j] == uid {
          references := references + 1;
          if !stack.deleting {
            stack.deleting := true;
          }
        }
      }
      assert stack.owners[..|stack.owners|] == stack.owners;
    }

    method ProcessDeletion(api: ApiServer, stacks: seq<Stack>, errors: CleanupErrors) returns (beingDeleted: bool)
      modifies this, api, set s | s in stacks
      ensures beingDeleted == old(deleting)
      ensures KabaneroOutcome(api.objects, State()) ==
              ProcessedKabaneroDeletion(old(api.objects), old(State()),
                                        exists s :: s in stacks && s.namespace == namespace && uid in s.owners,
                                        namespace, uid, errors)
      ensures forall s :: s in stacks ==> s.State() == old(s.State()).(deleting := s.deleting)
      ensures forall s :: s in stacks ==>
        s.deleting == (old(s.deleting) ||
          (s.namespace == namespace && uid in s.owners && old(deleting && KABANERO_FINALIZER in finalizers) &&
           !errors.early))
    {
      beingDeleted := deleting;
      OwnedStacksPositive(stacks, uid, namespace);
      var foundFinalizer := KABANERO_FINALIZER in finalizers;
      if !beingDeleted {
        if !foundFinalizer {
          finalizers := finalizers + [KABANERO_FINALIZER];
        }
        return;
      }
      if foundFinalizer {
        if errors.early {
          return;
        }
        var stackCount := CleanupStackController(stacks);
        if stackCount > 0 || errors.middle {
          return;
        }
        CleanupGitopsPipelines(api);
        if errors.late {
          return;
        }
        finalizers := RemoveFinalizer(finalizers, KABANERO_FINALIZER);
      }
    }
  }

  predicate IsOwned(s: Stack, uid: Uid, namespace: string) {
    s.namespace == namespace && uid in s.owners
  }

  /** How many owner references of the stacks of one namespace point at one Kabanero. */
  function OwnedStacks(stacks: seq<Stack>, uid: Uid, namespace: string): nat {
    if stacks == [] then 0
    else
      var last := stacks[|stacks| - 1];
      OwnedStacks(stacks[..|stacks| - 1], uid, namespace) +
        if last.namespace == namespace then CountOf(last.owners, uid) else 0
  }

  lemma {:induction false} OwnedStacksPositive(stacks: seq<Stack>, uid: Uid, namespace: string)
    ensures OwnedStacks(stacks, uid, namespace) > 0 <==>
      exists s :: s in stacks && s.namespace == namespace && uid in s.owners
  {
    if stacks != [] {
      var n := |stacks| - 1;
      OwnedStacksPositive(stacks[..n], uid, namespace);
      assert stacks == stacks[..n] + [stacks[n]];
      if s :| s in stacks && IsOwned(s, uid, namespace) {
        assert s in stacks[..n] || s == stacks[n];
      }
      if IsOwned(stacks[n], uid, namespace) {
        assert CountOf(stacks[n].owners, uid) > 0;
      } else if stacks[n].namespace == namespace {
        assert CountOf(stacks[n].owners, uid) == 0;
      }
    }
  }

  method CheckActive(pipelines: seq<PipelineStatus>) returns (allActive: bool)
    ensures allActive <==> AllActive(pipelines)
  {
    allActive := true;
    for i := 0 to |pipelines|
      invariant allActive <==> AllActive(pipelines[..i])
    {
      var assets := pipelines[i].activeAssets;
      for j := 0 to |assets|
        invariant allActive <==> AllActive(pipelines[..i]) && forall a :: a in assets[..j] ==> a.status == ASSET_ACTIVE
      {
        assert forall a :: a in assets[..j + 1] <==> a in assets[..j] || a == assets[j];
        if assets[j].status != ASSET_ACTIVE {
          allActive := false;
        }
      }
      assert assets[..|assets|] == assets;
      assert forall p :: p in pipelines[..i + 1] <==> p in pipelines[..i] || p == pipelines[i];
    }
    assert pipelines[..|pipelines|] == pipelines;
  }
}
