/** The two teardowns, field by field: what is written to the resource, which objects are let go, which stacks are asked
    to go, and when the resource itself is gone. */
module Teardowns {
  import opened Component
  import opened UseCounts
  import opened Cluster
  import opened Activation
  import opened Ownership
  import opened StackController
  import opened KabaneroController
  import opened Runs
  import opened Sources
  import opened Visits

  /** The component is no owner of the object any more; its other owners stay, in their order, and without any the
      object is gone. */
  predicate LetGo(before: Objects, after: Objects, id: ObjectId, uid: Uid) {
    id in before ==>
      && (id in after <==> exists o :: o in before[id] && o != uid)
      && (id in after ==> after[id] == Without(before[id], uid))
  }

  ghost predicate LetsGoExactly(before: Objects, after: Objects, targets: set<ObjectId>, uid: Uid) {
    && (forall id :: id in targets ==> LetGo(before, after, id, uid))
    && (forall id :: id !in targets ==> SameAt(before, after, id))
    && after.Keys <= before.Keys
  }

  lemma ReleaseLetsGo(objects: Objects, targets: set<ObjectId>, uid: Uid)
    ensures LetsGoExactly(objects, Released(objects, targets, uid), targets, uid)
  {
    ReleasedOwnership(objects, targets, uid);
    forall id | id in targets && id in objects
      ensures LetGo(objects, Released(objects, targets, uid), id, uid)
    {
      SomebodyElse(objects[id], uid);
    }
  }

  /** The finalizers that are left are the others, in their order. */
  ghost predicate Dropped(before: seq<string>, after: seq<string>, finalizer: string) {
    && after == DropFinalizer(before, finalizer)
    && (forall f :: f in after <==> f in before && f != finalizer)
  }

  // ---------------------------------------------------------------- a stack

  /** The objects of the assets that a list of pipelines has as applied. */
  predicate ListsObject(pipelines: seq<PipelineStatus>, namespace: string, id: ObjectId) {
    exists p, a :: p in pipelines && a in p.activeAssets && a.status != "unknown" && a.status != "failed" &&
                   ObjectOf(a, namespace) == id
  }

  predicate VersionsList(versions: seq<VersionStatus>, namespace: string, id: ObjectId) {
    exists v :: v in versions && ListsObject(v.pipelines, namespace, id)
  }

  lemma PipelineTargetsExactly(pipelines: seq<PipelineStatus>, namespace: string)
    ensures forall id :: id in PipelineTargets(pipelines, namespace) <==> ListsObject(pipelines, namespace, id)
  {
    forall a: AssetStatus ensures IdOf(Namespaced(a, namespace)) == ObjectOf(a, namespace) {}
  }

  lemma StatusTargetsExactly(versions: seq<VersionStatus>, namespace: string)
    ensures forall id :: id in StatusTargets(versions, namespace) <==> VersionsList(versions, namespace, id)
  {
    forall v | v in versions
      ensures forall id :: id in PipelineTargets(v.pipelines, namespace) <==> ListsObject(v.pipelines, namespace, id)
    {
      PipelineTargetsExactly(v.pipelines, namespace);
    }
    forall id ensures id in StatusTargets(versions, namespace) <==>
                      exists v :: v in versions && id in PipelineTargets(v.pipelines, namespace) {}
  }

  /** A stack that is not asked to go gets its finalizer once. One that is lets go of exactly what its status lists and
      loses its finalizer, and nothing happens when it has none. Its spec and its status stay. */
  lemma StackDeletion(objects: Objects, s: StackState, namespace: string, uid: Uid)
    ensures var (after, now) := ProcessedDeletion(objects, s, namespace, uid);
      && now.versions == s.versions && now.status == s.status && now.deleting == s.deleting
      && if s.deleting && "kabanero.io/stack-controller" in s.finalizers then
           && Dropped(s.finalizers, now.finalizers, "kabanero.io/stack-controller")
           && (forall id :: VersionsList(s.status.versions, namespace, id) ==> LetGo(objects, after, id, uid))
           && (forall id :: !VersionsList(s.status.versions, namespace, id) ==> SameAt(objects, after, id))
         else
           && after == objects
           && now.finalizers ==
              if s.deleting || "kabanero.io/stack-controller" in s.finalizers then s.finalizers
              else s.finalizers + ["kabanero.io/stack-controller"]
  {
    DropFinalizerKeeps(s.finalizers, "kabanero.io/stack-controller");
    StatusTargetsExactly(s.status.versions, namespace);
    ReleaseLetsGo(objects, StatusTargets(s.status.versions, namespace), uid);
  }

  /** A deletion in progress leaves the spec, the status and the other finalizers of the stack alone, and the stack is
      gone after the reconciliation exactly if no other finalizer holds it. */
  lemma DeletedStackGoes(s: System, step: Step, archives: Uid -> Archive)
    requires step.ReconcileStack? && Enabled(s, step, archives) && s.stacks[step.uid].state.deleting
    ensures step.uid in Next(s, step, archives).stacks <==>
      exists f :: f in s.stacks[step.uid].state.finalizers && f != "kabanero.io/stack-controller"
  {
    var state := s.stacks[step.uid].state;
    StackDeletion(s.objects, state, s.stacks[step.uid].namespace, step.uid);
    var (_, now) := ProcessedDeletion(s.objects, state, s.stacks[step.uid].namespace, step.uid);
    assert now.finalizers != [] <==>
           exists f :: f in state.finalizers && f != "kabanero.io/stack-controller" by {
      if now.finalizers != [] {
        assert now.finalizers[0] in now.finalizers;
      }
    }
  }

  // ---------------------------------------------------------------- a Kabanero

  /** A Kabanero that is not asked to go gets its finalizer once. The cleanup of one that is reaches its gitops
      pipelines when nothing fails before and no stack of its own is left; the finalizer goes unless the last step
      fails. */
  lemma KabaneroDeletion(objects: Objects, s: KabaneroState, ownsStacks: bool, namespace: string, uid: Uid,
                         errors: CleanupErrors)
    ensures var r := ProcessedKabaneroDeletion(objects, s, ownsStacks, namespace, uid, errors);
      && r.state.gitops == s.gitops && r.state.status == s.status && r.state.deleting == s.deleting
      && var held := "kabanero.io.kabanero-operator" in s.finalizers;
         if s.deleting && held && !errors.early && !ownsStacks && !errors.middle then
           && (forall id :: ListsObject(s.status.pipelines, namespace, id) ==> LetGo(objects, r.objects, id, uid))
           && (forall id :: !ListsObject(s.status.pipelines, namespace, id) ==> SameAt(objects, r.objects, id))
           && if errors.late then r.state.finalizers == s.finalizers
              else Dropped(s.finalizers, r.state.finalizers, "kabanero.io.kabanero-operator")
         else
           && r.objects == objects
           && r.state.finalizers ==
              if s.deleting || held then s.finalizers else s.finalizers + ["kabanero.io.kabanero-operator"]
  {
    DropFinalizerKeeps(s.finalizers, "kabanero.io.kabanero-operator");
    PipelineTargetsExactly(s.status.pipelines, namespace);
    ReleaseLetsGo(objects, PipelineTargets(s.status.pipelines, namespace), uid);
  }

  /** The stacks of its own namespace that name it as an owner. */
  predicate IsStackOf(m: StackMember, uid: Uid, namespace: string) {
    m.namespace == namespace && uid in m.owners
  }

  /** In the teardown of a Kabanero that holds its finalizer: it is gone afterwards exactly if no step failed, no stack
      of its own namespace names it, and no other finalizer holds it. If the first steps went well, exactly those stacks
      are asked to go; no other stack is touched. */
  lemma DeletedKabaneroGoes(s: System, step: Step, archives: Uid -> Archive)
    requires step.ReconcileKabanero? && Enabled(s, step, archives) && s.kabaneros[step.uid].state.deleting
    requires "kabanero.io.kabanero-operator" in s.kabaneros[step.uid].state.finalizers
    ensures var next, m := Next(s, step, archives), s.kabaneros[step.uid];
      && (step.uid !in next.kabaneros <==>
            && step.errors == CleanupErrors(false, false, false)
            && (forall u :: u in s.stacks ==> !IsStackOf(s.stacks[u], step.uid, m.namespace))
            && (forall f :: f in m.state.finalizers ==> f == "kabanero.io.kabanero-operator"))
      && (forall u :: u in s.stacks && IsStackOf(s.stacks[u], step.uid, m.namespace) && !step.errors.early ==>
            if s.stacks[u].state.finalizers == [] then u !in next.stacks
            else u in next.stacks && next.stacks[u] == Asking(s.stacks[u]))
      && (forall u :: u in s.stacks && (step.errors.early || !IsStackOf(s.stacks[u], step.uid, m.namespace)) ==>
            if s.stacks[u].state.deleting && s.stacks[u].state.finalizers == [] then u !in next.stacks
            else u in next.stacks && next.stacks[u] == s.stacks[u])
  {
    var m := s.kabaneros[step.uid];
    KabaneroDeletion(s.objects, m.state, OwnsStacks(s.stacks, step.uid, m.namespace), m.namespace, step.uid,
                     step.errors);
    var r := ProcessedKabaneroDeletion(s.objects, m.state, OwnsStacks(s.stacks, step.uid, m.namespace), m.namespace,
                                       step.uid, step.errors);
    assert "kabanero.io.kabanero-operator" in m.state.finalizers;
    OthersHold(m.state.finalizers, r.state.finalizers, "kabanero.io.kabanero-operator");
    StacksAsked(s, step, archives);
  }

  function Asking(m: StackMember): StackMember {
    m.(state := m.state.(deleting := true))
  }

  lemma OthersHold(before: seq<string>, after: seq<string>, finalizer: string)
    requires finalizer in before
    requires after == before || Dropped(before, after, finalizer)
    ensures after == [] <==> after != before && forall f :: f in before ==> f == finalizer
  {
    if after != [] {
      assert after[0] in after;
    }
  }

  lemma StacksAsked(s: System, step: Step, archives: Uid -> Archive)
    requires step.ReconcileKabanero? && Enabled(s, step, archives) && s.kabaneros[step.uid].state.deleting
    requires "kabanero.io.kabanero-operator" in s.kabaneros[step.uid].state.finalizers
    ensures var next, m := Next(s, step, archives), s.kabaneros[step.uid];
      && (forall u :: u in s.stacks && IsStackOf(s.stacks[u], step.uid, m.namespace) && !step.errors.early ==>
            if s.stacks[u].state.finalizers == [] then u !in next.stacks
            else u in next.stacks && next.stacks[u] == Asking(s.stacks[u]))
      && (forall u :: u in s.stacks && (step.errors.early || !IsStackOf(s.stacks[u], step.uid, m.namespace)) ==>
            if s.stacks[u].state.deleting && s.stacks[u].state.finalizers == [] then u !in next.stacks
            else u in next.stacks && next.stacks[u] == s.stacks[u])
  {}
}
