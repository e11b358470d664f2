/** Target namespaces: the role bindings that let the pipeline and the CLI deploy into other namespaces. The
    namespaces bound so far are known only from the status, and an empty list stands for the Kabanero's own. */
module TargetNamespaces {
  import opened Component

  datatype BindingId = BindingId(namespace: string, name: string)

  datatype RoleBinding = RoleBinding(saName: string, saNamespace: string, clusterRole: string, owned: bool)

  type Bindings = map<BindingId, RoleBinding>

  datatype Template = Template(name: string, saName: string, clusterRole: string)

  const TEMPLATES := [
    Template("kabanero-pipeline-deploy-rolebinding", "kabanero-pipeline", "kabanero-pipeline-deploy-role"),
    Template("kabanero-cli-deploy-rolebinding", "kabanero-cli", "kabanero-cli-service-deployments-role")]

  /** The template of that name, or the number of templates. */
  function TemplateIndex(name: string): (i: nat)
    ensures i <= 2 && (i < 2 ==> TEMPLATES[i].name == name)
    ensures i == 2 ==> forall j :: 0 <= j < 2 ==> TEMPLATES[j].name != name
  {
    if TEMPLATES[0].name == name then 0 else if TEMPLATES[1].name == name then 1 else 2
  }

  lemma TemplateNames(i: nat)
    requires i < 2
    ensures TemplateIndex(TEMPLATES[i].name) == i
  {
    assert TEMPLATES[0].name[9] != TEMPLATES[1].name[9];
  }

  function Generate(t: Template, own: string, namespace: string): RoleBinding {
    RoleBinding(t.saName, own, t.clusterRole, namespace == own)
  }

  function IdOf(t: Template, namespace: string): BindingId {
    BindingId(namespace, t.name)
  }

  function Generated(own: string, id: BindingId): RoleBinding
    requires TemplateIndex(id.name) < 2
  {
    Generate(TEMPLATES[TemplateIndex(id.name)], own, id.namespace)
  }

  function Find(bindings: Bindings, id: BindingId): Option<RoleBinding> {
    if id in bindings then Some(bindings[id]) else None
  }

  /** An empty list means the Kabanero's own namespace. */
  function Defaulted(namespaces: seq<string>, own: string): (r: seq<string>)
    ensures r != []
  {
    if namespaces == [] then [own] else namespaces
  }

  function ToSet(s: seq<string>): set<string> {
    set x | x in s
  }

  // ---------------------------------------------------------------- bindings of several namespaces

  /** What becomes of a binding when the first n templates are deleted, created or updated in the namespaces. */
  function Deleted(found: Option<RoleBinding>, namespaces: set<string>, n: nat, id: BindingId): Option<RoleBinding> {
    if id.namespace in namespaces && TemplateIndex(id.name) < n then None else found
  }

  function Created(found: Option<RoleBinding>, existing: set<string>, own: string, namespaces: set<string>, n: nat,
                   id: BindingId): Option<RoleBinding>
    requires n <= 2
  {
    if id.namespace in namespaces && id.namespace in existing && TemplateIndex(id.name) < n && found.None?
    then Some(Generated(own, id)) else found
  }

  function Updated(found: Option<RoleBinding>, own: string, namespaces: set<string>, n: nat, id: BindingId):
    Option<RoleBinding>
    requires n <= 2
  {
    if id.namespace in namespaces && TemplateIndex(id.name) < n && found.Some? then Some(Generated(own, id)) else found
  }

  // ---------------------------------------------------------------- one pass

  datatype Status = Status(namespaces: seq<string>, ready: bool, failed: seq<string>)

  /** The namespaces a pass binds, out of the ones listed. */
  function Wanted(spec: seq<string>, own: string, failed: seq<string>): set<string> {
    ToSet(Defaulted(spec, own)) - ToSet(failed)
  }

  /** What a pass does to one binding: removed namespaces lose it, new ones get it where they exist, and in an
      unchanged one it is brought up to date if it is there. */
  function BindingAfter(before: Bindings, existing: set<string>, own: string, bound: set<string>, wanted: set<string>,
                        id: BindingId): Option<RoleBinding>
  {
    var found := Find(before, id);
    if TemplateIndex(id.name) == 2 then found
    else if id.namespace in bound - wanted then None
    else if id.namespace in wanted - bound then
      if found.None? && id.namespace in existing then Some(Generated(own, id)) else found
    else if id.namespace in wanted then
      if found.Some? then Some(Generated(own, id)) else None
    else found
  }

  function Ids(namespaces: set<string>): set<BindingId> {
    set namespace, i | namespace in namespaces && 0 <= i < 2 :: IdOf(TEMPLATES[i], namespace)
  }

  function BindingsAfter(before: Bindings, existing: set<string>, own: string, bound: set<string>, wanted: set<string>):
    (after: Bindings)
  {
    map id | id in before.Keys + Ids(wanted) && BindingAfter(before, existing, own, bound, wanted, id).Some? ::
      BindingAfter(before, existing, own, bound, wanted, id).value
  }

  lemma EveryBindingAfter(before: Bindings, existing: set<string>, own: string, bound: set<string>, wanted: set<string>)
    ensures forall id ::
      Find(BindingsAfter(before, existing, own, bound, wanted), id) ==
        BindingAfter(before, existing, own, bound, wanted, id)
  {
    forall id | id !in before && BindingAfter(before, existing, own, bound, wanted, id).Some?
      ensures id in Ids(wanted)
    {
      assert id == IdOf(TEMPLATES[TemplateIndex(id.name)], id.namespace);
    }
  }

  /** The listed namespaces without those that failed. */
  function Reported(spec: seq<string>, failed: seq<string>): (r: seq<string>)
    ensures forall namespace :: namespace in r <==> namespace in spec && namespace !in failed
  {
    if spec == [] then []
    else
      var before := Reported(spec[..|spec| - 1], failed);
      var last := spec[|spec| - 1];
      if last in failed then before else before + [last]
  }

  function StatusAfter(spec: seq<string>, failed: seq<string>): Status {
    Status(Reported(spec, failed), failed == [], failed)
  }

  datatype Existence = Exists | Missing | Unknown

  /** How often a namespace is reported: one whose state is unknown is found not to exist as well. */
  function Complaints(e: Existence): nat {
    match e
    case Exists => 0
    case Missing => 1
    case Unknown => 2
  }

  ghost predicate IsFailed(failed: seq<string>, listed: set<string>, check: string -> Existence) {
    forall namespace :: multiset(failed)[namespace] == if namespace in listed then Complaints(check(namespace)) else 0
  }

  /** The role bindings of the cluster, and its namespaces. */
  class Server {
    var existing: set<string>
    var bindings: Bindings

    constructor (existing: set<string>, bindings: Bindings)
      ensures this.existing == existing && this.bindings == bindings
    {
      this.existing, this.bindings := existing, bindings;
    }

    /** Refused when the binding exists or its namespace does not; the caller does not look at the error. */
    method Create(id: BindingId, r: RoleBinding)
      modifies this`bindings
      ensures bindings ==
        if id in old(bindings) || id.namespace !in existing then old(bindings) else old(bindings)[id := r]
    {
      if id !in bindings && id.namespace in existing {
        bindings := bindings[id := r];
      }
    }

    method Update(id: BindingId, r: RoleBinding)
      modifies this`bindings
      ensures bindings == if id in old(bindings) then old(bindings)[id := r] else old(bindings)
    {
      if id in bindings {
        bindings := bindings[id := r];
      }
    }

    method Delete(id: BindingId)
      modifies this`bindings
      ensures bindings == old(bindings) - {id}
    {
      bindings := bindings - {id};
    }

    method DeleteIn(namespace: string)
      modifies this`bindings
      ensures forall id :: Find(bindings, id) == Deleted(Find(old(bindings), id), {namespace}, 2, id)
    {
      for i := 0 to 2
        invariant forall id :: Find(bindings, id) == Deleted(Find(old(bindings), id), {namespace}, i, id)
      {
        TemplateNames(i);
        Delete(IdOf(TEMPLATES[i], namespace));
      }
    }

    method CreateIn(namespace: string, own: string)
      modifies this`bindings
      ensures forall id :: Find(bindings, id) == Created(Find(old(bindings), id), existing, own, {namespace}, 2, id)
    {
      for i := 0 to 2
        invariant forall id :: Find(bindings, id) == Created(Find(old(bindings), id), existing, own, {namespace}, i, id)
      {
        TemplateNames(i);
        Create(IdOf(TEMPLATES[i], namespace), Generate(TEMPLATES[i], own, namespace));
      }
    }

    method UpdateIn(namespace: string, own: string)
      modifies this`bindings
      ensures forall id :: Find(bindings, id) == Updated(Find(old(bindings), id), own, {namespace}, 2, id)
    {
      for i := 0 to 2
        invariant forall id :: Find(bindings, id) == Updated(Find(old(bindings), id), own, {namespace}, i, id)
      {
        TemplateNames(i);
        Update(IdOf(TEMPLATES[i], namespace), Generate(TEMPLATES[i], own, namespace));
      }
    }
  }

  method CheckNamespaces(listed: set<string>, check: string -> Existence) returns (failed: seq<string>)
    ensures IsFailed(failed, listed, check)
    ensures forall namespace :: namespace in failed <==> namespace in listed && !check(namespace).Exists?
  {
    failed := [];
    var todo := listed;
    while todo != {}
      invariant todo <= listed
      invariant IsFailed(failed, listed - todo, check)
    {
      var namespace :| namespace in todo;
      if check(namespace).Unknown? {
        failed := failed + [namespace];
      }
      if !check(namespace).Exists? {
        failed := failed + [namespace];
      }
      todo := todo - {namespace};
    }
    assert listed - todo == listed;
    FailedSet(failed, listed, check);
  }

  method ReportNamespaces(spec: seq<string>, failed: seq<string>) returns (namespaces: seq<string>)
    ensures namespaces == Reported(spec, failed)
  {
    namespaces := [];
    for i := 0 to |spec|
      invariant namespaces == Reported(spec[..i], failed)
    {
      assert spec[..i + 1][..i] == spec[..i];
      if spec[i] !in failed {
        namespaces := namespaces + [spec[i]];
      }
    }
    assert spec[..|spec|] == spec;
  }

  /** The part of a Kabanero that the target namespaces are read from and reported in. */
  class Kabanero {
    const own: string
    var spec: seq<string>
    var status: Status

    constructor (own: string, spec: seq<string>, status: Status)
      ensures this.own == own && this.spec == spec && this.status == status
    {
      this.own, this.spec, this.status := own, spec, status;
    }

    method ReconcileTargetNamespaces(server: Server, check: string -> Existence) returns (ok: bool)
      modifies this`status, server`bindings
      ensures IsFailed(status.failed, ToSet(Defaulted(spec, own)), check)
      ensures status == StatusAfter(spec, status.failed) && (status.ready <==> status.failed == [])
      ensures server.bindings == BindingsAfter(old(server.bindings), server.existing, own,
                                               ToSet(Defaulted(old(status).namespaces, own)),
                                               Wanted(spec, own, status.failed))
      ensures ok == status.ready
    {
      var failed := CheckNamespaces(ToSet(Defaulted(spec, own)), check);
      var wanted := Wanted(spec, own, failed);
      var bound := ToSet(Defaulted(status.namespaces, own));
      DeleteRemoved(server, bound - wanted);
      CreateNew(server, wanted - bound);
      UpdateUnchanged(server, wanted * bound);
      EveryBindingAfter(old(server.bindings), server.existing, own, bound, wanted);
      SameBindings(server.bindings, BindingsAfter(old(server.bindings), server.existing, own, bound, wanted));
      var namespaces := ReportNamespaces(spec, failed);
      status := Status(namespaces, |failed| == 0, failed);
      ok := status.ready;
    }

    method DeleteRemoved(server: Server, namespaces: set<string>)
      modifies server`bindings
      ensures forall id :: Find(server.bindings, id) == Deleted(Find(old(server.bindings), id), namespaces, 2, id)
    {
      var todo := namespaces;
      while todo != {}
        invariant todo <= namespaces
        invariant forall id ::
          Find(server.bindings, id) == Deleted(Find(old(server.bindings), id), namespaces - todo, 2, id)
      {
        var namespace :| namespace in todo;
        server.DeleteIn(namespace);
        todo := todo - {namespace};
      }
    }

    method CreateNew(server: Server, namespaces: set<string>)
      modifies server`bindings
      ensures forall id ::
        Find(server.bindings, id) == Created(Find(old(server.bindings), id), server.existing, own, namespaces, 2, id)
    {
      var todo := namespaces;
      while todo != {}
        invariant todo <= namespaces
        invariant forall id ::
          Find(server.bindings, id) ==
            Created(Find(old(server.bindings), id), server.existing, own, namespaces - todo, 2, id)
      {
        var namespace :| namespace in todo;
        server.CreateIn(namespace, own);
        todo := todo - {namespace};
      }
    }

    method UpdateUnchanged(server: Server, namespaces: set<string>)
      modifies server`bindings
      ensures forall id :: Find(server.bindings, id) == Updated(Find(old(server.bindings), id), own, namespaces, 2, id)
    {
      var todo := namespaces;
      while todo != {}
        invariant todo <= namespaces
        invariant forall id ::
          Find(server.bindings, id) == Updated(Find(old(server.bindings), id), own, namespaces - todo, 2, id)
      {
        var namespace :| namespace in todo;
        server.UpdateIn(namespace, own);
        todo := todo - {namespace};
      }
    }

    method CleanupTargetNamespaces(server: Server)
      modifies server`bindings
      ensures server.bindings == CleanedUp(old(server.bindings), status, own)
    {
      var namespaces := Defaulted(status.namespaces, own);
      for i := 0 to |namespaces|
        invariant forall id ::
          Find(server.bindings, id) == Deleted(Find(old(server.bindings), id), ToSet(namespaces[..i]), 2, id)
      {
        server.DeleteIn(namespaces[i]);
      }
      SameBindings(server.bindings, CleanedUp(old(server.bindings), status, own));
    }
  }

  lemma SameBindings(a: Bindings, b: Bindings)
    requires forall id :: Find(a, id) == Find(b, id)
    ensures a == b
  {
    forall id ensures id in a <==> id in b {
      assert Find(a, id) == Find(b, id);
    }
    forall id | id in a ensures a[id] == b[id] {
      assert Find(a, id) == Find(b, id);
    }
  }

  function CleanedUp(bindings: Bindings, status: Status, own: string): Bindings {
    map id | id in bindings && !(id.namespace in Defaulted(status.namespaces, own) && TemplateIndex(id.name) < 2) ::
      bindings[id]
  }

  // ---------------------------------------------------------------- runs

  /** Only this Kabanero's bindings are followed. */
  datatype State = State(own: string, spec: seq<string>, status: Status, existing: set<string>, bindings: Bindings,
                         deleted: bool)

  datatype Event =
    | Reconcile(failed: seq<string>, check: string -> Existence)
    | ChangeSpec(spec: seq<string>)
    | Vanish(namespace: string)
    | Appear(namespace: string)
    | Cleanup

  function Bound(s: State): set<string> {
    ToSet(Defaulted(s.status.namespaces, s.own))
  }

  /** A check that answers tells the truth. A bound namespace that vanished does not come back before a pass has
      noticed. */
  ghost predicate Enabled(s: State, e: Event) {
    match e
    case Reconcile(failed, check) =>
      && !s.deleted && IsFailed(failed, ToSet(Defaulted(s.spec, s.own)), check)
      && forall namespace :: !check(namespace).Unknown? ==> (check(namespace).Exists? <==> namespace in s.existing)
    case ChangeSpec(_) => true
    case Vanish(_) => true
    case Appear(namespace) => namespace in Bound(s) ==> namespace in s.existing || namespace == s.own
    case Cleanup => true
  }

  function Next(s: State, e: Event): State {
    match e
    case Reconcile(failed, _) =>
      s.(status := StatusAfter(s.spec, failed),
         bindings := BindingsAfter(s.bindings, s.existing, s.own, Bound(s), Wanted(s.spec, s.own, failed)))
    case ChangeSpec(spec) => s.(spec := spec)
    case Vanish(namespace) =>
      s.(existing := s.existing - {namespace},
         bindings := map id | id in s.bindings && id.namespace != namespace :: s.bindings[id])
    case Appear(namespace) => s.(existing := s.existing + {namespace})
    case Cleanup => s.(deleted := true, bindings := CleanedUp(s.bindings, s.status, s.own))
  }

  ghost predicate IsRun(states: seq<State>, events: seq<Event>) {
    && |states| == |events| + 1
    && states[0].bindings == map[] && states[0].status.namespaces == [] && !states[0].deleted
    && forall i :: 0 <= i < |events| ==> Enabled(states[i], events[i]) && states[i + 1] == Next(states[i], events[i])
  }

  predicate Covered(bindings: Bindings, own: string, namespace: string) {
    forall i :: 0 <= i < 2 ==>
      var id := IdOf(TEMPLATES[i], namespace); id in bindings && bindings[id] == Generate(TEMPLATES[i], own, namespace)
  }

  /** The bindings are the generated ones, in existing namespaces the status lists; before the cleanup they cover
      these, but for the Kabanero's own. */
  ghost predicate Inv(s: State) {
    && (forall id :: id in s.bindings ==>
          TemplateIndex(id.name) < 2 && id.namespace in Bound(s) * s.existing && s.bindings[id] == Generated(s.own, id))
    && (forall namespace :: namespace in Bound(s) && namespace in s.existing && namespace != s.own && !s.deleted ==>
          Covered(s.bindings, s.own, namespace))
    && (s.deleted ==> s.bindings == map[])
  }

  /** A pass leaves the bindings of the wanted namespaces only, and these are exactly what the new status lists. */
  lemma WantedIsReported(spec: seq<string>, own: string, failed: seq<string>)
    ensures var wanted := Wanted(spec, own, failed);
      var bound := ToSet(Defaulted(Reported(spec, failed), own));
      wanted <= bound && bound <= wanted + {own}
  {
    if spec != [] {
      assert spec[0] in spec;
      var reported := Reported(spec, failed);
      if reported != [] {
        assert reported[0] in reported;
      }
    }
  }

  lemma CoveredExactly(before: Bindings, existing: set<string>, own: string, bound: set<string>, wanted: set<string>,
                       namespace: string)
    requires namespace in wanted && namespace in existing
    requires forall id :: id in before && TemplateIndex(id.name) < 2 ==> before[id] == Generated(own, id)
    ensures Covered(BindingsAfter(before, existing, own, bound, wanted), own, namespace) <==>
      namespace !in bound || Covered(before, own, namespace)
  {
    EveryBindingAfter(before, existing, own, bound, wanted);
    var after := BindingsAfter(before, existing, own, bound, wanted);
    forall i | 0 <= i < 2
      ensures var id := IdOf(TEMPLATES[i], namespace); id in after <==> namespace !in bound || id in before
      ensures var id := IdOf(TEMPLATES[i], namespace);
        (id in after ==> after[id] == Generate(TEMPLATES[i], own, namespace)) &&
        (id in before ==> before[id] == Generate(TEMPLATES[i], own, namespace))
    {
      TemplateNames(i);
      var id := IdOf(TEMPLATES[i], namespace);
      assert Find(after, id) == BindingAfter(before, existing, own, bound, wanted, id);
    }
  }

  lemma ReportedNext(before: seq<string>, namespace: string, failed: seq<string>)
    ensures Reported(before + [namespace], failed) ==
      if namespace in failed then Reported(before, failed) else Reported(before, failed) + [namespace]
  {
    assert (before + [namespace])[..|before|] == before;
  }

  /** The listed namespaces that did not fail stay in their order. */
  lemma {:induction false} ReportedInOrder(before: seq<string>, after: seq<string>, failed: seq<string>)
    ensures Reported(before + after, failed) == Reported(before, failed) + Reported(after, failed)
    decreases |after|
  {
    if after == [] {
      assert before + after == before;
    } else {
      var init, last := after[..|after| - 1], after[|after| - 1];
      assert after == init + [last] && before + after == before + init + [last];
      ReportedInOrder(before, init, failed);
      ReportedNext(before + init, last, failed);
      ReportedNext(init, last, failed);
    }
  }

  lemma FailedSet(failed: seq<string>, listed: set<string>, check: string -> Existence)
    requires IsFailed(failed, listed, check)
    ensures forall namespace :: namespace in failed <==> namespace in listed && !check(namespace).Exists?
  {
    forall namespace ensures namespace in failed <==> namespace in listed && !check(namespace).Exists? {
      assert namespace in failed <==> namespace in multiset(failed);
    }
  }

  lemma PassBindsOnlyReported(s: State, failed: seq<string>, check: string -> Existence, id: BindingId)
    requires Inv(s) && Enabled(s, Reconcile(failed, check)) && id in Next(s, Reconcile(failed, check)).bindings
    ensures var after := Next(s, Reconcile(failed, check));
      TemplateIndex(id.name) < 2 && id.namespace in Bound(after) * s.existing &&
        after.bindings[id] == Generated(s.own, id)
  {
    var after := Next(s, Reconcile(failed, check));
    var wanted := Wanted(s.spec, s.own, failed);
    FailedSet(failed, ToSet(Defaulted(s.spec, s.own)), check);
    WantedIsReported(s.spec, s.own, failed);
    EveryBindingAfter(s.bindings, s.existing, s.own, Bound(s), wanted);
    assert Find(after.bindings, id) == BindingAfter(s.bindings, s.existing, s.own, Bound(s), wanted, id);
  }

  lemma PassCoversReported(s: State, failed: seq<string>, check: string -> Existence, namespace: string)
    requires Inv(s) && Enabled(s, Reconcile(failed, check)) && namespace != s.own && namespace in s.existing
    requires namespace in Bound(Next(s, Reconcile(failed, check)))
    ensures Covered(Next(s, Reconcile(failed, check)).bindings, s.own, namespace)
  {
    var wanted := Wanted(s.spec, s.own, failed);
    WantedIsReported(s.spec, s.own, failed);
    CoveredExactly(s.bindings, s.existing, s.own, Bound(s), wanted, namespace);
  }

  lemma ReconcileKeepsInv(s: State, failed: seq<string>, check: string -> Existence)
    requires Inv(s) && Enabled(s, Reconcile(failed, check))
    ensures Inv(Next(s, Reconcile(failed, check)))
  {
    var after := Next(s, Reconcile(failed, check));
    forall id | id in after.bindings
      ensures TemplateIndex(id.name) < 2 && id.namespace in Bound(after) * s.existing
      ensures after.bindings[id] == Generated(s.own, id)
    {
      PassBindsOnlyReported(s, failed, check, id);
    }
    forall namespace | namespace in Bound(after) && namespace in s.existing && namespace != s.own
      ensures Covered(after.bindings, s.own, namespace)
    {
      PassCoversReported(s, failed, check, namespace);
    }
  }

  lemma CleanupLeavesNone(s: State)
    requires Inv(s)
    ensures CleanedUp(s.bindings, s.status, s.own) == map[]
  {
  }

  lemma StepKeepsInv(s: State, e: Event)
    requires Inv(s) && Enabled(s, e)
    ensures Inv(Next(s, e))
  {
    match e {
      case Reconcile(failed, check) => ReconcileKeepsInv(s, failed, check);
      case ChangeSpec(_) =>
      case Vanish(namespace) => VanishKeepsInv(s, namespace);
      case Appear(_) =>
      case Cleanup => CleanupLeavesNone(s);
    }
  }

  lemma VanishKeepsInv(s: State, namespace: string)
    requires Inv(s)
    ensures Inv(Next(s, Vanish(namespace)))
  {
  }

  lemma {:induction false} RunKeepsInv(states: seq<State>, events: seq<Event>, n: nat)
    requires IsRun(states, events) && n < |states|
    ensures Inv(states[n])
  {
    if n != 0 {
      RunKeepsInv(states, events, n - 1);
      StepKeepsInv(states[n - 1], events[n - 1]);
    }
  }

  /** Over any run: bindings lie only in existing namespaces the status lists, they cover all of these but possibly
      the Kabanero's own, and a cleaned up Kabanero leaves none. */
  lemma BindingsFollowStatus(states: seq<State>, events: seq<Event>, n: nat, namespace: string)
    requires IsRun(states, events) && n < |states|
    ensures (exists id :: id in states[n].bindings && id.namespace == namespace) ==>
      namespace in Bound(states[n]) && namespace in states[n].existing
    ensures (namespace in Bound(states[n]) * states[n].existing - {states[n].own} && !states[n].deleted ==>
      Covered(states[n].bindings, states[n].own, namespace))
    ensures states[n].deleted ==> states[n].bindings == map[]
  {
    RunKeepsInv(states, events, n);
  }

  // ---------------------------------------------------------------- what the bindings say

  /** A binding of the Kabanero in the namespace: its pipeline account has the role for pipelines, its CLI account the
      one for deployments. Only in the Kabanero's own namespace can it own the binding. */
  predicate Ties(id: BindingId, r: RoleBinding, own: string) {
    && r.saNamespace == own && (r.owned <==> id.namespace == own)
    && ((id.name == "kabanero-pipeline-deploy-rolebinding" && r.saName == "kabanero-pipeline" &&
         r.clusterRole == "kabanero-pipeline-deploy-role") ||
        (id.name == "kabanero-cli-deploy-rolebinding" && r.saName == "kabanero-cli" &&
         r.clusterRole == "kabanero-cli-service-deployments-role"))
  }

  /** Both bindings are there. */
  predicate HasBoth(bindings: Bindings, own: string, namespace: string) {
    var pipeline := BindingId(namespace, "kabanero-pipeline-deploy-rolebinding");
    var cli := BindingId(namespace, "kabanero-cli-deploy-rolebinding");
    && pipeline in bindings && cli in bindings
    && Ties(pipeline, bindings[pipeline], own) && Ties(cli, bindings[cli], own)
  }

  lemma DifferentNames()
    ensures "kabanero-pipeline-deploy-rolebinding" != "kabanero-cli-deploy-rolebinding"
  {
    assert "kabanero-pipeline-deploy-rolebinding"[9] != "kabanero-cli-deploy-rolebinding"[9];
  }

  lemma GeneratedTies(own: string, id: BindingId)
    requires TemplateIndex(id.name) < 2
    ensures Ties(id, Generated(own, id), own)
  {}

  lemma TiesExactly(own: string, id: BindingId, r: RoleBinding)
    ensures TemplateIndex(id.name) < 2 && r == Generated(own, id) <==> Ties(id, r, own)
  {
    DifferentNames();
  }

  lemma CoveredHasBoth(bindings: Bindings, own: string, namespace: string)
    ensures Covered(bindings, own, namespace) <==> HasBoth(bindings, own, namespace)
  {
    var pipeline, cli := IdOf(TEMPLATES[0], namespace), IdOf(TEMPLATES[1], namespace);
    TemplateNames(0);
    TemplateNames(1);
    assert pipeline == BindingId(namespace, "kabanero-pipeline-deploy-rolebinding");
    assert cli == BindingId(namespace, "kabanero-cli-deploy-rolebinding");
    if pipeline in bindings && cli in bindings {
      TiesExactly(own, pipeline, bindings[pipeline]);
      TiesExactly(own, cli, bindings[cli]);
    }
  }

  lemma {:induction false} SameOwn(states: seq<State>, events: seq<Event>, n: nat)
    requires IsRun(states, events) && n < |states|
    ensures states[n].own == states[0].own
  {
    if n != 0 {
      SameOwn(states, events, n - 1);
      assert states[n] == Next(states[n - 1], events[n - 1]);
    }
  }

  /** Over any run, every binding ties one of the Kabanero's two accounts to its role; and in an existing namespace that
      the defaulted status lists, other than the Kabanero's own, both bindings are there before the cleanup. */
  lemma BindingsInFull(states: seq<State>, events: seq<Event>, n: nat)
    requires IsRun(states, events) && n < |states|
    ensures states[n].own == states[0].own
    ensures forall id :: id in states[n].bindings ==> Ties(id, states[n].bindings[id], states[0].own)
    ensures !states[n].deleted ==> forall namespace ::
      namespace in states[n].status.namespaces && namespace in states[n].existing && namespace != states[0].own ==>
      HasBoth(states[n].bindings, states[0].own, namespace)
  {
    RunKeepsInv(states, events, n);
    SameOwn(states, events, n);
    forall id | id in states[n].bindings ensures Ties(id, states[n].bindings[id], states[0].own) {
      GeneratedTies(states[0].own, id);
    }
    forall namespace | !states[n].deleted && namespace != states[0].own && namespace in states[n].existing &&
                       namespace in states[n].status.namespaces
      ensures HasBoth(states[n].bindings, states[0].own, namespace)
    {
      assert namespace in Bound(states[n]);
      CoveredHasBoth(states[n].bindings, states[0].own, namespace);
    }
  }

  predicate IsOurs(name: string) {
    name == "kabanero-pipeline-deploy-rolebinding" || name == "kabanero-cli-deploy-rolebinding"
  }

  predicate InList(namespace: string, listed: seq<string>, own: string) {
    if |listed| == 0 then namespace == own else namespace in listed
  }

  predicate SameBinding(before: Bindings, after: Bindings, id: BindingId) {
    (id in after <==> id in before) && (id in after ==> after[id] == before[id])
  }

  /** One pass, binding by binding, from any bindings whatever: the two bindings of a namespace that is no longer wanted
      go; those of a new one are made where they are missing and the namespace exists; those of a namespace listed
      before and after are brought up to date, but not made; and no other binding is touched. */
  lemma PassInFull(before: Bindings, existing: set<string>, own: string, listed: seq<string>, spec: seq<string>,
                   failed: seq<string>, id: BindingId)
    ensures var after := BindingsAfter(before, existing, own, ToSet(Defaulted(listed, own)), Wanted(spec, own, failed));
      var was := InList(id.namespace, listed, own);
      var now := InList(id.namespace, spec, own) && id.namespace !in failed;
      if !IsOurs(id.name) || (!was && !now) then SameBinding(before, after, id)
      else if !now then id !in after
      else if was then (id in after <==> id in before) && (id in after ==> Ties(id, after[id], own))
      else if id in before then SameBinding(before, after, id)
      else (id in after <==> id.namespace in existing) && (id in after ==> Ties(id, after[id], own))
  {
    var bound, wanted := ToSet(Defaulted(listed, own)), Wanted(spec, own, failed);
    var after := BindingsAfter(before, existing, own, bound, wanted);
    EveryBindingAfter(before, existing, own, bound, wanted);
    assert Find(after, id) == BindingAfter(before, existing, own, bound, wanted, id);
    assert id.namespace in bound <==> InList(id.namespace, listed, own);
    assert id.namespace in wanted <==> InList(id.namespace, spec, own) && id.namespace !in failed;
    assert TemplateIndex(id.name) < 2 <==> IsOurs(id.name);
    if IsOurs(id.name) {
      GeneratedTies(own, id);
    }
  }

  /** One pass: a namespace that is listed anew, exists and passes its check holds both bindings afterwards. */
  lemma NewNamespaceIsBound(s: State, failed: seq<string>, check: string -> Existence, namespace: string)
    requires Inv(s) && Enabled(s, Reconcile(failed, check)) && check(namespace).Exists?
    requires namespace in s.spec && namespace !in s.status.namespaces && namespace != s.own
    ensures HasBoth(Next(s, Reconcile(failed, check)).bindings, s.own, namespace)
    ensures namespace in Next(s, Reconcile(failed, check)).status.namespaces
  {
    var wanted := Wanted(s.spec, s.own, failed);
    FailedSet(failed, ToSet(Defaulted(s.spec, s.own)), check);
    CoveredExactly(s.bindings, s.existing, s.own, Bound(s), wanted, namespace);
    CoveredHasBoth(Next(s, Reconcile(failed, check)).bindings, s.own, namespace);
  }

  /** One pass: a namespace that is no longer listed loses all its bindings. */
  lemma RemovedNamespaceIsUnbound(s: State, failed: seq<string>, check: string -> Existence, id: BindingId)
    requires Inv(s) && Enabled(s, Reconcile(failed, check)) && (s.spec != [] || id.namespace != s.own)
    requires id.namespace !in s.spec && id.namespace in s.status.namespaces
    ensures id !in Next(s, Reconcile(failed, check)).bindings
  {
    var wanted := Wanted(s.spec, s.own, failed);
    EveryBindingAfter(s.bindings, s.existing, s.own, Bound(s), wanted);
    assert Find(Next(s, Reconcile(failed, check)).bindings, id) ==
      BindingAfter(s.bindings, s.existing, s.own, Bound(s), wanted, id);
  }

  // ---------------------------------------------------------------- where the status misleads

  /** While a listed namespace stays listed, wanted and in existence, passes never create a binding it lacks. */
  ghost predicate Overlooked(s: State, namespace: string) {
    && namespace in Bound(s) && namespace in Defaulted(s.spec, s.own) && namespace in s.existing
    && forall id :: id in s.bindings && TemplateIndex(id.name) < 2 ==> id.namespace != namespace
  }

  lemma StaysOverlooked(s: State, namespace: string, e: Event)
    requires Overlooked(s, namespace) && e.Reconcile? && IsFailed(e.failed, ToSet(Defaulted(s.spec, s.own)), e.check)
    requires e.check(namespace).Exists?
    ensures Overlooked(Next(s, e), namespace)
  {
    var wanted := Wanted(s.spec, s.own, e.failed);
    FailedSet(e.failed, ToSet(Defaulted(s.spec, s.own)), e.check);
    WantedIsReported(s.spec, s.own, e.failed);
    EveryBindingAfter(s.bindings, s.existing, s.own, Bound(s), wanted);
    forall id | id in Next(s, e).bindings && TemplateIndex(id.name) < 2 ensures id.namespace != namespace {
      assert Find(Next(s, e).bindings, id) == BindingAfter(s.bindings, s.existing, s.own, Bound(s), wanted, id);
    }
  }

  /** A namespace lacking its bindings never gets them while every pass finds it listed and in existence. This is
      what becomes of a bound namespace that is deleted and created again between two passes, and of the
      Kabanero's own namespace in a run that starts out with it listed, or with nothing listed. */
  lemma {:induction false} OverlookedForever(states: seq<State>, events: seq<Event>, namespace: string, n: nat)
    requires |states| == |events| + 1 && n < |states| && Overlooked(states[0], namespace)
    requires forall i :: 0 <= i < |events| ==>
      && events[i].Reconcile? &&
         IsFailed(events[i].failed, ToSet(Defaulted(states[i].spec, states[i].own)), events[i].check)
      && events[i].check(namespace).Exists? && states[i + 1] == Next(states[i], events[i])
    ensures Overlooked(states[n], namespace)
  {
    if n != 0 {
      OverlookedForever(states, events, namespace, n - 1);
      StaysOverlooked(states[n - 1], namespace, events[n - 1]);
    }
  }

  /** A fresh Kabanero that lists nothing, and a bound namespace that comes back, are overlooked. */
  lemma WhoIsOverlooked(s: State, namespace: string)
    requires Inv(s) && namespace in Defaulted(s.spec, s.own) && namespace in Bound(s) && !s.deleted
    ensures namespace == s.own && s.own in s.existing && s.bindings == map[] ==> Overlooked(s, s.own)
    ensures namespace in s.existing && namespace != s.own ==>
      Covered(s.bindings, s.own, namespace) &&
        Overlooked(Next(Next(s, Vanish(namespace)), Appear(namespace)), namespace)
  {
  }
}
