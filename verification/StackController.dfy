/** The controller of a Stack: activation of its versions, the status it reports, image digests, and
    the finalizer. */
module StackController {
  import opened Component
  import opened UseCounts
  import opened Cluster
  import opened Activation
  import opened Accuracy

  datatype ImageDigest = ImageDigest(activation: string, message: string)
  datatype ImageStatus = ImageStatus(id: string, image: string, digest: ImageDigest)

  datatype VersionStatus = VersionStatus(version: string, pipelines: seq<PipelineStatus>, status: string,
                                         statusMessage: string, images: seq<ImageStatus>)

  datatype StackStatus = StackStatus(statusMessage: string, versions: seq<VersionStatus>)

  const NO_DIGEST := ImageDigest("", "")
  const FINALIZER := "kabanero.io/stack-controller"
  const DEACTIVATED := "The stack has been deactivated."

  /** The answer of an image registry. */
  datatype Lookup = Digest(hex: string) | Unavailable(message: string)

  /** The world during one reconciliation: the pipeline world, the parser of image references, and the
      registry's answer for image j of version i. */
  datatype StackWorld = StackWorld(pipelines: World, repository: string -> Option<string>, lookup: (nat, nat) -> Lookup)

  function SpecVersions(vs: seq<StackVersion>): seq<SpecVersion> {
    seq(|vs|, i requires 0 <= i < |vs| => SpecVersion(vs[i].version, vs[i].GetPipelines()))
  }

  function StatusVersions(vs: seq<VersionStatus>): seq<StatusVersion> {
    seq(|vs|, i requires 0 <= i < |vs| => StatusVersion(vs[i].version, vs[i].pipelines))
  }

  /** A stack id starts with a lower-case letter, ends in a letter or digit and holds letters, digits and
      dashes. */
  predicate IsLower(c: char) { 'a' <= c <= 'z' }
  predicate IsDigit(c: char) { '0' <= c <= '9' }

  predicate IsStackId(s: string) {
    && 0 < |s| <= 68 && IsLower(s[0]) && s[|s| - 1] != '-'
    && forall i :: 0 <= i < |s| ==> IsLower(s[i]) || IsDigit(s[i]) || s[i] == '-'
  }

  // ---------------------------------------------------------------- image names and digests

  datatype Stripped = Stripped(images: seq<Image>, ok: bool)

  /** Each image is cut down to its repository, up to the first one that does not parse. */
  function StripTags(images: seq<Image>, repository: string -> Option<string>): (r: Stripped)
    ensures |r.images| == |images|
  {
    if images == [] then Stripped([], true)
    else
      match repository(images[0].image)
      case None => Stripped(images, false)
      case Some(repo) =>
        var rest := StripTags(images[1..], repository);
        Stripped([images[0].(image := repo)] + rest.images, rest.ok)
  }

  /** Every image keeps its id and is cut down to its repository. */
  lemma {:induction false} StrippedAt(images: seq<Image>, repository: string -> Option<string>)
    requires StripTags(images, repository).ok
    ensures var r := StripTags(images, repository).images;
      forall j :: 0 <= j < |images| ==> r[j].id == images[j].id && repository(images[j].image) == Some(r[j].image)
  {
    if images != [] {
      StrippedAt(images[1..], repository);
    }
  }

  lemma {:induction false} StripTagsStep(images: seq<Image>, i: nat, repository: string -> Option<string>)
    requires i < |images|
    ensures var r := repository(images[i].image);
      StripTags(images[i..], repository) ==
        if r.None? then Stripped(images[i..], false)
        else Stripped([images[i].(image := r.value)] + StripTags(images[i + 1..], repository).images,
                      StripTags(images[i + 1..], repository).ok)
  {
    assert images[i..][1..] == images[i + 1..];
  }

  /** The images handled so far, and what is left to do. */
  predicate StrippedUpTo(images: seq<Image>, result: seq<Image>, j: nat, repository: string -> Option<string>) {
    && j <= |result| == |images| && result[j..] == images[j..]
    && var rest := StripTags(images[j..], repository);
       StripTags(images, repository) == Stripped(result[..j] + rest.images, rest.ok)
  }

  lemma StrippedStep(images: seq<Image>, result: seq<Image>, j: nat, repo: string, repository: string -> Option<string>)
    requires j < |images| && StrippedUpTo(images, result, j, repository) && repository(images[j].image) == Some(repo)
    ensures StrippedUpTo(images, result[j := images[j].(image := repo)], j + 1, repository)
  {
    StripTagsStep(images, j, repository);
    var result' := result[j := images[j].(image := repo)];
    assert result'[j + 1..] == result[j..][1..] == images[j + 1..];
    var tail := StripTags(images[j + 1..], repository).images;
    assert result'[..j + 1] + tail == result[..j] + ([images[j].(image := repo)] + tail);
  }

  lemma StrippedStop(images: seq<Image>, result: seq<Image>, j: nat, repository: string -> Option<string>)
    requires StrippedUpTo(images, result, j, repository)
    requires j < |images| ==> repository(images[j].image).None?
    ensures StripTags(images, repository) == Stripped(result, j == |images|)
  {
    if j < |images| {
      StripTagsStep(images, j, repository);
    }
    assert result[..j] + result[j..] == result;
  }

  method RemoveTagFromStackImages(images: seq<Image>, repository: string -> Option<string>) returns (r: Stripped)
    ensures r == StripTags(images, repository)
  {
    var result := images;
    for j := 0 to |images|
      invariant StrippedUpTo(images, result, j, repository)
    {
      match repository(images[j].image) {
        case None =>
          StrippedStop(images, result, j, repository);
          return Stripped(result, false);
        case Some(repo) =>
          StrippedStep(images, result, j, repo, repository);
          result := result[j := images[j].(image := repo)];
      }
    }
    StrippedStop(images, result, |images|, repository);
    return Stripped(result, true);
  }

  /** The first image status for an image name. */
  function FindImage(images: seq<ImageStatus>, image: string): Option<ImageDigest> {
    if images == [] then None
    else if images[0].image == image then Some(images[0].digest)
    else FindImage(images[1..], image)
  }

  /** The image status that decides: the first one for the image in the versions of that name. */
  function FindDigest(versions: seq<VersionStatus>, version: string, image: string): Option<ImageDigest> {
    if versions == [] then None
    else if versions[0].version == version && FindImage(versions[0].images, image).Some?
    then FindImage(versions[0].images, image)
    else FindDigest(versions[1..], version, image)
  }

  function LookedUp(answer: Lookup): ImageDigest {
    match answer
    case Digest(hex) => ImageDigest(hex, "")
    case Unavailable(message) => ImageDigest("", message)
  }

  /** A recorded activation digest is reported again; without one the registry is asked. */
  function StatusDigest(versions: seq<VersionStatus>, version: string, image: string, answer: Lookup): ImageDigest {
    match FindDigest(versions, version, image)
    case Some(d) => if d.activation != "" then d else LookedUp(answer)
    case None => LookedUp(answer)
  }

  predicate DigestFailed(versions: seq<VersionStatus>, version: string, image: string, answer: Lookup) {
    && (FindDigest(versions, version, image).None? || FindDigest(versions, version, image).value.activation == "")
    && answer.Unavailable?
  }

  method GetStatusImageDigest(versions: seq<VersionStatus>, version: string, image: string, answer: Lookup)
    returns (digest: ImageDigest, failed: bool)
    ensures digest == StatusDigest(versions, version, image, answer)
    ensures failed == DigestFailed(versions, version, image, answer)
  {
    digest := NO_DIGEST;
    failed := false;
    var foundTargetImage := false;
    var i := 0;
    while i < |versions| && !foundTargetImage
      invariant 0 <= i <= |versions|
      invariant !foundTargetImage ==> digest == NO_DIGEST
      invariant FindDigest(versions, version, image) ==
        if foundTargetImage then FindDigest(versions, version, image) else FindDigest(versions[i..], version, image)
      invariant foundTargetImage ==>
        FindDigest(versions, version, image).Some? &&
        digest == (var d := FindDigest(versions, version, image).value; if d.activation != "" then d else NO_DIGEST)
    {
      assert versions[i..][1..] == versions[i + 1..];
      if versions[i].version == version {
        var found := FirstImage(versions[i].images, image);
        if found.Some? {
          if found.value.activation != "" {
            digest := found.value;
          }
          foundTargetImage := true;
        }
      }
      i := i + 1;
    }
    if digest == NO_DIGEST {
      match answer {
        case Unavailable(message) =>
          digest := digest.(message := message);
          failed := true;
        case Digest(hex) =>
          digest := digest.(activation := hex);
      }
    }
  }

  method FirstImage(images: seq<ImageStatus>, image: string) returns (found: Option<ImageDigest>)
    ensures found == FindImage(images, image)
  {
    for j := 0 to |images|
      invariant FindImage(images, image) == FindImage(images[j..], image)
    {
      assert images[j..][1..] == images[j + 1..];
      if images[j].image == image {
        return Some(images[j].digest);
      }
    }
    found := None;
  }

  // ---------------------------------------------------------------- the status of a version

  function LastError(ps: seq<PipelineSpec>, m: UseMap): Option<string> {
    if ps == [] then None
    else
      var last := ps[|ps| - 1];
      if KeyOfSpec(last) in m && m[KeyOfSpec(last)].manifestError.Some? then m[KeyOfSpec(last)].manifestError
      else LastError(ps[..|ps| - 1], m)
  }

  function InvalidState(state: string): string {
    "An invalid desiredState value of " + state + " was specified. The stack is activated by default."
  }

  function ImageStatuses(images: seq<Image>, n: nat, version: string, i: nat, previous: seq<VersionStatus>,
                         w: StackWorld):
    seq<ImageStatus>
    requires n <= |images|
  {
    if n == 0 then []
    else
      var img := images[n - 1];
      ImageStatuses(images, n - 1, version, i, previous, w)
      + [ImageStatus(img.id, img.image, StatusDigest(previous, version, img.image, w.lookup(i, n - 1)))]
  }

  predicate AnyDigestFailed(images: seq<Image>, version: string, i: nat, previous: seq<VersionStatus>, w: StackWorld) {
    exists j :: 0 <= j < |images| && DigestFailed(previous, version, images[j].image, w.lookup(i, j))
  }

  /** The status of an active version whose images are already stripped. */
  function ActiveStatus(v: StackVersion, i: nat, m: UseMap, previous: seq<VersionStatus>,
                        w: StackWorld): VersionStatus {
    var error := LastError(v.pipelines, m);
    VersionStatus(
      v.version,
      RebuildPipelines(v.pipelines, m),
      if error.Some? || AnyDigestFailed(v.images, v.version, i, previous, w) then STATE_ERROR else STATE_ACTIVE,
      if error.Some? then error.value
      else if v.desiredState != "" && !EqualFold(v.desiredState, STATE_ACTIVE) then InvalidState(v.desiredState)
      else "",
      ImageStatuses(v.images, |v.images|, v.version, i, previous, w))
  }

  function InactiveStatus(v: StackVersion): VersionStatus {
    VersionStatus(v.version, [], STATE_INACTIVE, DEACTIVATED, [])
  }

  /** The rebuild of the status, up to the first version with an image that does not parse. */
  datatype Rebuilt = Rebuilt(versions: seq<StackVersion>, statuses: seq<VersionStatus>, ok: bool)

  function RebuildNext(r: Rebuilt, i: nat, m: UseMap, previous: seq<VersionStatus>, w: StackWorld): (r': Rebuilt)
    requires i < |r.versions|
    ensures |r'.versions| == |r.versions|
  {
    var v := r.versions[i];
    if v.IsInactive() then r.(statuses := r.statuses + [InactiveStatus(v)])
    else
      var s := StripTags(v.images, w.repository);
      var v' := v.(images := s.images);
      if !s.ok then Rebuilt(r.versions[i := v'], r.statuses, false)
      else Rebuilt(r.versions[i := v'], r.statuses + [ActiveStatus(v', i, m, previous, w)], r.ok)
  }

  /** The first n versions. */
  function Rebuild(versions: seq<StackVersion>, n: nat, m: UseMap, previous: seq<VersionStatus>, w: StackWorld):
    (r: Rebuilt)
    requires n <= |versions|
    ensures |r.versions| == |versions|
  {
    if n == 0 then Rebuilt(versions, [], true)
    else
      var r := Rebuild(versions, n - 1, m, previous, w);
      if r.ok then RebuildNext(r, n - 1, m, previous, w) else r
  }

  // ---------------------------------------------------------------- reconciliation

  /** What a Stack resource holds that the controller reads or writes. */
  datatype StackState = StackState(versions: seq<StackVersion>, status: StackStatus, finalizers: seq<string>,
                                   deleting: bool)

  datatype Outcome = Outcome(objects: Objects, state: StackState, ok: bool)

  /** Activation and rebuild. The status is replaced only when every image of every active version parses. */
  function ReconcileVersions(objects: Objects, s: StackState, name: string, namespace: string, uid: Uid,
                             order: seq<UseKey>, w: StackWorld): Outcome
    requires IsOrder(order, Count(SpecVersions(s.versions), StatusVersions(s.status.versions)).Keys)
  {
    if !IsStackId(name) then Outcome(objects, s, false)
    else
      var p := Activate(objects, SpecVersions(s.versions), StatusVersions(s.status.versions), order, namespace, uid,
                        w.pipelines);
      var r := Rebuild(s.versions, |s.versions|, p.useMap, s.status.versions, w);
      var s' := s.(versions := r.versions);
      if r.ok then Outcome(p.objects, s'.(status := StackStatus("", r.statuses)), true)
      else Outcome(p.objects, s', false)
  }

  /** Everything the status lists. */
  function StatusTargets(versions: seq<VersionStatus>, namespace: string): set<ObjectId> {
    set v, p, a | v in versions && p in v.pipelines && a in p.activeAssets && IsReleasable(a) ::
      IdOf(Namespaced(a, namespace))
  }

  function PipelineTargets(pipelines: seq<PipelineStatus>, namespace: string): set<ObjectId> {
    set p, a | p in pipelines && a in p.activeAssets && IsReleasable(a) :: IdOf(Namespaced(a, namespace))
  }

  function DropFinalizer(finalizers: seq<string>, finalizer: string): seq<string> {
    if finalizers == [] then []
    else
      var last := finalizers[|finalizers| - 1];
      DropFinalizer(finalizers[..|finalizers| - 1], finalizer) + if last == finalizer then [] else [last]
  }

  function ProcessedDeletion(objects: Objects, s: StackState, namespace: string, uid: Uid): (Objects, StackState) {
    if !s.deleting then
      (objects, if FINALIZER in s.finalizers then s else s.(finalizers := s.finalizers + [FINALIZER]))
    else if FINALIZER in s.finalizers then
      (Released(objects, StatusTargets(s.status.versions, namespace), uid),
       s.(finalizers := DropFinalizer(s.finalizers, FINALIZER)))
    else
      (objects, s)
  }

  function Reconciled(objects: Objects, s: StackState, name: string, namespace: string, uid: Uid, order: seq<UseKey>,
                      w: StackWorld): Outcome
    requires IsOrder(order, Count(SpecVersions(s.versions), StatusVersions(s.status.versions)).Keys)
  {
    var (objects', s') := ProcessedDeletion(objects, s, namespace, uid);
    if s.deleting then Outcome(objects', s', true)
    else ReconcileVersions(objects', s'.(status := s'.status.(statusMessage := "")), name, namespace, uid, order, w)
  }

  predicate HasFailedAsset(versions: seq<VersionStatus>) {
    exists v, p, a :: v in versions && p in v.pipelines && a in p.activeAssets && a.status == ASSET_FAILED
  }

  /** The names of the versions in error, joined by commas. */
  function ErrorSummary(versions: seq<VersionStatus>): string {
    Join(Errors(versions))
  }

  function Errors(versions: seq<VersionStatus>): seq<string> {
    if versions == [] then []
    else
      var last := versions[|versions| - 1];
      Errors(versions[..|versions| - 1]) + if last.status == STATE_ERROR then [last.version] else []
  }

  function Join(names: seq<string>): string {
    if names == [] then ""
    else if |names| == 1 then names[0]
    else Join(names[..|names| - 1]) + ", " + names[|names| - 1]
  }

  lemma {:induction false} ErrorsAreNames(versions: seq<VersionStatus>)
    ensures forall name :: name in Errors(versions) <==>
      exists v :: v in versions && v.status == STATE_ERROR && v.version == name
  {
    if versions != [] {
      var n := |versions| - 1;
      ErrorsAreNames(versions[..n]);
      assert versions == versions[..n] + [versions[n]];
    }
  }

  predicate AnyInError(versions: seq<VersionStatus>) {
    exists v :: v in versions && v.status == STATE_ERROR
  }

  predicate AllNamed(versions: seq<VersionStatus>) {
    forall v :: v in versions ==> v.version != ""
  }

  /** The summary is empty exactly if nothing is in error, as long as every version has a name. */
  lemma ErrorSummaryExactly(versions: seq<VersionStatus>)
    requires AllNamed(versions)
    ensures ErrorSummary(versions) != "" <==> AnyInError(versions)
  {
    var errors := Errors(versions);
    ErrorsAreNames(versions);
    if v :| v in versions && v.status == STATE_ERROR {
      assert v.version in errors;
    }
    if errors != [] {
      assert errors[0] in errors;
      NamesAreJoined(errors);
    }
  }

  lemma {:induction false} ErrorsInOrder(before: seq<VersionStatus>, after: seq<VersionStatus>)
    ensures Errors(before + after) == Errors(before) + Errors(after)
    decreases |after|
  {
    if after == [] {
      assert before + after == before;
    } else {
      var n := |after| - 1;
      ErrorsInOrder(before, after[..n]);
      assert (before + after)[..|before + after| - 1] == before + after[..n];
    }
  }

  /** The summary of a list of versions names those in error, in their order, with a comma and a blank in between. */
  lemma SummaryInOrder(before: seq<VersionStatus>, after: seq<VersionStatus>)
    ensures AnyInError(before) && AnyInError(after) ==>
      ErrorSummary(before + after) == ErrorSummary(before) + ", " + ErrorSummary(after)
    ensures !AnyInError(before) ==> ErrorSummary(before + after) == ErrorSummary(after)
    ensures !AnyInError(after) ==> ErrorSummary(before + after) == ErrorSummary(before)
    ensures |after| == 1 ==> ErrorSummary(after) == if after[0].status == "error" then after[0].version else ""
  {
    ErrorsInOrder(before, after);
    AnyErrorExactly(before);
    AnyErrorExactly(after);
    JoinInOrder(Errors(before), Errors(after));
    if |after| == 1 {
      assert after[..0] == [];
    }
  }

  lemma AnyErrorExactly(versions: seq<VersionStatus>)
    ensures Errors(versions) != [] <==> AnyInError(versions)
  {
    ErrorsAreNames(versions);
    if Errors(versions) != [] {
      assert Errors(versions)[0] in Errors(versions);
    }
    if v :| v in versions && v.status == STATE_ERROR {
      assert v.version in Errors(versions);
    }
  }

  lemma {:induction false} JoinInOrder(before: seq<string>, after: seq<string>)
    ensures before == [] ==> Join(before + after) == Join(after)
    ensures after == [] ==> Join(before + after) == Join(before)
    ensures before != [] && after != [] ==> Join(before + after) == Join(before) + ", " + Join(after)
    decreases |after|
  {
    if before == [] {
      assert before + after == after;
    } else if after == [] {
      assert before + after == before;
    } else {
      var n := |after| - 1;
      assert (before + after)[..|before + after| - 1] == before + after[..n];
      if n == 0 {
        assert before + after[..n] == before;
      } else {
        JoinInOrder(before, after[..n]);
      }
    }
  }

  lemma NamesAreJoined(names: seq<string>)
    requires names != [] && names[0] != ""
    ensures Join(names) != ""
  {
    if |names| >= 2 {
      assert |Join(names)| >= |", "|;
    }
  }

  class Stack {
    const name: string
    const namespace: string
    const uid: Uid
    const owners: seq<Uid>
    var versions: seq<StackVersion>
    var status: StackStatus
    var finalizers: seq<string>
    var deleting: bool

    constructor (name: string, namespace: string, uid: Uid, owners: seq<Uid>, versions: seq<StackVersion>)
      ensures this.name == name && this.namespace == namespace && this.uid == uid && this.owners == owners
      ensures State() == StackState(versions, StackStatus("", []), [], false)
    {
      this.name, this.namespace, this.uid, this.owners := name, namespace, uid, owners;
      this.versions, status, finalizers, deleting := versions, StackStatus("", []), [], false;
    }

    function State(): StackState
      reads this
    {
      StackState(versions, status, finalizers, deleting)
    }

    method ReconcileActiveVersions(api: ApiServer, w: StackWorld) returns (ok: bool, ghost order: seq<UseKey>)
      modifies this, api
      ensures IsOrder(order, Count(SpecVersions(old(versions)), StatusVersions(old(status.versions))).Keys)
      ensures Outcome(api.objects, State(), ok) ==
              ReconcileVersions(old(api.objects), old(State()), name, namespace, uid, order, w)
    {
      if !IsStackId(name) {
        order := AnyOrder(Count(SpecVersions(versions), StatusVersions(status.versions)).Keys);
        return false, order;
      }
      var useMap;
      useMap, order := ActivatePipelines(api, SpecVersions(versions), StatusVersions(status.versions), namespace, uid,
                                         w.pipelines);
      ok := WriteStatus(useMap, w);
    }

    /** The new status, built version by version while the old one is still consulted for digests. */
    method WriteStatus(useMap: UseMap, w: StackWorld) returns (ok: bool)
      modifies this
      ensures finalizers == old(finalizers) && deleting == old(deleting)
      ensures var r := Rebuild(old(versions), |old(versions)|, useMap, old(status.versions), w);
        && versions == r.versions && ok == r.ok
        && status == if r.ok then StackStatus("", r.statuses) else old(status)
    {
      ghost var before, previous := versions, status.versions;
      var r := Rebuilt(versions, [], true);
      for i := 0 to |versions|
        invariant |versions| == |before| && r.ok && r.versions == versions
        invariant finalizers == old(finalizers) && deleting == old(deleting) && status == old(status)
        invariant r == Rebuild(before, i, useMap, previous, w)
      {
        RebuildGoesOn(before, i, useMap, previous, w, r);
        r := ReportNext(r, i, useMap, status.versions, w);
        versions := r.versions;
        if !r.ok {
          RebuildStops(before, i + 1, |before|, useMap, previous, w, r);
          return false;
        }
      }
      status := StackStatus("", r.statuses);
      ok := true;
    }

    /** Creates the finalizer, or runs the cleanup and removes it. */
    method ProcessDeletion(api: ApiServer) returns (beingDeleted: bool)
      modifies this, api
      ensures beingDeleted == old(deleting)
      ensures (api.objects, State()) == ProcessedDeletion(old(api.objects), old(State()), namespace, uid)
    {
      beingDeleted := deleting;
      var foundFinalizer := false;
      for i := 0 to |finalizers|
        invariant foundFinalizer <==> FINALIZER in finalizers[..i]
      {
        if finalizers[i] == FINALIZER {
          foundFinalizer := true;
        }
      }
      assert finalizers[..|finalizers|] == finalizers;
      if !beingDeleted {
        if !foundFinalizer {
          finalizers := finalizers + [FINALIZER];
        }
        return;
      }
      if foundFinalizer {
        Cleanup(api);
        finalizers := RemoveFinalizer(finalizers, FINALIZER);
      }
    }

    method Cleanup(api: ApiServer)
      modifies api
      ensures api.objects == Released(old(api.objects), StatusTargets(status.versions, namespace), uid)
    {
      ghost var before := api.objects;
      ReleasedNothing(before, uid);
      assert StatusTargets(status.versions[..0], namespace) == {};
      for i := 0 to |status.versions|
        invariant api.objects == Released(before, StatusTargets(status.versions[..i], namespace), uid)
      {
        StatusTargetsStep(status.versions, i, namespace);
        ReleasedTwice(before, StatusTargets(status.versions[..i], namespace),
                      PipelineTargets(status.versions[i].pipelines, namespace), uid);
        CleanupPipelines(api, status.versions[i].pipelines, namespace, uid);
      }
      assert status.versions[..|status.versions|] == status.versions;
    }

    /** One reconciliation, and whether it asks to be repeated in 60 seconds. */
    method Reconcile(api: ApiServer, w: StackWorld) returns (requeue: bool, ghost order: seq<UseKey>)
      modifies this, api
      ensures IsOrder(order, Count(SpecVersions(old(versions)), StatusVersions(old(status.versions))).Keys)
      ensures var r := Reconciled(old(api.objects), old(State()), name, namespace, uid, order, w);
        api.objects == r.objects && State() == r.state
      ensures requeue <==>
        !old(deleting) && (HasFailedAsset(status.versions) || ErrorSummary(status.versions) != "")
      ensures AllNamed(status.versions) ==>
        (requeue <==> !old(deleting) && (HasFailedAsset(status.versions) || AnyInError(status.versions)))
    {
      var beingDeleted := ProcessDeletion(api);
      if beingDeleted {
        order := AnyOrder(Count(SpecVersions(versions), StatusVersions(status.versions)).Keys);
        return false, order;
      }
      status := status.(statusMessage := "");
      var ok;
      ok, order := ReconcileActiveVersions(api, w);
      requeue := FailedAssets(status.versions);
      if !requeue && ErrorSummary(status.versions) != "" {
        requeue := true;
      }
      if AllNamed(status.versions) {
        ErrorSummaryExactly(status.versions);
      }
    }
  }

  method RemoveFinalizer(finalizers: seq<string>, finalizer: string) returns (kept: seq<string>)
    ensures kept == DropFinalizer(finalizers, finalizer)
  {
    kept := [];
    for i := 0 to |finalizers|
      invariant kept == DropFinalizer(finalizers[..i], finalizer)
    {
      assert finalizers[..i + 1][..i] == finalizers[..i];
      if finalizers[i] != finalizer {
        kept := kept + [finalizers[i]];
      }
    }
    assert finalizers[..|finalizers|] == finalizers;
  }

  ghost method AnyOrder<T>(keys: set<T>) returns (order: seq<T>)
    ensures IsOrder(order, keys)
  {
    order := [];
    var todo := keys;
    while todo != {}
      invariant todo <= keys && IsOrder(order, keys - todo)
      decreases todo
    {
      var k :| k in todo;
      OrderStep(order, keys - todo, k);
      assert keys - (todo - {k}) == (keys - todo) + {k};
      order, todo := order + [k], todo - {k};
    }
    assert keys - todo == keys;
  }

  lemma RebuildGoesOn(versions: seq<StackVersion>, n: nat, m: UseMap, previous: seq<VersionStatus>, w: StackWorld,
                      r: Rebuilt)
    requires n < |versions| && Rebuild(versions, n, m, previous, w) == r && r.ok
    ensures Rebuild(versions, n + 1, m, previous, w) == RebuildNext(r, n, m, previous, w)
  {
  }

  lemma {:induction false} RebuildStops(versions: seq<StackVersion>, n: nat, k: nat, m: UseMap,
                                        previous: seq<VersionStatus>, w: StackWorld, r: Rebuilt)
    requires n <= k <= |versions| && Rebuild(versions, n, m, previous, w) == r && !r.ok
    ensures Rebuild(versions, k, m, previous, w) == r
    decreases k - n
  {
    if n < k {
      var next := n + 1;
      assert Rebuild(versions, next, m, previous, w) == r;
      RebuildStops(versions, next, k, m, previous, w, r);
    }
  }

  /** One version of the spec: its images lose their tags, even if the last of them does not parse, and
      its status is appended. */
  method ReportNext(r0: Rebuilt, i: nat, m: UseMap, previous: seq<VersionStatus>, w: StackWorld) returns (r: Rebuilt)
    requires i < |r0.versions|
    ensures r == RebuildNext(r0, i, m, previous, w)
  {
    var curSpec := r0.versions[i];
    if curSpec.IsInactive() {
      return r0.(statuses := r0.statuses + [InactiveStatus(curSpec)]);
    }
    var stripped := RemoveTagFromStackImages(curSpec.images, w.repository);
    curSpec := curSpec.(images := stripped.images);
    r := r0.(versions := r0.versions[i := curSpec]);
    if !stripped.ok {
      return r.(ok := false);
    }
    var versionStatus := ReportVersion(curSpec, i, m, previous, w);
    r := r.(statuses := r.statuses + [versionStatus]);
  }

  method ReportVersion(v: StackVersion, i: nat, m: UseMap, previous: seq<VersionStatus>, w: StackWorld)
    returns (s: VersionStatus)
    requires !v.IsInactive()
    ensures s == ActiveStatus(v, i, m, previous, w)
  {
    var status, message := STATE_ACTIVE, "";
    if v.desiredState != "" && !EqualFold(v.desiredState, STATE_ACTIVE) {
      message := InvalidState(v.desiredState);
    }
    var pipelines, error := ReportPipelines(v.pipelines, m);
    if error.Some? {
      message := error.value;
      status := STATE_ERROR;
    }
    var images, failed := ReportImages(v.images, v.version, i, previous, w);
    if failed {
      status := STATE_ERROR;
    }
    s := VersionStatus(v.version, pipelines, status, message, images);
  }

  method ReportPipelines(ps: seq<PipelineSpec>, m: UseMap)
    returns (pipelines: seq<PipelineStatus>, error: Option<string>)
    ensures pipelines == RebuildPipelines(ps, m) && error == LastError(ps, m)
  {
    pipelines, error := [], None;
    for j := 0 to |ps|
      invariant pipelines == RebuildPipelines(ps[..j], m) && error == LastError(ps[..j], m)
    {
      assert ps[..j + 1][..j] == ps[..j];
      var key := KeyOfSpec(ps[j]);
      if key in m {
        pipelines := pipelines + [m[key].pipeline.(name := ps[j].id)];
        if m[key].manifestError.Some? {
          error := m[key].manifestError;
        }
      }
    }
    assert ps[..|ps|] == ps;
  }

  method ReportImages(images: seq<Image>, version: string, i: nat, previous: seq<VersionStatus>, w: StackWorld)
    returns (statuses: seq<ImageStatus>, failed: bool)
    ensures statuses == ImageStatuses(images, |images|, version, i, previous, w)
    ensures failed == AnyDigestFailed(images, version, i, previous, w)
  {
    statuses, failed := [], false;
    for j := 0 to |images|
      invariant statuses == ImageStatuses(images, j, version, i, previous, w)
      invariant failed <==> exists k :: 0 <= k < j && DigestFailed(previous, version, images[k].image, w.lookup(i, k))
    {
      var digest, digestFailed := GetStatusImageDigest(previous, version, images[j].image, w.lookup(i, j));
      failed := failed || digestFailed;
      statuses := statuses + [ImageStatus(images[j].id, images[j].image, digest)];
    }
  }

  method CleanupPipelines(api: ApiServer, pipelines: seq<PipelineStatus>, namespace: string, uid: Uid)
    modifies api
    ensures api.objects == Released(old(api.objects), PipelineTargets(pipelines, namespace), uid)
  {
    ghost var before := api.objects;
    ReleasedNothing(before, uid);
    assert PipelineTargets(pipelines[..0], namespace) == {};
    for j := 0 to |pipelines|
      invariant api.objects == Released(before, PipelineTargets(pipelines[..j], namespace), uid)
    {
      PipelineTargetsStep(pipelines, j, namespace);
      ReleasedTwice(before, PipelineTargets(pipelines[..j], namespace), Targets(pipelines[j].activeAssets, namespace),
                    uid);
      DeleteAssets(api, pipelines[j].activeAssets, namespace, uid);
    }
    assert pipelines[..|pipelines|] == pipelines;
  }

  lemma PipelineTargetsStep(pipelines: seq<PipelineStatus>, j: nat, namespace: string)
    requires j < |pipelines|
    ensures PipelineTargets(pipelines[..j + 1], namespace) ==
            PipelineTargets(pipelines[..j], namespace) + Targets(pipelines[j].activeAssets, namespace)
  {
    assert forall p :: p in pipelines[..j + 1] <==> p in pipelines[..j] || p == pipelines[j];
  }

  lemma StatusTargetsStep(versions: seq<VersionStatus>, i: nat, namespace: string)
    requires i < |versions|
    ensures StatusTargets(versions[..i + 1], namespace) ==
            StatusTargets(versions[..i], namespace) + PipelineTargets(versions[i].pipelines, namespace)
  {
    assert forall v :: v in versions[..i + 1] <==> v in versions[..i] || v == versions[i];
  }

  method FailedAssets(versions: seq<VersionStatus>) returns (failed: bool)
    ensures failed <==> HasFailedAsset(versions)
    ensures failed <==>
      exists v, p, a :: v in versions && p in v.pipelines && a in p.activeAssets && a.status == "failed"
  {
    for i := 0 to |versions|
      invariant !HasFailedAsset(versions[..i])
    {
      var v := versions[i];
      for j := 0 to |v.pipelines|
        invariant forall p, a :: p in v.pipelines[..j] && a in p.activeAssets ==> a.status != ASSET_FAILED
      {
        var assets := v.pipelines[j].activeAssets;
        for k := 0 to |assets|
          invariant forall a :: a in assets[..k] ==> a.status != ASSET_FAILED
        {
          if assets[k].status == ASSET_FAILED {
            assert v in versions && v.pipelines[j] in v.pipelines && assets[k] in v.pipelines[j].activeAssets;
            return true;
          }
        }
        assert assets[..|assets|] == assets;
      }
      assert v.pipelines[..|v.pipelines|] == v.pipelines;
      assert forall x :: x in versions[..i + 1] <==> x in versions[..i] || x == v;
    }
    assert versions[..|versions|] == versions;
    failed := false;
  }
}
