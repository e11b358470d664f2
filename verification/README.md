# Verification of the Kabanero operator

A Dafny model of the controllers in `pkg/controller` of the Kabanero operator, with proofs about their runs. It verifies
with Dafny 4.11: `dafny verify dfyconfig.toml`.

What is modelled, hardest part first:

* **The pipeline activation engine.** A component (a Stack, or the gitops part of a Kabanero) uses pipeline archives. An
  activation counts the uses, releases the objects of archives that fell out of use, and creates or adopts the objects
  of archives in use. Objects are shared between components through owner lists. The status a component writes is the
  only memory it has of what it owns. `Component.dfy`, `UseCounts.dfy`, `Cluster.dfy` and `Activation.dfy` hold the
  program: loops over the use map and a cluster object, proved equal to the functions `Count`, `Released` and
  `Activate`. `StackController.dfy` and `KabaneroController.dfy` hold the two clients: the rebuild of the status, the
  image digests, the finalizers and the teardown.
* **One pass, field by field.** `Sources.dfy` says which archive a status entry stands for and when an archive is let go,
  `Visits.dfy` what is downloaded, made, adopted and reported when an archive is visited, `Reports.dfy` what the status
  of a Stack and of the gitops pipelines says, and `Teardowns.dfy` what a deletion writes, releases and asks to go.
* **Its runs.** `Ownership.dfy`, `Accuracy.dfy` and `Creation.dfy` prove what one activation does to an accurate status
  and to every object. `Runs.dfy` is a state machine of any number of stacks and Kabanero instances that are created,
  edited, reconciled and deleted in any interleaving, while downloads and creations fail at will and others write and
  delete objects. `Holdings.dfy` says what components own over its runs and how an object is lost, `LeakFreedom.dfy` that
  no object is left behind. `IterationOrder.dfy`, `Fixpoint.dfy` and `Idempotence.dfy` compare two passes, `Digests.dfy`
  follows image digests through a run, and `Limits.dfy` says exactly where the guarantees end.
* **The HTTP cache** (`HttpCache.dfy`) as a protocol of many callers, a purge task and an origin server that changes its
  content (sections 2.3, 3.2, 3.3 and 4.1 of RFC 7232).
* **Featured stacks** (`FeaturedStacks.dfy`, `FeaturedGuarantees.dfy`): cleaning with an early exit, merging, pinned
  versions, and how repeated passes converge.
* **Target namespaces** (`TargetNamespaces.dfy`): role bindings that follow a list which the status remembers.
* **Smaller loops**: the retry delays (`Requeue.dfy`), reading and checking archives (`Archives.dfy`), the hex dump and
  its inverse (`HexDump.dfy`), the choice of a secret (`Secrets.dfy`), and the in-place compaction of a stack index
  (`StackIndex.dfy`).

Code that changes state is a class or a method with loops, tied by its `ensures` to a function of the old state; the
theorems are about these functions. Beside the theorems that follow a whole run, others spell out what one call leaves
behind, field by field and in the literal names and messages of the program: they refer to the inputs, not to the helper
functions that compute the result. Downloads, object creation, registries, YAML, decompression, checksums and clocks are
function parameters. Map iteration is an arbitrary choice of the next element, so every result about a method holds for
every iteration order.

## Where the code does not keep a promise

* A pipeline archive that one version lists twice is counted twice and removed once
  (`UseCounts.PositiveExactlyWhenWanted`, `UseCounts.RepeatedArchiveIsNeverReleased`).
* Assets and manifests are matched by name alone. Names unique within an archive are exactly what the engine needs
  (`Limits.UniqueNamesExactly`).
* TriggerBinding and TriggerTemplate objects are created without an owner (`Holdings.TriggerIsMadeUnowned`). Right after
  a pass such a listed object is owned exactly if it was there before or two archives list it
  (`Holdings.ListedAfterPass`, `Creation.TriggerOwnedExactly`); from the second pass on it is owned
  (`Holdings.OwnedFromSecondPass`). Until then another component that adopted it can take it away while it is listed as
  active (`Holdings.UnadoptedIsLost`). Unless somebody else took owners off objects, no other listed object can be lost
  like this (`Holdings.OnlyUnadoptedAreLost`).
* A stack that is reconciled again without change after an error-free pass keeps its state, except in two cases. An
  archive that holds no assets is downloaded in every pass, and the stack turns to an error when that fails
  (`Idempotence.EmptyArchiveTurnsToError`). An image listed twice for one version may get two digests, and the next pass
  reports the first of them for both (`Idempotence.SecondDigestIsReplaced`). There is no third case
  (`Idempotence.StackReconciledAgain`), and for the gitops pipelines of a Kabanero only the first one
  (`Idempotence.GitopsReconciledAgain`).
* The controller goes by the first status for an image. A digest that only a later status for it has, because the
  registry failed for the first, is replaced by the registry's next answer (`Digests.UnrecordedIsReplaced`). A reported
  digest is reported again by every later pass exactly if the first status for the image has it
  (`Digests.ReportedAgainExactly`, `Digests.ReportedForeverExactly`).
* The teardown of a Kabanero waits for the stacks of its own namespace only: a stack of another namespace that names it
  as owner is left behind (`Runs.TeardownWaitsExactly`, `Runs.ForeignStackIsLeftBehind`).
* An image that does not parse leaves the old status in place although the cluster has changed
  (`Limits.StatusIsReplacedExactly`). The validating webhook (`pkg/webhook/stack/validatingwebhook.go:95-106`) refuses
  such images, so this takes a stack that was stored while the webhook was not in force.
* Cached bodies are current exactly if the origin uses no entity tag for two bodies of a resource
  (`HttpCache.CurrentExactlyIfStrong`, `HttpCache.WeakEtagsReturnStaleBodies`).
* Cleaning the featured stacks stops at the first stack it deletes (`FeaturedGuarantees.PassDropsOne`); one pass still
  suffices exactly if the stacks listed after that one need no cleaning (`FeaturedGuarantees.EarlyExitConverges`).
* An empty status counts as "already bound" in the Kabanero's own namespace, so a Kabanero that lists no namespaces never
  gets its role bindings there; a bound namespace that is deleted and created again between two passes stays without
  (`TargetNamespaces.OverlookedForever`, `TargetNamespaces.WhoIsOverlooked`, `TargetNamespaces.CoveredExactly`).

Two properties hold for every input the program receives, and the models show what they rest on. The error summary of a
stack is empty exactly if no version is in error, because the webhook (`validatingwebhook.go:70-83`) refuses versions
without a name (`StackController.ErrorSummaryExactly`). The choice of a secret does not depend on the order of its
annotations, because the filter has a prefix, which the only caller (`stack_controller.go:490`) gives it
(`Secrets.OrderIndependentExactly`).

## Model

| member | source | states |
|---|---|---|
| UseCounts.CountStatus | pkg/controller/utils/pipelines.go:58-75 | the use map after the status loop has one entry per listed archive, made from its first listing and counting all of them |
| UseCounts.CollectListed | pkg/controller/utils/pipelines.go:79-92 | the pairs collected for removal are the (archive, version) pairs of the status, as a set |
| UseCounts.CollectDeltas | pkg/controller/utils/pipelines.go:97-114 | the loop over the spec leaves the two delta sets that `DeltasCharacterized` describes |
| UseCounts.TakeAway | pkg/controller/utils/pipelines.go:117-124 | in any order, every removed pair takes one use away; the "not found in use map" branch is dead |
| UseCounts.AddTo | pkg/controller/utils/pipelines.go:126-135 | in any order, every added pair adds one use, in a fresh entry if the archive was not listed |
| UseCounts.CountUses | pkg/controller/utils/pipelines.go:56-135 | the counting part as a whole, for every spec and status, without an error |
| UseCounts.DeltasCharacterized | pkg/controller/utils/pipelines.go:79-114 | removed are the listed pairs the spec does not want; added are the wanted pairs that are not listed or wanted twice |
| UseCounts.CountListedKeys | pkg/controller/utils/pipelines.go:58-75 | the first loop knows exactly the archives of the status and counts their occurrences |
| UseCounts.OccurrencesAtLeastPairs | pkg/controller/utils/pipelines.go:73-79 | counts are per occurrence and removals per pair: they agree exactly when no version repeats the archive |
| UseCounts.CountsConserved | pkg/controller/utils/pipelines.go:56-135 | a key is counted exactly when listed or wanted, and its count is its status occurrences minus removed pairs plus added pairs |
| UseCounts.PositiveExactlyWhenWanted | pkg/controller/utils/pipelines.go:137-155 | the count is never negative, and positive if and only if the spec wants the archive or one status version lists it twice |
| UseCounts.RepeatedArchiveIsNeverReleased | pkg/controller/utils/pipelines.go:73-123 | a concrete status whose repeated archive still counts as used after the spec dropped it |
| Cluster.DeleteAsset | pkg/controller/utils/pipelines.go:325-375 | takes this owner off the object and the object away with its last owner; unknown and failed assets are not touched |
| Cluster.DeleteAssets | pkg/controller/utils/pipelines.go:143-150 | releasing a list one by one, with repetitions and default namespaces, is releasing the set of its objects at once |
| Cluster.ReleasedTwice | pkg/controller/utils/pipelines.go:139-152 | releases can be split and repeated: the order in which assets are deleted does not matter |
| Cluster.ReleasedOwnership | pkg/controller/utils/pipelines.go:325-375 | a release takes exactly the targets from its component and no ownership from anybody else |
| Activation.CreateMissing | pkg/controller/utils/pipelines.go:244-296 | the manifests tried for a missing asset: matched by name, foreign groups refused, a transformation error overwrites the status |
| Activation.EnsureOne | pkg/controller/utils/pipelines.go:185-316 | one asset is adopted if its object exists (its owner added once), else created |
| Activation.EnsureOneArchive | pkg/controller/utils/pipelines.go:154-318 | an archive in use gets its asset list on the first visit; a failed download is recorded |
| Activation.ReleaseDead | pkg/controller/utils/pipelines.go:137-152 | whatever the iteration order, the objects of all archives out of use are released and no others |
| Activation.ActivatePipelines | pkg/controller/utils/pipelines.go:54-322 | the whole activation, in some order of the use map, is the function `Activate` that the theorems are about |
| Ownership.EnsureAssetEffect | pkg/controller/utils/pipelines.go:185-316 | with unique names, an existing object is adopted and listed active, and a missing one exists afterwards exactly if its asset is active |
| Ownership.EnsureArchiveEffect | pkg/controller/utils/pipelines.go:154-318 | after an archive was visited its active assets exist and are owned, and nothing else became owned |
| Ownership.EnsureAllEffect | pkg/controller/utils/pipelines.go:154-318 | the same for all archives in use, although they share objects: later visits keep what earlier ones settled |
| Accuracy.CountPipelines | pkg/controller/utils/pipelines.go:67-71 | every use map entry holds the pipeline of its own key: the first listed one, or a fresh one |
| Accuracy.RebuiltUses | pkg/controller/stack/stack_controller.go:320-350 | the rebuilt status uses what the spec uses, in order and with repetitions: the nil-lookup branch never drops a pipeline |
| Sources.StatusFollowsSpec | pkg/controller/stack/stack_controller.go:329-350 | whatever the old status lists and whatever fails, entry (i, j) of the new status has the name and the sha256 of pipeline j of version i, and its release if none of the five fields is empty, else its URL |
| Sources.SharedExactly | pkg/controller/utils/pipelines.go:60-114 | two pipelines of a spec share a use map entry if and only if they have the same sha256 and the same complete release, or else the same URL |
| Sources.GivenUpIsReleased | pkg/controller/utils/pipelines.go:137-155 | an archive that no pipeline of the spec has any more, as when only its checksum changed, is let go: for each of its applied assets the component stops being an owner, and the object is gone exactly if nobody else owns it |
| Visits.NewFileIsFetched | pkg/controller/utils/pipelines.go:158-195 | a pipeline that the old status does not list, as when only its checksum changed, is downloaded under its release or URL and its sha256; its entry lists the downloaded manifests one by one with their names, kinds and digests and the namespace each object belongs in, or nothing if the download failed |
| Visits.FailureIsRecorded | pkg/controller/utils/pipelines.go:171-176 | when such a download fails, the use map entry of the archive holds exactly its message, and else no error |
| Visits.FirstVisitReported | pkg/controller/utils/pipelines.go:154-318 | the first visit of an archive with unique names: for every asset, whether its object was there, is made or is refused, the owner list it has then, and the status and message reported; no other object changes |
| Visits.FoundIsListedActive | pkg/controller/utils/pipelines.go:292-315 | the visit of an asset whose object is there: this owner is appended to its list unless it is in it, the asset becomes active without a message and gets a namespace if it had none, and all other objects and assets stay |
| Visits.MissingIsMadeAgain | pkg/controller/utils/pipelines.go:223-290 | a later visit of an asset whose object is gone: failed with the message that the manifests are no longer available, or made again from the manifest of its name, with the owners its kind takes |
| Visits.OneIsLetGo | pkg/controller/utils/pipelines.go:325-375 | the release of one asset: nothing for a failed or unapplied one; else this owner is taken off and the object goes exactly if it has no other |
| Visits.OthersStayInOrder | pkg/controller/utils/pipelines.go:350-356 | taking an owner off keeps the other owners in their order, with repetitions |
| Accuracy.ActivationKeepsAccuracy | pkg/controller/utils/pipelines.go:54-322 | if a component owns only what its status lists, then under any failures and any order an activation and rebuild end in a status that lists exactly what it owns of the kinds that take owners, and no other component gains or loses an object |
| Creation.ActivationExact | pkg/controller/utils/pipelines.go:154-318 | every object after an activation: one that survived the release phase stays, and gains this owner exactly if the new status lists it; any other is there exactly if the new status lists it as active, and then owned by its maker if its kind takes owners or two archives list it |
| Creation.TriggerOwnedExactly | pkg/controller/transforms/owner.go:9-19 | a listed active TriggerBinding or TriggerTemplate is owned after an activation if and only if it was there when the create phase began or two archives list it |
| StackController.RemoveTagFromStackImages | pkg/controller/stack/utils/stacks.go:14-24 | images lose their tags up to the first that does not parse |
| StackController.GetStatusImageDigest | pkg/controller/stack/stack_controller.go:400-444 | the digest is the recorded one, or else the registry's answer with its error |
| Reports.DigestReported | pkg/controller/stack/stack_controller.go:400-444 | the digest and message reported for an image: those of its first status in the versions of that name if that one has a digest, else the digest or the message the registry answers; it fails exactly in the case of a message |
| StackController.FailedAssets | pkg/controller/stack/stack_controller.go:218-229 | true exactly when some asset of the status has failed |
| StackController.Stack.WriteStatus | pkg/controller/stack/stack_controller.go:318-381 | the new status replaces the old one only when all versions could be rebuilt |
| StackController.Stack.ReconcileActiveVersions | pkg/controller/stack/stack_controller.go:282-384 | activation and rebuild on the resource and the cluster, with the error cases |
| Reports.VersionsReported | pkg/controller/stack/stack_controller.go:320-381 | after a completed reconciliation, entry i is "inactive", with its message and without pipelines and images, if and only if the desired state spells "inactive" in any case; every other entry reports each pipeline of the spec with its sha256 and source, and each image with its id, cut down to its repository |
| Reports.SpecIsStripped | pkg/controller/stack/stack_controller.go:356-360 | the spec after it: inactive versions as they were, and all others with their images cut down to their repositories |
| Reports.ActiveReported | pkg/controller/stack/stack_controller.go:323-326 | when no download fails, a version that is not deactivated has no message if and only if its desired state is empty or spells "active" in any case; when no registry fails either, it is active |
| Reports.ActiveMessage | pkg/controller/stack/stack_controller.go:323-349 | the state and message of such a version in full: "error" exactly for a failed download or an image without a digest, else "active"; the text of the last failed download, or else the text about the unknown desired state |
| Reports.LastErrorIs | pkg/controller/stack/stack_controller.go:344-348 | the download error reported for a version is that of the last of its pipelines whose archive has one |
| Reports.StackIds | pkg/controller/stack/stack_controller.go:290-298 | the ids accepted: a lower-case letter, then up to 67 letters, digits and dashes that do not end in a dash |
| StackController.Stack.ProcessDeletion | pkg/controller/stack/stack_controller.go:643-695 | the finalizer comes before anything else; cleanup and its removal happen only during deletion |
| Teardowns.StackDeletion | pkg/controller/stack/stack_controller.go:643-724 | a living stack gets the finalizer "kabanero.io/stack-controller" once; a deleted one that holds it lets go of exactly the objects its status lists as applied and drops this finalizer alone; its spec and status stay |
| Teardowns.DeletedStackGoes | pkg/controller/stack/stack_controller.go:161-185 | in the run model a deleted stack is gone after one reconciliation if and only if no other finalizer holds it |
| StackController.Stack.Cleanup | pkg/controller/stack/stack_controller.go:698-724 | everything the status lists is released, in all versions and pipelines |
| StackController.ErrorSummaryExactly | pkg/controller/stack/stack_controller.go:231-242 | for versions with names, the joined error summary is nonempty if and only if some version is in error |
| StackController.SummaryInOrder | pkg/controller/stack/stack_controller.go:232-242 | the error summary names the versions in error in their order, with a comma and a blank between them |
| StackController.Stack.Reconcile | pkg/controller/stack/stack_controller.go:161-215 | one reconciliation, and that it is repeated exactly if an asset has failed or, for versions with names, one is in error |
| Reports.LivingStackReconciled | pkg/controller/stack/stack_controller.go:181-215 | a reconciliation clears the status message and adds the finalizer once; if it does not complete, the versions of the old status stay, and with an invalid stack id nothing is activated |
| KabaneroController.CheckActive | pkg/controller/kabaneroplatform/gitops.go:62-69 | all assets of all gitops pipelines are active |
| KabaneroController.Kabanero.ReconcileGitopsPipelines | pkg/controller/kabaneroplatform/gitops.go:15-78 | the second client of the engine: the new status, ready only with every asset active and no message |
| Reports.GitopsReported | pkg/controller/kabaneroplatform/gitops.go:15-78 | the new gitops status in full: one entry per pipeline of the spec with its sha256 and source, ready exactly if every asset is "active" and there is no message, and the message is the last error |
| KabaneroController.Kabanero.CleanupGitopsPipelines | pkg/controller/kabaneroplatform/gitops.go:85-111 | releases everything the gitops status lists |
| KabaneroController.Kabanero.CleanupStackController | pkg/controller/kabaneroplatform/stack-controller.go:116-141 | of all stacks, those of the own namespace are counted by their owner references to this Kabanero, and exactly those counted are asked to go |
| KabaneroController.OwnedStacksPositive | pkg/controller/kabaneroplatform/stack-controller.go:116-141 | the count blocks the teardown if and only if some stack of the own namespace names the Kabanero as owner |
| KabaneroController.Kabanero.ProcessDeletion | pkg/controller/kabaneroplatform/kabaneroplatform_controller.go:405-513 | the finalizer goes only after a cleanup in which no stack was left and no step failed |
| Teardowns.KabaneroDeletion | pkg/controller/kabaneroplatform/kabaneroplatform_controller.go:405-513 | a living Kabanero gets the finalizer "kabanero.io.kabanero-operator" once; for a deleted one that holds it, exactly the gitops objects are let go if no earlier step fails and no stack of its own is left, and the finalizer goes if the last step succeeds, too |
| Teardowns.DeletedKabaneroGoes | pkg/controller/kabaneroplatform/kabaneroplatform_controller.go:405-513 | in the run model a deleted Kabanero is gone after one reconciliation if and only if no step failed, no stack of its namespace names it and no other finalizer holds it; exactly those stacks are asked to go, unless the first steps failed |
| Runs.StepKeepsInv | pkg/controller/stack/stack_controller.go:161-215 | every step of every resource or of the environment keeps the system invariant |
| Runs.TeardownLeavesNothing | pkg/controller/kabaneroplatform/kabaneroplatform_controller.go:405-513 | in every run, no object names a vanished component, or one without its finalizer, as owner; a Kabanero outlives the stacks of its namespace that name it as owner |
| Runs.TeardownWaitsExactly | pkg/controller/kabaneroplatform/stack-controller.go:116-141 | a teardown without errors keeps the Kabanero if and only if a stack of its own namespace names it as owner |
| Runs.ForeignStackIsLeftBehind | pkg/controller/kabaneroplatform/stack-controller.go:117 | a Kabanero that only stacks of other namespaces name as owner vanishes, and these stay and are not asked to go |
| Runs.OtherFinalizersSurvive | pkg/controller/stack/stack_controller.go:676-685 | dropping the controller's finalizer keeps the others, their order and repetitions, and removes all its own |
| Holdings.OwnershipMatchesStatus | pkg/controller/stack/stack_controller.go:319-381 | at every moment of every run a stack or Kabanero owns nothing its status does not list as active; and from the start of the run, or any of its passes on, while nobody else takes away what it owns, it owns an object of a kind that takes owners if and only if its status lists it as active |
| Holdings.ListedAfterPass | pkg/controller/utils/pipelines.go:185-316 | in every run, an object that the status lists right after a pass exists, and is owned if and only if its kind takes owners, or it was there when the create phase began, or two archives list it |
| Holdings.OwnedFromSecondPass | pkg/controller/utils/pipelines.go:185-316 | for a component that is left alone since its first pass, an object of any kind that is there before a later pass and listed after it is owned and listed at every later moment of the run |
| Holdings.TriggerIsMadeUnowned | pkg/controller/transforms/owner.go:9-19 | the first visit of an archive with one trigger object makes it, lists it as active and does not own it |
| Holdings.PassRemovesExactly | pkg/controller/utils/pipelines.go:137-155 | a pass removes an object if and only if it releases it, nobody else owns it and the new status does not list it |
| Holdings.CleanupRemovesExactly | pkg/controller/stack/stack_controller.go:698-724 | the cleanup of a stack removes an object if and only if the status lists it as applied and nobody else owns it |
| Holdings.OnlyUnadoptedAreLost | pkg/controller/utils/pipelines.go:325-375 | in every run, a listed object that another component's pass or cleanup removes was not owned by the component that lists it; and if nobody else took away what that one owns since the start or one of its passes, and it is not being deleted, the object is of a kind created without an owner |
| Holdings.UnadoptedIsLost | pkg/controller/utils/pipelines.go:325-375 | such an object is removed, and stays listed, when its only owner releases it and does not list it any more |
| LeakFreedom.NothingLeaks | pkg/controller/utils/pipelines.go:54-375 | in every run from an empty cluster in which only the components write, every object has a living component with its finalizer that owns it or lists it as active |
| IterationOrder.OrderDoesNotMatter | pkg/controller/utils/pipelines.go:117-319 | when downloads and creations succeed, any two iteration orders give the same objects, owner lists, assets and status, even with shared objects |
| Fixpoint.AllActiveIsInPlace | pkg/controller/utils/pipelines.go:154-318 | a pass that reports every asset active has put every object in place |
| Fixpoint.SecondPassIsIdle | pkg/controller/utils/pipelines.go:154-317 | after such a pass, another one deletes and creates nothing, leaves owner lists of owner-taking kinds alone and lists the same pipelines and assets, whatever fails this time |
| Idempotence.StackReconciledAgain | pkg/controller/stack/stack_controller.go:161-444 | reconciling an unchanged stack again after a pass that left no version in error and every asset active, in any order and whatever fails: the objects stay but for adopted trigger objects, and the whole stored state (spec, every status field, digests, finalizers) stays the same if and only if no wanted archive without assets fails to download and the status has one digest for each image of a version |
| Idempotence.SecondDigestIsReplaced | pkg/controller/stack/stack_controller.go:405-422 | a concrete stack that lists an image twice: it gets two digests without an error, and the next pass changes its state although nothing fails |
| Idempotence.EmptyArchiveTurnsToError | pkg/controller/utils/pipelines.go:159-176 | a concrete stack whose only archive is empty: reconciled without error, and its state changes when the archive cannot be downloaded the next time |
| Idempotence.GitopsReconciledAgain | pkg/controller/kabaneroplatform/gitops.go:15-78 | the same if-and-only-if for the gitops pipelines of a Kabanero after a pass that reported them ready |
| Fixpoint.SharedKeysShareAssets | pkg/controller/stack/stack_controller.go:329-350 | in a rebuilt status, all entries that stand for one archive list the same assets |
| Digests.RebuildAt | pkg/controller/stack/stack_controller.go:320-381 | the rebuilt status has one entry per version of the spec, in its place |
| Digests.DigestReportedAgain | pkg/controller/stack/stack_controller.go:400-444 | the digest that the first status for an image has is reported in every entry for the version and image, and the first status has it again while the spec uses the image |
| Digests.DigestIsForever | pkg/controller/stack/stack_controller.go:356-369 | over any run in which the version stays active with the image, the first status for the image keeps its digest, whatever the registry answers |
| Digests.ReportedAgainExactly | pkg/controller/stack/stack_controller.go:400-444 | for one completed pass with any spec that uses the image: a reported digest is reported again whatever the registry answers if and only if the first status for the image has it |
| Digests.ReportedForeverExactly | pkg/controller/stack/stack_controller.go:400-444 | a reported digest is reported after every run of passes whose specs use the image if and only if the first status for the image has it |
| Digests.UnrecordedIsReplaced | pkg/controller/stack/stack_controller.go:413-419 | a concrete version that lists an image twice: the registry fails for the first and answers for the second, and the next pass replaces the digest that was reported |
| Digests.DigestOrMessage | pkg/controller/stack/stack_controller.go:400-444 | over any run, no image status has both a digest and an error message |
| Limits.StatusIsReplacedExactly | pkg/controller/stack/stack_controller.go:282-384 | the status follows the activation if and only if the stack id is valid and all images of active versions parse; with a valid id the cluster changes either way |
| Limits.UniqueNamesExactly | pkg/controller/utils/pipelines.go:244-246 | for accepted kinds that take owners, owned objects are always listed as active if and only if names are unique in the archive |
| HttpCache.Cache.Lookup | pkg/controller/utils/cache/httpcache.go:54-62 | the first lock section: a local copy of the entry, whose validators go into the request |
| HttpCache.Cache.Absorb | pkg/controller/utils/cache/httpcache.go:84-124 | the second lock section: a 200 is returned, and stored if it has both validators or else dropped; a 304 returns the copy and writes it back; anything else returns nothing and leaves the cache |
| HttpCache.Cache.GetFromCache | pkg/controller/utils/cache/httpcache.go:46-125 | an undisturbed call is the first section, the request and the second section: a first download returns its body, and a 304 the body of the copy |
| HttpCache.Cache.Purge | pkg/controller/utils/cache/httpcache.go:128-137 | in any order of the keys, exactly the entries unused for too long go |
| HttpCache.AnswerIsCurrent | pkg/controller/utils/cache/httpcache.go:85-96 | a "not modified" answer to a stale copy still means the copy is the current body, by strong entity tags |
| HttpCache.RunIsGood | pkg/controller/utils/cache/httpcache.go:46-137 | the invariant: every copy in the cache or in a caller's hands was once the origin's under its entity tag |
| HttpCache.ReturnedBodyWasCurrent | pkg/controller/utils/cache/httpcache.go:46-137 | for any interleaving of calls, purges and publications, a returned body is what the origin served when it answered that call |
| HttpCache.ReturnedExactly | pkg/controller/utils/cache/httpcache.go:84-124 | in every run, a finished call returns a body if and only if its answer was a 200 or a 304: the body of the 200, or that of the copy it had taken in its first section |
| HttpCache.AnsweredReturnsCurrent | pkg/controller/utils/cache/httpcache.go:46-125 | with strong entity tags every call answered by a 200 or a 304 returns what the origin served at that moment |
| HttpCache.WeakEtagsReturnStaleBodies | pkg/controller/utils/cache/httpcache.go:85-94 | for every history of publications with one entity tag for two bodies, a run with this history in which a call returns the old body though the new one was served throughout |
| HttpCache.CurrentExactlyIfStrong | pkg/controller/utils/cache/httpcache.go:46-137 | for every origin and history of publications: in all runs with this history every returned body was current when its call was answered, if and only if no entity tag stands for two bodies of a resource |
| HttpCache.EntriesExpire | pkg/controller/utils/cache/httpcache.go:34-38 | however often late callers write purged entries back, no entry stays unused for more than twelve and a half hours |
| FeaturedStacks.ReadIndexes | pkg/controller/kabaneroplatform/featured_stacks.go:120-161 | the stacks of all repositories grouped by name in order, none pinned, no group empty; an error exactly if an index cannot be read |
| FeaturedGuarantees.FeaturedInOrder | pkg/controller/kabaneroplatform/featured_stacks.go:139-157 | each index stack of the name becomes one version, in order: without a desired state, with the pipelines and images of the index and the registry flag of the Kabanero |
| FeaturedGuarantees.RepositoriesInOrder | pkg/controller/kabaneroplatform/featured_stacks.go:121-141 | the stacks of all repositories one after the other, each read with its own pipelines or else the default ones; nothing if one cannot be read |
| FeaturedStacks.KeepVersions | pkg/controller/kabaneroplatform/featured_stacks.go:174-191 | the deployed versions that are featured or pinned, in their order |
| FeaturedGuarantees.KeptInOrder | pkg/controller/kabaneroplatform/featured_stacks.go:174-191 | a deployed version is kept, in its place, if and only if its name is featured or its desired state is not empty |
| FeaturedStacks.StackStore.PreProcessCurrentStacks | pkg/controller/kabaneroplatform/featured_stacks.go:164-211 | stacks are cleaned in the listed order up to the first deletion |
| FeaturedStacks.MergeVersions | pkg/controller/kabaneroplatform/featured_stacks.go:78-107 | the merge of one stack, or its error |
| FeaturedStacks.StackStore.MergeFeatured | pkg/controller/kabaneroplatform/featured_stacks.go:38-117 | the merge of all featured stacks, up to the first image that does not parse |
| FeaturedStacks.ValidateGovernanceStackPolicy | pkg/controller/kabaneroplatform/utils/kabaneroutil.go:10-24 | valid exactly if the policy is empty or "strictDigest", "activeDigest", "ignoreDigest" or "none" |
| FeaturedStacks.StackStore.ReconcileFeaturedStacks | pkg/controller/kabaneroplatform/featured_stacks.go:19-117 | a whole pass over the stored stacks, in some order of the index; nothing is done for an unsupported policy or if an index cannot be read |
| FeaturedGuarantees.MergeIsExpected | pkg/controller/kabaneroplatform/featured_stacks.go:78-107 | the loop agrees with a reference: old versions in their order, then the first of each new name, unpinned ones with the content of the last featured entry; an error exactly if an image does not parse |
| FeaturedGuarantees.MergedContents | pkg/controller/kabaneroplatform/featured_stacks.go:78-107 | the merge field by field: a version without a desired state that is featured has the pipelines, both skip flags and the tagless images of the last featured entry of its name and keeps its other fields; a new one takes these other fields from the first entry of its name; any other version is unchanged |
| FeaturedGuarantees.NewPlacesExactly | pkg/controller/kabaneroplatform/featured_stacks.go:88-106 | appended are the featured names that were not deployed, each at its first occurrence and in featured order |
| FeaturedGuarantees.MergeTwice | pkg/controller/kabaneroplatform/featured_stacks.go:78-107 | merging the same featured versions twice is merging them once |
| FeaturedGuarantees.PinnedSurvives | pkg/controller/kabaneroplatform/featured_stacks.go:78-208 | over any run of passes with any indexes and errors, the pinned versions of a stack stay unchanged and in order, and such a stack is never deleted |
| FeaturedGuarantees.PassDropsOne | pkg/controller/kabaneroplatform/featured_stacks.go:193-200 | while stacks with nothing to keep exist, a pass strictly reduces their number, and by exactly one if none of them is featured |
| FeaturedGuarantees.FullPassConverges | pkg/controller/kabaneroplatform/featured_stacks.go:164-211 | a pass without an early exit leaves every stack with its pinned and featured versions, and every featured version without a desired state shows pipelines, flags and tagless images of the last featured entry of its name |
| FeaturedGuarantees.EarlyExitConverges | pkg/controller/kabaneroplatform/featured_stacks.go:164-211 | a pass that deletes a stack leaves every stack up to date if and only if each stack listed after the deleted one had nothing to clean and is stored or featured with some version |
| FeaturedGuarantees.ConvergedStays | pkg/controller/kabaneroplatform/featured_stacks.go:19-117 | a further pass changes nothing, in whatever orders |
| FeaturedGuarantees.PassesConverge | pkg/controller/kabaneroplatform/featured_stacks.go:164-211 | with a fixed index, after one pass more than there were stacks with nothing to keep, a version is stored if and only if it was pinned at the start or is featured, every featured one without a desired state shows pipelines, flags and tagless images of the last entry of its name, and nothing changes any more |
| TargetNamespaces.CheckNamespaces | pkg/controller/kabaneroplatform/targetnamespaces.go:95-111 | the failed namespaces are those listed that do not exist or whose check failed: one complaint for a missing one, two for one whose check failed |
| TargetNamespaces.ReportNamespaces | pkg/controller/kabaneroplatform/targetnamespaces.go:159-172 | the new status list keeps the order of the spec and leaves out what failed |
| TargetNamespaces.Kabanero.ReconcileTargetNamespaces | pkg/controller/kabaneroplatform/targetnamespaces.go:81-184 | one pass: what becomes of every binding in removed, new and unchanged namespaces, and the status |
| TargetNamespaces.Kabanero.CleanupTargetNamespaces | pkg/controller/kabaneroplatform/targetnamespaces.go:216-228 | deletes the bindings of every namespace the defaulted status lists |
| TargetNamespaces.WantedIsReported | pkg/controller/kabaneroplatform/targetnamespaces.go:95-172 | the defaulted new status lists exactly the namespaces the pass bound, and at most the Kabanero's own besides |
| TargetNamespaces.CoveredExactly | pkg/controller/kabaneroplatform/targetnamespaces.go:117-157 | a pass leaves a wanted existing namespace fully bound if and only if it was not listed before or was fully bound already |
| TargetNamespaces.PassInFull | pkg/controller/kabaneroplatform/targetnamespaces.go:117-157 | one pass over any bindings whatever, binding by binding: which of the two named bindings are deleted, made, brought up to date or left alone in a namespace, and with which account, account namespace, role and owner; no other binding is touched |
| TargetNamespaces.NewNamespaceIsBound | pkg/controller/kabaneroplatform/targetnamespaces.go:135-145 | a namespace that is listed anew and exists has both bindings after the pass and is reported |
| TargetNamespaces.RemovedNamespaceIsUnbound | pkg/controller/kabaneroplatform/targetnamespaces.go:126-133 | a namespace that is no longer listed has lost its bindings |
| TargetNamespaces.ReportedInOrder | pkg/controller/kabaneroplatform/targetnamespaces.go:159-172 | the status keeps the order of the spec |
| TargetNamespaces.StepKeepsInv | pkg/controller/kabaneroplatform/targetnamespaces.go:81-228 | passes, spec changes, vanishing and new namespaces and the cleanup keep the invariant |
| TargetNamespaces.BindingsFollowStatus | pkg/controller/kabaneroplatform/targetnamespaces.go:95-172 | over any run, bindings lie only in existing namespaces of the defaulted status list, cover all of these but possibly the Kabanero's own, and are all gone after the cleanup |
| TargetNamespaces.BindingsInFull | pkg/controller/kabaneroplatform/targetnamespaces.go:29-78 | over any run, every binding is one of the two named ones, for the service account of that name in the Kabanero's own namespace, with its role, and owned exactly if it lies in that namespace; every other existing namespace of the status has both |
| TargetNamespaces.CoveredHasBoth | pkg/controller/kabaneroplatform/targetnamespaces.go:64-78 | what it means for a namespace to be covered, in the literal names of bindings, accounts and roles |
| TargetNamespaces.OverlookedForever | pkg/controller/kabaneroplatform/targetnamespaces.go:117-157 | a listed namespace without bindings never gets any while every pass finds it listed and existing |
| TargetNamespaces.WhoIsOverlooked | pkg/controller/kabaneroplatform/targetnamespaces.go:52-61 | this happens to the own namespace of a fresh Kabanero that lists nothing, and to any bound namespace that is created anew between passes |
| Requeue.Reconciler.DetermineHowToRequeue | pkg/controller/kabaneroplatform/kabaneroplatform_controller.go:232-274 | when a retry is requested, with which delay, and that the status is written only then |
| Requeue.RetriesBackOff | pkg/controller/kabaneroplatform/kabaneroplatform_controller.go:247-268 | in any run, per namespace, the k-th consecutive retry has delay min(60k, 900), and between the i-th and the j-th lies more than all delays in between |
| Requeue.GrantedExactly | pkg/controller/kabaneroplatform/kabaneroplatform_controller.go:247-271 | a failure is granted a retry if and only if it is the first or comes after the time the last retry named |
| Requeue.KthRetry | pkg/controller/kabaneroplatform/kabaneroplatform_controller.go:247-268 | the k-th retry comes more than 30k(k-1) seconds after the first for k up to 16, and more than 7200 + 900(k-16) from there on |
| Requeue.DelayNeverFalls | pkg/controller/kabaneroplatform/kabaneroplatform_controller.go:386 | only a success in the namespace makes its delay fall, and the delay never exceeds 900 |
| Archives.ReadBytesFromReader | pkg/controller/utils/archive.go:111-132 | the buffer filled by partial reads: the file, too short, or failed |
| Archives.PiecesDoNotMatter | pkg/controller/utils/archive.go:111-132 | for any chunking the result is the exact prefix of the given size, or "too short" exactly if the stream is shorter |
| Archives.ContentInOrder | pkg/controller/utils/archive.go:113-116 | what is read is the pieces one after the other, up to the first that comes with an error |
| Archives.ReadManifest | pkg/controller/utils/archive.go:141-183 | the first pass: what all manifests list, and whether there is one |
| Archives.Verify | pkg/controller/utils/archive.go:215-245 | a file passes if and only if it is listed and every nonempty checksum listed for it matches after the 32-byte copy |
| Archives.CopiedExactly | pkg/controller/utils/archive.go:224-229 | the 32-byte copy: its first bytes are those of the decoded checksum, and the rest are zero |
| Archives.BearsExactly | pkg/controller/utils/archive.go:223-241 | when a file has a written checksum: none is written, or the decoded one, cut to 32 bytes or filled up with zeroes, is the SHA-256 sum |
| Archives.LastSumExactly | pkg/controller/utils/archive.go:218-222 | the checksum kept for a file is that of the last line of the manifest that names it |
| Archives.DecodeManifests | pkg/controller/utils/archive.go:137-256 | an archive is accepted if and only if it is intact, has a manifest and all its asset files are readable, listed, matching and renderable; it gives their documents in archive order |
| Archives.DecodableExactly | pkg/controller/utils/archive.go:137-256 | an archive is taken if and only if it is intact, holds "manifest.yaml" or "./manifest.yaml", its manifests can be read, and every other file whose name ends in ".yaml" is accepted |
| Archives.ListedNext | pkg/controller/utils/archive.go:165-175 | each manifest is unmarshalled on top of the lines of those before it, and other files add none |
| Archives.ManifestNames | pkg/controller/utils/archive.go:165 | the manifest is "manifest.yaml", with or without "./" before it |
| Archives.AssetNames | pkg/controller/utils/archive.go:205-208 | the asset files are those whose names end in ".yaml", but the manifest |
| Archives.SoundExactly | pkg/controller/utils/archive.go:208-251 | when an asset file is accepted, in terms of its bytes, the lines of the manifest and the renderer |
| Archives.AssetsNext | pkg/controller/utils/archive.go:246-253 | one more file appends its documents in their order, each with the last checksum listed for the file |
| Archives.EveryAssetIsListed | pkg/controller/utils/archive.go:193-255 | every returned asset comes from a listed file and bears its last listed checksum, which the file has unless it is empty |
| Archives.GetPipelineFileType | pkg/controller/utils/archive.go:283-300 | the file type is read off the release asset, or else off the path of the URL |
| Archives.TypesExactly | pkg/controller/utils/archive.go:283-300 | a name that ends in ".tar.gz" or ".tgz" is an archive, one that ends in ".yaml" or ".yml" a YAML file; the name is the release asset if none of the five release fields is empty, else the path of the URL |
| Archives.GetManifests | pkg/controller/utils/archive.go:302-341 | exactly when assets are returned, and which: archives only with the digest the pipeline names, bare YAML files with any |
| Archives.UsableExactly | pkg/controller/utils/archive.go:302-341 | which downloads are taken, by name and digest: an archive must bear the digest of the pipeline, cut to 32 bytes or filled up with zeroes, and decode; a YAML file must only be rendered, and the digest of its pipeline be hexadecimal |
| Archives.ManifestFixesAssets | pkg/controller/utils/archive.go:193-255 | two archives accepted with the same manifest, names and checksums for every asset file give the same assets in the same order, however their files are read, if no two of their files share a checksum and differ |
| HexDump.CommTrace | pkg/controller/utils/archive.go:71-108 | the loop prints the dump of the whole buffer, line by line |
| HexDump.UndumpDump | pkg/controller/utils/archive.go:71-108 | a parser of offsets, hex groups and line breaks undoes the dump of every buffer of any length |
| HexDump.TextShows | pkg/controller/utils/archive.go:94-100 | the text column has a byte that prints in its place, and a dot for any other |
| HexDump.LineLayout | pkg/controller/utils/archive.go:82-100 | the columns of a line: eight upper-case hexadecimal digits of the offset, a colon and a blank, the two digits of each byte in groups of two bytes, and its character or a dot from column 50 on |
| HexDump.LineCount | pkg/controller/utils/archive.go:71-108 | the dump has one line for every sixteen bytes, rounded up |
| Secrets.SecretAnnotationFilter | pkg/controller/stack/utils/stacks.go:31-78 | in any annotation order, for every filter with a prefix: the first secret with the least matching key, else the first for the host, else none |
| Secrets.ChosenIsUnique | pkg/controller/stack/utils/stacks.go:26-30 | at most one secret is the one chosen |
| Secrets.ChosenInFull | pkg/controller/stack/utils/stacks.go:31-78 | the chosen secret, annotation by annotation: one with the least key that starts with the prefix and has a URL of the host, else the first with any URL of the host, and none exactly if there is no such URL |
| Secrets.LessExactly | pkg/controller/stack/utils/stacks.go:54 | keys are compared at their first different character, and a proper beginning comes first |
| Secrets.OrderIndependentExactly | pkg/controller/stack/utils/stacks.go:36-68 | over all visits the loop can make, for a host that some URL has, the result is the same for all orders of the annotations if and only if the filter has a prefix |
| Secrets.SharedKeyGoesToTheFirst | pkg/controller/stack/utils/stacks.go:50-58 | between secrets that share the least key the listed order decides |
| StackIndex.Index.ProcessPostRead | pkg/controller/stack/resolver.go:50-98 | the compaction over the array being ranged equals the filter-map of the old contents; the rest of the array is untouched |
| StackIndex.SurvivorsAt | pkg/controller/stack/resolver.go:53-90 | the survivors are exactly the stacks that name an image, in their order, each completed |
| StackIndex.SurvivorsHaveImages | pkg/controller/stack/resolver.go:61-88 | every survivor has a nonempty image, and the caller's pipelines if there are any |
| StackIndex.ProcessedInFull | pkg/controller/stack/resolver.go:53-90 | every survivor field by field: a single image becomes a list of one with the name of the stack as its id, the caller's pipelines replace its own if there are any, and all else is kept |
| StackIndex.ProcessedTwice | pkg/controller/stack/resolver.go:50-98 | processing a processed index changes nothing |

## Left out

* The Kubernetes client, manifestival, tar and gzip, YAML, TLS, OAuth, registries, SHA-256, hex decoding and the parsing of
  URLs and image references: they are function parameters, or steps of the environment.
* API reads, updates and deletes that fail, update conflicts and lost status writes: the cluster is taken as reliable, so
  the "unknown" asset status after a failed read does not arise from a pass. Only downloads and object creations fail.
* Merging a manifest into an existing object is taken to replace its owner list, if the manifest has one.
* Owner references are reduced to their UID; the namespaces of cluster-scoped kinds are not treated specially.
* The rendering context and the flags that skip certificate checks are part of what the world parameters decide.
* The images of a version share a slice with the spec in the program; the model writes the partly stripped images back.
* The summary text of a stack status and error texts made by formatting are left out; only their presence counts.
* `Runs` assumes what the guarantees need: names unique within an archive, archives whose content is fixed by their key,
  keys distinct within a version, images that parse, UIDs that are not reused, stacks that name a Kabanero of their own
  namespace only while it holds its finalizer, nobody else who takes away the finalizers of the two controllers, and
  nobody else who makes a component an owner. Others may delete objects and take owners away, also objects that
  components own. `Limits` and `UseCounts` show what goes wrong without the first, the third and the fourth.
* Holdings.OwnershipMatchesStatus: that everything listed is owned needs that nobody else took it away since the last pass;
  that only listed objects are owned does not.
* Visits.FirstVisitReported: names are unique within the archive, and the namespace of the component is not empty.
* Idempotence.StackReconciledAgain: the images of both passes are cut down by the same parser, and a digest that the
  registry answers is not empty.
* Holdings.OnlyUnadoptedAreLost: that only unowned kinds are lost needs that nobody else took owners off objects; that the
  component which lists the object did not own it does not.
* Idempotence.GitopsReconciledAgain: errors of downloads have a text.
* HttpCache.EntriesExpire: assumes that the purge task keeps its rhythm and that no caller waits twelve hours for the lock.
* FeaturedGuarantees.PassesConverge: a deleted stack vanishes at once, as if no finalizer held it, and all images parse.
* TargetNamespaces.BindingsFollowStatus: a bound namespace is not created again between two passes; that case is
  `TargetNamespaces.WhoIsOverlooked`. Only this Kabanero's bindings are followed.
* Secrets.SecretAnnotationFilter: an annotation value that starts like a URL is taken to parse (the program would stop
  otherwise).
* Archives.ReadBytesFromReader: a stream that forever returns no bytes and no error is not modelled.
* `HexDump` keeps a byte as its two hexadecimal digits.
* `pkg/controller/utils/cache/gitCache.go`, whose first download returns nothing and whose purge takes the other lock.
* Component deployers and status probes, the directive processor, webhooks, version lookup, image overrides, the CSV
  generator and generated code: they would add easy members only.
