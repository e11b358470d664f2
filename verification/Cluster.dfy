/** The objects of the cluster, each with the components that own it, and the release of an asset. */
module Cluster {
  import opened Component

  type Uid = string

  datatype ObjectId = ObjectId(group: string, version: string, kind: string, namespace: string, name: string)

  /** What the API server stores that matters here: which objects exist and the UIDs in their owner
      reference lists. */
  type Objects = map<ObjectId, seq<Uid>>

  predicate Owns(objects: Objects, uid: Uid, id: ObjectId) {
    id in objects && uid in objects[id]
  }

  /** Trigger bindings and templates are created without an owner reference. */
  predicate TakesOwner(kind: string) {
    kind != "TriggerBinding" && kind != "TriggerTemplate"
  }

  function IdOf(a: AssetStatus): ObjectId {
    ObjectId(a.group, a.version, a.kind, a.namespace, a.name)
  }

  /** Assets recorded by older releases have no namespace. */
  function Namespaced(a: AssetStatus, namespace: string): AssetStatus {
    if a.namespace == "" then a.(namespace := namespace) else a
  }

  function Without(owners: seq<Uid>, uid: Uid): seq<Uid> {
    if owners == [] then []
    else
      var last := owners[|owners| - 1];
      Without(owners[..|owners| - 1], uid) + if last == uid then [] else [last]
  }

  /** Processing of a deletion leaves an asset alone unless it has been applied. */
  predicate IsReleasable(a: AssetStatus) {
    a.status != ASSET_UNKNOWN && a.status != ASSET_FAILED
  }

  /** The cluster after one component has let go of a set of objects: it is nobody's owner there any
      more, and an object left without owners is gone. */
  function Released(objects: Objects, targets: set<ObjectId>, uid: Uid): Objects {
    map id | id in objects && !(id in targets && Without(objects[id], uid) == []) ::
      if id in targets then Without(objects[id], uid) else objects[id]
  }

  function Targets(assets: seq<AssetStatus>, namespace: string): set<ObjectId> {
    set a | a in assets && IsReleasable(a) :: IdOf(Namespaced(a, namespace))
  }

  class ApiServer {
    var objects: Objects

    constructor ()
      ensures objects == map[]
    {
      objects := map[];
    }

    /** Creates the object, or merges the manifest into the one that is there: a merge replaces the
        owner list by the manifest's list, if the manifest has one. */
    method Apply(id: ObjectId, owners: Option<seq<Uid>>)
      modifies this
      ensures objects == Merged(old(objects), id, owners)
    {
      if owners.Some? {
        objects := objects[id := owners.value];
      } else if id !in objects {
        objects := objects[id := []];
      }
    }

    method Update(id: ObjectId, owners: seq<Uid>)
      requires id in objects
      modifies this
      ensures objects == old(objects)[id := owners]
    {
      objects := objects[id := owners];
    }

    method Delete(id: ObjectId)
      requires id in objects
      modifies this
      ensures objects == old(objects) - {id}
    {
      objects := objects - {id};
    }
  }

  function Merged(objects: Objects, id: ObjectId, owners: Option<seq<Uid>>): Objects {
    match owners
    case Some(o) => objects[id := o]
    case None => if id in objects then objects else objects[id := []]
  }

  /** Removes one owner from an object, or the object itself with its last owner. */
  method DeleteAsset(api: ApiServer, asset: AssetStatus, uid: Uid)
    modifies api
    ensures api.objects == Released(old(api.objects), Targets([asset], asset.namespace), uid)
  {
    if asset.status == ASSET_UNKNOWN || asset.status == ASSET_FAILED {
      assert Targets([asset], asset.namespace) == {};
      return;
    }
    var id := IdOf(asset);
    assert Targets([asset], asset.namespace) == {id} by {
      assert asset in [asset];
    }
    if id in api.objects {
      var owners := api.objects[id];
      var remaining: seq<Uid> := [];
      for i := 0 to |owners|
        invariant remaining == Without(owners[..i], uid)
      {
        assert owners[..i + 1][..i] == owners[..i];
        if owners[i] != uid {
          remaining := remaining + [owners[i]];
        }
      }
      assert owners[..|owners|] == owners;
      if remaining == [] {
        api.Delete(id);
      } else {
        api.Update(id, remaining);
      }
    }
  }

  /** Releases a list of assets, one after the other. */
  method DeleteAssets(api: ApiServer, assets: seq<AssetStatus>, namespace: string, uid: Uid)
    modifies api
    ensures api.objects == Released(old(api.objects), Targets(assets, namespace), uid)
  {
    ghost var before := api.objects;
    ReleasedNothing(before, uid);
    assert Targets(assets[..0], namespace) == {};
    for i := 0 to |assets|
      invariant api.objects == Released(before, Targets(assets[..i], namespace), uid)
    {
      var asset := assets[i];
      if asset.namespace == "" {
        asset := asset.(namespace := namespace);
      }
      TargetsStep(assets, i, namespace);
      ReleasedTwice(before, Targets(assets[..i], namespace), Targets([asset], asset.namespace), uid);
      DeleteAsset(api, asset, uid);
    }
    assert assets[..|assets|] == assets;
  }

  lemma TargetsStep(assets: seq<AssetStatus>, i: nat, namespace: string)
    requires i < |assets|
    ensures var a := Namespaced(assets[i], namespace);
      Targets(assets[..i + 1], namespace) == Targets(assets[..i], namespace) + Targets([a], a.namespace)
  {
    var a := Namespaced(assets[i], namespace);
    assert assets[..i + 1] == assets[..i] + [assets[i]];
    assert forall x :: x in [a] <==> x == a;
    assert Namespaced(a, a.namespace) == a;
    forall id | id in Targets([a], a.namespace)
      ensures id in Targets(assets[..i + 1], namespace)
    {
      assert assets[i] in assets[..i + 1];
    }
    forall id | id in Targets(assets[..i + 1], namespace)
      ensures id in Targets(assets[..i], namespace) + Targets([a], a.namespace)
    {
      var b :| b in assets[..i + 1] && IsReleasable(b) && IdOf(Namespaced(b, namespace)) == id;
      if b !in assets[..i] {
        assert a in [a];
      }
    }
  }

  // ---------------------------------------------------------------- what a release does

  lemma {:induction false} WithoutOwner(owners: seq<Uid>, uid: Uid)
    ensures forall u :: u in Without(owners, uid) <==> u in owners && u != uid
  {
    if owners != [] {
      var n := |owners| - 1;
      WithoutOwner(owners[..n], uid);
      assert owners == owners[..n] + [owners[n]];
    }
  }

  lemma {:induction false} WithoutTwice(owners: seq<Uid>, uid: Uid)
    requires uid !in owners
    ensures Without(owners, uid) == owners
  {
    if owners != [] {
      var n := |owners| - 1;
      WithoutTwice(owners[..n], uid);
      assert owners == owners[..n] + [owners[n]];
    }
  }

  lemma ReleasedNothing(objects: Objects, uid: Uid)
    ensures Released(objects, {}, uid) == objects
  {}

  /** Releasing in two rounds, in either order and with repetitions, is releasing at once. */
  lemma ReleasedTwice(objects: Objects, first: set<ObjectId>, second: set<ObjectId>, uid: Uid)
    ensures Released(Released(objects, first, uid), second, uid) == Released(objects, first + second, uid)
  {
    var a := Released(Released(objects, first, uid), second, uid);
    var b := Released(objects, first + second, uid);
    forall id | id in objects
      ensures (id in a <==> id in b) && (id in a ==> a[id] == b[id])
    {
      WithoutOwner(objects[id], uid);
      WithoutTwice(Without(objects[id], uid), uid);
    }
    assert a.Keys == b.Keys;
  }

  /** A release takes exactly the targets away from its component and nothing from anybody else. */
  lemma ReleasedOwnership(objects: Objects, targets: set<ObjectId>, uid: Uid)
    ensures forall id :: Owns(Released(objects, targets, uid), uid, id) <==> Owns(objects, uid, id) && id !in targets
    ensures forall u, id :: u != uid ==> (Owns(Released(objects, targets, uid), u, id) <==> Owns(objects, u, id))
    ensures forall id :: id in objects && id !in targets ==>
      id in Released(objects, targets, uid) && Released(objects, targets, uid)[id] == objects[id]
  {
    forall id | id in objects {
      WithoutOwner(objects[id], uid);
    }
    forall u, id | u != uid && Owns(objects, u, id)
      ensures Owns(Released(objects, targets, uid), u, id)
    {
      assert u in Without(objects[id], uid);
    }
  }
}
