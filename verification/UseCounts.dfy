/** How often each pipeline archive is used by the versions of one component. The counts start from
    what the status lists and are corrected by two sets of (archive, version) pairs: the pairs that
    the spec no longer asks for and the pairs that it asks for anew. */
module UseCounts {
  import opened Component

  /** A pipeline archive in a version of the component. */
  datatype Use = Use(key: UseKey, version: string)

  datatype Listed = Listed(use: Use, pipeline: PipelineStatus)

  datatype Manifest = Manifest(name: string, group: string, version: string, kind: string, sha256: string,
                               namespace: string)

  datatype UseValue = UseValue(pipeline: PipelineStatus, useCount: int, manifests: seq<Manifest>,
                               manifestError: Option<string>)

  type UseMap = map<UseKey, UseValue>

  function VersionListing(v: StatusVersion): seq<Listed> {
    seq(|v.pipelines|, i requires 0 <= i < |v.pipelines| =>
      Listed(Use(KeyOfStatus(v.pipelines[i]), v.version), v.pipelines[i]))
  }

  function StatusListing(status: seq<StatusVersion>): seq<Listed> {
    if status == [] then []
    else StatusListing(status[..|status| - 1]) + VersionListing(status[|status| - 1])
  }

  function SpecVersionUses(v: SpecVersion): seq<Use> {
    seq(|v.pipelines|, i requires 0 <= i < |v.pipelines| => Use(KeyOfSpec(v.pipelines[i]), v.version))
  }

  function SpecUses(spec: seq<SpecVersion>): seq<Use> {
    if spec == [] then []
    else SpecUses(spec[..|spec| - 1]) + SpecVersionUses(spec[|spec| - 1])
  }

  function UsesOf(listing: seq<Listed>): seq<Use> {
    seq(|listing|, i requires 0 <= i < |listing| => listing[i].use)
  }

  function StatusUses(status: seq<StatusVersion>): seq<Use> {
    UsesOf(StatusListing(status))
  }

  /** The pairs of a set that are about one archive. */
  function ForKey(uses: set<Use>, key: UseKey): set<Use> {
    set u | u in uses && u.key == key
  }

  function Elements(uses: seq<Use>): set<Use> {
    set u | u in uses
  }

  /** How many entries of a listing are about one archive. */
  function Occurrences(uses: seq<Use>, key: UseKey): nat {
    if uses == [] then 0
    else Occurrences(uses[..|uses| - 1], key) + if uses[|uses| - 1].key == key then 1 else 0
  }

  function Multiplicity(uses: seq<Use>, use: Use): nat {
    multiset(uses)[use]
  }

  function FreshValue(key: UseKey): UseValue {
    UseValue(PipelineStatus("", key.url, key.gitRelease, key.digest, []), 0, [], None)
  }

  function Base(m: UseMap, key: UseKey): UseValue {
    if key in m then m[key] else FreshValue(key)
  }

  /** The first loop: one entry for each archive the status lists, holding the first listing of it. */
  function CountListed(listing: seq<Listed>): UseMap {
    if listing == [] then map[]
    else Tally(CountListed(listing[..|listing| - 1]), listing[|listing| - 1])
  }

  function Tally(m: UseMap, l: Listed): UseMap {
    var value := if l.use.key in m then m[l.use.key] else UseValue(l.pipeline, 0, [], None);
    m[l.use.key := value.(useCount := value.useCount + 1)]
  }

  datatype Deltas = Deltas(decrement: set<Use>, increment: set<Use>)

  /** The loop over the spec: a pair still waiting to be removed is kept, any other one is added. */
  function FindDeltas(listed: set<Use>, wanted: seq<Use>): Deltas {
    if wanted == [] then Deltas(listed, {})
    else Adjust(FindDeltas(listed, wanted[..|wanted| - 1]), wanted[|wanted| - 1])
  }

  function Adjust(d: Deltas, u: Use): Deltas {
    if u in d.decrement then Deltas(d.decrement - {u}, d.increment)
    else Deltas(d.decrement, d.increment + {u})
  }

  function Decremented(m: UseMap, removed: set<Use>): UseMap {
    map k | k in m :: m[k].(useCount := m[k].useCount - |ForKey(removed, k)|)
  }

  function Incremented(m: UseMap, added: set<Use>): UseMap {
    map k | k in m.Keys + (set u | u in added :: u.key) ::
      Base(m, k).(useCount := Base(m, k).useCount + |ForKey(added, k)|)
  }

  function Count(spec: seq<SpecVersion>, status: seq<StatusVersion>): UseMap {
    var d := FindDeltas(Elements(StatusUses(status)), SpecUses(spec));
    Incremented(Decremented(CountListed(StatusListing(status)), d.decrement), d.increment)
  }

  // ---------------------------------------------------------------- the counting loops

  lemma CountListedStep(before: seq<Listed>, here: seq<Listed>, j: nat)
    requires j < |here|
    ensures CountListed(before + here[..j + 1]) == Tally(CountListed(before + here[..j]), here[j])
    ensures UsesOf(before + here[..j + 1]) == UsesOf(before + here[..j]) + [here[j].use]
  {
    var s := before + here[..j + 1];
    assert s[..|s| - 1] == before + here[..j];
  }

  lemma FindDeltasStep(listed: set<Use>, before: seq<Use>, here: seq<Use>, j: nat)
    requires j < |here|
    ensures FindDeltas(listed, before + here[..j + 1]) == Adjust(FindDeltas(listed, before + here[..j]), here[j])
  {
    var s := before + here[..j + 1];
    assert s[..|s| - 1] == before + here[..j];
  }

  lemma StatusListingStep(status: seq<StatusVersion>, i: nat)
    requires i < |status|
    ensures StatusListing(status[..i + 1]) == StatusListing(status[..i]) + VersionListing(status[i])
  {
    assert status[..i + 1][..i] == status[..i];
  }

  lemma SpecUsesStep(spec: seq<SpecVersion>, i: nat)
    requires i < |spec|
    ensures SpecUses(spec[..i + 1]) == SpecUses(spec[..i]) + SpecVersionUses(spec[i])
  {
    assert spec[..i + 1][..i] == spec[..i];
  }

  method CountOne(m: UseMap, version: string, pipeline: PipelineStatus) returns (useMap: UseMap)
    ensures useMap == Tally(m, Listed(Use(KeyOfStatus(pipeline), version), pipeline))
  {
    useMap := m;
    var key := KeyOfStatus(pipeline);
    if key !in useMap {
      useMap := useMap[key := UseValue(pipeline, 0, [], None)];
    }
    useMap := useMap[key := useMap[key].(useCount := useMap[key].useCount + 1)];
  }

  method CountStatus(status: seq<StatusVersion>) returns (useMap: UseMap)
    ensures useMap == CountListed(StatusListing(status))
  {
    useMap := map[];
    for i := 0 to |status|
      invariant useMap == CountListed(StatusListing(status[..i]))
    {
      ghost var before := StatusListing(status[..i]);
      ghost var here := VersionListing(status[i]);
      StatusListingStep(status, i);
      assert before + here[..0] == before;
      for j := 0 to |status[i].pipelines|
        invariant useMap == CountListed(before + here[..j])
      {
        CountListedStep(before, here, j);
        useMap := CountOne(useMap, status[i].version, status[i].pipelines[j]);
      }
      assert here[..|here|] == here;
    }
    assert status[..|status|] == status;
  }

  method CollectListed(status: seq<StatusVersion>) returns (uses: set<Use>)
    ensures uses == Elements(StatusUses(status))
  {
    uses := {};
    for i := 0 to |status|
      invariant uses == Elements(StatusUses(status[..i]))
    {
      ghost var before := StatusListing(status[..i]);
      ghost var here := VersionListing(status[i]);
      StatusListingStep(status, i);
      assert before + here[..0] == before;
      for j := 0 to |status[i].pipelines|
        invariant uses == Elements(UsesOf(before + here[..j]))
      {
        CountListedStep(before, here, j);
        uses := uses + {Use(KeyOfStatus(status[i].pipelines[j]), status[i].version)};
      }
      assert here[..|here|] == here;
    }
    assert status[..|status|] == status;
  }

  method CollectDeltas(spec: seq<SpecVersion>, listed: set<Use>) returns (deltas: Deltas)
    ensures deltas == FindDeltas(listed, SpecUses(spec))
  {
    var decrement, increment := listed, {};
    for i := 0 to |spec|
      invariant Deltas(decrement, increment) == FindDeltas(listed, SpecUses(spec[..i]))
    {
      ghost var before := SpecUses(spec[..i]);
      ghost var here := SpecVersionUses(spec[i]);
      SpecUsesStep(spec, i);
      assert before + here[..0] == before;
      for j := 0 to |spec[i].pipelines|
        invariant Deltas(decrement, increment) == FindDeltas(listed, before + here[..j])
      {
        FindDeltasStep(listed, before, here, j);
        var u := Use(KeyOfSpec(spec[i].pipelines[j]), spec[i].version);
        if u in decrement {
          decrement := decrement - {u};
        } else {
          increment := increment + {u};
        }
      }
      assert here[..|here|] == here;
    }
    assert spec[..|spec|] == spec;
    deltas := Deltas(decrement, increment);
  }

  lemma ForKeyStep(uses: set<Use>, u: Use, key: UseKey)
    requires u !in uses
    ensures |ForKey(uses + {u}, key)| == |ForKey(uses, key)| + if u.key == key then 1 else 0
  {
    if u.key == key {
      assert ForKey(uses + {u}, key) == ForKey(uses, key) + {u};
    } else {
      assert ForKey(uses + {u}, key) == ForKey(uses, key);
    }
  }

  lemma DecrementedStep(m: UseMap, removed: set<Use>, u: Use)
    requires u !in removed && u.key in m
    ensures Decremented(m, removed + {u}) ==
      var d := Decremented(m, removed); d[u.key := d[u.key].(useCount := d[u.key].useCount - 1)]
  {
    forall k | k in m
      ensures |ForKey(removed + {u}, k)| == |ForKey(removed, k)| + if u.key == k then 1 else 0
    {
      ForKeyStep(removed, u, k);
    }
  }

  lemma IncrementedStep(m: UseMap, added: set<Use>, u: Use)
    requires u !in added
    ensures Incremented(m, added + {u}) ==
      var d := Incremented(m, added); d[u.key := Base(d, u.key).(useCount := Base(d, u.key).useCount + 1)]
  {
    var d, after := Incremented(m, added), Incremented(m, added + {u});
    var expected := d[u.key := Base(d, u.key).(useCount := Base(d, u.key).useCount + 1)];
    forall k ensures k in after <==> k in expected {}
    forall k | k in after ensures after[k] == expected[k] {
      ForKeyStep(added, u, k);
      if k !in d {
        assert ForKey(added, k) == {};
      }
    }
  }

  /** Takes away the removed pairs, in any order. The lookup that the program guards with the error
      "not found in use map" always succeeds. */
  method TakeAway(m: UseMap, removed: set<Use>) returns (useMap: UseMap)
    requires forall u :: u in removed ==> u.key in m
    ensures useMap == Decremented(m, removed)
  {
    useMap := m;
    var todo := removed;
    while todo != {}
      invariant todo <= removed
      invariant useMap == Decremented(m, removed - todo)
      decreases todo
    {
      var u :| u in todo;
      DecrementedStep(m, removed - todo, u);
      assert removed - (todo - {u}) == (removed - todo) + {u};
      todo := todo - {u};
      if u.key in useMap {
        useMap := useMap[u.key := useMap[u.key].(useCount := useMap[u.key].useCount - 1)];
      } else {
        assert false;
      }
    }
    assert removed - todo == removed;
  }

  /** Adds the new pairs, in any order. */
  method AddTo(m: UseMap, added: set<Use>) returns (useMap: UseMap)
    ensures useMap == Incremented(m, added)
  {
    useMap := m;
    var todo := added;
    while todo != {}
      invariant todo <= added
      invariant useMap == Incremented(m, added - todo)
      decreases todo
    {
      var u :| u in todo;
      IncrementedStep(m, added - todo, u);
      assert added - (todo - {u}) == (added - todo) + {u};
      todo := todo - {u};
      if u.key !in useMap {
        useMap := useMap[u.key := FreshValue(u.key)];
      }
      useMap := useMap[u.key := useMap[u.key].(useCount := useMap[u.key].useCount + 1)];
    }
    assert added - todo == added;
  }

  /** The counting part of an activation. */
  method CountUses(spec: seq<SpecVersion>, status: seq<StatusVersion>) returns (useMap: UseMap)
    ensures useMap == Count(spec, status)
  {
    useMap := CountStatus(status);
    var listed := CollectListed(status);
    var deltas := CollectDeltas(spec, listed);
    DeltasCharacterized(listed, SpecUses(spec));
    CountListedKeys(StatusListing(status));
    useMap := TakeAway(useMap, deltas.decrement);
    useMap := AddTo(useMap, deltas.increment);
  }

  // ---------------------------------------------------------------- what the counts mean

  /** The set of removed pairs forgets repetitions; a pair that the spec repeats is added even when
      the status lists it already. */
  lemma {:induction false} DeltasCharacterized(listed: set<Use>, wanted: seq<Use>)
    ensures FindDeltas(listed, wanted).decrement == listed - Elements(wanted)
    ensures FindDeltas(listed, wanted).increment ==
      set u | u in wanted && (u !in listed || Multiplicity(wanted, u) >= 2)
  {
    if wanted != [] {
      var n := |wanted| - 1;
      DeltasCharacterized(listed, wanted[..n]);
      assert wanted == wanted[..n] + [wanted[n]];
    }
  }

  lemma {:induction false} CountListedKeys(listing: seq<Listed>)
    ensures CountListed(listing).Keys == set u | u in UsesOf(listing) :: u.key
    ensures forall k :: k in CountListed(listing) ==>
      CountListed(listing)[k].useCount == Occurrences(UsesOf(listing), k)
    ensures forall k :: k !in CountListed(listing) ==> Occurrences(UsesOf(listing), k) == 0
  {
    if listing != [] {
      var n := |listing| - 1;
      CountListedKeys(listing[..n]);
      assert UsesOf(listing)[..n] == UsesOf(listing[..n]);
      assert UsesOf(listing) == UsesOf(listing[..n]) + [listing[n].use];
    }
  }

  /** A listing has at least as many entries for an archive as versions that use it, and exactly as
      many when no version repeats the archive. */
  lemma {:induction false} OccurrencesAtLeastPairs(uses: seq<Use>, key: UseKey)
    ensures |ForKey(Elements(uses), key)| <= Occurrences(uses, key)
    ensures |ForKey(Elements(uses), key)| < Occurrences(uses, key) <==>
      exists u :: u in uses && u.key == key && Multiplicity(uses, u) >= 2
  {
    if uses != [] {
      var n := |uses| - 1;
      var init, last := uses[..n], uses[n];
      OccurrencesAtLeastPairs(init, key);
      assert uses == init + [last];
      forall u ensures Multiplicity(uses, u) == Multiplicity(init, u) + if u == last then 1 else 0 {}
      assert Elements(uses) == Elements(init) + {last};
      if last in init {
        assert Elements(uses) == Elements(init);
        assert Multiplicity(uses, last) >= 2;
      } else {
        ForKeyStep(Elements(init), last, key);
        assert Multiplicity(init, last) == 0;
      }
    }
  }

  predicate RepeatedInStatus(status: seq<StatusVersion>, key: UseKey) {
    exists u :: u in StatusUses(status) && u.key == key && Multiplicity(StatusUses(status), u) >= 2
  }

  predicate WantedBySpec(spec: seq<SpecVersion>, key: UseKey) {
    exists u :: u in SpecUses(spec) && u.key == key
  }

  /** The pairs the spec gave up, and the pairs it asks for anew (or asks for twice). */
  function RemovedPairs(spec: seq<SpecVersion>, status: seq<StatusVersion>): set<Use> {
    set u | u in StatusUses(status) && u !in SpecUses(spec)
  }

  function AddedPairs(spec: seq<SpecVersion>, status: seq<StatusVersion>): set<Use> {
    set u | u in SpecUses(spec) && (u !in StatusUses(status) || Multiplicity(SpecUses(spec), u) >= 2)
  }

  lemma CountsConserved(spec: seq<SpecVersion>, status: seq<StatusVersion>, key: UseKey)
    ensures key in Count(spec, status) <==>
      (exists u :: u in StatusUses(status) && u.key == key) || WantedBySpec(spec, key)
    ensures key in Count(spec, status) ==>
      Count(spec, status)[key].useCount == Occurrences(StatusUses(status), key)
        - |ForKey(RemovedPairs(spec, status), key)| + |ForKey(AddedPairs(spec, status), key)|
  {
    var listed := Elements(StatusUses(status));
    var d := FindDeltas(listed, SpecUses(spec));
    DeltasCharacterized(listed, SpecUses(spec));
    CountListedKeys(StatusListing(status));
    assert d.decrement == RemovedPairs(spec, status);
    assert d.increment == AddedPairs(spec, status);
    if u :| u in SpecUses(spec) && u.key == key {
      assert u in listed || u in d.increment;
    }
    if key !in CountListed(StatusListing(status)) {
      assert ForKey(d.decrement, key) == {};
    }
  }

  /** The count of an archive stays positive exactly when the spec still wants it, or when one status
      version lists it twice: a removal takes away one use of the repeated pair, not all of them. */
  lemma PositiveExactlyWhenWanted(spec: seq<SpecVersion>, status: seq<StatusVersion>, key: UseKey)
    requires key in Count(spec, status)
    ensures Count(spec, status)[key].useCount > 0 <==> WantedBySpec(spec, key) || RepeatedInStatus(status, key)
    ensures Count(spec, status)[key].useCount >= 0
  {
    var S := ForKey(Elements(StatusUses(status)), key);
    var R := ForKey(RemovedPairs(spec, status), key);
    var A := ForKey(AddedPairs(spec, status), key);
    CountsConserved(spec, status, key);
    OccurrencesAtLeastPairs(StatusUses(status), key);
    SubsetSize(R, S);
    if u :| u in SpecUses(spec) && u.key == key {
      if u in StatusUses(status) {
        assert R <= S - {u};
        SubsetSize(R, S - {u});
      } else {
        SubsetSize({u}, A);
      }
    } else {
      UnwantedIsRemoved(spec, status, key);
    }
  }

  lemma UnwantedIsRemoved(spec: seq<SpecVersion>, status: seq<StatusVersion>, key: UseKey)
    requires !WantedBySpec(spec, key)
    ensures ForKey(RemovedPairs(spec, status), key) == ForKey(Elements(StatusUses(status)), key)
    ensures ForKey(AddedPairs(spec, status), key) == {}
  {}

  lemma {:induction false} SubsetSize<T>(a: set<T>, b: set<T>)
    requires a <= b
    ensures |a| <= |b|
  {
    if a != {} {
      var x :| x in a;
      SubsetSize(a - {x}, b - {x});
    }
  }

  /** Two pipelines of one version that differ only in their id count as two uses but are removed as
      one: after both are dropped from the spec, the archive still counts as used. */
  lemma RepeatedArchiveIsNeverReleased()
    ensures exists spec: seq<SpecVersion>, status: seq<StatusVersion>, key: UseKey ::
      key in Count(spec, status) && !WantedBySpec(spec, key) && Count(spec, status)[key].useCount > 0
  {
    var p := PipelineStatus("a", "https://host/p.tar.gz", NO_RELEASE, "d", []);
    var status := [StatusVersion("1", [p, p.(name := "b")])];
    var key := KeyOfStatus(p);
    var u := Use(key, "1");
    assert StatusListing(status) == [] + VersionListing(status[0]);
    assert StatusUses(status) == [u, u];
    CountsConserved([], status, key);
    PositiveExactlyWhenWanted([], status, key);
    assert Multiplicity(StatusUses(status), u) == 2;
    assert RepeatedInStatus(status, key);
    assert SpecUses([]) == [];
    var spec: seq<SpecVersion> := [];
    assert key in Count(spec, status) && !WantedBySpec(spec, key) && Count(spec, status)[key].useCount > 0;
  }
}
